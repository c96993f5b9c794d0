/** Concrete runs of the model on small definitions: the end-to-end build of
    a command and the single-call cases the builder's behaviour turns on. */
module Scenarios {
  import opened Results
  import opened PhpValues
  import opened Naming
  import opened Sequences
  import opened CommandDefinition
  import opened CommandBuilder

  /** `{binary: tool, commands: {build: {options: [watch], arguments: [target]}}}` */
  function ToolDocument(): Value {
    Arr([("binary", Str("tool")),
         ("commands", Arr([("build", Arr([("options", Arr([("0", Str("watch"))])),
                                          ("arguments", Arr([("0", Str("target"))]))]))]))])
  }

  function BuildAction(): Value {
    Arr([("options", Arr([("0", Str("watch"))])), ("arguments", Arr([("0", Str("target"))]))])
  }

  /** Action `build` satisfies the declared rules. */
  lemma BuildActionValid()
    ensures Declared(BuildAction().entries, "options") == [("0", Str("watch"))]
    ensures Declared(BuildAction().entries, "arguments") == [("0", Str("target"))]
    ensures ValidAction(BuildAction())
  {
  }

  /** The whole document satisfies the declared rules. */
  lemma ToolDocumentValid()
    ensures Declared(ToolDocument().entries, "commands") == [("build", BuildAction())]
    ensures Lookup(ToolDocument().entries, "binary") == Some(Str("tool"))
    ensures ValidDocument(ToolDocument())
  {
    BuildActionValid();
    assert ToolDocument() == Arr([("binary", Str("tool")), ("commands", Arr([("build", BuildAction())]))]);
  }

  /** What action `build` loads as. */
  lemma BuildActionLoads(spec: ActionSpec)
    requires ActionDeclaredBy(spec, BuildAction())
    ensures spec == ActionSpec([OptionSpec(Str("watch"), None, Null)], [Str("target")])
  {
    BuildActionValid();
    assert OptionDeclaredBy(spec.options[0], Str("watch"));
    assert spec.options == [OptionSpec(Str("watch"), None, Null)];
    assert ArrayValues([("0", Str("target"))]) == [Str("target")];
  }

  /** The document loads as one action `build` with a boolean option `watch`
      (from the string shorthand) and one argument `target`. */
  lemma ToolDocumentLoads()
    ensures Validate(ToolDocument()) == Ok(ToolDefinition())
  {
    ToolDocumentValid();
    var v := Validate(ToolDocument()).value;
    assert |v.commands| == 1 && v.commands[0].0 == "build";
    BuildActionLoads(v.commands[0].1);
    assert v.commands == [("build", v.commands[0].1)];
  }

  function ToolDefinition(): Definition {
    Definition(Str("tool"), [("build", ActionSpec([OptionSpec(Str("watch"), None, Null)], [Str("target")]))])
  }

  /** With an explicit binary path the builder starts empty, on that path. */
  lemma ToolBuilderCreated(locate: Value -> Option<string>)
    ensures NewBuilder("build", ToolDocument(), Some("/opt/tool"), locate)
            == Ok(Session(ToolDefinition(), "build", "/opt/tool", []))
  {
    ToolDocumentLoads();
  }

  /** The lookups for action `build`. */
  lemma BuildLookups()
    ensures ActionOptionDefinitions(ToolDefinition(), "build") == [OptionSpec(Str("watch"), None, Null)]
    ensures ActionArgumentDefinitions(ToolDefinition(), "build") == [Str("target")]
  {
    assert FirstKeyAt(ToolDefinition().commands, "build", 0);
  }

  lemma PlainNames()
    ensures NormalizeName("watch") == "watch"
    ensures NormalizeName("target") == "target"
  {
    assert !HasUpper("watch") by {
      assert forall i :: 0 <= i < |"watch"| ==> !IsUpper("watch"[i]);
    }
    assert !HasUpper("target") by {
      assert forall i :: 0 <= i < |"target"| ==> !IsUpper("target"[i]);
    }
    NormalizeFixesLowerCase("watch");
    NormalizeFixesLowerCase("target");
  }

  /** On action `build`, `watch()` sets the option without a value. */
  lemma WatchResolves()
    ensures ResolveCall(ToolDefinition(), "build", "watch", []) == Ok(OptionPiece("watch", Null))
  {
    BuildLookups();
    PlainNames();
    var options := [OptionSpec(Str("watch"), None, Null)];
    assert FindOption(options, "watch") == Some(0);
  }

  /** On action `build`, `target("app")` sets the positional argument. */
  lemma TargetResolves()
    ensures ResolveCall(ToolDefinition(), "build", "target", [Str("app")]) == Ok(ArgumentPiece(Str("app")))
  {
    BuildLookups();
    PlainNames();
    var options := [OptionSpec(Str("watch"), None, Null)];
    assert !Names(options[0], "target");
    assert FindOption(options, "target") == None;
    assert Str("target") in [Str("target")];
  }

  lemma ToolPrefix()
    ensures CommandPrefix(Session(ToolDefinition(), "build", "/opt/tool", [])) == "/opt/tool build"
  {
  }

  /** Two calls that each resolve record their pieces in call order. */
  lemma TwoCalls(s: Session, first: Call, second: Call, p: Piece, q: Piece)
    requires ResolveCall(s.definition, s.action, first.name, first.args) == Ok(p) && ResolveCall(s.definition, s.action, second.name, second.args) == Ok(q)
    ensures RunCalls(s, [first, second]) == Ok(s.(pieces := s.pieces + [p, q]))
  {
    RunCallsRecordsOutcomes(s, [first, second], [p, q]);
  }

  /** On any session for action `build` of the tool's definition, `watch()`
      then `target("app")` records the option, then the argument. */
  lemma ToolCallsRun(s: Session)
    requires s.definition == ToolDefinition() && s.action == "build"
    ensures RunCalls(s, [Call("watch", []), Call("target", [Str("app")])])
            == Ok(s.(pieces := s.pieces + [OptionPiece("watch", Null), ArgumentPiece(Str("app"))]))
  {
    WatchResolves();
    TargetResolves();
    TwoCalls(s, Call("watch", []), Call("target", [Str("app")]),
             OptionPiece("watch", Null), ArgumentPiece(Str("app")));
  }

  /** A fresh session for `/opt/tool build` after `watch()` and `target("app")`. */
  lemma FreshToolSessionRun(s: Session, render: seq<Piece> -> string)
    requires s.definition == ToolDefinition() && s.action == "build"
    requires s.executable == "/opt/tool" && s.pieces == []
    ensures var run := RunCalls(s, [Call("watch", []), Call("target", [Str("app")])]);
            && run.Ok?
            && run.value.pieces == [OptionPiece("watch", Null), ArgumentPiece(Str("app"))]
            && "/opt/tool build" <= GetCommand(run.value, render)
  {
    ToolCallsRun(s);
    assert s.pieces + [OptionPiece("watch", Null), ArgumentPiece(Str("app"))]
        == [OptionPiece("watch", Null), ArgumentPiece(Str("app"))];
    ToolPrefix();
  }

  /** End to end: the shorthand option is set without a value, the argument
      follows it, and the command starts with the explicit binary path and the
      action. */
  lemma EndToEndBuild(locate: Value -> Option<string>, render: seq<Piece> -> string)
    ensures NewBuilder("build", ToolDocument(), Some("/opt/tool"), locate).Ok?
    ensures var s := NewBuilder("build", ToolDocument(), Some("/opt/tool"), locate).value;
            var run := RunCalls(s, [Call("watch", []), Call("target", [Str("app")])]);
            && run.Ok?
            && run.value.pieces == [OptionPiece("watch", Null), ArgumentPiece(Str("app"))]
            && "/opt/tool build" <= GetCommand(run.value, render)
  {
    ToolBuilderCreated(locate);
    FreshToolSessionRun(NewBuilder("build", ToolDocument(), Some("/opt/tool"), locate).value, render);
  }

  /** An array option called with ["a", "b"] records "a,b". */
  lemma ArrayOptionJoined()
    ensures Resolve([OptionSpec(Str("tags"), Some(ArrayType), Null)], [], "tags",
                    [Arr([("0", Str("a")), ("1", Str("b"))])])
            == Ok(OptionPiece("tags", Str("a,b")))
  {
    var values := ArrayValues([("0", Str("a")), ("1", Str("b"))]);
    assert values == [Str("a"), Str("b")];
    assert ToPhpStrings(values) == ["a", "b"];
    assert ["a", "b"][1..] == ["b"];
    assert Implode(',', values) == "a,b";
  }

  /** A string option called without a value and without a default aborts. */
  lemma StringOptionWithoutValue()
    ensures Resolve([OptionSpec(Str("format"), Some(StringType), Null)], [], "format", [])
            == Err(OptionValueRequired("format"))
  {
  }

  /** A boolean option called without a value is recorded with no value. */
  lemma BooleanOptionWithoutValue()
    ensures Resolve([OptionSpec(Str("verbose"), None, Null)], [], "verbose", [])
            == Ok(OptionPiece("verbose", Null))
  {
  }

  /** The declared type is not a type check: an integer option takes "abc" as it is. */
  lemma IntegerOptionNotTypeChecked()
    ensures Resolve([OptionSpec(Str("n"), Some(IntegerType), Null)], [], "n", [Str("abc")])
            == Ok(OptionPiece("n", Str("abc")))
  {
  }

  /** PHP's `empty()` counts 0 as empty, so an integer option cannot be set
      to 0 and an argument cannot be "0". */
  lemma ZeroIsMissing()
    ensures Resolve([OptionSpec(Str("depth"), Some(IntegerType), Null)], [], "depth", [Int(0)])
            == Err(OptionValueRequired("depth"))
    ensures Resolve([], [Str("path")], "path", [Str("0")]) == Err(ArgumentValueRequired("path"))
  {
  }

  /** An option declared with `type: float` is rejected at load time as an
      invalid type, with the repository's own message. */
  lemma FloatTypeRejected(path: seq<string>, key: string)
    ensures ValidateOptionEntry(path, key, Arr([("name", Str("watch")), ("type", Str("float"))]))
            == Err(SchemaViolation(path + [key, "type"], InvalidType))
    ensures Message(InvalidDefinition(SchemaViolation(path + [key, "type"], InvalidType)))
            == Some("Invalid type has been defined!")
  {
    var fields := [("name", Str("watch")), ("type", Str("float"))];
    assert CheckOptionField(path + [key], "name", Str("watch")) == Ok(());
    assert fields[1..] == [("type", Str("float"))];
    assert path + [key] + ["type"] == path + [key, "type"];
  }
}
