/** The command builder task: a session for one action of a validated
    definition, and the resolution of each free-form builder call (`__call`)
    into an option or a positional argument. The pieces it records are handed,
    in call order, to the command-line collaborator, which renders them. */
module CommandBuilder {
  import opened Results
  import opened Sequences
  import opened PhpValues
  import opened Naming
  import opened CommandDefinition

  /** What one successful call records: `option($name, $value)` or `arg($value)`. */
  datatype Piece = OptionPiece(name: string, value: Value) | ArgumentPiece(value: Value)

  /** A builder for one action. `pieces` holds the options and arguments set so
      far, in the order the calls were made. */
  datatype Session = Session(definition: Definition, action: string, executable: string, pieces: seq<Piece>)

  datatype Error =
    | InvalidDefinition(config: ConfigError)   // raised by the configuration processor
    | ExecutableNotFound(binary: Value)        // TaskException
    | OptionValueRequired(name: string)        // AbortTasksException
    | ArgumentValueRequired(name: string)      // AbortTasksException
    | InvalidOptionOrArgument(name: string)    // AbortTasksException

  /** One builder call: the method name as written and the values passed to it. */
  datatype Call = Call(name: string, args: seq<Value>)

  // ---------------------------------------------------------------------------
  // Construction

  /** A path PHP reads as false: "" and "0". */
  predicate FalsyPath(path: string) {
    path == "" || path == "0"
  }

  /** The executable the constructor settles on: the explicit path when one is
      given (`isset`), otherwise what the finder reports for the binary; a
      missing or falsy result is an error naming the binary. */
  function SelectExecutable(pathToBinary: Option<string>, binary: Value,
                            locate: Value -> Option<string>): (r: Result<string, Error>)
    ensures pathToBinary.Some? ==>
              (r.Ok? <==> !FalsyPath(pathToBinary.value)) && (r.Ok? ==> r.value == pathToBinary.value)
    ensures pathToBinary.None? ==>
              (r.Ok? <==> locate(binary).Some? && !FalsyPath(locate(binary).value)) &&
              (r.Ok? ==> r.value == locate(binary).value)
    ensures r.Err? ==> r.error == ExecutableNotFound(binary)
  {
    var executable := if pathToBinary.Some? then pathToBinary else locate(binary);
    if executable.None? || FalsyPath(executable.value) then Err(ExecutableNotFound(binary))
    else Ok(executable.value)
  }

  /** The constructor: load the definition, then take the explicit binary path
      when one is given and otherwise ask `locate` (the executable finder) for
      the definition's binary; a missing or falsy executable is an error. */
  function NewBuilder(action: string, doc: Value, pathToBinary: Option<string>,
                      locate: Value -> Option<string>): (r: Result<Session, Error>)
    ensures Validate(doc).Err? ==> r == Err(InvalidDefinition(Validate(doc).error))
    ensures r.Ok? ==> && Validate(doc) == Ok(r.value.definition)
                      && r.value.action == action
                      && r.value.pieces == []
                      && !FalsyPath(r.value.executable)
    ensures Validate(doc).Ok? && pathToBinary.Some? ==>
              (r.Ok? <==> !FalsyPath(pathToBinary.value)) &&
              (r.Ok? ==> r.value.executable == pathToBinary.value)
    ensures Validate(doc).Ok? && pathToBinary.None? ==>
              var found := locate(Validate(doc).value.binary);
              (r.Ok? <==> found.Some? && !FalsyPath(found.value)) &&
              (r.Ok? ==> r.value.executable == found.value)
    ensures Validate(doc).Ok? && r.Err? ==> r.error == ExecutableNotFound(Validate(doc).value.binary)
  {
    match Validate(doc)
    case Err(e) => Err(InvalidDefinition(e))
    case Ok(def) =>
      var executable :- SelectExecutable(pathToBinary, GetBinary(def), locate);
      Ok(Session(def, action, executable, []))
  }

  // ---------------------------------------------------------------------------
  // Options

  /** `isset($option['name']) && $option['name'] === $name`. */
  predicate Names(spec: OptionSpec, name: string) {
    spec.name == Str(name)
  }

  predicate HasOption(options: seq<OptionSpec>, name: string) {
    exists i :: 0 <= i < |options| && Names(options[i], name)
  }

  /** Position of the option the loop stops at: entries without that name
      (or without any name) are skipped, the first one with it is used. */
  function FindOption(options: seq<OptionSpec>, name: string): (r: Option<nat>)
    ensures r.Some? ==> r.value < |options| && Names(options[r.value], name)
    ensures r.Some? ==> forall j :: 0 <= j < r.value ==> !Names(options[j], name)
    ensures r.None? <==> !HasOption(options, name)
    decreases |options|
  {
    if |options| == 0 then None
    else if Names(options[0], name) then Some(0)
    else
      match FindOption(options[1..], name)
      case None => None
      case Some(k) =>
        assert forall j :: 1 <= j < k + 1 ==> options[j] == options[1..][j - 1];
        Some(k + 1)
  }

  /** `!empty($arguments) ? $arguments[0] : null`. */
  function FirstValue(callArgs: seq<Value>): (v: Value)
    ensures |callArgs| == 0 ==> v == Null
    ensures |callArgs| > 0 ==> v == callArgs[0]
  {
    if |callArgs| > 0 then callArgs[0] else Null
  }

  /** The declared type; an option without one is a boolean. */
  function TypeOf(spec: OptionSpec): (r: OptionType)
    ensures spec.kind.None? ==> r == BooleanType
    ensures spec.kind.Some? ==> r == spec.kind.value
  {
    spec.kind.ValueOr(BooleanType)
  }

  /** The call's value, with the declared default substituted only when the
      call supplied none (no value, or null). */
  function SuppliedValue(spec: OptionSpec, callArgs: seq<Value>): (v: Value)
    ensures FirstValue(callArgs) != Null ==> v == FirstValue(callArgs)
    ensures FirstValue(callArgs) == Null ==> v == spec.default
  {
    var value := FirstValue(callArgs);
    if value == Null && spec.default != Null then spec.default else value
  }

  /** The supplied value, with an array joined by "," when the option is an array. */
  function JoinedValue(spec: OptionSpec, callArgs: seq<Value>): (v: Value)
    ensures TypeOf(spec) == ArrayType ==> !v.Arr?
    ensures TypeOf(spec) != ArrayType ==> v == SuppliedValue(spec, callArgs)
    ensures !SuppliedValue(spec, callArgs).Arr? ==> v == SuppliedValue(spec, callArgs)
    ensures TypeOf(spec) == ArrayType && SuppliedValue(spec, callArgs) == Arr([]) ==> v == Str("")
  {
    var value := SuppliedValue(spec, callArgs);
    if TypeOf(spec) == ArrayType && value.Arr? then Str(Implode(',', ArrayValues(value.entries))) else value
  }

  /** The joined value of an array option splits back, at ",", into its
      elements' string forms when none of them contains a comma: joining
      loses neither elements nor their order. */
  lemma JoinedValueSplitsBack(spec: OptionSpec, callArgs: seq<Value>)
    requires TypeOf(spec) == ArrayType && SuppliedValue(spec, callArgs).Arr?
    requires |SuppliedValue(spec, callArgs).entries| > 0
    requires forall i :: 0 <= i < |SuppliedValue(spec, callArgs).entries| ==>
               ',' !in ToPhpString(SuppliedValue(spec, callArgs).entries[i].1)
    ensures JoinedValue(spec, callArgs).Str?
    ensures Split(',', JoinedValue(spec, callArgs).s) == ToPhpStrings(ArrayValues(SuppliedValue(spec, callArgs).entries))
  {
    var values := ArrayValues(SuppliedValue(spec, callArgs).entries);
    ImplodeRoundTrip(',', values);
  }

  /** The value `setCommandOption` passes on for a matched option. Only array,
      string and integer options demand a non-empty value; a boolean option
      never fails and passes its value on as it is. */
  function OptionValue(spec: OptionSpec, name: string, callArgs: seq<Value>): (r: Result<Value, Error>)
    ensures r.Err? ==> r.error == OptionValueRequired(name)
    ensures r.Err? <==> TypeOf(spec) != BooleanType && IsEmpty(JoinedValue(spec, callArgs))
    ensures r.Ok? ==> r.value == JoinedValue(spec, callArgs)
    ensures TypeOf(spec) == BooleanType ==> r == Ok(SuppliedValue(spec, callArgs))
    ensures r.Ok? && TypeOf(spec) != BooleanType ==> !IsEmpty(r.value)
  {
    var value := JoinedValue(spec, callArgs);
    if IsEmpty(value) && TypeOf(spec) in {ArrayType, StringType, IntegerType} then Err(OptionValueRequired(name))
    else Ok(value)
  }

  // ---------------------------------------------------------------------------
  // Positional arguments

  /** The value `setCommandArguments` passes on: an array is joined by a single
      space, and an absent or empty value is an error. */
  function ArgumentValue(name: string, callArgs: seq<Value>): (r: Result<Value, Error>)
    ensures r.Err? ==> r.error == ArgumentValueRequired(name)
    ensures r.Ok? ==> !IsEmpty(r.value)
    ensures FirstValue(callArgs).Arr? ==>
              var joined := Implode(' ', ArrayValues(FirstValue(callArgs).entries));
              (r.Ok? <==> !IsEmpty(Str(joined))) && (r.Ok? ==> r.value == Str(joined))
    ensures !FirstValue(callArgs).Arr? ==>
              (r.Ok? <==> !IsEmpty(FirstValue(callArgs))) && (r.Ok? ==> r.value == FirstValue(callArgs))
  {
    var value := FirstValue(callArgs);
    var value := if value.Arr? then Str(Implode(' ', ArrayValues(value.entries))) else value;
    if value.Null? || IsEmpty(value) then Err(ArgumentValueRequired(name)) else Ok(value)
  }

  // ---------------------------------------------------------------------------
  // Resolution of one call

  /** `__call` for an already normalised name: options first, then positional
      arguments, otherwise the name is invalid. */
  function Resolve(options: seq<OptionSpec>, arguments: seq<Value>, name: string, callArgs: seq<Value>): (r: Result<Piece, Error>)
    ensures forall i :: 0 <= i < |options| && Names(options[i], name) && (forall j :: 0 <= j < i ==> !Names(options[j], name)) ==>
              && (r.Err? <==> OptionValue(options[i], name, callArgs).Err?)
              && (r.Ok? ==> r.value == OptionPiece(name, OptionValue(options[i], name, callArgs).value))
              && (r.Err? ==> r.error == OptionValueRequired(name))
    ensures !HasOption(options, name) && Str(name) in arguments ==>
              && (r.Err? <==> ArgumentValue(name, callArgs).Err?)
              && (r.Ok? ==> r.value == ArgumentPiece(ArgumentValue(name, callArgs).value))
              && (r.Err? ==> r.error == ArgumentValueRequired(name))
    ensures r == Err(InvalidOptionOrArgument(name)) <==> !HasOption(options, name) && Str(name) !in arguments
  {
    match FindOption(options, name)
    case Some(i) =>
      var value :- OptionValue(options[i], name, callArgs);
      Ok(OptionPiece(name, value))
    case None =>
      if Str(name) in arguments then
        var value :- ArgumentValue(name, callArgs);
        Ok(ArgumentPiece(value))
      else Err(InvalidOptionOrArgument(name))
  }

  /** A matched option decides the call: the argument list is never consulted. */
  lemma OptionPrecedence(options: seq<OptionSpec>, arguments: seq<Value>, otherArguments: seq<Value>,
                         name: string, callArgs: seq<Value>)
    requires HasOption(options, name)
    ensures Resolve(options, arguments, name, callArgs) == Resolve(options, otherArguments, name, callArgs)
    ensures Resolve(options, arguments, name, callArgs).Ok? ==> Resolve(options, arguments, name, callArgs).value.OptionPiece?
  {
  }

  /** One builder call against the session's action: the call name is
      normalised before any lookup. */
  function ResolveCall(def: Definition, action: string, rawName: string, callArgs: seq<Value>): (r: Result<Piece, Error>)
    ensures r.Ok? && r.value.OptionPiece? ==> r.value.name == NormalizeName(rawName)
    ensures r.Err? && r.error.InvalidOptionOrArgument? ==> r.error.name == NormalizeName(rawName)
    ensures (forall i :: 0 <= i < |def.commands| ==> def.commands[i].0 != action) ==>
              r == Err(InvalidOptionOrArgument(NormalizeName(rawName)))
  {
    Resolve(ActionOptionDefinitions(def, action), ActionArgumentDefinitions(def, action), NormalizeName(rawName), callArgs)
  }

  /** The session after one call: exactly one piece appended, or the call's error. */
  function Apply(s: Session, call: Call): (r: Result<Session, Error>)
    ensures r.Ok? ==> && r.value.definition == s.definition
                      && r.value.action == s.action
                      && r.value.executable == s.executable
                      && |r.value.pieces| == |s.pieces| + 1
                      && r.value.pieces[..|s.pieces|] == s.pieces
                      && ResolveCall(s.definition, s.action, call.name, call.args) == Ok(r.value.pieces[|s.pieces|])
    ensures r.Err? <==> ResolveCall(s.definition, s.action, call.name, call.args).Err?
    ensures r.Err? ==> ResolveCall(s.definition, s.action, call.name, call.args) == Err(r.error)
  {
    var piece :- ResolveCall(s.definition, s.action, call.name, call.args);
    Ok(s.(pieces := s.pieces + [piece]))
  }

  /** A chain of builder calls; the first failing call aborts the chain. */
  function RunCalls(s: Session, calls: seq<Call>): Result<Session, Error>
    decreases |calls|
  {
    if |calls| == 0 then Ok(s)
    else
      var next :- Apply(s, calls[0]);
      RunCalls(next, calls[1..])
  }

  /** One step of a chain: a call that resolves to `p` records `p` and the
      chain carries on from there. */
  lemma RunCallsStep(s: Session, call: Call, rest: seq<Call>, p: Piece)
    requires ResolveCall(s.definition, s.action, call.name, call.args) == Ok(p)
    ensures RunCalls(s, [call] + rest) == RunCalls(s.(pieces := s.pieces + [p]), rest)
  {
    assert ([call] + rest)[0] == call;
    assert ([call] + rest)[1..] == rest;
  }

  /** A chain succeeds exactly when every call resolves. */
  lemma {:induction false} RunCallsSucceedsIff(s: Session, calls: seq<Call>)
    ensures RunCalls(s, calls).Ok? <==> forall k :: 0 <= k < |calls| ==> ResolveCall(s.definition, s.action, calls[k].name, calls[k].args).Ok?
    decreases |calls|
  {
    if |calls| > 0 {
      var first := Apply(s, calls[0]);
      if first.Ok? {
        RunCallsSucceedsIff(first.value, calls[1..]);
        assert forall k :: 1 <= k < |calls| ==> calls[k] == calls[1..][k - 1];
        assert forall k :: 0 <= k < |calls| - 1 ==> ResolveCall(first.value.definition, first.value.action, calls[1..][k].name, calls[1..][k].args) == ResolveCall(s.definition, s.action, calls[k + 1].name, calls[k + 1].args);
      }
    }
  }

  /** A successful chain appends one piece per call, in call order, and
      changes nothing else. */
  lemma {:induction false} RunCallsInOrder(s: Session, calls: seq<Call>)
    requires RunCalls(s, calls).Ok?
    ensures var t := RunCalls(s, calls).value;
            && t.definition == s.definition && t.action == s.action && t.executable == s.executable
            && |t.pieces| == |s.pieces| + |calls|
            && t.pieces[..|s.pieces|] == s.pieces
            && forall k :: 0 <= k < |calls| ==> ResolveCall(s.definition, s.action, calls[k].name, calls[k].args) == Ok(t.pieces[|s.pieces| + k])
    decreases |calls|
  {
    if |calls| > 0 {
      var next := Apply(s, calls[0]).value;
      RunCallsInOrder(next, calls[1..]);
      var t := RunCalls(s, calls).value;
      assert t == RunCalls(next, calls[1..]).value;
      assert t.pieces[..|next.pieces|] == next.pieces;
      assert t.pieces[..|s.pieces|] == next.pieces[..|s.pieces|];
      forall k | 0 <= k < |calls|
        ensures ResolveCall(s.definition, s.action, calls[k].name, calls[k].args) == Ok(t.pieces[|s.pieces| + k])
      {
        if k == 0 {
          assert t.pieces[|s.pieces|] == next.pieces[|s.pieces|];
        } else {
          assert calls[k] == calls[1..][k - 1];
          assert ResolveCall(next.definition, next.action, calls[1..][k - 1].name, calls[1..][k - 1].args) == ResolveCall(s.definition, s.action, calls[k].name, calls[k].args);
        }
      }
    }
  }

  lemma SeqAppendAssoc<T>(a: seq<T>, b: seq<T>, c: seq<T>)
    ensures (a + b) + c == a + (b + c)
  {
  }

  /** Conversely, when every call resolves, the chain records exactly the
      resolved pieces, in call order. */
  lemma {:induction false} RunCallsRecordsOutcomes(s: Session, calls: seq<Call>, pieces: seq<Piece>)
    requires |pieces| == |calls|
    requires forall k :: 0 <= k < |calls| ==> ResolveCall(s.definition, s.action, calls[k].name, calls[k].args) == Ok(pieces[k])
    ensures RunCalls(s, calls) == Ok(s.(pieces := s.pieces + pieces))
    decreases |calls|
  {
    if |calls| == 0 {
      assert s.pieces + pieces == s.pieces;
    } else {
      var next := s.(pieces := s.pieces + [pieces[0]]);
      assert calls == [calls[0]] + calls[1..];
      RunCallsStep(s, calls[0], calls[1..], pieces[0]);
      assert forall k :: 0 <= k < |calls| - 1 ==> ResolveCall(next.definition, next.action, calls[1..][k].name, calls[1..][k].args) == ResolveCall(s.definition, s.action, calls[k + 1].name, calls[k + 1].args);
      RunCallsRecordsOutcomes(next, calls[1..], pieces[1..]);
      assert pieces == [pieces[0]] + pieces[1..];
      SeqAppendAssoc(s.pieces, [pieces[0]], pieces[1..]);
    }
  }

  /** A failing chain reports the error of its first failing call. */
  lemma {:induction false} RunCallsFirstError(s: Session, calls: seq<Call>)
    requires RunCalls(s, calls).Err?
    ensures exists k :: && 0 <= k < |calls|
                        && ResolveCall(s.definition, s.action, calls[k].name, calls[k].args) == Err(RunCalls(s, calls).error)
                        && forall j :: 0 <= j < k ==> ResolveCall(s.definition, s.action, calls[j].name, calls[j].args).Ok?
    decreases |calls|
  {
    var e := RunCalls(s, calls).error;
    var rest := calls[1..];
    assert calls == [calls[0]] + rest;
    var outcome := ResolveCall(s.definition, s.action, calls[0].name, calls[0].args);
    if outcome.Ok? {
      var next := s.(pieces := s.pieces + [outcome.value]);
      assert RunCalls(next, rest) == RunCalls(s, calls) by {
        RunCallsStep(s, calls[0], rest, outcome.value);
      }
      RunCallsFirstError(next, rest);
      var k :| && 0 <= k < |rest|
               && ResolveCall(next.definition, next.action, rest[k].name, rest[k].args) == Err(e)
               && forall j :: 0 <= j < k ==> ResolveCall(next.definition, next.action, rest[j].name, rest[j].args).Ok?;
      forall j | 0 <= j < k + 1
        ensures ResolveCall(s.definition, s.action, calls[j].name, calls[j].args).Ok?
      {
        if j > 0 {
          assert calls[j] == rest[j - 1];
          assert ResolveCall(next.definition, next.action, rest[j - 1].name, rest[j - 1].args).Ok?;
        }
      }
      assert ResolveCall(s.definition, s.action, calls[k + 1].name, calls[k + 1].args) == Err(e) by {
        assert calls[k + 1] == rest[k];
      }
    } else {
      assert Apply(s, calls[0]) == Err(outcome.error);
      assert ResolveCall(s.definition, s.action, calls[0].name, calls[0].args) == Err(e);
    }
  }

  // ---------------------------------------------------------------------------
  // Projections and rendering

  /** The options set so far, in call order. */
  function Options(pieces: seq<Piece>): seq<(string, Value)>
    decreases |pieces|
  {
    if |pieces| == 0 then []
    else
      var rest := Options(pieces[..|pieces| - 1]);
      match pieces[|pieces| - 1]
      case OptionPiece(name, value) => rest + [(name, value)]
      case ArgumentPiece(_) => rest
  }

  /** The positional arguments set so far, in call order. */
  function Arguments(pieces: seq<Piece>): seq<Value>
    decreases |pieces|
  {
    if |pieces| == 0 then []
    else
      var rest := Arguments(pieces[..|pieces| - 1]);
      match pieces[|pieces| - 1]
      case OptionPiece(_, _) => rest
      case ArgumentPiece(value) => rest + [value]
  }

  /** A successful call adds exactly one option or exactly one argument at the
      end of its list and leaves the other list as it was. */
  lemma CallAppendsOne(s: Session, call: Call)
    requires Apply(s, call).Ok?
    ensures var t := Apply(s, call).value;
            var piece := ResolveCall(s.definition, s.action, call.name, call.args).value;
            match piece
            case OptionPiece(name, value) =>
              Options(t.pieces) == Options(s.pieces) + [(name, value)] && Arguments(t.pieces) == Arguments(s.pieces)
            case ArgumentPiece(value) =>
              Arguments(t.pieces) == Arguments(s.pieces) + [value] && Options(t.pieces) == Options(s.pieces)
  {
    var t := Apply(s, call).value;
    assert t.pieces[..|t.pieces| - 1] == s.pieces;
  }

  /** "executable action": the start of the rendered command. */
  function CommandPrefix(s: Session): string {
    s.executable + " " + s.action
  }

  /** `getCommand`: the prefix followed by what the command-line collaborator
      renders from the recorded pieces. */
  function GetCommand(s: Session, render: seq<Piece> -> string): (r: string)
    ensures CommandPrefix(s) <= r
  {
    CommandPrefix(s) + render(s.pieces)
  }

  /** However many calls are made, the command still starts with the
      executable and the action the builder was created with. */
  lemma CommandPrefixStable(s: Session, calls: seq<Call>, render: seq<Piece> -> string)
    requires RunCalls(s, calls).Ok?
    ensures CommandPrefix(RunCalls(s, calls).value) == CommandPrefix(s)
    ensures CommandPrefix(s) <= GetCommand(RunCalls(s, calls).value, render)
  {
    RunCallsInOrder(s, calls);
  }

  // ---------------------------------------------------------------------------
  // Error messages

  /** The message the builder's errors carry, where the builder writes it; the
      wording of other configuration violations belongs to the configuration
      library and is not modelled. For a binary that cannot be found this is
      the evidently intended `%s` wording (`ExecutableNotFoundMessage`), not
      the message line 62 of the builder produces as written
      (`ExecutableNotFoundMessageAsWritten`). */
  function Message(e: Error): Option<string> {
    match e
    case OptionValueRequired(name) => Some("The " + name + " option value is required!")
    case ArgumentValueRequired(name) => Some("The " + name + " argument value is required!")
    case InvalidOptionOrArgument(name) => Some("The " + name + " command option or argument is invalid.")
    case ExecutableNotFound(binary) => Some(ExecutableNotFoundMessage(ToPhpString(binary)))
    case InvalidDefinition(SchemaViolation(_, InvalidType)) => Some("Invalid type has been defined!")
    case InvalidDefinition(_) => None
  }

  /** Every abort message names the normalised flag it is about, right after "The ". */
  lemma MessageNamesFlag(e: Error)
    requires e.OptionValueRequired? || e.ArgumentValueRequired? || e.InvalidOptionOrArgument?
    ensures Message(e).Some?
    ensures |Message(e).value| > 4 + |e.name| && Message(e).value[4..4 + |e.name|] == e.name
  {
    var m := Message(e).value;
    var tail := if e.OptionValueRequired? then " option value is required!"
                else if e.ArgumentValueRequired? then " argument value is required!"
                else " command option or argument is invalid.";
    assert m == "The " + e.name + tail;
    assert m[4..4 + |e.name|] == e.name;
  }

  /** The executable-not-found message as evidently intended: `%s` for the binary. */
  function ExecutableNotFoundMessage(binary: string): string {
    "Unable to find the " + binary + " executable."
  }

  /** The intended message names the binary, so different binaries give
      different messages. */
  lemma ExecutableNotFoundMessageNamesBinary(binary: string, other: string)
    ensures ExecutableNotFoundMessage(binary)[19..19 + |binary|] == binary
    ensures ExecutableNotFoundMessage(binary) == ExecutableNotFoundMessage(other) ==> binary == other
  {
    var m := ExecutableNotFoundMessage(binary);
    assert m[19..19 + |binary|] == binary;
    if ExecutableNotFoundMessage(binary) == ExecutableNotFoundMessage(other) {
      assert |binary| == |other|;
      assert ExecutableNotFoundMessage(other)[19..19 + |other|] == other;
    }
  }

  /** PHP reads this string as the number 0: it does not start with white
      space, a sign, a digit or a decimal point. */
  predicate ReadsAsZero(s: string) {
    |s| == 0 || !(IsDigit(s[0]) || s[0] == '+' || s[0] == '-' || s[0] == '.' || s[0] <= ' ')
  }

  /** The message as written, `sprintf('Unable to find the % executable.', $binary)`:
      `% e` is a padding flag followed by the `e` conversion, so the binary is
      printed as a float in scientific notation and the "e" of "executable" is
      consumed by the conversion. */
  function ExecutableNotFoundMessageAsWritten(binary: string): string
    requires ReadsAsZero(binary)
  {
    "Unable to find the " + "0.000000e+0" + "xecutable."
  }

  /** As written, the message is the same for every binary and names none of
      them: for "git" it differs from the intended one. */
  lemma ExecutableNotFoundMessageAsWrittenLosesBinary(binary: string, other: string)
    requires ReadsAsZero(binary) && ReadsAsZero(other)
    ensures ExecutableNotFoundMessageAsWritten(binary) == ExecutableNotFoundMessageAsWritten(other)
    ensures ExecutableNotFoundMessageAsWritten("git") == "Unable to find the 0.000000e+0xecutable."
    ensures ExecutableNotFoundMessageAsWritten("git") != ExecutableNotFoundMessage("git")
  {
    assert ExecutableNotFoundMessage("git")[19] == 'g';
    assert ExecutableNotFoundMessageAsWritten("git")[19] == '0';
  }
}
