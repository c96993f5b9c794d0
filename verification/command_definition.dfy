/** The command definition: the validated form of a parsed definition document
    (a binary and, per action, its options and positional arguments), the rules
    the configuration tree declares for it, and the lookups the builder uses. */
module CommandDefinition {
  import opened Results
  import opened Sequences
  import opened PhpValues

  datatype OptionType = ArrayType | IntegerType | StringType | BooleanType

  const TypeNames: set<string> := {"array", "integer", "string", "boolean"}

  function TypeName(t: OptionType): (r: string)
    ensures r in TypeNames
  {
    match t
    case ArrayType => "array"
    case IntegerType => "integer"
    case StringType => "string"
    case BooleanType => "boolean"
  }

  /** The declared `type` of an option: one of the four names, or rejected. */
  function ParseType(name: string): (r: Option<OptionType>)
    ensures r.Some? <==> name in TypeNames
    ensures r.Some? ==> TypeName(r.value) == name
  {
    if name == "array" then Some(ArrayType)
    else if name == "integer" then Some(IntegerType)
    else if name == "string" then Some(StringType)
    else if name == "boolean" then Some(BooleanType)
    else None
  }

  lemma TypeNameRoundTrip(t: OptionType)
    ensures ParseType(TypeName(t)) == Some(t)
  {
  }

  /** One option of an action. `name` is whatever scalar the document gave (it
      may be null); an absent `type` is `None`; an absent `default` is `Null`. */
  datatype OptionSpec = OptionSpec(name: Value, kind: Option<OptionType>, default: Value)

  datatype ActionSpec = ActionSpec(options: seq<OptionSpec>, arguments: seq<Value>)

  /** A validated definition. Action keys are kept as written, in document order. */
  datatype Definition = Definition(binary: Value, commands: seq<(string, ActionSpec)>)

  datatype Problem =
    | Missing          // a required key is absent
    | Empty            // `binary` is null or ""
    | ExpectedScalar   // an array where a scalar is declared
    | ExpectedArray    // a scalar where an array is declared
    | Unrecognized     // a key the tree does not declare
    | InvalidType      // "Invalid type has been defined!"

  /** A violation of the declared tree, with the path of the offending node. */
  datatype ConfigError = SchemaViolation(path: seq<string>, problem: Problem)

  const RootKeys: set<string> := {"binary", "commands"}
  const ActionKeys: set<string> := {"options", "arguments"}
  const OptionKeys: set<string> := {"name", "type", "default"}

  // ---------------------------------------------------------------------------
  // The declared rules, stated node by node

  predicate RootFieldOk(key: string, v: Value) {
    && key in RootKeys
    && (key == "binary" ==> !v.Arr?)
    && (key == "commands" ==> v.Arr?)
  }

  predicate ActionFieldOk(key: string, v: Value) {
    key in ActionKeys && v.Arr?
  }

  predicate OptionFieldOk(key: string, v: Value) {
    && key in OptionKeys
    && !v.Arr?
    && (key == "type" ==> v.Str? && v.s in TypeNames)
  }

  /** A bare string is shorthand for `{name: <string>}`; otherwise the entry is
      a mapping of known scalar fields that carries `name`. */
  predicate ValidOptionEntry(entry: Value) {
    || entry.Str?
    || (&& entry.Arr?
        && (forall i :: 0 <= i < |entry.entries| ==> OptionFieldOk(entry.entries[i].0, entry.entries[i].1))
        && Lookup(entry.entries, "name").Some?)
  }

  /** The entries declared under `key`, or none when the key is absent. */
  function Declared(fields: seq<(string, Value)>, key: string): seq<(string, Value)> {
    match Lookup<Value>(fields, key)
    case Some(Arr(entries)) => entries
    case _ => []
  }

  predicate ValidAction(entry: Value) {
    && entry.Arr?
    && (forall i :: 0 <= i < |entry.entries| ==> ActionFieldOk(entry.entries[i].0, entry.entries[i].1))
    && (forall i :: 0 <= i < |Declared(entry.entries, "options")| ==>
          ValidOptionEntry(Declared(entry.entries, "options")[i].1))
    && (forall i :: 0 <= i < |Declared(entry.entries, "arguments")| ==>
          !Declared(entry.entries, "arguments")[i].1.Arr?)
  }

  predicate ValidDocument(doc: Value) {
    && doc.Arr?
    && (forall i :: 0 <= i < |doc.entries| ==> RootFieldOk(doc.entries[i].0, doc.entries[i].1))
    && (match Lookup(doc.entries, "binary")
        case Some(binary) => !binary.Null? && binary != Str("")
        case None => false)
    && Lookup(doc.entries, "commands").Some?
    && (forall i :: 0 <= i < |Declared(doc.entries, "commands")| ==>
          ValidAction(Declared(doc.entries, "commands")[i].1))
  }

  /** `spec` records exactly the name, type and default `entry` declares. */
  predicate OptionDeclaredBy(spec: OptionSpec, entry: Value) {
    || (entry.Str? && spec == OptionSpec(entry, None, Null))
    || (&& entry.Arr?
        && Lookup(entry.entries, "name") == Some(spec.name)
        && (spec.kind.None? <==> Lookup(entry.entries, "type").None?)
        && (spec.kind.Some? ==> Lookup(entry.entries, "type") == Some(Str(TypeName(spec.kind.value))))
        && spec.default == Lookup(entry.entries, "default").ValueOr(Null))
  }

  /** `spec` holds the options and arguments `entry` declares, in order. */
  predicate ActionDeclaredBy(spec: ActionSpec, entry: Value) {
    && entry.Arr?
    && |spec.options| == |Declared(entry.entries, "options")|
    && (forall i :: 0 <= i < |spec.options| ==>
          OptionDeclaredBy(spec.options[i], Declared(entry.entries, "options")[i].1))
    && spec.arguments == ArrayValues(Declared(entry.entries, "arguments"))
  }

  // ---------------------------------------------------------------------------
  // The validator

  /** Validates every entry of an array node in order; the first failure wins. */
  function MapEntries<T>(path: seq<string>, entries: seq<(string, Value)>,
                         f: (seq<string>, string, Value) -> Result<T, ConfigError>): (r: Result<seq<T>, ConfigError>)
    ensures r.Ok? <==> forall i :: 0 <= i < |entries| ==> f(path, entries[i].0, entries[i].1).Ok?
    ensures r.Ok? ==> |r.value| == |entries|
    ensures r.Ok? ==> forall i :: 0 <= i < |entries| ==> f(path, entries[i].0, entries[i].1) == Ok(r.value[i])
    ensures r.Err? ==> exists i :: 0 <= i < |entries| && f(path, entries[i].0, entries[i].1) == Err(r.error)
    decreases |entries|
  {
    if |entries| == 0 then Ok([])
    else
      var head :- f(path, entries[0].0, entries[0].1);
      var tail :- MapEntries(path, entries[1..], f);
      assert forall i :: 1 <= i < |entries| ==> entries[i] == entries[1..][i - 1];
      Ok([head] + tail)
  }

  function CheckRootField(path: seq<string>, key: string, v: Value): (r: Result<(), ConfigError>)
    ensures r.Ok? <==> RootFieldOk(key, v)
  {
    if key !in RootKeys then Err(SchemaViolation(path + [key], Unrecognized))
    else if key == "binary" && v.Arr? then Err(SchemaViolation(path + [key], ExpectedScalar))
    else if key == "commands" && !v.Arr? then Err(SchemaViolation(path + [key], ExpectedArray))
    else Ok(())
  }

  function CheckActionField(path: seq<string>, key: string, v: Value): (r: Result<(), ConfigError>)
    ensures r.Ok? <==> ActionFieldOk(key, v)
  {
    if key !in ActionKeys then Err(SchemaViolation(path + [key], Unrecognized))
    else if !v.Arr? then Err(SchemaViolation(path + [key], ExpectedArray))
    else Ok(())
  }

  function CheckOptionField(path: seq<string>, key: string, v: Value): (r: Result<(), ConfigError>)
    ensures r.Ok? <==> OptionFieldOk(key, v)
    ensures key in OptionKeys && !v.Arr? && !OptionFieldOk(key, v) ==> r == Err(SchemaViolation(path + [key], InvalidType))
  {
    if key !in OptionKeys then Err(SchemaViolation(path + [key], Unrecognized))
    else if v.Arr? then Err(SchemaViolation(path + [key], ExpectedScalar))
    else if key == "type" && !(v.Str? && v.s in TypeNames) then Err(SchemaViolation(path + [key], InvalidType))
    else Ok(())
  }

  function CheckArgument(path: seq<string>, key: string, v: Value): (r: Result<Value, ConfigError>)
    ensures r.Ok? <==> !v.Arr?
    ensures r.Ok? ==> r.value == v
  {
    if v.Arr? then Err(SchemaViolation(path + [key], ExpectedScalar)) else Ok(v)
  }

  /** One entry of an action's `options` list, after the string shorthand. */
  function ValidateOptionEntry(path: seq<string>, key: string, entry: Value): (r: Result<OptionSpec, ConfigError>)
    ensures r.Ok? <==> ValidOptionEntry(entry)
    ensures entry.Str? ==> r == Ok(OptionSpec(entry, None, Null))
    ensures r.Ok? ==> OptionDeclaredBy(r.value, entry)
    ensures && entry.Arr?
            && (forall i :: 0 <= i < |entry.entries| ==> entry.entries[i].0 in OptionKeys && !entry.entries[i].1.Arr?)
            && Lookup(entry.entries, "name").Some?
            && !ValidOptionEntry(entry)
            ==> r.Err? && r.error.problem == InvalidType
  {
    match entry
    case Str(_) => Ok(OptionSpec(entry, None, Null))
    case Arr(fields) =>
      var _ :- MapEntries(path + [key], fields, CheckOptionField);
      (match Lookup(fields, "name")
       case None => Err(SchemaViolation(path + [key, "name"], Missing))
       case Some(name) =>
         var kind := match Lookup<Value>(fields, "type")
           case Some(Str(t)) => ParseType(t)
           case _ => None;
         Ok(OptionSpec(name, kind, Lookup(fields, "default").ValueOr(Null))))
    case _ => Err(SchemaViolation(path + [key], ExpectedArray))
  }

  /** One action under `commands`; its key is kept verbatim. */
  function ValidateAction(path: seq<string>, key: string, entry: Value): (r: Result<(string, ActionSpec), ConfigError>)
    ensures r.Ok? <==> ValidAction(entry)
    ensures r.Ok? ==> r.value.0 == key && ActionDeclaredBy(r.value.1, entry)
  {
    match entry
    case Arr(fields) =>
      var here := path + [key];
      var _ :- MapEntries(here, fields, CheckActionField);
      var options :- MapEntries(here + ["options"], Declared(fields, "options"), ValidateOptionEntry);
      var arguments :- MapEntries(here + ["arguments"], Declared(fields, "arguments"), CheckArgument);
      Ok((key, ActionSpec(options, arguments)))
    case _ => Err(SchemaViolation(path + [key], ExpectedArray))
  }

  /** Every action under `commands`, keys kept verbatim and in order. */
  function ValidateCommands(commands: seq<(string, Value)>): (r: Result<seq<(string, ActionSpec)>, ConfigError>)
    ensures r.Ok? <==> forall i :: 0 <= i < |commands| ==> ValidAction(commands[i].1)
    ensures r.Ok? ==>
      && |r.value| == |commands|
      && forall i :: 0 <= i < |commands| ==>
           r.value[i].0 == commands[i].0 && ActionDeclaredBy(r.value[i].1, commands[i].1)
  {
    MapEntries(["commands"], commands, ValidateAction)
  }

  /** The whole document: `binary` required and non-empty, `commands` required,
      every node as declared. */
  function Validate(doc: Value): (r: Result<Definition, ConfigError>)
    ensures r.Ok? <==> ValidDocument(doc)
    ensures r.Ok? ==> Lookup(doc.entries, "binary") == Some(r.value.binary)
    ensures r.Ok? ==> !r.value.binary.Null? && r.value.binary != Str("") && !r.value.binary.Arr?
    ensures r.Ok? ==>
      && |r.value.commands| == |Declared(doc.entries, "commands")|
      && forall i :: 0 <= i < |r.value.commands| ==>
           && r.value.commands[i].0 == Declared(doc.entries, "commands")[i].0
           && ActionDeclaredBy(r.value.commands[i].1, Declared(doc.entries, "commands")[i].1)
  {
    match doc
    case Arr(fields) =>
      var _ :- MapEntries([], fields, CheckRootField);
      assert forall i :: 0 <= i < |fields| ==> RootFieldOk(fields[i].0, fields[i].1);
      (match Lookup(fields, "binary")
       case None => Err(SchemaViolation(["binary"], Missing))
       case Some(binary) =>
         if binary.Null? || binary == Str("") then Err(SchemaViolation(["binary"], Empty))
         else if Lookup(fields, "commands").None? then Err(SchemaViolation(["commands"], Missing))
         else
           var commands :- ValidateCommands(Declared(fields, "commands"));
           Ok(Definition(binary, commands)))
    case _ => Err(SchemaViolation([], ExpectedArray))
  }

  // ---------------------------------------------------------------------------
  // Lookups

  function GetBinary(def: Definition): Value {
    def.binary
  }

  /** The binary a loaded definition reports is the one the document declares,
      and it is neither null, "" nor an array. */
  lemma GetBinaryAsDeclared(doc: Value)
    requires Validate(doc).Ok?
    ensures Lookup(doc.entries, "binary") == Some(GetBinary(Validate(doc).value))
    ensures var b := GetBinary(Validate(doc).value); !b.Null? && b != Str("") && !b.Arr?
  {
  }

  /** The action's definition, or an empty one for an action not declared. */
  function CommandActionDefinition(def: Definition, action: string): (r: ActionSpec)
    ensures (forall i :: 0 <= i < |def.commands| ==> def.commands[i].0 != action) ==> r == ActionSpec([], [])
    ensures forall i :: FirstKeyAt(def.commands, action, i) ==> r == def.commands[i].1
  {
    Lookup(def.commands, action).ValueOr(ActionSpec([], []))
  }

  /** The action's options, or none for an action not declared. */
  function ActionOptionDefinitions(def: Definition, action: string): (r: seq<OptionSpec>)
    ensures (forall i :: 0 <= i < |def.commands| ==> def.commands[i].0 != action) ==> r == []
    ensures forall i :: FirstKeyAt(def.commands, action, i) ==> r == def.commands[i].1.options
  {
    CommandActionDefinition(def, action).options
  }

  /** The action's positional arguments, or none for an action not declared. */
  function ActionArgumentDefinitions(def: Definition, action: string): (r: seq<Value>)
    ensures (forall i :: 0 <= i < |def.commands| ==> def.commands[i].0 != action) ==> r == []
    ensures forall i :: FirstKeyAt(def.commands, action, i) ==> r == def.commands[i].1.arguments
  {
    CommandActionDefinition(def, action).arguments
  }

  /** Loading then looking up gives back what the document declares: an action
      not in the document has no options and no arguments; a declared action has
      its options (shorthand expanded) and its arguments in document order. */
  lemma LoadedLookups(doc: Value, action: string)
    requires Validate(doc).Ok?
    ensures var def := Validate(doc).value;
            var cs := Declared(doc.entries, "commands");
            && ((forall i :: 0 <= i < |cs| ==> cs[i].0 != action) ==>
                  ActionOptionDefinitions(def, action) == [] && ActionArgumentDefinitions(def, action) == [])
            && (forall i :: FirstKeyAt(cs, action, i) ==>
                  ActionDeclaredBy(CommandActionDefinition(def, action), cs[i].1))
  {
    var def := Validate(doc).value;
    var cs := Declared(doc.entries, "commands");
    forall i | FirstKeyAt(cs, action, i)
      ensures ActionDeclaredBy(CommandActionDefinition(def, action), cs[i].1)
    {
      assert FirstKeyAt(def.commands, action, i);
    }
  }
}
