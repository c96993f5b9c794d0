# robo-command-builder, modelled in Dafny

robo-command-builder is a Robo task. It builds a shell command for one
*action* of an external binary from a YAML *command definition*. The
definition declares the binary and, for each action, its options (name, type,
default) and its positional arguments. Calls the builder does not know, such as
`->noInteraction()` or `->target('app')`, are caught by PHP's `__call`. The
call name is turned from camelCase into a dashed, lower-case flag name. It is
then looked up first among the action's options and then among its arguments.
An array option's value is joined with ","; a value that is empty in PHP's
sense is rejected for array, string and integer options (and for every
argument); the value's own type is not checked. The resulting option or
argument is appended to the command line.

This project models that core:

- `results.dfy` (`Results`): `Option` and `Result` with the failure-propagation
  members `:-` needs.
- `sequences.dfy` (`Sequences`): key lookup in ordered key/value entries (a
  PHP array), plus `Join`/`Split` with their round trip.
- `php_values.dfy` (`PhpValues`): the PHP values involved (null, booleans,
  integers, strings, ordered arrays), PHP's `empty()`, the string conversion
  `implode` applies, and `implode` itself.
- `naming.dfy` (`Naming`): `formatCamelCaseToDashes`, as a dash insertion
  after every letter followed by a capital, then ASCII lower-casing.
- `command_definition.dfy` (`CommandDefinition`): the validated definition,
  the rules the configuration tree declares (`getConfigTreeBuilder`) as both a
  declarative predicate and a validator, and the lookups `getBinary`,
  `getCommandActionDefinition`, `getActionOptionDefinitions` and
  `getActionArgumentDefinitions`.
- `command_builder.dfy` (`CommandBuilder`): the constructor's choice of
  executable, `setCommandOption`, `setCommandArguments`, `__call`, a chain of
  calls, the prefix `getCommand` produces, and the error messages (for a
  binary that cannot be found, the evidently intended wording; see Findings).
- `scenarios.dfy` (`Scenarios`): concrete end-to-end and single-call cases.

Some collaborators are parameters of the model rather than parts of it:

- The executable finder (`findExecutablePhar`) is the parameter
  `locate: Value -> Option<string>`.
- Robo's rendering of options and arguments into the command string is the
  parameter `render: seq<Piece> -> string`.

A session records each successful call as one `Piece`: an option with its
value, or an argument. The pieces are kept in call order, and `Options` and
`Arguments` are projections of that sequence.

## Model

| member | source | states |
|---|---|---|
| Naming.NormalizeName | src/CommandBuilderTask.php:209-214 | the normalised name has no upper-case letter and is never shorter than the call name |
| Naming.InsertDashesLength | src/CommandBuilderTask.php:212 | inserting dashes never shortens a name, and lengthens it exactly when some letter is followed by a capital |
| Naming.InsertDashesCount | src/CommandBuilderTask.php:212 | the replacement lengthens a name by exactly its number of boundaries (letters followed by a capital) |
| Naming.InsertDashesKeeps | src/CommandBuilderTask.php:212 | every character of the name survives the replacement, shifted right by the number of boundaries before it |
| Naming.InsertDashesDashAfter | src/CommandBuilderTask.php:212 | every boundary letter is immediately followed by a dash in the replaced name |
| Naming.NormalizeNameCount | src/CommandBuilderTask.php:209-214 | the flag name is longer than the call name by exactly its number of boundaries |
| Naming.NormalizeNameKeeps | src/CommandBuilderTask.php:209-214 | each character of the call name appears lower-cased in the flag name, shifted right by the boundaries before it |
| Naming.NormalizeNameDashAfter | src/CommandBuilderTask.php:209-214 | in the flag name a dash follows every letter of the call name that is followed by a capital |
| Naming.InsertDashesIdentity | src/CommandBuilderTask.php:212 | the replacement leaves a name unchanged if and only if no letter in it is followed by a capital |
| Naming.InsertDashesOnlyAddsDashes | src/CommandBuilderTask.php:212 | the replacement only inserts dashes: with dashes removed, the name is unchanged |
| Naming.NormalizeIsLowerUpToDashes | src/CommandBuilderTask.php:209-214 | with dashes removed, the flag name is the call name lower-cased |
| Naming.NormalizeIsLowerIff | src/CommandBuilderTask.php:209-214 | the flag name is the plain lower-cased call name exactly when the name has no camelCase boundary |
| Naming.NormalizeFixesLowerCase | src/CommandBuilderTask.php:209-214 | a call name without capitals is used as the flag name unchanged |
| Naming.NormalizeIdempotent | src/CommandBuilderTask.php:209-214 | normalising an already normalised name changes nothing |
| Naming.InsertDashesFooBar | src/CommandBuilderTask.php:212 | `fooBar` becomes `foo-Bar` before lower-casing |
| Naming.NormalizeNotInjective | src/CommandBuilderTask.php:209-214 | `fooBar()` and a call named `foo-bar` address the same flag |
| Sequences.Lookup | src/CommandDefinition.php:55-57 | a key lookup finds nothing exactly when the key is absent; otherwise it finds the entry at the key's first position |
| Sequences.SplitJoin | src/CommandBuilderTask.php:183 | splitting a joined list at a separator that no part contains gives the parts back |
| PhpValues.NatToStringRoundTrip | src/CommandBuilderTask.php:183 | the decimal form of a non-negative integer reads back as the same integer |
| PhpValues.ImplodeRoundTrip | src/CommandBuilderTask.php:140 | an imploded array splits back into its elements' string forms when no element contains the glue |
| CommandDefinition.ParseType | src/CommandDefinition.php:113-117 | an option type is accepted exactly when it is one of array, integer, string and boolean, and it names that type |
| CommandDefinition.TypeNameRoundTrip | src/CommandDefinition.php:113-117 | every type's name parses back to that type |
| CommandDefinition.MapEntries | src/CommandDefinition.php:101-104 | a prototyped node is valid exactly when every entry is, and then it yields one validated entry per entry, in order; a failure is the failure of one of its entries |
| CommandDefinition.ValidateOptionEntry | src/CommandDefinition.php:103-121 | an option entry is accepted exactly when it is a string, or a mapping of known scalar fields with a `name` and a valid `type`; a string is shorthand for `{name: <string>}`; the result holds exactly the declared name, type and default; a mapping of known scalar fields with a `name` that is still rejected fails as an invalid type |
| CommandDefinition.ValidateAction | src/CommandDefinition.php:101-126 | an action is accepted exactly when it holds only `options` and `arguments` arrays of valid entries, with scalar arguments; the result keeps the action's key and holds its options and arguments in order |
| CommandDefinition.ValidateCommands | src/CommandDefinition.php:98-101 | `commands` is accepted exactly when every action is; each action's key and declaration are kept, in document order |
| CommandDefinition.Validate | src/CommandDefinition.php:92-129 | a document is accepted exactly when it satisfies the declared tree (only `binary` and `commands`; `binary` present, not an array, not null or ""; `commands` present); the definition holds the declared binary and every declared action |
| CommandDefinition.GetBinaryAsDeclared | src/CommandDefinition.php:35-38 | the binary a loaded definition reports is the one the document declares, and it is neither null, "" nor an array |
| CommandDefinition.CommandActionDefinition | src/CommandDefinition.php:51-58 | an action not in the definition gives an empty action; a declared one gives its first declaration |
| CommandDefinition.ActionOptionDefinitions | src/CommandDefinition.php:63-70 | an undeclared action has no options; a declared one has the options it declares |
| CommandDefinition.ActionArgumentDefinitions | src/CommandDefinition.php:75-82 | an undeclared action has no arguments; a declared one has the arguments it declares |
| CommandDefinition.LoadedLookups | src/CommandDefinition.php:51-82 | after loading, an action missing from the document has no options or arguments, and a declared action's lookups give back what the document declares |
| CommandBuilder.SelectExecutable | src/CommandBuilderTask.php:55-63 | an explicit binary path is used exactly as given and the finder is asked only without one; the choice fails, with executable-not-found for the binary, exactly when the chosen path is missing, "" or "0" |
| CommandBuilder.NewBuilder | src/CommandBuilderTask.php:51-65 | an invalid definition is an error; otherwise an explicit binary path is used as given and the finder is asked only without one; a missing or falsy executable ("" or "0") raises executable-not-found for the definition's binary; a new builder has no options or arguments |
| CommandBuilder.FindOption | src/CommandBuilderTask.php:173-176 | the option loop stops at the first option whose name is exactly the flag name, skipping entries without a name, and finds none exactly when no option has that name |
| CommandBuilder.FirstValue | src/CommandBuilderTask.php:137 | a call with values uses its first value; a call without values has the null value |
| CommandBuilder.TypeOf | src/CommandBuilderTask.php:180 | an option without a declared type is a boolean option; otherwise its declared type is used |
| CommandBuilder.SuppliedValue | src/CommandBuilderTask.php:171-179 | a non-null call value is used; the declared default is used only when the call supplies none |
| CommandBuilder.JoinedValue | src/CommandBuilderTask.php:180-184 | an array option never passes an array on, and an empty array becomes ""; options of other types, and values that are not arrays, are passed on unchanged |
| CommandBuilder.JoinedValueSplitsBack | src/CommandBuilderTask.php:182-184 | the joined value of an array option splits back at "," into its elements' string forms, in order, when no element contains a comma |
| CommandBuilder.OptionValue | src/CommandBuilderTask.php:180-192 | an option fails, with option-value-required, exactly when its type is array, string or integer and its value is empty in PHP's sense; a boolean option never fails and passes its value as it is |
| CommandBuilder.ArgumentValue | src/CommandBuilderTask.php:136-148 | an array value is joined with a space; the argument fails, with argument-value-required, exactly when the value is empty in PHP's sense; a recorded argument is never empty |
| CommandBuilder.Resolve | src/CommandBuilderTask.php:104-119 | a call is decided by the first option with its name if there is one, otherwise by the arguments when the name is declared there; it is invalid exactly when the name is neither an option nor an argument |
| CommandBuilder.OptionPrecedence | src/CommandBuilderTask.php:108-114 | when an option matches, the argument list is never consulted |
| CommandBuilder.ResolveCall | src/CommandBuilderTask.php:104-119 | options are recorded under the normalised name; an unknown name is reported normalised; on an action the definition lacks, every call is invalid |
| CommandBuilder.Apply | src/CommandBuilderTask.php:104-119 | a call appends exactly the piece it resolves to and changes nothing else, or fails with exactly its resolution's error |
| CommandBuilder.RunCallsSucceedsIff | src/CommandBuilderTask.php:104-119 | a chain of calls succeeds exactly when every call in it resolves |
| CommandBuilder.RunCallsInOrder | src/CommandBuilderTask.php:104-119 | a successful chain keeps definition, action and executable, and appends one piece per call, in call order |
| CommandBuilder.RunCallsRecordsOutcomes | src/CommandBuilderTask.php:104-119 | when every call resolves, the chain succeeds with exactly the resolved pieces appended, in order |
| CommandBuilder.RunCallsFirstError | src/CommandBuilderTask.php:116-118 | a failing chain reports the error of its first failing call, and every earlier call resolves |
| CommandBuilder.RunCallsStep | src/CommandBuilderTask.php:104-110 | a call that resolves records its piece and the chain continues from there |
| CommandBuilder.CallAppendsOne | src/CommandBuilderTask.php:148 | a successful call adds one option, or one argument, at the end of its list and leaves the other list unchanged |
| CommandBuilder.GetCommand | src/CommandBuilderTask.php:87-90 | the command starts with the executable, a space and the action |
| CommandBuilder.CommandPrefixStable | src/CommandBuilderTask.php:87-90 | however many calls succeed, the command still starts with the executable and action the builder was created with |
| CommandBuilder.MessageNamesFlag | src/CommandBuilderTask.php:116-118 | each abort message names the normalised flag right after "The " |
| CommandBuilder.ExecutableNotFoundMessageNamesBinary | src/CommandBuilderTask.php:62 | the intended message carries the binary at a fixed position, so different binaries give different messages |
| CommandBuilder.ExecutableNotFoundMessageAsWrittenLosesBinary | src/CommandBuilderTask.php:62 | as written, every binary PHP reads as zero gives the same message, and for `git` it is not the intended one |
| Scenarios.BuildActionValid | src/CommandDefinition.php:101-126 | an action with the shorthand option `watch` and the argument `target` satisfies the declared rules |
| Scenarios.ToolDocumentValid | src/CommandDefinition.php:92-129 | the whole sample document satisfies the declared rules |
| Scenarios.BuildActionLoads | src/CommandDefinition.php:103-108 | the shorthand `watch` loads as a boolean option named `watch` without a default |
| Scenarios.ToolDocumentLoads | src/CommandDefinition.php:92-129 | the sample document loads as exactly one action `build` |
| Scenarios.ToolBuilderCreated | src/CommandBuilderTask.php:51-58 | with an explicit binary path the builder starts on that path, with no pieces |
| Scenarios.BuildLookups | src/CommandDefinition.php:63-82 | action `build` looks up its option and its argument |
| Scenarios.PlainNames | src/CommandBuilderTask.php:209-214 | `watch` and `target` are their own flag names |
| Scenarios.WatchResolves | src/CommandBuilderTask.php:169-194 | `watch()` sets the boolean option without a value |
| Scenarios.TargetResolves | src/CommandBuilderTask.php:134-151 | `target("app")` is not an option, so it sets the argument `app` |
| Scenarios.ToolPrefix | src/CommandBuilderTask.php:89 | a session on `/opt/tool` for action `build` has the command prefix `/opt/tool build` |
| Scenarios.TwoCalls | src/CommandBuilderTask.php:104-119 | two calls that resolve record their pieces in call order |
| Scenarios.ToolCallsRun | src/CommandBuilderTask.php:104-119 | `watch()` then `target("app")` records the option, then the argument |
| Scenarios.FreshToolSessionRun | src/CommandBuilderTask.php:87-119 | on a fresh `build` session those calls leave exactly those two pieces, and the command starts with `/opt/tool build` |
| Scenarios.EndToEndBuild | src/CommandBuilderTask.php:51-119 | construction, the two calls and the command prefix, end to end |
| Scenarios.ArrayOptionJoined | src/CommandBuilderTask.php:182-184 | an array option called with `["a", "b"]` records `a,b` |
| Scenarios.StringOptionWithoutValue | src/CommandBuilderTask.php:186-190 | a string option with no value and no default aborts |
| Scenarios.BooleanOptionWithoutValue | src/CommandBuilderTask.php:180-192 | a boolean option with no value is recorded with no value |
| Scenarios.IntegerOptionNotTypeChecked | src/CommandBuilderTask.php:180-192 | an integer option called with "abc" records "abc": the declared type decides only joining and the empty check |
| Scenarios.ZeroIsMissing | src/CommandBuilderTask.php:143-146 | PHP's `empty()` counts 0 as missing: an integer option cannot be set to 0 and an argument cannot be "0" |
| Scenarios.FloatTypeRejected | src/CommandDefinition.php:113-117 | an option declared with `type: float` is rejected as an invalid type at that option's `type` path, with the message "Invalid type has been defined!" |

## Left out

- Loading the definition file: `loadFile` (src/CommandDefinition.php:143-152) checks that the file exists and parses YAML. The model starts from the parsed document, a `Value`.
- Running the command: `run`, `printTaskInfo` and `executeCommand` (src/CommandBuilderTask.php:70-80) are process I/O.
- Rendering and shell escaping of options and arguments belong to Robo's `option()`/`arg()`. They are the abstract `render` parameter, so `GetCommand` states only the prefix.
- `findExecutablePhar` searches the file system. It is the abstract `locate` parameter.
- Configuration-library behaviour not written in this repository:
  - the order in which violations are reported, and their messages (only "Invalid type has been defined!" is the repository's own);
  - the library's treatment of null and `true` as an empty array for array nodes;
  - the prefix `TaskException` adds to its message;
  - the prefix `Invalid configuration for path "…": ` the configuration library puts before "Invalid type has been defined!" (`Message` gives only the repository's own text).
- The argument check `in_array($name, …)` is a loose comparison in PHP. The model compares strictly with the string, because declared arguments are strings in practice. A declared argument such as `0` or `true` would match differently.
- `strtolower` and the regular expression act on ASCII letters only, as modelled. Bytes of multi-byte characters are treated as characters.
- The action is a string. The constructor's default `$action = null` behaves like the empty string in `getCommand` and in the lookup, and is not modelled separately.
- Floating-point values are not in `Value`. YAML floats and float call values are not modelled.
- The binary is a `Value`, and the model records `ExecutableNotFound(binary)` with it. The message's string conversion uses `ToPhpString`.
- PHP calls `__call` only for names that are not accessible methods of the builder object, and method names are case-insensitive. So a plain method call such as `->run()`, `->getCommand()`, or `->option()`, `->arg()`, `->dir()`, `->env()` and `->timeout()` (accessible methods inherited from Robo's `BaseTask` or brought in by Robo's `ExecOneCommand` trait, src/CommandBuilderTask.php:14-16) never reaches the resolution: an option or argument with such a name cannot be set by a plain method call. It can still be set through a dashed name that is no method (`->{'get-command'}()`) or by calling the public `__call` directly. The model sends every `Call` through `ResolveCall`, because the set of accessible methods belongs to Robo, which is not part of this model.
- CommandBuilder.Message: for `ExecutableNotFound` it gives the evidently intended wording (`ExecutableNotFoundMessage`), not the message the builder produces as written; the as-written message is `ExecutableNotFoundMessageAsWritten` (see Findings).
- `src/CommandDefinitionInterface.php` declares signatures only. Its members are modelled through `CommandDefinition`.
- CommandBuilder.ExecutableNotFoundMessageAsWritten: models the as-written message only for binaries PHP reads as the number zero. A numeric binary, printed as its value in scientific notation, is not modelled.
- Where a stricter or tidier reading of the builder is possible, the model follows the code:
  - options and arguments go to one command line in call order, not all options first;
  - an option name declared twice resolves to its first declaration and is not rejected at load time;
  - a boolean option passes its supplied value (or its default, or null) on as it is, rather than as a bare-flag marker;
  - a missing option value and a missing argument value are distinct errors with distinct messages.

## Findings

| source | as written | input that shows it | evidently intended | confidence | as-written member | corrected member |
|---|---|---|---|---|---|---|
| src/CommandBuilderTask.php:62 | `sprintf('Unable to find the % executable.', $binary)`: `% e` is a space-padding flag followed by the `%e` conversion, so the binary is printed as a float and the "e" of "executable" is consumed | binary `git` with no executable found gives "Unable to find the 0.000000e+0xecutable." | `%s`: "Unable to find the git executable." | not executed | CommandBuilder.ExecutableNotFoundMessageAsWrittenLosesBinary | CommandBuilder.ExecutableNotFoundMessageNamesBinary |
