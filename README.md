# ng-stone core in Dafny

ng-stone is a command-line helper that prints boilerplate for an Angular
module. This project models the parts of `ng-stone.js` that compute
something:

- **Argument grouping.** `process.argv` is grouped into a map from
  dash-arguments to the plain arguments that follow them (`ArgGrouping`).
- **The `-m` command.** This is how `main` handles the `-m` key
  (`ModuleCommand`):
  - it chooses the module name and the formal name;
  - it applies the kebab-case guard;
  - it derives the path name and the class name;
  - it filters the audit fields `id`, `createdAt` and `updatedAt` out of the
    model's properties.
- **The name-case helpers** (`CaseNames`): `detectCase`, `toPascalCase`,
  `toFormalCase` and `val.split("-").join("")`.
- **`generateValidators`** (`Validators`). It renders a field as Angular
  reactive-form code. A scalar field becomes a control with an ordered list
  of validators. Any other field becomes a nested `this.fb.group(...)` over
  the properties of its type.
- **The JavaScript string primitives** these rely on (`Text`): `split`,
  `join`, `includes` and ASCII `toUpperCase` / `toLowerCase`.

Conventions:

- A JavaScript `TypeError` is modelled as `None`. This covers
  `w[0].toUpperCase()` on an empty segment.
- The parser's answer for a nested type is given as data: it is the
  `members` of a `Field`.
- The parts of the source that update variables step by step are methods,
  proved against the functions that specify them:
  - `ArgGrouping.GroupArgs` against `Grouped`;
  - `Validators.GenerateValidators` against `Render`;
  - `CaseNames.DetectCase` against `CaseFlags`.

## Model

| member | source | states |
|---|---|---|
| ArgGrouping.IsDash | ng-stone.js:13 | `arg[0] === "-"`: the empty argument is plain. Its use is stated by `GroupedKeys` and `GroupedValues`. |
| ArgGrouping.Step | ng-stone.js:12-17 | One callback of the `map`. The current label always has a list. |
| ArgGrouping.StepFrame | ng-stone.js:13-16 | A step adds a key exactly for a dash-argument. It touches no list except the one under that argument or under the current label. |
| ArgGrouping.GroupArgs | ng-stone.js:10-17 | The argument loop leaves `vals` equal to the left fold `Grouped` of the arguments. |
| ArgGrouping.Grouped | ng-stone.js:11-17 | The label after the pass is the last dash-argument, or none. A current label always has a list. |
| ArgGrouping.GroupedKeys | ng-stone.js:13-15 | A key is in `vals` exactly when it occurs among the arguments and starts with `-`. |
| ArgGrouping.GroupedValues | ng-stone.js:13-16 | A label's list holds the plain arguments after its last occurrence, in order, up to the next dash-argument. Earlier occurrences are discarded. |
| ArgGrouping.GroupedDropsLeading | ng-stone.js:16 | Plain arguments with no label before them are dropped. |
| ArgGrouping.LastDash | ng-stone.js:13-14 | Gives the position of the last dash-argument. Nothing after it is a dash-argument. |
| ArgGrouping.NextDash | ng-stone.js:13-16 | Gives the first dash-argument at or after a position. Everything before it is plain. |
| ArgGrouping.NextDashAppend | ng-stone.js:12-17 | Appending one argument moves the next dash only when none was found before. |
| CaseNames.DetectCase | ng-stone.js:126-140 | The if-chain of `detectCase` yields exactly the flags `CaseFlags` describes. |
| CaseNames.CaseFlags | ng-stone.js:126-139 | `pascal` holds exactly when the first character is not a lower-case letter, and then no other flag is set. `kebab` holds exactly for a lower-case start with no underscore and either a hyphen or no capital. All of snake, kebab and camel are set exactly for lower-case names without `_`, `-` or capitals. |
| CaseNames.Capitalize | ng-stone.js:145 | `w[0].toUpperCase() + w.substring(1)`, with `None` for the TypeError on `""`. `CapitalizeAll` states when it fails. |
| CaseNames.ToPascalCase | ng-stone.js:142-147 | Split on `-`, capitalise each segment, join with `""`. `PascalCaseSpec` states its result. |
| CaseNames.ToFormalCase | ng-stone.js:149-154 | Split on `-`, capitalise each segment, join with `" "`. `FormalCaseSpec` states its result. |
| CaseNames.PathName | ng-stone.js:32 | `val.split("-").join("")`. `PathNameSpec` states its result. |
| CaseNames.CapitalizeAll | ng-stone.js:145 | The segment map succeeds exactly when no segment is empty, and then keeps the number of segments. |
| CaseNames.PascalCaseSpec | ng-stone.js:142-147 | `toPascalCase` succeeds exactly on names without an empty segment. Its result is the capitalised name with its hyphens deleted: hyphen-free, and one character shorter per hyphen. |
| CaseNames.FormalCaseSpec | ng-stone.js:149-154 | `toFormalCase` succeeds exactly on names without an empty segment. It keeps the length, turns each hyphen into a space and upper-cases each segment's first character only. |
| CaseNames.PathNameSpec | ng-stone.js:32 | The path name is the module name with every hyphen deleted. It has no hyphen, and its length drops by the number of hyphens. |
| CaseNames.Capitalized | ng-stone.js:145 | The reference capitalisation keeps the length. |
| CaseNames.CapitalizeSegments | ng-stone.js:143-145 | On a name without empty segments, capitalising each segment equals splitting the capitalised name. |
| CaseNames.SegmentsNonEmpty | ng-stone.js:144-145 | No segment of `split("-")` is empty exactly when the name is well hyphenated. |
| Text.Join | ng-stone.js:104 | `parts.join(sep)`. `JoinAppend`, `JoinSplit` and `JoinSplitReplace` state its laws. |
| Text.Upper | ng-stone.js:128 | ASCII `toUpperCase` of one character: it changes exactly the lower-case letters, into upper-case letters. |
| Text.Lower | ng-stone.js:132 | ASCII `toLowerCase` of one character: it changes exactly the upper-case letters, into lower-case letters. |
| Text.LowerStr | ng-stone.js:95 | `s.toLowerCase()` keeps the length. `LowerStrChanges` states when it changes the string. |
| Text.Contains | ng-stone.js:95 | `s.includes(sub)`: `sub` is a prefix of some suffix of `s`. `LeafTokensSpec` uses it for the email check. |
| Text.JoinSplit | ng-stone.js:144-146 | Joining the pieces of `split(c)` with `c` gives back the string. |
| Text.SplitJoin | ng-stone.js:144-146 | Splitting pieces joined with `c` gives back the pieces, provided no piece contains `c`. |
| Text.JoinSplitReplace | ng-stone.js:32 | `split(c).join(sep)` replaces every `c` by `sep`. |
| Text.ReplaceAll | ng-stone.js:32 | With an empty separator the length drops by the number of occurrences. With a separator free of `c`, no `c` is left. |
| Text.ReplaceAllByChar | ng-stone.js:153 | Replacing by one character keeps every other character in place. |
| Text.LowerStrChanges | ng-stone.js:132 | `val !== val.toLowerCase()` holds exactly when `val` has an upper-case letter. |
| Text.IndexOf | ng-stone.js:130-131 | Gives the first position of the character, or the length when the character is absent. |
| Text.Split | ng-stone.js:144 | There is at least one piece, and no piece contains the separator. |
| Text.Count | ng-stone.js:32 | The count is at most the length, and is zero exactly when the element is absent. |
| Text.JoinAppend | ng-stone.js:118 | Joining two non-empty lists puts one separator between them. |
| Validators.IsScalar | ng-stone.js:93 | An exact match against `string`, `number` or `Date`. Any other type takes the group branch. |
| Validators.LeafTokens | ng-stone.js:91-103 | The pushes of the scalar branch, in order. `LeafTokensSpec` states what they contain. |
| Validators.LeafLine | ng-stone.js:104 | The scalar line `name: ['', [tokens]],`. `LeafLineSingleLine` states that it is one line. |
| Validators.LeafLineSingleLine | ng-stone.js:104 | A scalar line contains no line break when the name contains none. |
| Validators.Render | ng-stone.js:90-120 | What `generateValidators` resolves to. Every rendering starts with the field's name and `: `. |
| Validators.LeafTokensSpec | ng-stone.js:91-103 | `Validators.required` appears once exactly when the field is not optional. `Validators.email` appears exactly when the lower-cased name contains "email". The number check appears exactly for `number` and the date check exactly for `Date`. No other token appears, and the tokens come in this order. |
| Validators.GenerateValidators | ng-stone.js:90-120 | The scalar branch's pushes and the group branch's in-order member loop produce exactly `Render(f)`. |
| Validators.RenderMembers | ng-stone.js:113-117 | There is one rendering per member, in declaration order. |
| Validators.RenderIsLines | ng-stone.js:104-118 | The rendered text is the reference list `Lines(f)` joined with newlines. A group is a header line, its members' lines with their first line indented by three spaces, and a closing `),` line. |
| Validators.RenderedLines | ng-stone.js:104-118 | With field names free of line breaks, the lines of the rendered text are exactly `Lines(f)`. |
| Validators.Lines | ng-stone.js:104-118 | Every field renders to at least one line. |
| Validators.JoinIndentAll | ng-stone.js:118 | Joining member renderings with a newline and three spaces equals joining their indented lines with newlines. |
| ModuleCommand.IsAuditName | ng-stone.js:62 | An exact match against `id`, `createdAt` or `updatedAt`, so a name like `idx` is kept. `EditableFields` states the filter. |
| ModuleCommand.EditableFields | ng-stone.js:61-63 | A property is kept exactly when its name is not `id`, `createdAt` or `updatedAt`. |
| ModuleCommand.EditableFieldsAppend | ng-stone.js:61-63 | The filter commutes with concatenation, so the kept properties stay in declaration order. |
| ModuleCommand.EditableFieldsKeepsAll | ng-stone.js:61-63 | Properties without audit names all pass, unchanged. |
| ModuleCommand.EditableFieldsDropsAll | ng-stone.js:61-63 | Properties with only audit names all go. |
| ModuleCommand.ValidatorSection | ng-stone.js:65-68 | There is one printed validator line per kept property, and the k-th line starts with the k-th kept property's name and `: `. |
| ModuleCommand.ValidatorSectionAppend | ng-stone.js:61-68 | The printed section of a concatenation is the two sections one after the other, so the lines follow declaration order. |
| ModuleCommand.FormalName | ng-stone.js:24-27 | The formal name is the second value when that is non-empty. Otherwise it is `toFormalCase(val)`, which fails exactly on names with an empty segment. |
| ModuleCommand.PlanModule | ng-stone.js:20-33 | `main` for the `-m` key in the source's order: the formal name, then the kebab guard, then the path and class names. Its outcomes are stated by the lemmas below. |
| ModuleCommand.PlanGeneratesValid | ng-stone.js:25-33 | A non-empty kebab name without empty segments generates its module. The module has the formal name, the path name and `toPascalCase` of the name. |
| ModuleCommand.PlanNotKebab | ng-stone.js:27-31 | The kebab message is given exactly when the formal name was found and `detectCase(val).kebab` is false. |
| ModuleCommand.PlanRejectsPascal | ng-stone.js:28-31 | `-m CustomerOrder` gets the kebab message. |
| ModuleCommand.PlanCrash | ng-stone.js:27-33 | As written, `main` throws exactly when the name has an empty segment and either no formal name was given (`toFormalCase` throws at line 27) or the name passes the guard (`toPascalCase` throws at line 33). |
| ModuleCommand.PlanGenerates | ng-stone.js:21-33 | A generated module's name is the first `-m` value. That name passes the kebab guard, has no empty segment, starts with a lower-case letter and has no `_`. Its path name and class name have no hyphen and the same length, and the class name is the path name of the capitalised name. |
| ModuleCommand.PlanCrashesOnEmptySegment | ng-stone.js:28-33 | As written, when a formal name is given, a name that passes the kebab guard but has an empty segment makes `toPascalCase` throw. |
| ModuleCommand.GuardAdmitsTrailingHyphen | ng-stone.js:28-33 | `"a-"` passes the kebab guard, and `-m a- A` ends in a TypeError. |
| ModuleCommand.StrictPlanNeverCrashes | ng-stone.js:25-33 | With the intended guard no `-m` run throws. Every run that did not throw as written ends the same way. |

## Left out

- Console output is not modelled: the header colouring, the boilerplate templates (`boilerCLIModule`, `boilerRouting`, and so on) and the usage text.
- Waiting for a key (`keypress`) and `process.exit` are not modelled. `NotKebab` stands for the message followed by the exit.
- Reading the model file from disk is not modelled.
- The `typescript-parser` library is not part of this model. Its result is given as data: the properties of the model's first declaration, and the `members` of each nested field. Its failures are not modelled. The `interface <PascalName> <type>` text handed to it is not modelled either, so neither is the TypeError that `toPascalCase(f.name)` would throw there on a field name with an empty hyphen segment.
- The form-HTML section (lines 71-84) prints `toFormalCase(f.name)` per field inside a template. It is left out as template output; its name computation is `CaseNames.ToFormalCase`.
- `Object.keys` order is not modelled, and only the `-m` key is acted on. `PlanModule` reads that key directly.
- Case mapping is ASCII only. JavaScript's full Unicode `toUpperCase` / `toLowerCase`, which can change lengths, is not modelled.
- `async` / `Promise.all` are not modelled. The member renderings are computed in order, and `Promise.all` keeps that order.
- CaseNames.DetectCase: requires a non-empty name, since `val[0].toUpperCase()` throws on `""`. `main` only calls it with a non-empty name.

## Findings

| source | as written | input that shows it | evidently intended | confidence | as-written member | corrected member |
|---|---|---|---|---|---|---|
| ng-stone.js:27-33 | The kebab guard `detectCase(val).kebab` accepts lower-case names that end in a hyphen or hold two hyphens in a row. `toFormalCase` (with no formal name given) or `toPascalCase` then throws a TypeError on the empty segment. | `-m a- A` (also `-m a--b`) | Such names get the "Name of module need to be kebab-case!" message, because the guard rejects names with an empty segment before any name is derived. | not executed | ModuleCommand.PlanCrash | ModuleCommand.StrictPlanNeverCrashes |
