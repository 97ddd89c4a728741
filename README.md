# ionic-angular-collect-icons: a verified model of the migration core

`ionic-angular-collect-icons` is a command-line migration for Ionic Angular
projects. It scans every HTML template and every component's inline template
for `<ion-icon>` elements, collects the icon names they use, and rewrites the
barrel file `use-icons.ts` so that it re-exports exactly those icons, in
camelCase, from `ionicons/icons`. The build can then tree-shake the icon
registry.

This project models in Dafny the parts of the CLI that hold real logic, and
proves what they do:

- **Template walk** (`template_walk.dfy`, `icon_name_pattern.dfy`).
  `detectIonicComponentsAndIcons` walks the parsed template recursively. It
  records the Ionic component tags used, the icon names it can determine, and
  the source text of `ion-icon` elements whose name it cannot determine. It
  also raises two router-link flags.
  - The walk is given as functions (`Inspect`, `Walk`, `WalkAll`).
  - It is also given as the class `TemplateScan`, whose recursive `Visit`
    updates the five accumulators in place, as the source's closure does.
  - The lemmas relate the walk to a pre-order listing of the element and
    template nodes, and characterise every result field over that listing.
  - The regular expression `{{\s*'([^']+)'\s*}}` is written out as a scanner.
    It is proved to return the capture of the leftmost occurrence of the
    pattern, and nothing exactly when there is none.
- **Barrel regeneration** (`generate_use_icons.dfy`). `generateUseIcons`:
  - concatenates the per-file icon lists in file order;
  - deduplicates them keeping first occurrences (`Array.from(new Set(...))`);
  - rewrites `use-icons.ts` only when the list is non-empty.
- **Declaration editing** (`typescript_utils.dfy`). A source file is a class
  holding its import and export declarations. Each declaration is a module
  specifier with an ordered list of names. `addExportToFile`,
  `addImportToClass` and `removeImportFromClass` are methods that change the
  file in place, each proved against a function on the declaration list.
- **Command line** (`cli_utils.dfy`). `getOptionsFromArgv` is the index
  `for` loop of the source, with its `continue` on empty tokens, proved
  against a function giving the options after each prefix of the tokens.
- **Entry point** (`standalone_migration.dfy`):
  - the `@ionic/angular` version gate of `checkInstalledIonicVersion`, with
    JavaScript's `split` and `parseInt` written out (`NaN` is `None`, and
    every comparison with it is false);
  - the order of the steps `runStandaloneMigration` runs.
- **Shared helpers** (`common.dfy`, `string_utils.dfy`):
  - "push if absent";
  - first-occurrence deduplication;
  - JavaScript white space;
  - the kebab-case to camelCase conversion and its inverse on names without
    upper-case letters.

### Where the code and its tests differ

Several of the repository's tests expect more than the code does:

- ternary resolution of bound icon names;
- traversal of `@if`/`@for`/`@switch`/`@defer` control-flow blocks;
- a "changed / not changed" result computed by comparing with the existing
  barrel.

Examples are `0002-generate-use-icons.test.ts:43-158` and
`0002-generate-use-icons.compare.test.ts:37`. The model follows the code:

- the walk enters only element and template nodes;
- a bound name is recovered only through the `{{ '...' }}` pattern;
- there is no icon catalog, and the icon list is not sorted: it keeps
  first-occurrence order;
- `generateUseIcons` returns nothing and rewrites the barrel whenever the list
  is non-empty.

## Model

| member | source | states |
|---|---|---|
| Common.AddUnique | packages/cli/src/angular/migrations/standalone/0002-generate-use-icons.ts:84-86 | "push if absent": the value is present afterwards, the list grows by it only when it was missing, and a list without duplicates stays without duplicates |
| Common.Distinct | packages/cli/src/angular/migrations/standalone/0002-generate-use-icons.ts:48 | `Array.from(new Set(xs))`: the elements of `xs`, each kept once at its first occurrence; the contract is stated by `DistinctProps` and `DistinctKeepsFirstOccurrenceOrder` |
| Common.DistinctProps | packages/cli/src/angular/migrations/standalone/0002-generate-use-icons.ts:48 | `Array.from(new Set(xs))` has no duplicates, holds exactly the elements of `xs`, and is no longer than `xs` |
| Common.DistinctKeepsFirstOccurrenceOrder | packages/cli/src/angular/migrations/standalone/0002-generate-use-icons.ts:48 | the deduplicated elements appear in the order of their first occurrence in the input |
| Common.DistinctSnoc | packages/cli/src/angular/migrations/standalone/0002-generate-use-icons.ts:48 | deduplicating one more element appends it exactly when it has not been met before |
| Common.DistinctOfNoDuplicates | packages/cli/src/angular/migrations/standalone/0002-generate-use-icons.ts:48 | a list without duplicates is its own deduplication |
| StringUtils.KebabCaseToCamelCase | packages/cli/src/angular/migrations/standalone/0002-generate-use-icons.ts:60 | the assumed kebab-case to camelCase rule called at this line and at `cli-utils.ts:19`: a hyphen before a lower-case letter becomes that letter upper-cased; its properties are the `CamelCase...` lemmas |
| StringUtils.CamelCaseRoundTrip | packages/cli/src/angular/migrations/standalone/0002-generate-use-icons.ts:60 | on a name without upper-case letters, the camelCase binding converts back to the kebab-case name it came from |
| StringUtils.CamelCaseInjective | packages/cli/src/angular/migrations/standalone/0002-generate-use-icons.ts:60 | distinct lower-case names never get the same camelCase binding |
| StringUtils.CamelCaseKeeps | packages/cli/src/angular/utils/cli-utils.ts:19 | a stretch without hyphens is copied unchanged by the conversion |
| StringUtils.CamelCaseJoins | packages/cli/src/angular/utils/cli-utils.ts:19 | a hyphen followed by a lower-case letter becomes that letter upper-cased |
| StringUtils.CamelCaseOneHyphen | packages/cli/src/angular/utils/cli-utils.ts:19 | a name with one hyphen before a lower-case letter loses the hyphen and has the letter upper-cased, all else kept |
| StringUtils.DryRunExample | packages/cli/src/angular/utils/cli-utils.test.ts:23-28 | `dry-run` becomes `dryRun` |
| StringUtils.IconBindingExamples | packages/cli/src/angular/migrations/standalone/0002-generate-use-icons.test.ts:18-37 | `logo-ionic` becomes `logoIonic` and `close-outline` becomes `closeOutline` |
| IconNamePattern.IconNameMatch | packages/cli/src/angular/migrations/standalone/0002-generate-use-icons.ts:119-125 | `skippedIcon.match(iconNameRegex)?.[1]`, scanning start positions left to right; its contract is stated by `IconNameMatchExact` and `IconNameMatchShape` |
| IconNamePattern.MatchAtExact | packages/cli/src/angular/migrations/standalone/0002-generate-use-icons.ts:119-125 | matching at one position succeeds exactly where `{{`, white space, a quoted non-empty name without quotes, white space and `}}` begin, and returns the quoted name |
| IconNamePattern.MatchFromExact | packages/cli/src/angular/migrations/standalone/0002-generate-use-icons.ts:119-125 | scanning from a position finds nothing exactly when the pattern occurs at no later position, and otherwise returns the capture of the leftmost occurrence |
| IconNamePattern.IconNameMatchExact | packages/cli/src/angular/migrations/standalone/0002-generate-use-icons.ts:119-125 | `text.match(regex)?.[1]` is the capture of the leftmost occurrence, and is missing exactly when the pattern occurs nowhere |
| IconNamePattern.MatchAtCapture | packages/cli/src/angular/migrations/standalone/0002-generate-use-icons.ts:119-125 | a match at a position comes with the positions of its quote, name and closing braces |
| IconNamePattern.MatchFromCapture | packages/cli/src/angular/migrations/standalone/0002-generate-use-icons.ts:119-125 | whatever the scan returns is the capture of an occurrence at or after the start |
| IconNamePattern.IconNameMatchShape | packages/cli/src/angular/migrations/standalone/0002-generate-use-icons.ts:125-129 | a recovered icon name is never empty and never contains a quote |
| TemplateWalk.IconUseOf | packages/cli/src/angular/migrations/standalone/0002-generate-use-icons.ts:101-138 | what one `ion-icon` element contributes: the static name, else the bound `{{ '...' }}` capture, else its source text as skipped; stated by `StaticNameWins` and `BoundNameOutcome` |
| TemplateWalk.Inspect | packages/cli/src/angular/migrations/standalone/0002-generate-use-icons.ts:80-153 | the effect of inspecting one element or template node before its children; stated per field by the `InspectAll...` lemmas and `AtMostOneIconPerNode` |
| TemplateWalk.Walk | packages/cli/src/angular/migrations/standalone/0002-generate-use-icons.ts:79-161 | `recursivelyFindIonicComponents`: inspect an element or template node, then its children in order, and leave any other node alone; stated by `WalkIsPreorder` and `OtherNodesIgnored` |
| TemplateWalk.WalkAll | packages/cli/src/angular/migrations/standalone/0002-generate-use-icons.ts:155-165 | the walk over a list of sibling or root nodes in order; stated by `WalkAllIsPreorder` and `DetectMeaning` |
| TemplateWalk.StaticIconName | packages/cli/src/angular/migrations/standalone/0002-generate-use-icons.ts:102-104 | the result is missing exactly when no attribute is named `name` or `icon`, and is otherwise the value of the first such attribute |
| TemplateWalk.InspectAllAppend | packages/cli/src/angular/migrations/standalone/0002-generate-use-icons.ts:163-165 | inspecting two lists of nodes in turn is inspecting their concatenation |
| TemplateWalk.WalkIsPreorder | packages/cli/src/angular/migrations/standalone/0002-generate-use-icons.ts:79-161 | the recursive walk of a node inspects exactly its pre-order listing of element and template nodes, parent before children, children in order |
| TemplateWalk.WalkAllIsPreorder | packages/cli/src/angular/migrations/standalone/0002-generate-use-icons.ts:155-165 | the walk of a list of nodes inspects exactly the concatenated pre-order listings |
| TemplateWalk.WalkAllAppend | packages/cli/src/angular/migrations/standalone/0002-generate-use-icons.ts:163-165 | walking two lists of nodes in turn is walking their concatenation |
| TemplateWalk.PreorderOnlyInspected | packages/cli/src/angular/migrations/standalone/0002-generate-use-icons.ts:80 | only element and template nodes are ever inspected |
| TemplateWalk.InspectAllComponents | packages/cli/src/angular/migrations/standalone/0002-generate-use-icons.ts:83-86 | the components recorded are, without duplicates, the earlier ones plus the Ionic component tags of the inspected nodes |
| TemplateWalk.InspectAllIcons | packages/cli/src/angular/migrations/standalone/0002-generate-use-icons.ts:101-139 | the icons recorded are, without duplicates, the earlier ones plus every name an inspected node contributes |
| TemplateWalk.InspectAllIconsOrder | packages/cli/src/angular/migrations/standalone/0002-generate-use-icons.ts:101-139 | the icon list is the earlier one followed by the names the inspected nodes contribute, deduplicated in the order they are first contributed |
| TemplateWalk.InspectAllSkipped | packages/cli/src/angular/migrations/standalone/0002-generate-use-icons.ts:112-136 | skipped element texts are appended in node order, duplicates included |
| TemplateWalk.SkippedOfMeaning | packages/cli/src/angular/migrations/standalone/0002-generate-use-icons.ts:131-136 | a text is skipped exactly when some inspected `ion-icon` element with an unresolved bound name has it as its source text |
| TemplateWalk.InspectAllFlags | packages/cli/src/angular/migrations/standalone/0002-generate-use-icons.ts:88-153 | each router flag is only ever raised, and ends up raised exactly when an Ionic component (for `hasRouterLink`) or an `a` element (for `hasRouterLinkWithHref`) carries `routerLink`, `routerDirection` or `routerAction` |
| TemplateWalk.DetectMeaning | packages/cli/src/angular/migrations/standalone/0002-generate-use-icons.ts:68-174 | over the pre-order listing of a template: components and icons have no duplicates, and each is recorded iff some listed node names it; the icons are the contributed names deduplicated in first-contribution order; the skipped texts are those of the listed nodes in order; each flag is set iff some listed node asks for it |
| TemplateWalk.OtherNodesIgnored | packages/cli/src/angular/migrations/standalone/0002-generate-use-icons.ts:80 | a node other than an element or template contributes nothing, and nothing below it is visited |
| TemplateWalk.StaticNameWins | packages/cli/src/angular/migrations/standalone/0002-generate-use-icons.ts:101-110 | an `ion-icon` with a static `name`/`icon` attribute contributes the first such value, whatever its bound inputs and source text |
| TemplateWalk.BoundNameOutcome | packages/cli/src/angular/migrations/standalone/0002-generate-use-icons.ts:112-137 | with only a bound name, the element contributes the leftmost `{{ '...' }}` capture of its source text, or is skipped exactly when the pattern occurs nowhere; with no name at all it contributes nothing |
| TemplateWalk.AtMostOneIconPerNode | packages/cli/src/angular/migrations/standalone/0002-generate-use-icons.ts:101-139 | inspecting one node adds at most one icon name or one skipped text |
| TemplateWalk.TemplateScan.constructor | packages/cli/src/angular/migrations/standalone/0002-generate-use-icons.ts:72-77 | the accumulators start empty and both flags false |
| TemplateWalk.TemplateScan.InspectNode | packages/cli/src/angular/migrations/standalone/0002-generate-use-icons.ts:80-153 | the in-place updates of one visit, before the children, equal the `Inspect` step on the old state |
| TemplateWalk.TemplateScan.Visit | packages/cli/src/angular/migrations/standalone/0002-generate-use-icons.ts:79-161 | the recursive visit leaves the accumulators equal to the walk of the node applied to their old values |
| TemplateWalk.DetectIonicComponentsAndIcons | packages/cli/src/angular/migrations/standalone/0002-generate-use-icons.ts:68-174 | the result is the walk of the root nodes from empty accumulators; components and icons have no duplicates; every component is an Ionic component |
| TypeScriptUtils.FindDeclaration | packages/cli/src/angular/utils/typescript-utils.ts:105 | the declaration found is the first for the specifier, and none is found exactly when no declaration has that specifier |
| TypeScriptUtils.WithName | packages/cli/src/angular/utils/typescript-utils.ts:100-121 | one call of the inner `addExport`/`addImport` on a declaration list; stated by `AddedNameIsDeclared`, `WithNameFrame` and `WithNameIdempotent` |
| TypeScriptUtils.WithNames | packages/cli/src/angular/utils/typescript-utils.ts:123-129 | the array form: the single-name form applied to each name in order; stated by `WithNamesDeclaresAll` and `WithNamesFromEmpty` |
| TypeScriptUtils.WithoutName | packages/cli/src/angular/utils/typescript-utils.ts:62-84 | one call of the inner `removeImport` on a declaration list; stated by `WithoutNameAbsent`, `WithoutNameEffect` and `RemoveUndoesAdd` |
| TypeScriptUtils.WithoutNames | packages/cli/src/angular/utils/typescript-utils.ts:86-92 | the array form of removal: the single-name removal applied to each name in order |
| TypeScriptUtils.RemoveFirst | packages/cli/src/angular/utils/typescript-utils.ts:73-79 | removing a named binding takes away one occurrence of the name, and nothing when it is absent; `RemoveFirstKeepsOrder` states which occurrence and that the order is kept |
| TypeScriptUtils.RemoveFirstKeepsOrder | packages/cli/src/angular/utils/typescript-utils.ts:73-79 | removing a bound name deletes exactly its first occurrence and keeps the other bindings in their order |
| TypeScriptUtils.SourceFile.constructor | packages/cli/src/angular/migrations/standalone/0002-generate-use-icons.ts:50-55 | a file holds exactly the class flag and the declarations it is created with |
| TypeScriptUtils.SourceFile.RemoveText | packages/cli/src/angular/migrations/standalone/0002-generate-use-icons.ts:58 | the file is emptied: no class, no imports, no exports |
| TypeScriptUtils.SourceFile.AddExport | packages/cli/src/angular/utils/typescript-utils.ts:100-121 | the exports become the find-or-create, add-if-absent result; imports and class are unchanged |
| TypeScriptUtils.SourceFile.AddExports | packages/cli/src/angular/utils/typescript-utils.ts:123-129 | the array form equals the single-name form applied to each name in order |
| TypeScriptUtils.SourceFile.AddImport | packages/cli/src/angular/utils/typescript-utils.ts:19-46 | without a class nothing changes; otherwise the imports become the find-or-create, add-if-absent result; exports are unchanged |
| TypeScriptUtils.SourceFile.AddImports | packages/cli/src/angular/utils/typescript-utils.ts:48-54 | the array form equals the single-name form applied to each name in order |
| TypeScriptUtils.SourceFile.RemoveImport | packages/cli/src/angular/utils/typescript-utils.ts:62-84 | the imports become the remove-and-prune result; exports and class are unchanged |
| TypeScriptUtils.SourceFile.RemoveImports | packages/cli/src/angular/utils/typescript-utils.ts:86-92 | the array form equals the single-name removal applied to each name in order |
| TypeScriptUtils.AddedNameIsDeclared | packages/cli/src/angular/utils/typescript-utils.ts:105-120 | after adding, a declaration for the specifier exists and the one found holds the name |
| TypeScriptUtils.WithNameFrame | packages/cli/src/angular/utils/typescript-utils.ts:105-112 | a declaration is created at the end only when none exists for the specifier; otherwise the first one gains the name at the end of its bindings unless already there, and every other declaration is unchanged |
| TypeScriptUtils.WithNameIdempotent | packages/cli/src/angular/utils/typescript-utils.ts:114-120 | adding a name already exported from the specifier leaves the file unchanged |
| TypeScriptUtils.WithNamesDeclaresAll | packages/cli/src/angular/utils/typescript-utils.ts:123-129 | the array form binds every listed name under the specifier, reuses the declaration found, and keeps the bindings it held |
| TypeScriptUtils.WithNamesFromEmpty | packages/cli/src/angular/migrations/standalone/0002-generate-use-icons.ts:58-62 | adding names to an emptied file yields one declaration holding each distinct name once, in order of first appearance |
| TypeScriptUtils.WithoutNameAbsent | packages/cli/src/angular/utils/typescript-utils.ts:67-71 | with no declaration for the specifier, removal changes nothing |
| TypeScriptUtils.WithoutNameEffect | packages/cli/src/angular/utils/typescript-utils.ts:73-83 | the first binding of the name, if any, leaves the first declaration for the specifier and the other bindings keep their order; the declaration is deleted exactly when no binding is left, even when the name was not bound; the other declarations keep their order |
| TypeScriptUtils.RemoveUndoesAdd | packages/cli/src/angular/utils/typescript-utils.ts:30-83 | removing a name just added undoes the addition, when the name was new and the declaration found was not empty |
| CliUtils.FlagKey | packages/cli/src/angular/utils/cli-utils.ts:19 | the key of a `--` token: the token without its leading `--`, converted to camelCase |
| CliUtils.OptionsAfter | packages/cli/src/angular/utils/cli-utils.ts:12-25 | the options object after the first `n` tokens; stated by `OptionsAfterMeaning` |
| CliUtils.ValueAfter | packages/cli/src/angular/utils/cli-utils.ts:20-22 | the value is `true` when no token follows or the next starts with `--`; the boolean spelled by an exact `true`/`false`; otherwise the next token verbatim |
| CliUtils.OptionsAfterMeaning | packages/cli/src/angular/utils/cli-utils.ts:12-25 | the keys are exactly the camelCase keys of the non-empty `--` tokens, and each holds the value given to its last occurrence |
| CliUtils.GetOptionsFromArgv | packages/cli/src/angular/utils/cli-utils.ts:10-29 | the `for` loop, skipping empty tokens, builds the options of the whole token list: one key per distinct flag, the value of its last occurrence, value tokens never keys |
| CliUtils.FlagTrueFlagExample | packages/cli/src/angular/utils/cli-utils.test.ts:23-28 | `--a true --b` gives both keys the value `true`, and the `true` is never a key |
| GenerateUseIcons.IconsOf | packages/cli/src/angular/migrations/standalone/0002-generate-use-icons.ts:25-43 | the icons one file contributes, from the walk of its template; stated by `IconsOfMeaning` |
| GenerateUseIcons.CollectedIcons | packages/cli/src/angular/migrations/standalone/0002-generate-use-icons.ts:24-45 | the per-file icon lists concatenated in file order; stated by `CollectedIconsMeaning` and computed by `CollectIcons` |
| GenerateUseIcons.TemplateText | packages/cli/src/angular/migrations/standalone/0002-generate-use-icons.ts:24-44 | an `.html` file is walked over its full text; a `.ts` file over its inline template only when that is a non-empty string; any other file not at all |
| GenerateUseIcons.CollectedIconsMeaning | packages/cli/src/angular/migrations/standalone/0002-generate-use-icons.ts:24-45 | a name is collected exactly when some file contributes it |
| GenerateUseIcons.IconsOfMeaning | packages/cli/src/angular/migrations/standalone/0002-generate-use-icons.ts:25-43 | a file contributes a name exactly when an element reached by the walk of its template names that icon, and the names come deduplicated in the order the walk first meets them; a file without a template contributes nothing |
| GenerateUseIcons.OneExportPerIcon | packages/cli/src/angular/migrations/standalone/0002-generate-use-icons.ts:59-62 | for lower-case icon names without duplicates, the bindings are distinct and each converts back to its icon: one export per icon, in order |
| GenerateUseIcons.CollectIcons | packages/cli/src/angular/migrations/standalone/0002-generate-use-icons.ts:24-45 | the loop concatenates the icons of every file in file order |
| GenerateUseIcons.RewriteUseIcons | packages/cli/src/angular/migrations/standalone/0002-generate-use-icons.ts:57-62 | the file is emptied and then exports the camelCase binding of each icon, in order, from `ionicons/icons` |
| GenerateUseIcons.GenerateUseIcons | packages/cli/src/angular/migrations/standalone/0002-generate-use-icons.ts:17-66 | the existing `use-icons.ts` is reused, or a new file is created; when icons were found it is saved and holds exactly one declaration exporting their distinct camelCase bindings in first-occurrence order; otherwise it is left untouched and not saved |
| GenerateUseIcons.TwoStaticIconsWalk | packages/cli/src/angular/migrations/standalone/0002-generate-use-icons.ts:101-110 | two `ion-icon` elements with static names record those names in order |
| GenerateUseIcons.TwoStaticIconsExample | packages/cli/src/angular/migrations/standalone/0002-generate-use-icons.test.ts:10-39 | a component whose inline template holds two static `ion-icon` elements yields those two icons in order, and two distinct exports in that order |
| StandaloneMigration.Split | packages/cli/src/angular/migrations/standalone/index.ts:94 | `split` yields at least one piece, and no piece contains the separator |
| StandaloneMigration.SplitJoin | packages/cli/src/angular/migrations/standalone/index.ts:94 | joining the pieces with the separator gives back the text |
| StandaloneMigration.SplitAfter | packages/cli/src/angular/migrations/standalone/index.ts:94 | text without the separator is one piece; text whose first separator follows `a` splits into `a` and the pieces of the rest |
| StandaloneMigration.ParseInt | packages/cli/src/angular/migrations/standalone/index.ts:95-96 | JavaScript `parseInt` with no radix: white space, sign, `0x` prefix, longest digit run, `NaN` as `None`; stated by `ParseIntDecimal`, `ParseDigits` and `UndefinedIsNaN` |
| StandaloneMigration.ParsedVersion | packages/cli/src/angular/migrations/standalone/index.ts:94-96 | `[major, minor] = version.split(".")` and `parseInt` of each, a missing minor read as `undefined`; stated by `DecimalVersionParsed` and `PatchIgnored` |
| StandaloneMigration.ParseDigits | packages/cli/src/angular/migrations/standalone/index.ts:95-96 | `parseInt` gives `NaN` exactly when no digit starts the number |
| StandaloneMigration.DecimalValue | packages/cli/src/angular/migrations/standalone/index.ts:95-96 | the decimal rendering of a number is all digits and reads back as that number |
| StandaloneMigration.ParseIntDecimal | packages/cli/src/angular/migrations/standalone/index.ts:95-96 | `parseInt` reads back a decimal number, ignoring trailing text that does not start with a digit or `x` |
| StandaloneMigration.VersionGate | packages/cli/src/angular/migrations/standalone/index.ts:106-115 | a major version below 7 is rejected; 7 with a minor version below 5 is rejected |
| StandaloneMigration.VersionGateMeaning | packages/cli/src/angular/migrations/standalone/index.ts:106-117 | the gate accepts exactly: a major that is `NaN` or above 7, or 7 with a minor that is `NaN` or at least 5 |
| StandaloneMigration.UndefinedIsNaN | packages/cli/src/angular/migrations/standalone/index.ts:96 | a version without a minor part reads its minor as `parseInt(undefined)`, which is `NaN` |
| StandaloneMigration.CheckInstalledIonicVersion | packages/cli/src/angular/migrations/standalone/index.ts:66-118 | a missing or empty version passes exactly when the user confirms; any other version passes exactly when the gate accepts its parsed major and minor parts |
| StandaloneMigration.PatchIgnored | packages/cli/src/angular/migrations/standalone/index.ts:94-96 | whatever follows the second dot never changes the parsed version |
| StandaloneMigration.DecimalVersionGate | packages/cli/src/angular/migrations/standalone/index.ts:94-117 | a version written `M.m` or `M.m.<rest>` in decimal is accepted exactly when it is at least 7.5 |
| StandaloneMigration.DecimalVersionParsed | packages/cli/src/angular/migrations/standalone/index.ts:94-96 | a decimal `M.m` or `M.m.<rest>` parses as the pair `(M, m)` |
| StandaloneMigration.RunStandaloneMigration | packages/cli/src/angular/migrations/standalone/index.ts:29-57 | the result is the version check; when it fails no step runs and the barrel is untouched; otherwise initialisation and icon-registration removal run, in that order, only with `initialize` set, always before `generateUseIcons`. A run returns the barrel that step used: the existing file, or a new one when none existed. With icons the barrel is saved and holds nothing but one `ionicons/icons` export of the camelCased icons, deduplicated in first-seen order. Without icons nothing is saved, an existing file is untouched and a new one is empty. When the check fails, no barrel is returned and nothing is saved |

## Left out

- The Angular template parser (`parse` of `@angular-eslint/template-parser`) is a parameter from template text to the root nodes. Only the nodes' kind, name, tag name, static attributes, bound input names, source text and children are modelled.
- `getComponentTemplateAsString`, which uses ts-morph and decorator helpers that are not part of this model, is the `componentTemplate` field of a project file. `undefined` is `None`.
- `IONIC_COMPONENTS` (in `ionic-utils.ts`, not part of this model) is the parameter `components`.
- `kebabCaseToCamelCase` (in `string-utils.ts`, not part of this model) is defined here as the rule `-([a-z])` → the letter upper-cased. This rule agrees with the conversions the tests pin down.
- `saveFileChanges` and its dry-run handling are file I/O. The model records only whether the barrel is handed to it (`saved`).
- The path `cliOptions.iconPath` of a newly created barrel is not modelled. A new barrel is a fresh, empty `SourceFile`.
- `skippedIconsHtmlAll` is accumulated by `generateUseIcons` and never used. The model does not carry it, but the per-template skipped list is modelled and proved.
- The `ionicComponents` and router-link flags are computed by the walk and discarded by `generateUseIcons`. They are proved about the walk only.
- `initializeAddIcons` and `removeAddIcons` are ts-morph rewrites keyed on source text. `runStandaloneMigration` only records that they run, and in which order. `files` stands for the project as `generateUseIcons` sees it after them.
- The prompt of `checkInstalledIonicVersion` is the parameter `continueAnyway`. `getActualPackageVersion`, which reads the filesystem, is the parameter `version`.
- Spinner, `log` and `console` output are not modelled.
- `getRelativePath` wraps Node's `path.relative` and prints to the console. It is not modelled.
- `getOrCreateConstructor` is not used by the modelled operations. It is not modelled.
- Only named imports and exports are modelled. Default imports, namespace imports, aliases, and the text and formatting of declarations are not.
- `Object.assign` with special keys such as `__proto__` is not modelled. The options object is a plain map.
- `parseInt` yields a float in JavaScript. The model reads an unbounded integer, so the precision loss for numbers of more than 15 digits is not modelled.
- The program's entry point, `packages/cli/src/index.ts`, handles prompts, terminal detection and project loading. It is not modelled.
- `release.mjs` writes the package version and publishes. It is not modelled.
- Behaviour that the tests expect but the code does not implement is not modelled:
  - ternary resolution;
  - control-flow block traversal;
  - the icon catalog filter;
  - sorting;
  - a "changed" result.
- GenerateUseIcons.GenerateUseIcons: states the barrel as its declaration lists, not as the text `getText()` renders.
