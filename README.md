# messages-modules: the Babel plugin, modelled in Dafny

`messages-modules` lets a TypeScript module call `getMessages(locale)` and get the
messages of its own locale files (`Greeting.en-US.properties` next to
`Greeting.ts`). The Babel plugin in `src/index.ts` makes this work at compile time.

- For every import of a configured hijack target (a function imported from a
  module), it renames the references of the imported local name to a fresh name.
- It declares that fresh name as the original function bound to a messages
  variable: `const _getMessagesFunction = getMessages.bind(_messages)`.
- If it hijacked anything, it puts `const _messages = <locale data>` at the top
  of the module.
- The locale data is a record holding, under each lower-cased locale, the
  messages of every sibling file `<name>.<locale>.<extension>`.
- At run time `getMessages` reads the entry of the lower-cased locale from the
  bound record.

The model has these modules, one file each:

| file | module | what it holds |
|---|---|---|
| `wrappers.dfy` | `Wrappers` | `Option`, `Result`, `Outcome` |
| `text.dfy` | `Text` | ASCII `toLowerCase`, the character classes of the pattern, `indexOf`, `replace` |
| `regexp_escape.dfy` | `RegExpEscape` | `escapeRegExp`, and a reader of the literal patterns it produces |
| `paths.dfy` | `Paths` | the path normalisation of the `Messages` constructor, POSIX `path.parse`, the loader path |
| `ast.dfy` | `Ast` | statements and specifiers, the emitted declarations, renaming of references, reference counts |
| `matcher.dfy` | `Matcher` | `isMatchingModule`, `isMatchingModuleImportName`, `isMatchingNamedImport` |
| `fresh_names.dfy` | `FreshNames` | the names `generateUidIdentifier` hands out |
| `assembler.dfy` | `Assembler` | `getInjectedMessages`: the directory scan as a loop, and its specification `Collect` |
| `runtime.dfy` | `Runtime` | the runtime `getMessages` |
| `rewrite.dfy` | `Rewrite` | the hijack of one import and the visitor's pass, as functions on a `RewriteState` value, with their layout lemmas |
| `transform.dfy` | `Transform` | the whole `Program` visitor on one module as a function, and what it guarantees |
| `scope.dfy` | `Scope` | `ProgramPath`, a class standing for Babel's program path and scope, with the operations the plugin calls |
| `plugin.dfy` | `Plugin` | the `Messages` class, `getVariableName`, `hijackNamedImport` and the visitor, as methods on those objects |

The imperative parts of the source stay imperative: the `forEach` over the
directory, the loop of `hijackNamedImport` over the specifiers, the visitor's
nested loops over statements and targets, and the `Messages` object's counter.
Each method is proved to compute the matching function of `Assembler`, `Rewrite`
or `Transform`. The properties are proved about those functions.

Points where the model makes a reading of the code explicit:

- The two `.` around the locale in the file pattern (`src/index.ts:89`) are not
  escaped. Each therefore matches any single character other than a line
  terminator. The locale is `[\w-]+` with `\w` taken as ASCII.
- The loader can throw. It is modelled as a function returning `None`; the
  throw propagates as `LoaderFailed(path)` and aborts the compilation.
- The fresh name is generated before the binding check
  (`src/index.ts:275-284`). A matching specifier without a binding therefore
  still reserves a name.
- A binding with no references still gets its bind declaration and still
  triggers the injection.
- Several hijacks of one import all insert right after that import. The newest
  declaration therefore comes first (`BindDecls`).
- Re-exports (`export { getMessages } from '…'`) are never matched, because
  `isMatchingModule` rejects everything that is not an import
  (`src/index.ts:119`). The fixture `assets/tests/named-export.ts` (Tests 2-5)
  expects `export { getMessages … } from 'messages-modules'` statements to be
  hijacked too; the model follows the code, under which they are left as they are.

## Model

| member | source | states |
|---|---|---|
| RegExpEscape.EscapeReadsBack | src/index.ts:25-27 | read as a pattern of literal atoms, the escaped string matches exactly the input: dropping the inserted backslashes gives the input back |
| RegExpEscape.EscapeKeepsPlain | src/index.ts:25-27 | a string without any of `.*+?^${}()\|[]\` is left unchanged |
| RegExpEscape.EscapeLength | src/index.ts:25-27 | the escape is longer than the input by exactly one backslash per metacharacter |
| RegExpEscape.EscapeConcat | src/index.ts:25-27 | the replacement is global: escaping a concatenation is concatenating the escapes |
| RegExpEscape.EscapeInjective | src/index.ts:25-27 | distinct strings have distinct escapes |
| Text.Lower | src/index.ts:101 | `toLowerCase` keeps the length and lower-cases each character on its own (ASCII letters only) |
| Text.LowerIsLowerCase | src/index.ts:101 | a lower-cased string has no upper-case letter, and lower-casing it again changes nothing |
| Text.LowerIgnoresCase | src/index.ts:352 | strings equal up to letter case lower-case to the same string |
| Text.FindFirst | src/index.ts:200 | `indexOf` finds an occurrence and no earlier one, and finds none exactly when the pattern never occurs |
| Text.RemoveFirst | src/index.ts:200 | a string pattern cuts out its first occurrence, the one `indexOf` finds, and keeps everything around it; without an occurrence nothing changes |
| Text.ReplaceChar | src/index.ts:205-206 | the global replacement changes every `from` character to `to` and no other character |
| Text.LastIndexOf | src/index.ts:83 | the index found holds the character and no later index does; `None` exactly when the character is absent |
| Paths.NormaliseFilename | src/index.ts:199-207 | the normalised path is never longer than the file name, and with a separator other than `/` no separator is left in it |
| Paths.UnderWorkingDirectory | src/index.ts:199-207 | `cwd + sep + rel` normalises to `rel`, with its separators turned into `/` |
| Paths.OutsideWorkingDirectory | src/index.ts:199-201 | a file name that does not contain the working directory only loses one leading `/` |
| Paths.ParsePathDir | src/index.ts:83-84 | the base name is the `/`-free tail after the last `/`; the parsed `dir` is everything before that `/` (`/` for a file in the root), or empty when there is no `/` |
| Paths.ParsePathName | src/index.ts:83-85 | the parsed `name` is the base name cut just before its last `.` (no `.` follows the cut); the cut happens exactly when the base has a `.` after its first character and is not `..`, and otherwise `name` is the whole base |
| Matcher.MatchesExactly | src/index.ts:150-157 | a statement matches exactly when it is an import from the target's module with a named specifier `{ <function> as x }` |
| Matcher.NameOnlyNeverMatches | src/index.ts:118-122 | an import of the right name from another module never matches |
| Matcher.ModuleOnlyNeverMatches | src/index.ts:132-140 | default, namespace and other-named specifiers never match |
| Matcher.OnlyImportsMatch | src/index.ts:119 | re-exports and every other non-import statement never match |
| Matcher.MatchSplits | src/index.ts:153-155 | matching an import is deciding it for some specifier (`some`) |
| FreshNames.FreshName | src/index.ts:252 | the generated name is not taken and starts with `_` followed by the seed |
| FreshNames.FreshNamePrefersPlain | src/index.ts:212 | the name chosen is `_seed` exactly when that name is free |
| Scope.ProgramPath.constructor | src/index.ts:313 | a freshly crawled program takes every name it mentions and every binding, and has no renames |
| Scope.ProgramPath.GenerateUid | src/index.ts:252 | `generateUidIdentifier` returns the first free candidate, which was not taken before, and reserves just that name |
| Scope.ProgramPath.RenameReferences | src/index.ts:286-288 | every reference to the old name now reads the new name and the declarations are untouched; the scope invariant is kept |
| Scope.ProgramPath.InsertAfter | src/index.ts:291-295 | the statement becomes the one right after `pos`; the others keep their order |
| Scope.ProgramPath.Unshift | src/index.ts:230-238 | the statement becomes the first; the others follow unchanged |
| Ast.InsertAt | src/index.ts:291-295 | insertion puts the statement at the index and shifts exactly the statements from there on by one |
| Ast.RenameMovesReferences | src/index.ts:286-288 | after a rename the old name has no references, the new name gains all of them, and every other name keeps its count |
| Assembler.EntryLocaleFits | src/index.ts:88-96 | a matching entry name is the base name, one non-line-terminator character, a non-empty `[\w-]` locale, one such character, and the extension |
| Assembler.FitsEntryLocale | src/index.ts:88-96 | every such decomposition of a name is found, with the same locale, so the match is an if-and-only-if |
| Assembler.GetInjectedMessages | src/index.ts:78-108 | the loop over the listing computes `InjectedMessagesOf`: the collection of every matching file, or the first loader failure |
| Assembler.CollectKeys | src/index.ts:92-105 | the collection's keys are exactly the lower-cased locales of the matching file entries |
| Assembler.CollectLastWins | src/index.ts:101-102 | among entries with the same lower-cased locale, the last in directory order supplies the messages, read from `dir/name` |
| Assembler.CollectFails | src/index.ts:101-102 | the assembly fails exactly when the loader fails for some matching file |
| Assembler.CollectFailsAtFirst | src/index.ts:92-102 | the failure names the path of the first matching file whose loader fails |
| Assembler.NonFilesIgnored | src/index.ts:93 | directories and other non-file entries never contribute |
| Assembler.KeyShape | src/index.ts:101 | every key is a non-empty lower-case run of `[\w-]` |
| Runtime.UnboundFails | src/index.ts:349-351 | `getMessages` fails exactly when the context is absent or not injected, whatever the locale |
| Runtime.CaseInsensitive | src/index.ts:352 | locales equal up to letter case get the same messages |
| Runtime.LookupFindsLastFile | src/index.ts:352-353 | against an assembled record, a locale gets the messages of the last file with its lower-cased locale |
| Runtime.LookupMissingIsEmpty | src/index.ts:353 | a locale without a file gets the empty object |
| Runtime.EnUsKey | src/index.ts:88-101 | `Greeting.en-US.properties` is the `en-us` file of `Greeting` |
| Runtime.FrCaKey | src/index.ts:88-101 | `Greeting.FR-CA.properties` is the `fr-ca` file of `Greeting` |
| Runtime.SourceFileIsNoLocaleFile | src/index.ts:88-96 | `Greeting.ts` itself does not match |
| Runtime.GreetingParse | src/index.ts:83-85 | `src/Greeting.ts` parses to the directory `src` and the name `Greeting` |
| Runtime.EnUsPath | src/index.ts:98-100 | the loader is handed `src/Greeting.en-US.properties` for that entry of `src` |
| Runtime.FrCaPath | src/index.ts:98-100 | the loader is handed `src/Greeting.FR-CA.properties` for that entry of `src` |
| Runtime.GreetingCollect | src/index.ts:92-105 | the listing of `src` collects exactly the `en-us` and `fr-ca` messages, loaded from `src/<entry>` |
| Runtime.GreetingLookup | src/index.ts:346-354 | in the example record, `EN-us` finds the `en-us` messages and `de-DE` finds the empty object |
| Runtime.GreetingExample | src/index.ts:78-108 | the example end to end, from `src/Greeting.ts` and the listing of `src`: the keys are `en-us` and `fr-ca`, `EN-us` finds the `en-US` messages and `de-DE` none |
| Rewrite.RenameStmtLogKind | src/index.ts:279 | renames change nothing but references: an import or a generated declaration is left as it is |
| Rewrite.HijackSpecifiersLog | src/index.ts:272-297 | hijacking an import logs one rename and one messages-variable request per matching specifier with a binding, in specifier order |
| Rewrite.HijackSpecifiersLayout | src/index.ts:272-297 | after the hijack: the statements up to the import, renamed; one bind declaration per rename; the statements after the import, renamed |
| Rewrite.HijackSpecifiersFresh | src/index.ts:275 | every name an import is renamed to was free before, differs from the other new names, and is reserved afterwards |
| Rewrite.VisitTargetsLog | src/index.ts:322-330 | one statement, checked against every target in order, renames exactly the locals it hijacks |
| Rewrite.VisitTargetsLayout | src/index.ts:322-330 | the declarations of all targets of one statement land right after that statement |
| Rewrite.VisitTargetsFresh | src/index.ts:322-330 | the names of all targets of one statement are fresh and distinct |
| Rewrite.ScanLog | src/index.ts:321-331 | the pass over the first `n` statements renames exactly `HijackedLocals`, in order, and requests the messages variable once per rename |
| Rewrite.ScanFresh | src/index.ts:321-331 | every name the pass renames to is new, all distinct, and reserved |
| Rewrite.ScanLayout | src/index.ts:321-331 | after `n` statements, the module is the weave of those statements followed by the statements not yet visited, renamed; inserted declarations are never visited |
| Rewrite.WeaveSource | src/index.ts:286-295 | without its generated declarations, the woven module is the renamed original |
| Rewrite.WeaveMessagesDecls | src/index.ts:291-295 | weaving adds no messages declaration |
| Rewrite.WeaveRefCount | src/index.ts:286-295 | the woven module has the references of the renamed original, because bind declarations are not references |
| Rewrite.RenameLogCoverage | src/index.ts:286-288 | after fresh renames, the renamed names have no references left, each new name has its local's references, and all other names keep theirs |
| Rewrite.HijackedLocalsNonEmpty | src/index.ts:282-284 | the pass renames something exactly when a statement imports a target's function under a name that has a binding |
| Transform.MessagesVar | src/index.ts:212 | the messages variable is a name the module scope did not hold |
| Transform.ProgramVisit | src/index.ts:193-197 | without a file name the visit throws `MissingFilename` and leaves the module unchanged |
| Transform.HijackAllShape | src/index.ts:321-331 | the pass renames exactly the hijacked locals to fresh distinct names, requests the messages once per rename, and leaves the woven module |
| Transform.VisitRenames | src/index.ts:272-297 | the visit renames exactly the hijacked locals, in order, to names free before the visit and other than the messages variable |
| Transform.VisitInjects | src/index.ts:226-239 | when something was hijacked and the data assembles, the module is the messages declaration followed by the woven module |
| Transform.VisitFails | src/index.ts:232-236 | when the data cannot be assembled, the visit throws the loader's error, after the hijacks |
| Transform.VisitUntouched | src/index.ts:227 | with nothing to hijack, the module comes back unchanged, and the listing and the loader are never consulted |
| Transform.VisitHijacksWhen | src/index.ts:323-329 | the visit renames something exactly when some statement imports some target's function under a bound name |
| Transform.VisitCases | src/index.ts:313-334 | the module after the visit is the original, or the weave with or without one messages declaration in front; the declaration is there exactly when the visit completed |
| Transform.VisitSource | src/index.ts:313-334 | without the generated declarations, the module after the visit is the original with the renames applied |
| Transform.VisitMessagesDecl | src/index.ts:226-239 | a module ends up with one messages declaration, first, exactly when something was hijacked and the visit completed, and with none otherwise |
| Transform.VisitReferences | src/index.ts:286-288 | after the visit no reference in the original statements names a hijacked local (only the bind declarations still name it), each new name carries its local's references, and no other count changes |
| Plugin.Messages.constructor | src/index.ts:182-213 | the path is normalised, `_messages` (or the first free variant) is reserved in the program scope, and the count starts at zero; a scope whose names cover its body keeps that invariant |
| Plugin.Messages.GetVariableName | src/index.ts:218-221 | always the same reserved name; the count grows by one |
| Plugin.Messages.InjectIfMatchesFound | src/index.ts:226-239 | with a zero count nothing changes; otherwise the assembled data is declared first, or the loader failure is returned with the body unchanged; the scope invariant is kept |
| Plugin.GetVariableName | src/index.ts:251-253 | a fresh name from `<function><suffix>`, reserved in the scope |
| Plugin.HijackNamedImport | src/index.ts:265-298 | the loop over the specifiers computes `HijackSpecifiers` on the program's state and keeps every name of the body taken in the scope |
| Plugin.VisitStatement | src/index.ts:322-330 | the loop over the targets computes `VisitTargets` for one statement |
| Plugin.VisitBody | src/index.ts:321-331 | the loop over the statements captured before the pass computes `Scan` |
| Plugin.ProgramVisitor | src/index.ts:306-337 | the `Program` visitor leaves exactly the body, scope and outcome that `ProgramVisit` describes, and every name of the new body, the generated declarations included, is taken in the scope |

The functions the rows above are stated about carry no contract of their own;
each models these lines:

- `RegExpEscape.EscapeRegExp`: `escapeRegExp`, `src/index.ts:25-27`.
- `Matcher.IsMatchingModule`, `Matcher.IsMatchingModuleImportName`, `Matcher.IsMatchingNamedImport`: `src/index.ts:118-157`.
- `Assembler.Collect` and `Assembler.InjectedMessagesOf`: `getInjectedMessages`, `src/index.ts:78-108`.
- `Runtime.GetMessages`: `getMessages`, `src/index.ts:346-354`.
- `Rewrite.HijackSpecifier` and `Rewrite.HijackSpecifiers`: `hijackNamedImport`, `src/index.ts:265-298`.
- `Rewrite.VisitTargets` and `Rewrite.Scan`: the visitor's loops, `src/index.ts:321-331`.
- `Transform.ProgramVisit`: the `Program` visitor, `src/index.ts:306-337`.

## Left out

- `JSON.stringify` and `template.ast` (`src/index.ts:107`, `src/index.ts:231-237`, `src/index.ts:292-294`): emitted code is modelled as `BindDecl` and `MessagesDecl` values, not as text to parse.
- The JSON round trip of the record is not modelled: the runtime receives the `InjectedMessages` value itself.
- `readdirSync` and the file system are parameters. The listing is a function `ReadDir` from directory to entries; the messages loader is a `Loader` returning `None` when it throws. A failure of `readdirSync` itself (a missing directory) is not modelled.
- The loader wrapper and the properties-file parser live outside `src/index.ts` and are not part of this model.
- `process.cwd()` and `path.sep` are parameters of the constructor and of `ProgramVisit`.
- FreshNames.FreshName: the candidates are built from the seed as given. Babel's `generateUid` first cleans the seed (`toIdentifier`, then strips leading `_` and trailing digits), so a function named `_t` gets `_tFunction` in Babel and `__tFunction` in the model; seeds that are plain identifiers without a leading `_` or trailing digits, such as `messages` and `getMessagesFunction`, are unaffected.
- Scope.ProgramPath.GenerateUid: only the candidates `_seed`, `_seed2`, `_seed3`, … and the first-free rule are modelled. Babel's own checks (globals, references of enclosing programs, uids of other plugins) are folded into the set of taken names.
- `scope.rename` with nested scopes is not modelled. Statements other than imports and generated declarations are `Other` values listing the identifiers they reference, and a rename changes every occurrence of the old name in them. `ExportFrom` statements (`export { x } from '…'`) name only bindings of another module, so a rename leaves them as they are. Shadowing inside a nested scope is therefore not represented.
- Text.Lower: `toLowerCase` is modelled on ASCII letters only; the case mapping of other Unicode characters is not modelled.
- Assembler.EntryLocale: the pattern works on UTF-16 code units, the model on Unicode scalar values. The `.` around the locale matches a single code unit, so `Greeting😀en.properties` (the emoji is two code units) does not match in the code but does in the model.
- Runtime.GetMessages: the record is a plain object. A locale that names an inherited property (`constructor`, `toString`) yields that property in the code (`getMessages("constructor")` returns the `Object` function); the model returns the empty record for it.
- Assembler.Collect: a file whose locale lower-cases to `__proto__` (`Greeting.__proto__.properties`) calls the prototype setter in the code and is dropped when the record is serialised; the model stores it as an ordinary key.
- Assembler.EntryLocale: the extension is taken as a literal. The code splices it into the pattern unescaped, so an extension holding pattern metacharacters would behave as a pattern; that is not modelled.
- Paths.ParsePath: POSIX `path.parse` for paths without trailing separators; Windows roots and trailing `/` are not modelled.
- Transform.ProgramVisit: a file name that is not a string is modelled as an absent one. In the model the check comes first in `ProgramVisitor`; in the code it is the constructor's first step after storing the path, before any name is reserved, so no state differs.
- Re-export rehoming is not modelled, because the code does not implement it (`src/index.ts:119`).
- `src/swc-plugin/index.ts` only prints nodes, and the test runner compares files produced by the Babel command line; neither is part of this model.
- Exceptions are modelled as `Outcome`/`Result` values. After a loader failure the model still reports the hijacked module (`Transform.VisitFails`); in Babel the compilation of that file is abandoned.
