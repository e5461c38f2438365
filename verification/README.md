# ng-schematics `ng-new`: a Dafny model

This project models the three pieces of logic at the heart of the
`ng-new` schematic of ng-schematics. The schematic wraps Angular's own
project generator and then reworks the generated project.

- **The OnPush patcher** (`addOnPushToComponent`).
  - It parses `/src/app/app.component.ts`.
  - It finds the `Component` decorator of every class and every
    `@angular/core` named import.
  - It records `insertRight` edits that add
    `changeDetection: ChangeDetectionStrategy.OnPush` and
    `ChangeDetectionStrategy`.
  - It commits all the edits once, against the original text.
- **The Jest migration** (`jestChain`). It removes Karma and its files and
  packages, adds the Jest packages, and edits `tsconfig.spec.json`. It then
  points every project's `test` target at the Jest builder.
- **The generator's own edits and options**:
  - `removeProtractor`;
  - the `e2e`/lint workspace edit;
  - the tooling packages;
  - the edits to `tsconfig.json`, `package.json` and `tslint.json`;
  - the defaulting of `directory`;
  - the options handed to Angular's generator;
  - the `commit` normalisation;
  - the install and git-init tasks.

Modules, one per file:

- `Wrappers`: `Option` and `Result`.
- `Paths`: `path.relative('/', name)` and the store's key normalisation.
- `EditBuffer`: `insertRight` and `commitUpdate`.
- `Syntax`: the slice of the TypeScript AST the patcher reads.
- `OnPush`: `addOnPush.ts`.
- `Lists`: `findIndex` and `splice`.
- `Json`: JSON values, plus the strict-mode JavaScript semantics of the property reads, writes and deletes that the edits perform.
- `Workspaces`: the workspace definition.
- `Host`: the virtual file store, the JSON codec, and read-edit-write of a JSON file.
- `PackageJson`: the dependency helpers the schematic calls.
- `Jest`: `jest.ts`.
- `ConfigEdits`: the three configuration-file edits of `index.ts`.
- `NgNew`: the rest of `index.ts`.

Modelling conventions:

- **Errors.** A JavaScript exception is a `Failure` value. Examples: a
  non-null assertion on an absent value, a property read of `undefined`, or
  a write to a string. The first exception ends a chain of rules.
- **Parser.** The TypeScript parser is a function parameter
  (`parse: string -> seq<Statement>`). The AST carries the end offsets the
  parser reports.
- **JSON text.** `JSON.parse` and `JSON.stringify(…, null, 2)` are a `Codec`
  parameter. The lemmas that read a file back assume that printing and then
  parsing gives the value back (`RoundTrips`).
- **Workspace.** It is held decoded next to the file store (`Tree`).

## Model

| member | source | states |
|---|---|---|
| Paths.RelativeToRoot | src/ng-new/addOnPush.ts:11 | `relative('/', name)` always yields a store key: no empty, `.` or `..` segment, and no leading or trailing `/` |
| Paths.RootedKeyRoundTrip | src/ng-new/addOnPush.ts:11-12 | for every store key `k`, `relative('/', '/' + k)` is `k` itself, from any working directory |
| Paths.RelativeToRootIdempotent | src/ng-new/addOnPush.ts:11 | rooting a resolved key with `/` and resolving it again gives the same key |
| Paths.RelativeKeyRoundTrip | src/ng-new/jest.ts:43 | a relative name that is already a store key, such as `karma.conf.js`, addresses the file stored under that key |
| Host.Key | src/ng-new/addOnPush.ts:12 | the store resolves every name to a well-formed key |
| Host.Delete | src/ng-new/jest.ts:43 | `host.delete` fails exactly when the file is absent; otherwise it removes exactly that key and keeps every other file's text |
| Host.DeleteIfExists | src/ng-new/jest.ts:44-46 | the guarded delete never fails; afterwards the file is absent, and only that key is gone |
| Host.EditJsonFile | src/ng-new/index.ts:130-147 | read-parse-edit-write of a JSON file: a missing file fails first, then unparseable text, then an edit that throws; on success only that file's text changes |
| Host.EditJsonReadsBack | src/ng-new/index.ts:133-147 | with a round-tripping codec the edit succeeds exactly when the file parses and the edit succeeds, and reading the file back gives the edited value |
| Json.Member | src/ng-new/index.ts:136 | reading a property throws exactly on `null`/`undefined`; it yields the field of an object, and `undefined` for any other value |
| Json.SetMember | src/ng-new/index.ts:39-44 | a strict-mode write succeeds exactly on an object or an array; it updates the object, and leaves an array's serialised form unchanged |
| Json.DeleteMember | src/ng-new/index.ts:72 | `delete` throws exactly on `null`/`undefined`; it removes the key from an object and leaves any other value unchanged |
| Lists.IndexOf | src/ng-new/jest.ts:67 | `findIndex(v => v === x)` is absent exactly when `x` does not occur; otherwise it is the first position of `x` |
| Lists.RemoveAt | src/ng-new/jest.ts:69 | `splice(i, 1)` keeps the prefix before `i` and the suffix after it, and removes exactly one element from the multiset |
| Lists.RemoveFirstSpec | src/ng-new/jest.ts:67-70 | only the first occurrence is removed; the others keep their order, the list is unchanged when `x` is absent, and the count of `x` drops by one |
| PackageJson.AddDependency | src/ng-new/jest.ts:38 | adding a dependency fails exactly on a non-object manifest. When the section is an object or absent, the name is listed afterwards. A new entry carries the given version. Earlier entries and other fields are kept, and nothing else is added |
| PackageJson.RemoveDependency | src/ng-new/jest.ts:53 | the removal fails exactly on a non-object manifest, and it adds or drops no top-level field |
| PackageJson.RemoveDependencySpec | src/ng-new/jest.ts:53 | after removal, no section lists the name; every other name is listed exactly when it was before, with the same version; open sections stay open; fields outside the four sections are unchanged |
| PackageJson.AddDependencies | src/ng-new/index.ts:119 | adding a list of dependencies changes only `package.json` and adds or removes no file |
| PackageJson.RemoveDependencies | src/ng-new/jest.ts:47-53 | removing a list of names changes only `package.json` and adds or removes no file |
| PackageJson.AddDependenciesLists | src/ng-new/index.ts:82-121 | each dependency added in turn is listed afterwards when its section is open; nothing listed before is lost; every new listing is one of the added dependencies |
| PackageJson.AddDependenciesKeepsOut | src/ng-new/jest.ts:38 | adding packages whose names avoid a set of names never lists a name of that set |
| PackageJson.RemoveDependenciesClears | src/ng-new/jest.ts:47-53 | after removing a list of names, none of them is listed; every other name is listed exactly when it was before; open sections stay open |
| Jest.RemoveKarma | src/ng-new/jest.ts:42-55 | a missing `karma.conf.js` makes the delete fail; on success `karma.conf.js` and `/src/test.ts` are both absent, no other file goes, and only `package.json` changes |
| Jest.RemoveKarmaClears | src/ng-new/jest.ts:47-53 | none of the five Karma packages is listed afterwards; every other package is listed exactly when it was before |
| Jest.FindTestFile | src/ng-new/jest.ts:63 | `files.findIndex(f => f.endsWith('test.ts'))` throws exactly when a non-string precedes the first match. It finds the first entry ending in `test.ts`, and finds nothing exactly when every entry is a string without that suffix |
| Jest.WithoutFirstTestFile | src/ng-new/jest.ts:63-66 | only the first `test.ts` entry is removed, the others keeping their order; a list without one is left unchanged |
| Jest.JestTypes | src/ng-new/jest.ts:67-71 | `jest` comes first, and the list grows by one unless a `jasmine` entry made way for it |
| Jest.JestTypesKeepOrder | src/ng-new/jest.ts:67-71 | after `jest` come the earlier types in their order, without the first `jasmine` (which is removed only if present); exactly one `jasmine` leaves the multiset |
| Jest.JestCompilerOptions | src/ng-new/jest.ts:67-73 | `types` is the Jest list; `esModuleInterop` and `emitDecoratorMetadata` are true; every other compiler option is unchanged |
| Jest.EditTsSpecConfigDoc | src/ng-new/jest.ts:57-76 | the edit succeeds exactly when `files` is an array that does not throw before its first match and `compilerOptions.types` is an array. Only `files` and `compilerOptions` change, as the two list edits say |
| Jest.JestWorkspaceEdited | src/ng-new/jest.ts:78-100 | every project's `test` target becomes `{builder: '@angular-builders/jest:run'}` with no options and no configurations. Each project gets the spectator schematic defaults, and the CLI's `defaultCollection` becomes `@ngneat/spectator`. Nothing else changes |
| Jest.JestWorkspaceIdempotent | src/ng-new/jest.ts:78-100 | running the workspace edit on its own output changes nothing |
| Jest.JestChain | src/ng-new/jest.ts:105 | the chain's workspace is the Jest workspace edit; the store has lost exactly the two Karma files |
| Jest.JestChainManifest | src/ng-new/jest.ts:105 | after the chain no Karma package is listed, and, when the manifest has a development section, all five Jest packages are listed |
| Jest.JestChainSpecConfig | src/ng-new/jest.ts:105 | after the chain, `tsconfig.spec.json` holds exactly the spec-config edit of its original value |
| EditBuffer.Commit | src/ng-new/addOnPush.ts:31 | the commit fails exactly when some anchor lies beyond the end of the text, and it reports such an anchor |
| EditBuffer.CommitInterleaves | src/ng-new/addOnPush.ts:27-31 | the committed text interleaves original characters and payloads. Deleting the inserted fragments gives back the original text, and the fragments are exactly the recorded payloads |
| EditBuffer.CommitIsSplice | src/ng-new/addOnPush.ts:31 | for strictly ascending anchors, the commit equals splicing the payloads in from the highest offset down |
| EditBuffer.SwapDistinctAnchors | src/ng-new/addOnPush.ts:19-30 | two insertions at different anchors can be recorded in either order with the same committed text |
| OnPush.ReadFileStripsRoot | src/ng-new/addOnPush.ts:10-14 | the compiler's `readFile` returns the text stored under the name with its leading `/` stripped, and absent when no such file exists |
| OnPush.CalleeName | src/ng-new/addOnPush.ts:37 | reading `expression.expression` throws exactly when the decorator expression has no `expression` child |
| OnPush.FindComponent | src/ng-new/addOnPush.ts:36-38 | `decorators.find` returns the first `Component` decorator, after rejecting all earlier ones. It returns nothing when all are rejected, and throws on an unreadable decorator before any match |
| OnPush.PlanClass | src/ng-new/addOnPush.ts:35-49 | no decorators, or no `Component` decorator, is an error. A success comes from the first `Component` decorator: a warning exactly when it is not a call, and otherwise the option edit anchored after the last property of its first argument |
| OnPush.ClassPlanAt | src/ng-new/addOnPush.ts:36-49 | the first `Component` decorator decides the outcome. Not a call gives the warning. `@Component()` fails on the missing argument, a non-object argument fails, and `{}` fails on the missing last property. A non-empty options object gets the option edit after its last property |
| OnPush.ClassUnreadable | src/ng-new/addOnPush.ts:36-38 | a bare decorator such as `@Input` before any `Component` decorator makes the `find` callback throw, so the class fails |
| OnPush.ClassPlansIff | src/ng-new/addOnPush.ts:35-49 | a class plans without throwing exactly when its first `Component` decorator, after readable non-matching ones, is not a call or is called with a non-empty options object |
| OnPush.PlanImport | src/ng-new/addOnPush.ts:23-28 | an import from another module plans nothing. An `@angular/core` import with a non-empty named-import list gets `, ChangeDetectionStrategy` after its last name. A core import without a clause fails, as do one without named imports and one with an empty list, each with its own error |
| OnPush.WalkSpec | src/ng-new/addOnPush.ts:19-30 | the walk succeeds exactly when every top-level child plans without throwing; on failure it reports the first child that threw |
| OnPush.StatementPlansIff | src/ng-new/addOnPush.ts:19-30 | one top-level child plans without throwing exactly when it is patchable: a class as above, an import from another module or a core import with named imports, or any other statement |
| OnPush.WalkSucceedsIff | src/ng-new/addOnPush.ts:19-30 | the walk succeeds exactly when every top-level child is patchable |
| OnPush.WalkCounts | src/ng-new/addOnPush.ts:19-30 | no early exit: every class declaration and every `@angular/core` import contributes exactly one edit or one warning |
| OnPush.WalkCovers | src/ng-new/addOnPush.ts:19-30 | the plan holds exactly the edits planned for the individual children |
| OnPush.ImportEditPlanned | src/ng-new/addOnPush.ts:23-28 | whatever the classes contribute, every `@angular/core` named import gets its edit |
| OnPush.NotRecognisedWarns | src/ng-new/addOnPush.ts:39-42 | a `Component` decorator that is not a call gives one warning and no edit |
| OnPush.AddOnPushToComponent | src/ng-new/addOnPush.ts:8-33 | a missing entry file is an error; on success only the entry file's text changes |
| OnPush.PatchCommits | src/ng-new/addOnPush.ts:16-31 | when the parser's offsets lie within the text and no step throws, the commit cannot fail |
| OnPush.WellFormedFilePatched | src/ng-new/addOnPush.ts:8-33 | a stored `app.component.ts` whose children are all patchable, parsed with offsets inside its text, is always patched |
| OnPush.PatchInterleaves | src/ng-new/addOnPush.ts:18-31 | the patched file is the original text with exactly the planned payloads inserted at their anchors |
| OnPush.CanonicalRun | src/ng-new/addOnPush.ts:19-31 | on one core import and one component class, each payload is inserted once, right after its anchor |
| OnPush.Rerun | src/ng-new/addOnPush.ts:8-33 | patching a stored text that parses as one core import and one component class inserts each payload once, right after its anchor, with no warning; no other file changes |
| OnPush.SecondRunDuplicates | src/ng-new/addOnPush.ts:19-31 | patching the patched file again appends a second option and a second import name |
| ConfigEdits.KeysOfSpec | src/ng-new/index.ts:39-43 | a key is among the written keys exactly when some write in the run names it |
| ConfigEdits.UpdatedSpec | src/ng-new/index.ts:39-43 | a run of writes to one object adds exactly its keys, keeps every other field, and, when no key repeats, leaves each key holding its value |
| ConfigEdits.SetMembers | src/ng-new/index.ts:74-77 | a run of writes to one value succeeds exactly when the value is an object or an array |
| ConfigEdits.SetMembersSpec | src/ng-new/index.ts:74-77 | on an object the writes amount to the field updates in order; on an array they change nothing |
| ConfigEdits.EditTsConfigDoc | src/ng-new/index.ts:33-47 | the edit fails exactly when the configuration is not an object, or either option group is neither an object nor an array; only the two option groups change |
| ConfigEdits.TsConfigCompilerFlags | src/ng-new/index.ts:39-43 | `strict`, `noUnusedParameters` and `noUnusedLocals` become true and `strictPropertyInitialization` false. `plugins` becomes the TSLint plugin. The other compiler options are unchanged |
| ConfigEdits.TsConfigTemplateFlag | src/ng-new/index.ts:44 | `strictTemplates` becomes true and the other Angular compiler options are unchanged |
| ConfigEdits.EditScripts | src/ng-new/index.ts:70-77 | the script edit succeeds exactly when `scripts` is an object or an array |
| ConfigEdits.ScriptsEdited | src/ng-new/index.ts:70-77 | `e2e` is absent afterwards. `test`, `build`, `test:ci` and `commit` hold their fixed commands, every other script is unchanged, and an array is left as it was |
| ConfigEdits.AddConfigToPackageJsonDoc | src/ng-new/index.ts:49-80 | the edit succeeds exactly when the manifest is an object whose `scripts` is an object or an array |
| ConfigEdits.PackageJsonConfigured | src/ng-new/index.ts:49-80 | on success, `husky`, `lint-staged` and `commitizen` get their fixed configurations, `scripts` gets the script edit, and no other field changes |
| ConfigEdits.EditTsLintDoc | src/ng-new/index.ts:130-148 | `extends` becomes its earlier entries followed by `tslint-config-prettier`: none when falsy, the array's entries for an array, and the value itself otherwise. The on-push rule is set to true, other rules and fields are unchanged, and the edit fails exactly when `rules` is neither an object nor an array |
| ConfigEdits.TsLintSecondRunAppendsAgain | src/ng-new/index.ts:136-138 | nothing guards against a second run: it appends the prettier preset a second time |
| NgNew.DeleteE2eFiles | src/ng-new/index.ts:26-28 | exactly the files under `e2e/` are deleted, and every other file keeps its text |
| NgNew.RemoveProtractor | src/ng-new/index.ts:25-31 | no file under `e2e/` remains, every other file remains, and only `package.json` changes among them |
| NgNew.RemoveProtractorClears | src/ng-new/index.ts:29 | `protractor` is listed in no section afterwards; every other package is listed exactly when it was before |
| NgNew.EditAngularConfig | src/ng-new/index.ts:123-128 | the workspace edit throws exactly when some project lacks a lint target or lint options |
| NgNew.AngularConfigEdited | src/ng-new/index.ts:123-128 | every project loses its `e2e` target and lints with `format: 'stylish'`. The lint builder, the other lint options, the lint configurations, the other targets, the extensions and the project names are all unchanged |
| NgNew.AngularConfigIdempotent | src/ng-new/index.ts:123-128 | the workspace edit applied to its own output changes nothing |
| NgNew.AddBaseDependencies | src/ng-new/index.ts:82-121 | adding the tooling packages changes only `package.json` |
| NgNew.BaseDependenciesListed | src/ng-new/index.ts:82-121 | when the manifest has a development section, all seven tooling packages are listed in it afterwards; every other new listing is one of them |
| NgNew.DefaultDirectory | src/ng-new/index.ts:151-153 | `directory` becomes `name` exactly when it was falsy and is otherwise unchanged; no other option changes |
| NgNew.DefaultDirectoryIdempotent | src/ng-new/index.ts:151-153 | defaulting the directory a second time changes nothing |
| NgNew.NgNewOptionsSpec | src/ng-new/index.ts:155-171 | Angular's generator receives the nine passed-through options unchanged, plus the six fixed ones, and nothing else |
| NgNew.NgNewOptionsDependOnlyOnPassedThrough | src/ng-new/index.ts:155-171 | two option sets that agree on the passed-through options give the same generator options |
| NgNew.CommitOption | src/ng-new/index.ts:197 | an object, an array or `null` passes through unchanged; any other truthy value becomes `{}`, and a falsy one `false` |
| NgNew.CommitOptionKeepsTruthiness | src/ng-new/index.ts:197 | the normalised value is truthy exactly when the option was, and normalising twice changes nothing |
| NgNew.ScheduleTasks | src/ng-new/index.ts:186-200 | one task is scheduled per non-skipped step, and every dependency points to an earlier task |
| NgNew.TasksScheduled | src/ng-new/index.ts:186-200 | install is scheduled exactly when `skipInstall` is falsy, and git-init exactly when `skipGit` is falsy. Git-init waits for install exactly when install was scheduled, and it gets the normalised `commit` and the directory |
| NgNew.EditConfigFiles | src/ng-new/index.ts:179-182 | the four configuration steps add or remove no file |
| NgNew.EditGeneratedShape | src/ng-new/index.ts:175-185 | after the chain, the workspace carries the Jest edit followed by the lint edit; exactly the Karma files and the end-to-end files are gone |

## Left out

- **Parsing and printing.**
  - The TypeScript compiler is an input, as a parse function with end offsets.
    The offsets count Dafny `char`s, which are Unicode scalar values, while
    the compiler counts UTF-16 code units. The two agree only on text inside
    the Basic Multilingual Plane, so the entry file's text is assumed to hold
    no character outside it.
  - The update recorder indexes the file's UTF-8 bytes, while the anchors
    are the compiler's offsets. The model treats the two as the same. That
    holds only when the entry file's text before each anchor is ASCII.
  - JSON parsing and printing are a codec parameter, so indentation and key
    order are not modelled.
  - Reading and writing `angular.json` behind `updateWorkspace` is left out:
    the workspace is held decoded.
- **Foreign helpers.** `addPackageJsonDependency` and
  `removePackageJsonDependency` are modelled from their documented effect.
  - The add inserts a missing name into its section and creates a missing
    section. It leaves a name that is already there, and a section that is
    not an object, alone. It throws on a manifest that is not an object.
  - The remove deletes the name from each of the four sections that is an
    object.
  - `host.delete` of a missing file fails.
  - Insertions that share an anchor are committed in call order. This is
    assumed to match the update recorder's `insertRight`; the recorder itself
    is not part of this model.
- **Framework plumbing.**
  - `applyToSubtree` runs the chain in the new directory. The model runs it
    on the project's own store, so which subdirectory is meant is not
    modelled.
  - `mergeWith(apply(url('./files'), …))` copies template files, which are
    not part of this model.
  - `externalSchematic` runs Angular's own generator. The model states only
    the options it receives, not what it generates.
  - Running the install and git tasks is process and disk I/O. Only their
    options and their dependency edge are modelled.
- **Source details not modelled.**
  - `console.warn` is modelled as a warning count.
  - Version strings are opaque text, not semver.
  - JSON numbers are integers.
- **Error reporting.**
  - When several projects lack lint options, the workspace edit reports one
    fixed `TypeError`, not the first in the workspace's iteration order.
  - The error values carry the failing expression as text. JavaScript's
    exact error messages are not modelled.
- **Patcher failures.** The patcher's non-null assertions and unchecked
  reads throw, and a thrown error means nothing is committed:
  - A class with no decorators fails, and so does one with none named
    `Component`.
  - A bare decorator such as `@Component` fails: reading its
    `expression.escapedText` throws inside the `find` callback.
  - `@Component()` fails reading `properties` of the missing first
    argument. A non-object argument has no `properties` to take the length
    of. `{}` has no last property to call `getEnd()` on.
  - A side-effect `import '@angular/core'` fails on `importClause!`. A
    default-only or namespace import has no `elements` list to read.
    `import {} from '@angular/core'` has no last name to call `getEnd()` on.
  - A file with no class declaration plans no option edit and is still
    patched.
- EditBuffer.SwapDistinctAnchors: states that the two orders agree on success and on the final text. It does not state that they report the same out-of-range offset when they fail.
- Host.Key: resolves `..` above the root to the root and keeps `\` inside a segment. The store's own normalisation throws on such a `..` and also splits on `\`. This never matters for the fixed names the schematic passes.
