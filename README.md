# mini-webpack compiler, modelled in Dafny

This project models the module graph builder of mini-webpack: the
`Compiler` class in `lib/Compiler.js`. Starting from the entry file, the
compiler walks the dependency graph depth-first. It gives every module an
id: its path relative to the working directory, prefixed with `./`. It
marks each id in `cache` before reading the file, which makes cycles
terminate. It parses the file and rewrites every `require("<name>")` call
into `__webpack_require__("<id>")`. The source computes that id as the
requested name, with `.js` appended when it has no extension, joined onto
the directory of the requiring module's id. It stores the rewritten source
in `modules` under the module's id, records the entry id, and builds each
dependency in turn. The dependency is built from the id joined onto the
working directory. For some requests that climb out of the working
directory, the id that module is stored under is not the id the source
records (see "## Findings"). For some requests that end in a separator,
the id the source records keeps the separator, line 73 would drop it, and
the file read at line 81 is the path with the separator, which fails. The
model's `parse` records the id line 73 computes instead.

The files:

- `paths.dfy` (module `NodePath`) holds the part of Node's POSIX `path`
  module that the compiler calls. These are `join`, `normalize`,
  `resolve`, `relative`, `dirname` and `extname`, written over the
  `/`-separated segments of a string, plus facts about splitting,
  rendering, normalizing and relativizing segments.
- `syntax.dfy` (module `Syntax`) holds what the compiler sees of a parsed
  program: its call sites in traversal order. It also holds the failures
  a build can end with.
- `ids.dfy` (module `ModuleIds`) holds module ids and dependency ids: the
  default extension, the canonical form of an id, the id → absolute
  path → id round trip, and the shape of the dependency ids of a module.
- `rewrite.dfy` (module `Rewriting`) holds the traversal inside `parse`,
  as a function over the call sites, and what it guarantees.
- `compiler.dfy` (module `Bundler`) holds the `Compiler` class:
  - the fields `cache`, `modules` and `entryId`;
  - the constants `root`, `entry` and `files`;
  - the methods `Parse`, `BuildModule` (with its parts `Load`,
    `Register` and `BuildDependencies`) and `Run`.

`Compiler.Valid()` is the class invariant:

- every registered module is in `cache`;
- every registered module is the rewrite of its own file, against the
  directory of its own id.

Two ghost fields support it. `dependencies` holds the dependency list
`parse` returned for each module. `sourcePath` holds the path each module
was read from.

Decisions:

- **File system and working directory.** The file system is the map
  `files`, from absolute path to parsed text. A path missing from the map
  cannot be read: `readFileSync` throws, and the model returns
  `Err(FileNotFound(path))`. The working directory (`process.cwd()`) is
  the constant `root`.
- **`require` arguments.** In `lib/Compiler.js`, a `require` call whose
  first argument is missing or is not a string literal throws. Either
  `node.arguments[0]` is undefined, or `path.extname` receives a
  non-string. The model returns `Err(RequireArgumentError)` for it. It
  makes no precondition on file contents. A BigInt literal is the one
  exception; it is listed under "## Left out".
- **Errors.** Every error aborts the whole build. The state keeps the
  changes made before the failure, as it does in the source.
- **Entry id.** `lib/Compiler.js` has no loader or transformer stage: the
  text read from the file goes straight to the parser. The entry id is
  recorded as soon as the entry file has been read, before parsing
  (lib/Compiler.js:81-86, `Compiler.Load`). So an entry file that fails
  to parse still leaves `entryId` set.
- **Failures.** `BuildModule`, `Load`, `BuildDependencies` and `Run`
  return a ghost `culprit`: the file the build failed on. It is the file
  being built, or the path of a dependency of a registered module, and
  `FailsOn(culprit, error)` says what is wrong with it.
- **What the walk reaches.** The build methods take a ghost set of paths
  `S`. `DependencyClosed(S)` says that for every file in `S` that parses,
  the path the build reads for each of its dependency ids is in `S` too.
  When the starting path is in such an `S`, every module the call
  registers was read from a path in `S`, and a failure is on a path in
  `S`. Since this holds for every closed `S`, the build reads and stores
  only what is reachable from its start. `Sound(S)` says that every path
  in `S` is a file that parses, whose `require` calls are well formed and
  whose dependency paths are files. When `S` is also sound, the build
  succeeds. `Compiler.CompleteClosed` shows that the set of all files is
  such an `S` when every file is buildable.

## Model

| member | source | states |
|---|---|---|
| ModuleIds.DefaultExtensionAppended | lib/Compiler.js:52 | A non-empty name without an extension, not ending in `/`, gets exactly `.js` appended, and the result's extension is `.js`. |
| ModuleIds.WithDefaultExtensionIdempotent | lib/Compiler.js:52 | For a non-empty name that does not end in `/`: after normalization the name has a non-empty extension. A name that already has one is left unchanged, so normalizing twice is normalizing once. |
| ModuleIds.SeparatorEndingGetsExtensionAfterIt | lib/Compiler.js:52 | A name `m/` ending in a separator, whose `m` has no `.`, has no extension and becomes `m/.js`; that result again has no extension, so a second pass gives `m/.js.js`. |
| ModuleIds.WithDefaultExtension | lib/Compiler.js:52 | The completed name starts with the requested name, and equals it exactly when `path.extname` of the name is non-empty; a name without an extension always gets something appended. |
| ModuleIds.DependencyId | lib/Compiler.js:52-53 | The id as line 53 writes it: `"./"` + `path.join(parentPath, name)` of the completed name, so it always starts with `./`. What it is for downward requests and where it goes wrong are stated by `ModuleIds.DownwardDependencyId` and the two mismatch lemmas. |
| ModuleIds.ModuleId | lib/Compiler.js:73 | The id a module is stored under, `"./" + path.relative(root, modulePath)`, always starts with `./`. Its contents are stated by `ModuleIds.ModuleIdBelowRoot` and `ModuleIds.ModuleIdFixed`. |
| ModuleIds.ModuleIdBelowRoot | lib/Compiler.js:73 | The id of the absolute path made of the working directory's segments followed by the names `s` is `"./"` followed by `s` joined with `/`. |
| ModuleIds.DirnameOfCanonical | lib/Compiler.js:88-91 | `path.dirname` of a canonical id is `.` followed by the id's directory segments. This is the parent directory `parse` is given. |
| ModuleIds.DownwardDependencyId | lib/Compiler.js:52-53 | For a canonical parent id and a downward request (non-empty, not ending in `/`, with no `..` segment), the dependency id is `"./"` + the parent's directory segments + the request's own segments (with `.js` appended, `""` and `.` dropped), and it is canonical. |
| ModuleIds.IdRoundTrip | lib/Compiler.js:99-101 | For a canonical id `dep`, `"./" + relative(root, join(root, dep))` (line 73 applied to the path built at line 100) is `dep` again. |
| ModuleIds.ModuleIdFixed | lib/Compiler.js:100 | For any path `p`, the id of `join(root, id)`, where `id` is the line-73 id of `p`, is `id` again. Ids that climb above the working directory are included. |
| ModuleIds.ResolvedDependencyIdStored | lib/Compiler.js:53 | The corrected dependency id of any request is the id its module is stored under once line 100 joins it onto the working directory. |
| ModuleIds.ResolvedDependencyIdDownward | lib/Compiler.js:52-53 | For a canonical parent id and a downward request (non-empty, not ending in `/`, with no `..` segment), the corrected id equals the id line 53 computes. |
| ModuleIds.ResolvedDependencyId | lib/Compiler.js:53 | NOT the id line 53 computes: this is the corrected id of the first "## Findings" row, the id of the module line 100 builds from line 53's id. It starts with `./`. It differs from line 53's id on both "## Findings" inputs (`./x.js` instead of `./../b/x.js`, `./a.b` instead of `./a.b/`) and equals it for downward requests (`ModuleIds.ResolvedDependencyIdDownward`). |
| ModuleIds.ReadPathKept | lib/Compiler.js:100 | When `join(root, d)` does not end in `/` and is not the working directory itself, joining the stored id of `d` onto the working directory gives `join(root, d)` back: the module stored under that id is read from the file `d` names. |
| ModuleIds.UpwardRequestMismatch | lib/Compiler.js:53 | In working directory `/a/b`, a top-level module requiring `../b/x` gets the id `./../b/x.js` from line 53, but the module line 100 builds is stored under `./x.js`. |
| ModuleIds.TrailingSeparatorMismatch | lib/Compiler.js:52-53 | In any working directory, a top-level module requiring `./m/`, where `m` has an extension, keeps the name and gets the id `./m/` from line 53, while line 73 computes the id `./m` for the path `<root>/m/` that line 100 builds. |
| Rewriting.RewriteSucceeds | lib/Compiler.js:45-59 | The traversal succeeds exactly when every `require` call has a string-literal first argument. Otherwise it fails with `RequireArgumentError`. |
| Rewriting.RewriteFailsAt | lib/Compiler.js:51 | A `require` call without a string-literal argument, reached after a successful prefix, fails the whole traversal. |
| Rewriting.RewriteErrorPersists | lib/Compiler.js:45-59 | Once the traversal has failed on a prefix of the call sites, it fails with the same error on the whole program. The first failure aborts. |
| Rewriting.RewriteCalls | lib/Compiler.js:45-59 | A successful traversal keeps the number of call sites and leaves every non-`require` call untouched. Every `require` call becomes `__webpack_require__` with the dependency id of its argument as its only argument. |
| Rewriting.RewriteDependencies | lib/Compiler.js:45-59 | A successful traversal records exactly one dependency per `require` call, in visiting order, duplicates kept. The j-th dependency is the id of the j-th `require` call's argument and the argument of the j-th rewritten call. |
| Rewriting.RequirePositionsExact | lib/Compiler.js:48 | The positions `RewriteDependencies` speaks of are exactly the `require` calls, each once, in increasing order. |
| Rewriting.DependenciesStored | lib/Compiler.js:53-55 | Every dependency id `parse` returns is the id its module is stored under when it is built at line 100. |
| Rewriting.RewriteAgrees | lib/Compiler.js:45-59 | Two ways of computing dependency ids that agree on every requested name of a program give the same traversal result. |
| Rewriting.DependenciesAsWritten | lib/Compiler.js:53 | When the requiring module's id is canonical and every request is downward (non-empty, not ending in `/`, with no `..` segment), the traversal with the corrected ids equals the traversal with line 53's ids. The correction changes nothing for such a module. |
| Rewriting.WrittenDependenciesCanonical | lib/Compiler.js:53 | With line 53's ids, a canonical requiring id and downward requests (non-empty, not ending in `/`, with no `..` segment) give canonical dependency ids only. |
| Rewriting.DependenciesCanonical | lib/Compiler.js:53 | When the requiring module's id is canonical and every request is downward (non-empty, not ending in `/`, with no `..` segment), every dependency id `parse` returns is canonical. |
| Rewriting.Rewrite | lib/Compiler.js:45-59 | The traversal fails only with `RequireArgumentError`. When it succeeds and what it returns are stated by `Rewriting.RewriteSucceeds`, `Rewriting.RewriteCalls` and `Rewriting.RewriteDependencies`. |
| Rewriting.Resolver | lib/Compiler.js:53 | NOT line 53's id: the corrected id of the first "## Findings" row (`ModuleIds.ResolvedDependencyId`), which the model's `parse` uses. Every id it gives starts with `./`. It differs from line 53's id on both "## Findings" inputs and agrees with it for downward requests (`Rewriting.DependenciesAsWritten`). |
| Rewriting.WrittenResolver | lib/Compiler.js:53 | Line 53's id as written (`ModuleIds.DependencyId`). Every id it gives starts with `./`. |
| Bundler.Compiler.constructor | lib/Compiler.js:14-31 | A new compiler has an empty `cache`, no modules, no entry id, and the given working directory, entry and files. The class invariant holds. |
| Bundler.Compiler.Parse | lib/Compiler.js:38-67 | Walking the call sites in place with an array and a growing dependency list returns exactly `Rewrite` of the program against `Resolver(root, parentPath)`. That resolver gives the corrected id of the first "## Findings" row, not the id line 53 computes; the two agree for downward requests (`Rewriting.DependenciesAsWritten`). Unparsable text gives `SyntaxError`. |
| Bundler.Compiler.ParseFailureOn | lib/Compiler.js:39-51 | A failed parse of a readable file fails on that file: it is unparsable, or it has a `require` call without a string-literal argument. |
| Bundler.Compiler.Register | lib/Compiler.js:96 | Storing the rewritten source adds exactly one new key, changes no existing entry, leaves `cache` and `entryId` alone, and keeps the class invariant. |
| Bundler.Compiler.FileIdVisited | lib/Compiler.js:75-78 | Marking the id of a readable file strictly shrinks the set of unvisited file ids. This is the measure under which the recursion terminates, even on a cycle. |
| Bundler.Compiler.DependenciesStoredUnder | lib/Compiler.js:99-100 | Every dependency id of a registered module is the id its module is stored under. |
| Bundler.Compiler.BuildModule | lib/Compiler.js:70-102 | Cache hit: returns with nothing changed. Otherwise: `cache` only grows; stored modules are never changed or removed; a missing file gives `FileNotFound` with the id marked and `modules` unchanged; `entryId` changes only on the `isEntry` call once the file is read. A failure is on this file or on a file a registered module requires. For every dependency-closed set of paths `S` holding `modulePath`, every new module was read from a path in `S` and a failure is on a path in `S`; when every path in `S` is a buildable file, the build succeeds. On success the id is visited and every new module's dependencies resolve to visited ids. |
| Bundler.Compiler.Load | lib/Compiler.js:81-101 | For an id just marked: read, record the entry id, parse, register and build the dependencies, with the postconditions of `BuildModule`, including those over dependency-closed sets of paths, stated against the marked state. |
| Bundler.Compiler.BuildDependencies | lib/Compiler.js:99-101 | Building the dependencies in order leaves `entryId` unchanged and only adds modules, each a dependency of a registered module. A failure is on a file a registered module requires. For every dependency-closed set of paths `S` holding the parent's path, new modules are read from paths in `S` and a failure is on a path in `S`; when every path in `S` is a buildable file, it succeeds. On success every dependency resolves to a visited id. It also keeps every registered id canonical when every request in every file is downward (non-empty, not ending in `/`, with no `..` segment). |
| Bundler.Compiler.BuildDependency | lib/Compiler.js:100 | One step of the loop keeps the loop's invariant: the class invariant, growth of `cache` and `modules`, the entry id, new modules only from paths in the closed set `S` when the parent's path is in it. On success the dependency is visited too; a failure is on a required file in `S`; it does not fail when every path in `S` is a buildable file. |
| Bundler.Compiler.ClosedOnDependencyIds | lib/Compiler.js:99-101 | When every dependency resolves to a registered id, every dependency id is itself registered. |
| Bundler.Compiler.EntryPath | lib/Compiler.js:108 | `path.resolve(this.root, this.entry)`, the path `run` builds the entry module from, is absolute. |
| Bundler.Compiler.Run | lib/Compiler.js:106-114 | A failure is on the entry file or on a file a registered module requires. For every dependency-closed set of paths `S` holding the entry path, every module registered was read from a path in `S` and a failure is on a path in `S`; when every path in `S` is a buildable file, the build succeeds. On a fresh compiler: a missing entry file gives `FileNotFound` of the resolved entry path. On success `entryId` is the entry file's id and is registered, `cache` equals the set of registered ids, and every dependency id of every module is a key of `modules`. When every request in every file is downward (non-empty, not ending in `/`, with no `..` segment) and the entry id is canonical, every registered id is canonical. |

## Left out

- Babel's `parse`, `traverse` and `generator` (lib/Compiler.js:3-11, 39, 45, 61) are library code over the whole JavaScript grammar. A parsed program is its call sites in traversal order; unparsable text is a `SyntaxError`; generating code from the tree is the identity on the call sites.
- `babylon` (lib/Compiler.js:5) is imported but never used.
- `fs.readFileSync` (lib/Compiler.js:34) and `process.cwd()` (lib/Compiler.js:30) are I/O. They become the `files` map and the `root` constant. UTF-8 decoding is not modelled.
- `console.log` (lib/Compiler.js:110) only prints.
- `emitFile` (lib/Compiler.js:104) has an empty body.
- bin/main.js is not part of this model. It is the command-line entry point that loads the configuration.
- The insertion order of the `modules` object is not modelled; `modules` is a map.
- Node's `path` functions are modelled for POSIX separators only.
- Bundler.Compiler.BuildModule: on a cache hit it returns `Ok(())`. The source returns the cached id string, which no caller uses.
- ModuleIds.IdRoundTrip: stated for canonical ids, which have no `..`, `.` or empty segment. `ModuleIds.ModuleIdFixed` covers every id line 73 can produce, including ids that only climb above the working directory. The strings that do change are those that climb out of the working directory and come back into its own path (`./../proj/x.js` under `/home/proj` becomes `./x.js`), those that climb above `/`, and those that end in a separator (line 73 gives `./a.b` for the path line 100 builds from `./a.b/`).
- ModuleIds.WithDefaultExtension: a request ending in a separator whose last name has no `.` gets `.js` after the separator, so `require("./lib/")` is recorded as `./lib/.js` (lines 52-53, `ModuleIds.SeparatorEndingGetsExtensionAfterIt`). The model does the same; it does not model Node's directory-index lookup, which this compiler never performs either.
- Bundler.Compiler.BuildDependency: builds the module at `path.join(root, id)` for the corrected id, which has no trailing separator. For a request such as `require("./a.b/")` the source builds `<root>/a.b/` at line 100, which a real file system refuses to read when `a.b` is a file; the model reads `<root>/a.b`.
- Rewriting.Rewrite: a program is its call sites in traversal order, with no nesting. A `require` call inside the arguments of another `require` call would be listed as a call site of its own, and the model rewrites it and records its dependency. The source replaces `node.arguments` as soon as it enters the outer call (lib/Compiler.js:56), so Babel never visits the inner call: it disappears from the output and from the dependencies.
- Syntax.Argument: only string literals are arguments `parse` accepts. Babel also gives a BigInt literal a string `value`, so `require(1n)` becomes the id `./1.js` in the source, while the model fails with `RequireArgumentError`.
- Bundler.Compiler.Register: requires the id not to be registered yet. In `buildModule` the id has just been added to `cache` and every registered id is in `cache`, so this always holds there.

## Findings

| source | as written | input that shows it | evidently intended | confidence | as-written member | corrected member |
|---|---|---|---|---|---|---|
| lib/Compiler.js:53 | The dependency id is `"./" + path.join(parentPath, name)`, while line 100 builds the module from `path.join(root, id)` and line 73 stores it under `"./" + path.relative(root, ...)` of that path. | Working directory `/a/b`, entry `m.js` containing `require("../b/x")`: the rewritten call names `./../b/x.js`, but the module is stored under `./x.js`, and no module is stored under the id the rewritten call names. | The id written into the rewritten call is the id the module is stored under. | not executed | ModuleIds.UpwardRequestMismatch | ModuleIds.ResolvedDependencyIdStored |
| lib/Compiler.js:52-53 | `path.extname` ignores a trailing separator, so a request ending in `/` whose last name has an extension keeps its name, and `path.join` keeps the separator in the dependency id; line 73 would drop it. | Any working directory, entry `m.js` containing `require("./a.b/")`: the rewritten call names `./a.b/`. Line 100 builds `<root>/a.b/`, line 73 computes `./a.b` and line 78 marks it, then the read at line 81 of `<root>/a.b/` fails (a file system refuses a path with a trailing separator that names a file, and a directory cannot be read as one), so the whole build aborts. The model records `./a.b`, reads `<root>/a.b` and can succeed. | The id written into the rewritten call names the file the module is read from, and is the id it is stored under. | not executed | ModuleIds.TrailingSeparatorMismatch | ModuleIds.ResolvedDependencyIdStored |
