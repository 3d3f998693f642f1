/**
 * The compiler object: it walks the dependency graph depth-first from the
 * entry file, reads and rewrites each module once, and records the
 * rewritten modules under their ids.
 */
module Bundler {
  import opened Syntax
  import opened NodePath
  import opened ModuleIds
  import opened Rewriting

  /** Every entry of `a` is in `b` with the same value. */
  ghost predicate Extends<K, V>(a: map<K, V>, b: map<K, V>)
  {
    forall k :: k in a ==> k in b && b[k] == a[k]
  }

  /** Every dependency id in `deps` resolves, below `root`, to an id in `visited`. */
  ghost predicate Resolved(root: string, deps: seq<string>, visited: set<string>)
  {
    forall d :: d in deps ==> ModuleId(root, Join(root, d)) in visited
  }

  ghost predicate AllCanonical(ids: set<string>)
  {
    forall id :: id in ids ==> Canonical(id)
  }

  /** Every `require` in every file names a path below the requiring module's directory. */
  predicate DownwardRequests(files: map<string, SourceText>)
  {
    forall p, i ::
      (p in files && files[p].Program? && 0 <= i < |files[p].calls| &&
       IsRequire(files[p].calls[i]) && HasLiteralArgument(files[p].calls[i])) ==>
      Downward(Request(files[p].calls[i]))
  }

  lemma {:induction false} SubsetCardinality(a: set<string>, b: set<string>)
    requires a <= b
    ensures |a| <= |b|
    decreases |a|
  {
    if a != {} {
      var x :| x in a;
      SubsetCardinality(a - {x}, b - {x});
    }
  }

  /** Visiting more ids never adds unvisited ones. */
  lemma UnvisitedMonotone(ids: set<string>, before: set<string>, after: set<string>)
    requires before <= after
    ensures |ids - after| <= |ids - before|
  {
    SubsetCardinality(ids - after, ids - before);
  }

  lemma ExtendsTransitive<K, V>(a: map<K, V>, b: map<K, V>, c: map<K, V>)
    requires Extends(a, b) && Extends(b, c)
    ensures Extends(a, c)
  {
  }

  /** The first `n` dependency ids in `deps` resolve to ids in `visited`. */
  ghost predicate ResolvedPrefix(root: string, deps: seq<string>, n: nat, visited: set<string>)
    requires n <= |deps|
  {
    forall j :: 0 <= j < n ==> ModuleId(root, Join(root, deps[j])) in visited
  }

  lemma ResolvedPrefixGrows(root: string, deps: seq<string>, n: nat, before: set<string>, after: set<string>)
    requires n < |deps| && ResolvedPrefix(root, deps, n, before) && before <= after
    requires ModuleId(root, Join(root, deps[n])) in after
    ensures ResolvedPrefix(root, deps, n + 1, after)
  {
  }

  lemma ResolvedWhole(root: string, deps: seq<string>, visited: set<string>)
    requires ResolvedPrefix(root, deps, |deps|, visited)
    ensures Resolved(root, deps, visited)
  {
    forall d | d in deps
      ensures ModuleId(root, Join(root, d)) in visited
    {
      var j :| 0 <= j < |deps| && deps[j] == d;
    }
  }

  lemma ResolvedGrows(root: string, deps: seq<string>, before: set<string>, after: set<string>)
    requires Resolved(root, deps, before) && before <= after
    ensures Resolved(root, deps, after)
  {
  }

  /** Adding a not-yet-visited file id to the visited set shrinks the set of unvisited ids. */
  lemma UnvisitedShrinks(ids: set<string>, before: set<string>, after: set<string>, x: string)
    requires before + {x} <= after && x in ids && x !in before
    ensures |ids - after| < |ids - before|
  {
    SubsetCardinality(ids - after, (ids - before) - {x});
    assert (ids - before) - {x} < ids - before;
    assert |(ids - before) - {x}| == |ids - before| - 1;
  }

  /** `k` is a dependency id of some module in `deps`. */
  ghost predicate Required(deps: map<string, seq<string>>, k: string)
  {
    exists id :: id in deps && k in deps[id]
  }

  /** `p` is the path the build reads for some dependency id of a module in `deps`. */
  ghost predicate RequiredPath(root: string, deps: map<string, seq<string>>, p: string)
  {
    exists id, d :: id in deps && d in deps[id] && p == Join(root, d)
  }

  lemma RequiredGrows(a: map<string, seq<string>>, b: map<string, seq<string>>, k: string)
    requires Extends(a, b) && Required(a, k)
    ensures Required(b, k)
  {
    var id :| id in a && k in a[id];
    assert id in b && k in b[id];
  }

  lemma RequiredPathGrows(root: string, a: map<string, seq<string>>, b: map<string, seq<string>>, p: string)
    requires Extends(a, b) && RequiredPath(root, a, p)
    ensures RequiredPath(root, b, p)
  {
    var id, d :| id in a && d in a[id] && p == Join(root, d);
    assert id in b && d in b[id];
  }

  class Compiler {
    /** The working directory (`process.cwd()`). */
    const root: string
    /** `config.entry`. */
    const entry: string
    /** What reading a file returns, by absolute path; a path not in the map cannot be read. */
    const files: map<string, SourceText>
    /** The ids of all readable files; the build visits each at most once. */
    ghost const fileIds: set<string>

    /** Ids already visited; an id is marked before its file is read, which breaks cycles. */
    var cache: set<string>
    /** Rewritten source of each registered module, by id. */
    var modules: map<string, seq<CallSite>>
    /** Id of the entry module, once its file has been read. */
    var entryId: Option<string>

    /** The dependency ids `parse` returned for each registered module. */
    ghost var dependencies: map<string, seq<string>>
    /** The path each registered module was read from. */
    ghost var sourcePath: map<string, string>

    /** A registered module is the rewrite of its own file, against the directory of its own id. */
    ghost predicate Registered(id: string)
      reads this`modules, this`dependencies, this`sourcePath
      requires id in modules && id in dependencies && id in sourcePath
    {
      var p := sourcePath[id];
      p in files && ModuleId(root, p) == id && files[p].Program? &&
      Rewrite(files[p].calls, Resolver(root, Dirname(id))) == Ok(Parsed(modules[id], dependencies[id]))
    }

    ghost predicate Valid()
      reads this`cache, this`modules, this`dependencies, this`sourcePath
    {
      && IsAbsolute(root)
      && modules.Keys <= cache
      && dependencies.Keys == modules.Keys
      && sourcePath.Keys == modules.Keys
      && (forall p {:trigger ModuleId(root, p)} :: p in files ==> ModuleId(root, p) in fileIds)
      && (forall id {:trigger Registered(id)} :: id in modules ==> Registered(id))
    }

    constructor (root: string, entry: string, files: map<string, SourceText>)
      requires IsAbsolute(root)
      ensures Valid()
      ensures this.root == root && this.entry == entry && this.files == files
      ensures cache == {} && modules == map[] && entryId == None && dependencies == map[]
    {
      this.root := root;
      this.entry := entry;
      this.files := files;
      fileIds := set p | p in files :: ModuleId(root, p);
      cache := {};
      modules := map[];
      entryId := None;
      dependencies := map[];
      sourcePath := map[];
    }

    /** Visiting the id of a readable file shrinks the set of unvisited file ids. */
    lemma FileIdVisited(p: string, before: set<string>, after: set<string>)
      requires Valid()
      requires p in files && ModuleId(root, p) !in before && before + {ModuleId(root, p)} <= after
      ensures |fileIds - after| < |fileIds - before|
    {
      UnvisitedShrinks(fileIds, before, after, ModuleId(root, p));
    }

    /** `path.resolve(this.root, this.entry)`: an absolute path. */
    function EntryPath(): (p: string)
      ensures IsAbsolute(p)
    {
      Resolve(root, entry)
    }

    function EntryId(): string
    {
      ModuleId(root, EntryPath())
    }

    /** Every dependency of module `id` resolves to a visited id. */
    ghost predicate DepsCached(id: string)
      reads this`dependencies, this`cache
      requires id in dependencies
    {
      Resolved(root, dependencies[id], cache)
    }

    /** Every dependency of every registered module resolves to a registered module. */
    ghost predicate Closed()
      reads this`modules, this`dependencies
    {
      forall id :: id in dependencies ==> Resolved(root, dependencies[id], modules.Keys)
    }

    /** Reading or parsing the file at `p` fails with `e`. */
    ghost predicate FailsOn(p: string, e: Error)
    {
      match e
      case FileNotFound(q) => q == p && p !in files
      case SyntaxError => p in files && files[p].Unparsable?
      case RequireArgumentError => p in files && files[p].Program? && !RequiresWellFormed(files[p].calls)
    }

    /**
     * The file at `p` parses, every `require` in it has a string-literal
     * argument (`RewriteSucceeds`), and every path the build reads for its
     * dependencies is a file.
     */
    ghost predicate Buildable(p: string)
      requires p in files
    {
      files[p].Program? &&
      var parsed := Rewrite(files[p].calls, Resolver(root, Dirname(ModuleId(root, p))));
      parsed.Ok? && forall d :: d in parsed.value.dependencies ==> Join(root, d) in files
    }

    /** Every file can be built. */
    ghost predicate Complete()
    {
      forall p :: p in files ==> Buildable(p)
    }

    /**
     * The paths in `S` are closed under the build's dependencies: for every
     * file in `S` that parses, the path the build reads for each dependency
     * id `parse` records is in `S` too.
     */
    ghost predicate DependencyClosed(S: set<string>)
    {
      forall p :: p in S && p in files && files[p].Program? ==>
        var parsed := Rewrite(files[p].calls, Resolver(root, Dirname(ModuleId(root, p))));
        parsed.Ok? ==> forall d :: d in parsed.value.dependencies ==> Join(root, d) in S
    }

    /** Every path in `S` is a file that can be built. */
    ghost predicate Sound(S: set<string>)
    {
      forall p :: p in S ==> p in files && Buildable(p)
    }

    /** When every file can be built, the set of all files is closed and sound. */
    lemma CompleteClosed()
      requires Complete()
      ensures DependencyClosed(files.Keys) && Sound(files.Keys)
    {
    }

    /**
     * `parse(source, parentPath)`: walks the call sites of the parsed
     * program in order, rewriting each `require` call in place and
     * collecting the dependency ids.
     */
    method Parse(source: SourceText, parentPath: string) returns (r: Result<Parsed>)
      ensures source.Unparsable? ==> r == Err(SyntaxError)
      ensures source.Program? ==> r == Rewrite(source.calls, Resolver(root, parentPath))
    {
      if source.Unparsable? {
        return Err(SyntaxError);
      }
      var calls := source.calls;
      var ast := new CallSite[|calls|](k requires 0 <= k < |calls| => calls[k]);
      var deps: seq<string> := [];
      ghost var resolve := Resolver(root, parentPath);
      var i := 0;
      while i < ast.Length
        invariant 0 <= i <= ast.Length == |calls|
        invariant Rewrite(calls[..i], resolve) == Ok(Parsed(ast[..i], deps))
        invariant forall k :: i <= k < ast.Length ==> ast[k] == calls[k]
      {
        var node := ast[i];
        ghost var done := ast[..i];
        if node.callee == Identifier(RequireName) {
          if |node.arguments| == 0 || !node.arguments[0].StringLiteral? {
            RewriteFailsAt(calls, i, resolve);
            return Err(RequireArgumentError);
          }
          var moduleName := ResolvedDependencyId(root, parentPath, node.arguments[0].value);
          RewriteExtend(calls, i, resolve, Parsed(done, deps));
          assert moduleName == resolve(Request(node));
          deps := deps + [moduleName];
          ast[i] := RewrittenCall(moduleName);
          assert ast[..i] == done;
          assert ast[..i + 1] == ast[..i] + [ast[i]];
        } else {
          RewriteExtend(calls, i, resolve, Parsed(done, deps));
          assert ast[..i + 1] == ast[..i] + [ast[i]];
        }
        i := i + 1;
      }
      assert calls[..i] == calls;
      assert ast[..] == ast[..i];
      r := Ok(Parsed(ast[..], deps));
    }

    /** A failed `parse` of a readable file fails on that file. */
    lemma ParseFailureOn(p: string, parentPath: string, e: Error)
      requires p in files
      requires (files[p].Unparsable? && e == SyntaxError) ||
        (files[p].Program? && Rewrite(files[p].calls, Resolver(root, parentPath)) == Err(e))
      ensures FailsOn(p, e)
    {
      if files[p].Program? {
        RewriteSucceeds(files[p].calls, Resolver(root, parentPath));
      }
    }

    /** `this.modules[moduleName] = sourceCode`, with the ghost record of where it came from. */
    method Register(moduleName: string, modulePath: string, parsed: Parsed)
      requires Valid()
      requires moduleName !in modules && moduleName in cache
      requires modulePath in files && ModuleId(root, modulePath) == moduleName && files[modulePath].Program?
      requires Rewrite(files[modulePath].calls, Resolver(root, Dirname(moduleName))) == Ok(parsed)
      modifies this`modules, this`dependencies, this`sourcePath
      ensures Valid()
      ensures modules == old(modules)[moduleName := parsed.sourceCode]
      ensures dependencies == old(dependencies)[moduleName := parsed.dependencies]
      ensures sourcePath == old(sourcePath)[moduleName := modulePath]
      ensures Extends(old(modules), modules) && Extends(old(dependencies), dependencies)
      ensures Extends(old(sourcePath), sourcePath)
      ensures modules.Keys == old(modules.Keys) + {moduleName}
      ensures cache == old(cache) && entryId == old(entryId)
    {
      modules := modules[moduleName := parsed.sourceCode];
      dependencies := dependencies[moduleName := parsed.dependencies];
      sourcePath := sourcePath[moduleName := modulePath];
      forall id {:trigger Registered(id)} | id in modules
        ensures Registered(id)
      {
        if id != moduleName {
          assert old(Registered(id));
        }
      }
    }

    /** Every dependency id of a registered module is the id its module is stored under. */
    lemma DependenciesStoredUnder(id: string)
      requires Valid() && id in modules
      ensures forall d :: d in dependencies[id] ==> StoredId(root, d) == d
    {
      assert Registered(id);
      DependenciesStored(files[sourcePath[id]].calls, root, Dirname(id));
    }

    /** The paths the build reads for the dependencies of a module read from a path in a closed `S` are in `S`. */
    lemma DependencyPathsIn(id: string, S: set<string>)
      requires Valid() && id in modules
      requires sourcePath[id] in S && DependencyClosed(S)
      ensures forall d :: d in dependencies[id] ==> Join(root, d) in S
    {
      assert Registered(id);
    }

    /**
     * `buildModule(modulePath, isEntry)`: visit one module and, through
     * recursion, everything it depends on. An id already visited is skipped;
     * otherwise the id is marked and the module loaded (`Load`). The first
     * failure aborts the whole walk; `culprit` is the file it failed on.
     */
    method BuildModule(modulePath: string, isEntry: bool, ghost S: set<string>) returns (r: Result<()>, ghost culprit: string)
      requires Valid()
      modifies this
      decreases |fileIds - cache|, 3
      ensures Valid()
      ensures old(cache) <= cache
      ensures Extends(old(modules), modules) && Extends(old(dependencies), dependencies)
      // visited already: nothing changes
      ensures ModuleId(root, modulePath) in old(cache) ==> r == Ok(()) && unchanged(this)
      ensures ModuleId(root, modulePath) !in old(cache) && modulePath !in files ==>
        r == Err(FileNotFound(modulePath)) && cache == old(cache) + {ModuleId(root, modulePath)} &&
        modules == old(modules)
      // only the call made with isEntry, and only once its file is read, sets the entry id
      ensures isEntry && ModuleId(root, modulePath) !in old(cache) && modulePath in files ==>
        entryId == Some(ModuleId(root, modulePath))
      ensures !isEntry || ModuleId(root, modulePath) in old(cache) || modulePath !in files ==>
        entryId == old(entryId)
      // a failure is on this module's file or on a file a registered module requires
      ensures r.Err? ==>
        FailsOn(culprit, r.error) && (culprit == modulePath || RequiredPath(root, dependencies, culprit))
      // every module registered now is this one or a dependency of a registered module
      ensures forall k :: k in modules && k !in old(modules) ==>
        k == ModuleId(root, modulePath) || Required(dependencies, k)
      ensures Extends(old(sourcePath), sourcePath)
      // for any closed set of paths containing this one: what is read, and what fails, is in it
      ensures modulePath in S && DependencyClosed(S) ==>
        (forall k :: k in modules && k !in old(modules) ==> sourcePath[k] in S) && (r.Err? ==> culprit in S)
      // and when every path in it is a file that can be built, the build succeeds
      ensures modulePath in S && DependencyClosed(S) && Sound(S) ==> r.Ok?
      ensures r.Ok? ==> ModuleId(root, modulePath) in cache
      ensures r.Ok? && old(cache) == old(modules.Keys) ==> cache == modules.Keys
      ensures r.Ok? ==> forall id :: id in modules && id !in old(modules) ==> DepsCached(id)
      ensures (DownwardRequests(files) && Canonical(ModuleId(root, modulePath)) &&
        AllCanonical(old(modules.Keys))) ==> AllCanonical(modules.Keys)
    {
      var moduleName := ModuleId(root, modulePath);
      if moduleName in cache {
        return Ok(()), modulePath;
      }
      cache := cache + {moduleName};
      r, culprit := Load(moduleName, modulePath, isEntry, old(cache), |fileIds - old(cache)|, S);
    }

    /**
     * The rest of `buildModule` for an id just marked visited: read the
     * file, record the entry id when `isEntry`, rewrite the source, register
     * it, and build its dependencies. `visited` is the visited set before
     * the mark.
     */
    method Load(moduleName: string, modulePath: string, isEntry: bool, ghost visited: set<string>, ghost bound: nat,
                ghost S: set<string>)
      returns (r: Result<()>, ghost culprit: string)
      requires Valid()
      requires moduleName == ModuleId(root, modulePath)
      requires moduleName !in visited && cache == visited + {moduleName} && bound == |fileIds - visited|
      requires moduleName !in modules
      modifies this
      decreases bound, 2
      ensures Valid()
      ensures old(cache) <= cache
      ensures Extends(old(modules), modules) && Extends(old(dependencies), dependencies)
      ensures modulePath !in files ==>
        r == Err(FileNotFound(modulePath)) && cache == old(cache) && modules == old(modules)
      ensures isEntry && modulePath in files ==> entryId == Some(moduleName)
      ensures !isEntry || modulePath !in files ==> entryId == old(entryId)
      ensures r.Err? ==>
        FailsOn(culprit, r.error) && (culprit == modulePath || RequiredPath(root, dependencies, culprit))
      ensures forall k :: k in modules && k !in old(modules) ==> k == moduleName || Required(dependencies, k)
      ensures Extends(old(sourcePath), sourcePath)
      ensures modulePath in S && DependencyClosed(S) ==>
        (forall k :: k in modules && k !in old(modules) ==> sourcePath[k] in S) && (r.Err? ==> culprit in S)
      ensures modulePath in S && DependencyClosed(S) && Sound(S) ==> r.Ok?
      ensures r.Ok? && visited == old(modules.Keys) ==> cache == modules.Keys
      ensures r.Ok? ==> forall id :: id in modules && id !in old(modules) ==> DepsCached(id)
      ensures (DownwardRequests(files) && Canonical(moduleName) && AllCanonical(old(modules.Keys))) ==>
        AllCanonical(modules.Keys)
    {
      culprit := modulePath;
      if modulePath !in files {
        return Err(FileNotFound(modulePath)), culprit;
      }
      var source := files[modulePath];
      if isEntry {
        entryId := Some(moduleName);
      }
      var parsed := Parse(source, Dirname(moduleName));
      if parsed.Err? {
        ParseFailureOn(modulePath, Dirname(moduleName), parsed.error);
        return Err(parsed.error), culprit;
      }
      Register(moduleName, modulePath, parsed.value);
      FileIdVisited(modulePath, visited, cache);
      ghost var modulesBefore := modules;
      ghost var dependenciesBefore := dependencies;
      ghost var sourcePathBefore := sourcePath;
      r, culprit := BuildDependencies(parsed.value.dependencies, moduleName, bound, S);
      ExtendsTransitive(old(modules), modulesBefore, modules);
      ExtendsTransitive(old(dependencies), dependenciesBefore, dependencies);
      ExtendsTransitive(old(sourcePath), sourcePathBefore, sourcePath);
      LoadedModules(moduleName, old(modules), modulesBefore, r.Ok?);
    }

    /**
     * What `Load` adds, once the dependencies of `moduleName` are built:
     * besides `moduleName`, only dependencies of registered modules, and on
     * success every new module's dependencies are visited.
     */
    lemma LoadedModules(moduleName: string, start: map<string, seq<CallSite>>, before: map<string, seq<CallSite>>,
                        ok: bool)
      requires before.Keys == start.Keys + {moduleName} && moduleName in dependencies
      requires dependencies.Keys == modules.Keys
      requires forall k :: k in modules && k !in before ==> Required(dependencies, k)
      requires ok ==> DepsCached(moduleName)
      requires ok ==> forall id :: id in modules && id !in before ==> DepsCached(id)
      ensures forall k :: k in modules && k !in start ==> k == moduleName || Required(dependencies, k)
      ensures ok ==> forall id :: id in modules && id !in start ==> DepsCached(id)
    {
      forall k | k in modules && k !in start && k != moduleName
        ensures Required(dependencies, k)
      {
        assert k !in before;
      }
      if ok {
        forall id | id in modules && id !in start
          ensures DepsCached(id)
        {
          if id != moduleName {
            assert id !in before;
          }
        }
      }
    }

    /**
     * `dependencies.forEach(dep => this.buildModule(path.join(this.root, dep), false))`:
     * build each dependency in order, below the working directory. `bound`
     * is the number of unvisited file ids the requiring call started from.
     */
    method BuildDependencies(deps: seq<string>, ghost parent: string, ghost bound: nat, ghost S: set<string>)
      returns (r: Result<()>, ghost culprit: string)
      requires Valid()
      requires parent in modules && dependencies[parent] == deps
      requires |fileIds - cache| < bound
      modifies this
      decreases bound, 1
      ensures Valid()
      ensures old(cache) <= cache
      ensures Extends(old(modules), modules) && Extends(old(dependencies), dependencies)
      ensures entryId == old(entryId)
      ensures r.Err? ==> FailsOn(culprit, r.error) && RequiredPath(root, dependencies, culprit)
      ensures forall k :: k in modules && k !in old(modules) ==> Required(dependencies, k)
      ensures Extends(old(sourcePath), sourcePath)
      ensures old(sourcePath[parent]) in S && DependencyClosed(S) ==>
        (forall k :: k in modules && k !in old(modules) ==> sourcePath[k] in S) && (r.Err? ==> culprit in S)
      ensures old(sourcePath[parent]) in S && DependencyClosed(S) && Sound(S) ==> r.Ok?
      ensures r.Ok? ==> Resolved(root, deps, cache)
      ensures r.Ok? && old(cache) == old(modules.Keys) ==> cache == modules.Keys
      ensures r.Ok? ==> forall id :: id in modules && id !in old(modules) ==> DepsCached(id)
      ensures (DownwardRequests(files) && AllCanonical(old(modules.Keys))) ==> AllCanonical(modules.Keys)
    {
      culprit := "";
      DependenciesStoredUnder(parent);
      ghost var downward := DownwardRequests(files) && AllCanonical(modules.Keys);
      if downward {
        assert Registered(parent);
        DependenciesCanonical(files[sourcePath[parent]].calls, root, parent);
      }
      ghost var within := sourcePath[parent] in S && DependencyClosed(S);
      if within {
        DependencyPathsIn(parent, S);
      }
      var i := 0;
      while i < |deps|
        invariant 0 <= i <= |deps|
        invariant DependenciesKept(deps, parent, old(cache), old(modules), old(dependencies), old(sourcePath), old(entryId),
                                   bound, downward, S, within)
        invariant DependenciesDone(deps, i, old(cache), old(modules))
      {
        var res, c := BuildDependency(deps, parent, i, old(cache), old(modules), old(dependencies), old(sourcePath),
                                      old(entryId), bound, downward, S, within);
        if res.Err? {
          return res, c;
        }
        i := i + 1;
      }
      ResolvedWhole(root, deps, cache);
      r := Ok(());
    }

    /**
     * What building the dependencies `deps` of `parent` keeps, against the
     * state it started from: the class invariant, growth of the visited set
     * and of the registered modules, the entry id, that every new module is
     * a dependency of a registered one, and canonical ids when `downward`.
     */
    ghost predicate DependenciesKept(deps: seq<string>, parent: string, start: set<string>,
                                     startModules: map<string, seq<CallSite>>,
                                     startDependencies: map<string, seq<string>>,
                                     startSourcePath: map<string, string>,
                                     entry: Option<string>, bound: nat, downward: bool,
                                     S: set<string>, within: bool)
      reads this`cache, this`modules, this`dependencies, this`sourcePath, this`entryId
    {
      && Valid()
      && parent in modules && dependencies[parent] == deps
      && (forall d :: d in deps ==> StoredId(root, d) == d)
      && start <= cache && |fileIds - cache| < bound
      && Extends(startModules, modules) && Extends(startDependencies, dependencies)
      && entryId == entry
      && (forall k :: k in modules && k !in startModules ==> Required(dependencies, k))
      && (downward ==> DownwardRequests(files) && AllCanonical(modules.Keys) && forall d :: d in deps ==> Canonical(d))
      && Extends(startSourcePath, sourcePath)
      && (within ==> DependencyClosed(S) && forall d :: d in deps ==> Join(root, d) in S)
      && (within ==> forall k :: k in modules && k !in startModules ==> sourcePath[k] in S)
    }

    /** What a successful build of the first `n` dependencies adds: they and the new modules' dependencies are visited. */
    ghost predicate DependenciesDone(deps: seq<string>, n: nat, start: set<string>, startModules: map<string, seq<CallSite>>)
      reads this`cache, this`modules, this`dependencies
    {
      && n <= |deps|
      && ResolvedPrefix(root, deps, n, cache)
      && (start == startModules.Keys ==> cache == modules.Keys)
      && (forall id :: id in modules && id !in startModules ==> id in dependencies && DepsCached(id))
    }

    /** One step of `forEach`: `buildModule(path.join(this.root, deps[i]), false)`. */
    method BuildDependency(deps: seq<string>, ghost parent: string, i: nat, ghost start: set<string>,
                           ghost startModules: map<string, seq<CallSite>>,
                           ghost startDependencies: map<string, seq<string>>,
                           ghost startSourcePath: map<string, string>,
                           ghost entry: Option<string>, ghost bound: nat, ghost downward: bool,
                           ghost S: set<string>, ghost within: bool)
      returns (r: Result<()>, ghost culprit: string)
      requires i < |deps|
      requires DependenciesKept(deps, parent, start, startModules, startDependencies, startSourcePath, entry, bound,
                                downward, S, within)
      requires DependenciesDone(deps, i, start, startModules)
      modifies this
      decreases bound, 0
      ensures DependenciesKept(deps, parent, start, startModules, startDependencies, startSourcePath, entry, bound,
                               downward, S, within)
      ensures r.Ok? ==> DependenciesDone(deps, i + 1, start, startModules)
      ensures r.Err? ==> FailsOn(culprit, r.error) && RequiredPath(root, dependencies, culprit)
      ensures within && r.Err? ==> culprit in S
      ensures within && Sound(S) ==> r.Ok?
    {
      assert deps[i] in deps;
      assert StoredId(root, deps[i]) == deps[i];
      ghost var cacheBefore := cache;
      ghost var modulesBefore := modules;
      ghost var dependenciesBefore := dependencies;
      ghost var sourcePathBefore := sourcePath;
      r, culprit := BuildModule(Join(root, deps[i]), false, S);
      ExtendsTransitive(startModules, modulesBefore, modules);
      ExtendsTransitive(startDependencies, dependenciesBefore, dependencies);
      ExtendsTransitive(startSourcePath, sourcePathBefore, sourcePath);
      if within {
        forall k | k in modules && k !in startModules
          ensures sourcePath[k] in S
        {
          if k in modulesBefore {
            assert sourcePathBefore[k] in S;
          }
        }
      }
      UnvisitedMonotone(fileIds, cacheBefore, cache);
      NewModulesRequired(startModules, modulesBefore, dependenciesBefore, parent, i);
      if r.Err? {
        RequiredPathFrom(parent, i, culprit);
        return;
      }
      ResolvedPrefixGrows(root, deps, i, cacheBefore, cache);
      forall id | id in modules && id !in startModules
        ensures id in dependencies && DepsCached(id)
      {
        if id in modulesBefore {
          ResolvedGrows(root, dependenciesBefore[id], cacheBefore, cache);
        }
      }
    }

    /** A failure on the path built for the `i`-th dependency of `parent` is on a required path. */
    lemma RequiredPathFrom(parent: string, i: nat, p: string)
      requires parent in dependencies && i < |dependencies[parent]|
      requires p == Join(root, dependencies[parent][i]) || RequiredPath(root, dependencies, p)
      ensures RequiredPath(root, dependencies, p)
    {
      if p == Join(root, dependencies[parent][i]) {
        assert dependencies[parent][i] in dependencies[parent];
      }
    }

    /**
     * After building the `i`-th dependency of `parent`, every module
     * registered since `before` is a dependency of a registered module.
     */
    lemma NewModulesRequired(start: map<string, seq<CallSite>>, before: map<string, seq<CallSite>>,
                             depsBefore: map<string, seq<string>>, parent: string, i: nat)
      requires parent in dependencies && i < |dependencies[parent]|
      requires StoredId(root, dependencies[parent][i]) == dependencies[parent][i]
      requires Extends(depsBefore, dependencies)
      requires forall k :: k in before && k !in start ==> Required(depsBefore, k)
      requires forall k :: k in modules && k !in before ==>
        k == ModuleId(root, Join(root, dependencies[parent][i])) || Required(dependencies, k)
      ensures forall k :: k in modules && k !in start ==> Required(dependencies, k)
    {
      assert dependencies[parent][i] in dependencies[parent];
      forall k | k in modules && k !in start
        ensures Required(dependencies, k)
      {
        if k in before {
          RequiredGrows(depsBefore, dependencies, k);
        }
      }
    }

    /**
     * Closure under the ids the build stores dependencies under is closure
     * under the dependency ids themselves: each is the id it is stored under.
     */
    lemma ClosedOnDependencyIds()
      requires Valid() && Closed()
      ensures forall id, d :: id in dependencies && d in dependencies[id] ==> d in modules
    {
      forall id, d | id in dependencies && d in dependencies[id]
        ensures d in modules
      {
        DependenciesStoredUnder(id);
        assert StoredId(root, d) == d;
        assert Resolved(root, dependencies[id], modules.Keys);
      }
    }

    /**
     * `run()`: build from the entry file, resolved against the working
     * directory, as the entry module.
     */
    method Run(ghost S: set<string>) returns (r: Result<()>, ghost culprit: string)
      requires Valid()
      modifies this
      ensures Valid()
      ensures r.Err? ==>
        FailsOn(culprit, r.error) && (culprit == EntryPath() || RequiredPath(root, dependencies, culprit))
      ensures forall k :: k in modules && k !in old(modules) ==> k == EntryId() || Required(dependencies, k)
      ensures EntryPath() in S && DependencyClosed(S) ==>
        (forall k :: k in modules && k !in old(modules) ==> sourcePath[k] in S) && (r.Err? ==> culprit in S)
      ensures EntryPath() in S && DependencyClosed(S) && Sound(S) ==> r.Ok?
      ensures old(cache) == {} && EntryPath() !in files ==>
        r == Err(FileNotFound(EntryPath())) && modules == map[]
      ensures old(cache) == {} && r.Ok? ==>
        entryId == Some(EntryId()) && EntryId() in modules && cache == modules.Keys && Closed()
      ensures old(cache) == {} && r.Ok? ==>
        forall id, d :: id in dependencies && d in dependencies[id] ==> d in modules
      ensures old(cache) == {} && DownwardRequests(files) && Canonical(EntryId()) ==> AllCanonical(modules.Keys)
    {
      assert cache == {} ==> AllCanonical(modules.Keys);
      r, culprit := BuildModule(EntryPath(), true, S);
      if old(cache) == {} && r.Ok? {
        assert Closed();
        ClosedOnDependencyIds();
      }
    }
  }
}
