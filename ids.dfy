/**
 * Module ids: how the compiler names a module. A module's id is its path
 * relative to the working directory, prefixed with "./"; a `require`d name
 * becomes an id by giving it the default extension and joining it onto the
 * directory of the requiring module's id.
 */
module ModuleIds {
  import opened NodePath

  const DefaultExtension := ".js"

  /** A requested name with no extension gets ".js"; any other name is kept. */
  function WithDefaultExtension(name: string): (r: string)
    ensures |r| >= |name| && r[..|name|] == name
    ensures r == name <==> Extname(name) != ""
  {
    name + (if Extname(name) != "" then "" else DefaultExtension)
  }

  /** The id recorded for `require(request)` inside a module whose directory is `parentPath`. */
  function DependencyId(parentPath: string, request: string): (r: string)
    ensures |r| >= 2 && r[..2] == "./"
  {
    "./" + Join(parentPath, WithDefaultExtension(request))
  }

  /** The id of the module read from `modulePath`, for the working directory `root`. */
  function ModuleId(root: string, modulePath: string): (r: string)
    ensures |r| >= 2 && r[..2] == "./"
  {
    "./" + Relative(root, root, modulePath)
  }

  /** The segments of the working directory. */
  function RootSegments(root: string): seq<string>
  {
    ResolveSegments(root, root)
  }

  /** An id of a file strictly below the working directory: "./" and plain names. */
  predicate Canonical(id: string)
  {
    |id| >= 2 && id[..2] == "./" && AllNames(Split(id[2..]))
  }

  /** The directory segments of a canonical id: all of its names but the last. */
  function DirSegments(id: string): seq<string>
    requires Canonical(id)
  {
    var segs := Split(id[2..]);
    segs[..|segs| - 1]
  }

  /** A request that names a file below the requiring module's directory: non-empty, not ending in a separator, with no `..` segment. */
  predicate Downward(request: string)
  {
    request != "" && request[|request| - 1] != '/' && ".." !in Split(request)
  }

  // ---------------------------------------------------------------------
  // Extension normalization

  lemma LastDotOfJs(b: string)
    ensures LastIndexOf(b + DefaultExtension, '.') == |b|
  {
    var t := b + DefaultExtension;
    var t1 := t[..|t| - 1];
    var t2 := t1[..|t1| - 1];
    assert t[|t| - 1] == 's';
    assert t1 == b + ".j" && t1[|t1| - 1] == 'j';
    assert LastIndexOf(t, '.') == LastIndexOf(t1, '.');
    assert t2 == b + "." && t2[|t2| - 1] == '.';
    assert LastIndexOf(t1, '.') == LastIndexOf(t2, '.');
  }

  /** The last segment of a name with ".js" appended is its own last segment with ".js" appended. */
  lemma BasenameAppended(name: string)
    requires name != "" && name[|name| - 1] != '/'
    ensures var a := Split(name);
      a[|a| - 1] != "" && Basename(name + DefaultExtension) == a[|a| - 1] + DefaultExtension
  {
    var n := name + DefaultExtension;
    assert n[|n| - 1] == 's';
    assert TrimTrailingSlashes(n) == n;
    SplitAppendPlain(name, DefaultExtension);
    LastPieceNonEmpty(name);
  }

  /** A name not ending in "/" with ".js" appended has the extension ".js". */
  lemma ExtnameAppended(name: string)
    requires name != "" && name[|name| - 1] != '/'
    ensures Extname(name + DefaultExtension) == DefaultExtension
  {
    var a := Split(name);
    var last := a[|a| - 1];
    BasenameAppended(name);
    var b := last + DefaultExtension;
    LastDotOfJs(last);
    assert LastIndexOf(b, '.') == |last| > 0;
    assert |b| > 2;
    assert b[|last|..] == DefaultExtension;
  }

  /**
   * A name without an extension, not ending in "/", gets exactly ".js"
   * appended, and then has the extension ".js".
   */
  lemma DefaultExtensionAppended(name: string)
    requires name != "" && name[|name| - 1] != '/'
    requires Extname(name) == ""
    ensures WithDefaultExtension(name) == name + ".js"
    ensures Extname(WithDefaultExtension(name)) == ".js"
  {
    assert WithDefaultExtension(name) == name + DefaultExtension;
    ExtnameAppended(name);
  }

  /**
   * Extension normalization is idempotent on names that do not end in "/":
   * the result always has an extension, so a second pass keeps it.
   */
  lemma WithDefaultExtensionIdempotent(name: string)
    requires name != "" && name[|name| - 1] != '/'
    ensures Extname(WithDefaultExtension(name)) != ""
    ensures WithDefaultExtension(WithDefaultExtension(name)) == WithDefaultExtension(name)
  {
    if Extname(name) == "" {
      DefaultExtensionAppended(name);
    } else {
      assert WithDefaultExtension(name) == name + "" == name;
    }
  }

  /**
   * A name ending in a separator whose last name has no "." has no
   * extension, so ".js" goes after the separator; the result again has no
   * extension, so normalization is not idempotent on such names.
   */
  lemma SeparatorEndingGetsExtensionAfterIt(m: string)
    requires IsName(m) && '.' !in m
    ensures Extname(m + "/") == ""
    ensures WithDefaultExtension(m + "/") == m + "/" + ".js"
    ensures Extname(m + "/" + ".js") == ""
    ensures WithDefaultExtension(WithDefaultExtension(m + "/")) == m + "/" + ".js" + ".js"
  {
    var n := m + "/";
    assert n[..|n| - 1] == m;
    assert TrimTrailingSlashes(m) == m;
    assert TrimTrailingSlashes(n) == m;
    SplitNoSlash(m);
    assert Basename(n) == m;
    assert LastIndexOf(m, '.') == -1;
    var e := n + ".js";
    assert e == m + "/" + ".js";
    assert TrimTrailingSlashes(e) == e;
    SplitConcat(m, ".js");
    SplitNoSlash(".js");
    assert Basename(e) == ".js";
    LastDotOfJs("");
    assert "" + DefaultExtension == ".js";
  }

  // ---------------------------------------------------------------------
  // Id -> absolute path -> id

  /** The id of a file strictly below the working directory is "./" and its segments below it. */
  lemma {:induction false} ModuleIdBelowRoot(root: string, s: seq<string>)
    requires IsAbsolute(root)
    requires |s| >= 1 && AllNames(s)
    ensures AllNames(RootSegments(root))
    ensures ModuleId(root, Abs(RootSegments(root) + s)) == "./" + Render(s)
  {
    var rootPieces := Split(root);
    SplitConcat(root, "");
    assert root + "/" == root + "/" + "";
    NormalizeAbsoluteNames([], rootPieces + [""]);
    var r := RootSegments(root);
    assert r == NormalizeSegments(rootPieces + [""], false);
    var x := Render(r + s);
    var p := Abs(r + s);
    assert IsAbsolute(p);
    // Split(p + "/") == [""] + (r + s) + [""]
    SplitRender(r + s);
    SplitConcat(x, "");
    assert x + "/" == x + "/" + "";
    SplitConcat("", x + "/");
    assert p + "/" == "" + "/" + (x + "/");
    assert Split(p + "/") == [""] + (r + s) + [""];
    NormalizeConcat([], [""], (r + s) + [""], false);
    NormalizeConcat([], r + s, [""], false);
    NormalizeNames([], r + s, false);
    assert ResolveSegments(root, p) == r + s;
    CommonPrefixOfExtension(r, s);
    assert Ups(0) + (r + s)[|r|..] == s;
  }

  lemma CanonicalForm(id: string)
    requires Canonical(id)
    ensures id == "./" + Render(Split(id[2..]))
    ensures Render(Split(id[2..])) != ""
    ensures Render(Split(id[2..]))[|Render(Split(id[2..]))| - 1] != '/'
  {
    RenderSplit(id[2..]);
    assert id == id[..2] + id[2..];
    RenderLast(Split(id[2..]));
  }

  /**
   * Round trip used by the recursion of the build: joining a canonical id
   * onto the working directory and taking the id of the result gives the
   * id back, so the module is registered under the very id `parse` emitted.
   */
  lemma {:induction false} IdRoundTrip(root: string, dep: string)
    requires IsAbsolute(root)
    requires Canonical(dep)
    ensures ModuleId(root, Join(root, dep)) == dep
  {
    var s := Split(dep[2..]);
    CanonicalForm(dep);
    ModuleIdBelowRoot(root, s);
    JoinCanonical(root, dep);
  }

  /** The pieces of `root + "/" + dep` for a canonical `dep`: the root's, ".", then the id's names. */
  lemma JoinCanonicalSplit(root: string, dep: string)
    requires Canonical(dep)
    ensures Split(root + "/" + dep) == Split(root) + (["."] + Split(dep[2..]))
  {
    var s := Split(dep[2..]);
    CanonicalForm(dep);
    var body := Render(s);
    assert dep == "." + "/" + body;
    SplitConcat(".", body);
    SplitNoSlash(".");
    SplitRender(s);
    SplitConcat(root, dep);
  }

  /** Normalizing the joined pieces leaves the working directory's segments and the id's names. */
  lemma JoinCanonicalSegments(root: string, dep: string)
    requires IsAbsolute(root)
    requires Canonical(dep)
    ensures NormalizeSegments(Split(root + "/" + dep), false) == RootSegments(root) + Split(dep[2..])
  {
    var s := Split(dep[2..]);
    JoinCanonicalSplit(root, dep);
    SplitConcat(root, "");
    assert root + "/" == root + "/" + "";
    var r0 := NormalizeSegments(Split(root), false);
    NormalizeConcat([], Split(root), [""], false);
    assert r0 == RootSegments(root);
    NormalizeConcat([], Split(root), ["."] + s, false);
    NormalizeConcat(r0, ["."], s, false);
    NormalizeNames(r0, s, false);
  }

  /** `path.join(root, dep)` is the absolute path of those segments. */
  lemma JoinCanonical(root: string, dep: string)
    requires IsAbsolute(root)
    requires Canonical(dep)
    ensures Join(root, dep) == Abs(RootSegments(root) + Split(dep[2..]))
  {
    JoinCanonicalSegments(root, dep);
    var s := Split(dep[2..]);
    CanonicalForm(dep);
    var r := RootSegments(root);
    ModuleIdBelowRoot(root, s);
    assert AllNames(r + s);
    var q := root + "/" + dep;
    assert Join(root, dep) == Normalize(q);
    assert q[|q| - 1] == dep[|dep| - 1] != '/';
    NormalizeAbsolute(q, r + s);
  }


  // ---------------------------------------------------------------------
  // Dependency ids of a canonical module

  /** The directory of a canonical id is "." followed by its directory segments. */
  lemma {:induction false} DirnameOfCanonical(id: string)
    requires Canonical(id)
    ensures var d := Dirname(id); d != "" && d[0] == '.' && Split(d) == ["."] + DirSegments(id)
  {
    var dirs := DirSegments(id);
    var x := DirPrefix(dirs);
    CanonicalLastName(id);
    DirnameAfterLastSeparator(id, |x|);
    DirPrefixSplit(dirs);
  }

  /** "." followed by directory segments, as text. */
  function DirPrefix(dirs: seq<string>): string
  {
    if dirs == [] then "." else "." + "/" + Render(dirs)
  }

  lemma DirPrefixSplit(dirs: seq<string>)
    requires forall i :: 0 <= i < |dirs| ==> '/' !in dirs[i]
    ensures DirPrefix(dirs) != "" && DirPrefix(dirs)[0] == '.'
    ensures Split(DirPrefix(dirs)) == ["."] + dirs
  {
    SplitNoSlash(".");
    if dirs != [] {
      SplitConcat(".", Render(dirs));
      SplitRender(dirs);
    }
  }

  /** A canonical id is its directory prefix, a separator and its last name. */
  lemma CanonicalSplitsAtLast(id: string)
    requires Canonical(id)
    ensures var s := Split(id[2..]); id == DirPrefix(s[..|s| - 1]) + "/" + s[|s| - 1]
  {
    var s := Split(id[2..]);
    CanonicalForm(id);
    var dirs := s[..|s| - 1];
    var f := s[|s| - 1];
    assert s == dirs + [f];
    if dirs != [] {
      RenderAppend(dirs, [f]);
      assert Render([f]) == f;
      assert id == "./" + (Render(dirs) + "/" + f);
      assert id == ("." + "/" + Render(dirs)) + "/" + f;
    } else {
      assert Render(s) == f;
      assert id == "." + "/" + f;
    }
  }

  /** A canonical id is its directory prefix, a separator, and a last name without separators. */
  lemma CanonicalLastName(id: string)
    requires Canonical(id)
    ensures var x := DirPrefix(DirSegments(id));
      |x| < |id| - 1 && id[..|x|] == x && id[|x|] == '/' && forall k :: |x| < k < |id| ==> id[k] != '/'
  {
    var s := Split(id[2..]);
    CanonicalSplitsAtLast(id);
    var f := s[|s| - 1];
    var x := DirPrefix(s[..|s| - 1]);
    assert id == x + "/" + f;
    assert IsName(f) && '/' !in f;
    var tail := id[|x| + 1..];
    assert tail == f;
    forall k | |x| < k < |id|
      ensures id[k] != '/'
    {
      assert id[k] == tail[k - |x| - 1];
    }
  }


  lemma DownwardAppended(request: string)
    requires Downward(request) && Extname(request) == ""
    ensures var n := WithDefaultExtension(request);
      n != "" && n[|n| - 1] != '/' && ".." !in Split(n) && DropDots(Split(n)) != []
  {
    var a := Split(request);
    var n := request + DefaultExtension;
    assert WithDefaultExtension(request) == n;
    SplitAppendPlain(request, DefaultExtension);
    var l := a[|a| - 1] + DefaultExtension;
    var sn := Split(n);
    assert sn == a[..|a| - 1] + [l];
    assert |l| >= 3;
    forall i | 0 <= i < |sn| ensures sn[i] != ".." {
      if i < |a| - 1 { assert sn[i] == a[i]; }
    }
    DropDotsKeepsLast(sn);
  }

  lemma DownwardKept(request: string)
    requires Downward(request) && Extname(request) != ""
    ensures var n := WithDefaultExtension(request);
      n != "" && n[|n| - 1] != '/' && ".." !in Split(n) && DropDots(Split(n)) != []
  {
    var a := Split(request);
    assert WithDefaultExtension(request) == request + "" == request;
    LastPieceNonEmpty(request);
    assert TrimTrailingSlashes(request) == request;
    var b := a[|a| - 1];
    assert Basename(request) == b;
    assert LastIndexOf(".", '.') == 0;
    assert b != ".";
    DropDotsKeepsLast(a);
  }

  /** The normalized name of a downward request: its own pieces, none of them "..", the last a name. */
  lemma NormalizedDownward(request: string)
    requires Downward(request)
    ensures var n := WithDefaultExtension(request);
      n != "" && n[|n| - 1] != '/' && ".." !in Split(n) && DropDots(Split(n)) != []
  {
    if Extname(request) == "" {
      DownwardAppended(request);
    } else {
      DownwardKept(request);
    }
  }

  /**
   * The dependency id of a downward request made by a canonical module is
   * canonical: "./", the module's directory segments, then the request's
   * own segments with "" and "." dropped.
   */
  lemma {:induction false} DownwardDependencyId(parentId: string, request: string)
    requires Canonical(parentId)
    requires Downward(request)
    ensures var n := WithDefaultExtension(request);
      DependencyId(Dirname(parentId), request) == "./" + Render(DirSegments(parentId) + DropDots(Split(n)))
    ensures Canonical(DependencyId(Dirname(parentId), request))
  {
    var d := DirSegments(parentId);
    var n := WithDefaultExtension(request);
    NormalizedDownward(request);
    DependencyJoinSegments(parentId, n);
    var segs := d + DropDots(Split(n));
    JoinOfSegments(Dirname(parentId), n, segs);
    var id := "./" + Render(segs);
    assert id[2..] == Render(segs);
    SplitRender(segs);
  }

  /** The normalized pieces of a name joined onto the directory of a canonical id. */
  lemma DependencyJoinSegments(parentId: string, n: string)
    requires Canonical(parentId)
    requires ".." !in Split(n)
    ensures var x := Dirname(parentId);
      x != "" && x[0] == '.' &&
      NormalizeSegments(Split(x + "/" + n), true) == DirSegments(parentId) + DropDots(Split(n))
    ensures AllNames(DirSegments(parentId) + DropDots(Split(n)))
  {
    var x := Dirname(parentId);
    var d := DirSegments(parentId);
    DirnameOfCanonical(parentId);
    SplitConcat(x, n);
    assert Split(x + "/" + n) == ["."] + d + Split(n);
    NormalizeConcat([], ["."] + d, Split(n), true);
    NormalizeConcat([], ["."], d, true);
    assert NormalizeFrom([], ["."], true) == [];
    NormalizeNames([], d, true);
    assert NormalizeFrom([], ["."] + d, true) == d;
    NormalizeWithoutUps(d, Split(n), true);
    assert NormalizeSegments(["."] + d + Split(n), true) == NormalizeFrom(d, Split(n), true);
  }

  /** `path.join(x, n)` for a relative `x` and a name `n` not ending in "/", whose pieces normalize to `segs`. */
  lemma JoinOfSegments(x: string, n: string, segs: seq<string>)
    requires x != "" && x[0] == '.'
    requires n != "" && n[|n| - 1] != '/'
    requires segs != [] && AllNames(segs)
    requires NormalizeSegments(Split(x + "/" + n), true) == segs
    ensures Join(x, n) == Render(segs)
  {
    var joined := x + "/" + n;
    assert segs[|segs| - 1] != "";
    RenderLast(segs);
    assert joined[0] == '.';
    assert joined[|joined| - 1] == n[|n| - 1];
    assert Join(x, n) == Normalize(joined);
    assert Render(NormalizeSegments(Split(joined), true)) == Render(segs) != "";
  }

  // ---------------------------------------------------------------------
  // Ids of arbitrary paths

  /** The id under which the build registers the dependency id `dep`: that of `path.join(root, dep)`. */
  function StoredId(root: string, dep: string): string
  {
    ModuleId(root, Join(root, dep))
  }

  /** The working directory's segments are plain names, and so are the pieces of its own normalization. */
  lemma RootNames(root: string)
    requires IsAbsolute(root)
    ensures AllNames(RootSegments(root))
    ensures NormalizeSegments(Split(root), false) == RootSegments(root)
  {
    SplitConcat(root, "");
    assert root + "/" == root + "/" + "";
    NormalizeConcat([], Split(root), [""], false);
    NormalizeAbsoluteNames([], Split(root) + [""]);
  }

  /**
   * Joining "./" and a relative path onto the working directory normalizes
   * back to the resolved segments it was computed from.
   */
  lemma JoinRelativeSegments(root: string, t: seq<string>)
    requires IsAbsolute(root) && AllNames(t)
    ensures var u := RelativeSegments(RootSegments(root), t);
      NormalizeSegments(Split(root + "/" + ("./" + Render(u))), false) == t
  {
    var r := RootSegments(root);
    RootNames(root);
    var rel := Render(RelativeSegments(r, t));
    JoinRelativeSplit(root, rel);
    NormalizeConcat([], Split(root), ["."] + Split(rel), false);
    NormalizeConcat(r, ["."], Split(rel), false);
    assert NormalizeFrom(r, ["."], false) == r;
    NormalizeRelative(r, t);
  }

  /** `path.join(root, "./" + rel)` is the absolute path of `t`, with a trailing separator when `rel` is empty. */
  lemma JoinRelative(root: string, t: seq<string>)
    requires IsAbsolute(root) && AllNames(t)
    ensures var u := RelativeSegments(RootSegments(root), t);
      Join(root, "./" + Render(u)) == "/" + Render(t) + (if u == [] && t != [] then "/" else "")
  {
    var u := RelativeSegments(RootSegments(root), t);
    var rel := Render(u);
    var q := root + "/" + ("./" + rel);
    JoinRelativeSegments(root, t);
    RelativeSegmentsShape(RootSegments(root), t);
    if u == [] {
      assert q[|q| - 1] == '/';
    } else {
      RenderLast(u);
      assert q[|q| - 1] == rel[|rel| - 1];
    }
    NormalizeAbsolute(q, t);
  }

  /**
   * Ids are fixed by the build's round trip: joining the id of any path onto
   * the working directory and taking the id of the result gives the id back.
   */
  lemma {:induction false} ModuleIdFixed(root: string, p: string)
    requires IsAbsolute(root)
    ensures StoredId(root, ModuleId(root, p)) == ModuleId(root, p)
  {
    var r := RootSegments(root);
    var t := ResolveSegments(root, p);
    ResolvedNames(root, p);
    var u := RelativeSegments(r, t);
    assert ModuleId(root, p) == "./" + Render(u);
    JoinRelative(root, t);
    ResolveRendered(root, t, u == [] && t != []);
  }

  // ---------------------------------------------------------------------
  // The id `parse` records against the id the module is stored under

  /**
   * The id under which the build stores the module `require(request)`
   * names: the dependency id joined onto the working directory, taken
   * relative to it again. `parse` records `DependencyId` instead; the two
   * differ for some requests that climb out of the working directory and
   * for some requests that end in a separator.
   */
  function ResolvedDependencyId(root: string, parentPath: string, request: string): (r: string)
    ensures |r| >= 2 && r[..2] == "./"
  {
    StoredId(root, DependencyId(parentPath, request))
  }

  /** The resolved id is the id its module is stored under, for every request. */
  lemma ResolvedDependencyIdStored(root: string, parentPath: string, request: string)
    requires IsAbsolute(root)
    ensures StoredId(root, ResolvedDependencyId(root, parentPath, request)) == ResolvedDependencyId(root, parentPath, request)
  {
    ModuleIdFixed(root, Join(root, DependencyId(parentPath, request)));
  }

  /**
   * Line 100 reads the file the dependency id names: joining the stored id
   * onto the working directory gives back `path.join(root, d)`, unless that
   * path ends in a separator or is the working directory itself.
   */
  lemma ReadPathKept(root: string, d: string)
    requires IsAbsolute(root)
    requires var p := Join(root, d); p[|p| - 1] != '/'
    requires ResolveSegments(root, Join(root, d)) != RootSegments(root)
    ensures Join(root, StoredId(root, d)) == Join(root, d)
  {
    var p := Join(root, d);
    var q := if d == "" then root else root + "/" + d;
    assert p == Normalize(q);
    var t := NormalizeSegments(Split(q), false);
    NormalizeAbsoluteNames([], Split(q));
    NormalizeAbsolute(q, t);
    assert p == "/" + Render(t);
    ResolveRendered(root, t, false);
    assert ResolveSegments(root, p) == t;
    var r := RootSegments(root);
    RelativeEmptyOnlyWhenEqual(r, t);
    ResolvedNames(root, p);
    JoinRelative(root, t);
  }

  /** For a downward request from a canonical module's directory, the resolved id is the dependency id. */
  lemma ResolvedDependencyIdDownward(root: string, parentId: string, request: string)
    requires IsAbsolute(root)
    requires Canonical(parentId) && Downward(request)
    ensures ResolvedDependencyId(root, Dirname(parentId), request) == DependencyId(Dirname(parentId), request)
  {
    DownwardDependencyId(parentId, request);
    IdRoundTrip(root, DependencyId(Dirname(parentId), request));
  }

  /** A canonical id with no directory segments lies in directory ".". */
  lemma TopLevelDirname(parentId: string)
    requires Canonical(parentId) && DirSegments(parentId) == []
    ensures Dirname(parentId) == "."
  {
    DirnameOfCanonical(parentId);
    RenderSplit(Dirname(parentId));
  }

  /** "../b/x" has no extension when `x` has no ".". */
  lemma UpwardRequestExtension(b: string, x: string)
    requires IsName(b) && IsName(x) && '.' !in x
    ensures WithDefaultExtension(".." + "/" + (b + "/" + x)) == ".." + "/" + (b + "/" + (x + ".js"))
  {
    var request := ".." + "/" + (b + "/" + x);
    Split3("..", b, x);
    assert TrimTrailingSlashes(request) == request;
    assert Basename(request) == x;
    assert LastIndexOf(x, '.') == -1;
    assert request + ".js" == ".." + "/" + (b + "/" + (x + ".js"));
  }

  /** The pieces of "./../b/n", normalized as a relative path. */
  lemma UpwardJoinSegments(b: string, n: string)
    requires IsName(b) && IsName(n)
    ensures NormalizeSegments(Split("." + "/" + (".." + "/" + (b + "/" + n))), true) == ["..", b, n]
  {
    var m := ".." + "/" + (b + "/" + n);
    Split3("..", b, n);
    SplitNoSlash(".");
    SplitConcat(".", m);
    assert Split("." + "/" + m) == [".", ".."] + [b, n];
    NormalizeConcat([], [".", ".."], [b, n], true);
    assert NormalizeFrom([], [".", ".."], true) == [".."];
    NormalizeNames([".."], [b, n], true);
    assert [".."] + [b, n] == ["..", b, n];
  }

  /** `path.join(".", "../b/n")` keeps the "..". */
  lemma UpwardJoin(b: string, n: string)
    requires IsName(b) && IsName(n)
    ensures Join(".", ".." + "/" + (b + "/" + n)) == ".." + "/" + (b + "/" + n)
  {
    var m := ".." + "/" + (b + "/" + n);
    var q := "." + "/" + m;
    UpwardJoinSegments(b, n);
    Render3("..", b, n);
    assert q[0] == '.';
    assert q[|q| - 1] == n[|n| - 1];
  }

  /** The working directory "/a/b" has the segments `a` and `b`. */
  lemma TwoLevelRoot(a: string, b: string)
    requires IsName(a) && IsName(b)
    ensures Split("/" + a + "/" + b) == [""] + [a, b]
    ensures RootSegments("/" + a + "/" + b) == [a, b]
    ensures NormalizeSegments(Split("/" + a + "/" + b), false) == [a, b]
  {
    var root := "/" + a + "/" + b;
    assert root == "" + "/" + (a + "/" + b);
    Split3("", a, b);
    RootNames(root);
    NormalizeConcat([], [""], [a, b], false);
    assert NormalizeFrom([], [""], false) == [];
    NormalizeNames([], [a, b], false);
    assert NormalizeSegments(Split(root), false) == [a, b];
  }

  /** The pieces of "/a/b" joined with "./../b/n", normalized as an absolute path. */
  lemma UpwardStoredSegments(a: string, b: string, n: string)
    requires IsName(a) && IsName(b) && IsName(n)
    ensures var q := "/" + a + "/" + b + "/" + ("./" + (".." + "/" + (b + "/" + n)));
      NormalizeSegments(Split(q), false) == [a, b, n]
  {
    var root := "/" + a + "/" + b;
    var rel := ".." + "/" + (b + "/" + n);
    TwoLevelRoot(a, b);
    Split3("..", b, n);
    JoinRelativeSplit(root, rel);
    NormalizeConcat([], Split(root), ["."] + ["..", b, n], false);
    assert NormalizeSegments(Split(root), false) == [a, b];
    NormalizeConcat([a, b], [".", ".."], [b, n], false);
    assert NormalizeFrom([a, b], [".", ".."], false) == [a];
    NormalizeNames([a], [b, n], false);
    assert ["."] + ["..", b, n] == [".", ".."] + [b, n];
  }

  /** Below the working directory "/a/b", the id of `join(root, "./../b/n")` is "./n". */
  lemma UpwardStored(a: string, b: string, n: string)
    requires IsName(a) && IsName(b) && IsName(n)
    ensures StoredId("/" + a + "/" + b, "./" + (".." + "/" + (b + "/" + n))) == "./" + n
  {
    var root := "/" + a + "/" + b;
    var q := root + "/" + ("./" + (".." + "/" + (b + "/" + n)));
    UpwardStoredSegments(a, b, n);
    assert q[|q| - 1] == n[|n| - 1];
    NormalizeAbsolute(q, [a, b, n]);
    assert Join(root, "./" + (".." + "/" + (b + "/" + n))) == Normalize(q);
    assert Normalize(q) == Abs([a, b, n]);
    TwoLevelRoot(a, b);
    assert [a, b] + [n] == [a, b, n];
    ModuleIdBelowRoot(root, [n]);
    assert Render([n]) == n;
  }

  /**
   * As written, the dependency id and the stored id disagree: in the
   * working directory "/a/b", a top-level module that requires "../b/x"
   * records the id "./../b/x.js", while the module is stored under "./x.js".
   */
  lemma UpwardRequestMismatch(parentId: string, a: string, b: string, x: string)
    requires Canonical(parentId) && DirSegments(parentId) == []
    requires IsName(a) && IsName(b) && IsName(x) && '.' !in x
    ensures var id := DependencyId(Dirname(parentId), ".." + "/" + (b + "/" + x));
      id == "./" + (".." + "/" + (b + "/" + (x + ".js"))) &&
      StoredId("/" + a + "/" + b, id) == "./" + (x + ".js") &&
      StoredId("/" + a + "/" + b, id) != id
  {
    TopLevelDirname(parentId);
    UpwardRequestExtension(b, x);
    UpwardJoin(b, x + ".js");
    UpwardStored(a, b, x + ".js");
    var id := "./" + (".." + "/" + (b + "/" + (x + ".js")));
    assert id[2] == '.' && ("./" + (x + ".js"))[2] != '.';
  }

  /** The request "./m/" has the last segment `m`, so it has the extension of `m` and keeps its name. */
  lemma TrailingRequestExtension(m: string)
    requires IsName(m) && Extname(m) != ""
    ensures WithDefaultExtension("./" + (m + "/")) == "./" + (m + "/")
  {
    var request := "./" + (m + "/");
    var trimmed := "." + "/" + m;
    assert request[..|request| - 1] == trimmed;
    assert trimmed[|trimmed| - 1] == m[|m| - 1] != '/';
    assert TrimTrailingSlashes(request) == trimmed;
    SplitNoSlash(".");
    SplitNoSlash(m);
    SplitConcat(".", m);
    assert Basename(request) == m;
    assert TrimTrailingSlashes(m) == m;
    assert Basename(m) == m;
  }

  /** The pieces of "." joined with "./m/". */
  lemma TrailingJoinSplit(m: string)
    requires IsName(m)
    ensures Split("." + "/" + ("./" + (m + "/"))) == [".", ".", m, ""]
  {
    assert "." + "/" + ("./" + (m + "/")) == "." + "/" + ("." + "/" + (m + "/" + ""));
    SplitNoSlash(".");
    SplitNoSlash(m);
    SplitNoSlash("");
    SplitConcat(m, "");
    SplitConcat(".", m + "/" + "");
    SplitConcat(".", "." + "/" + (m + "/" + ""));
  }

  /** The pieces of "." joined with "./m/" normalize to `m` alone. */
  lemma TrailingJoinSegments(m: string)
    requires IsName(m)
    ensures NormalizeSegments(Split("." + "/" + ("./" + (m + "/"))), true) == [m]
  {
    TrailingJoinSplit(m);
    NormalizeWithoutUps([], [".", ".", m, ""], true);
    DropDotsAroundName(m);
  }

  /** `path.join(".", "./m/")` is "m/": the trailing separator is kept. */
  lemma TrailingJoin(m: string)
    requires IsName(m)
    ensures Join(".", "./" + (m + "/")) == m + "/"
  {
    var r := "./" + (m + "/");
    var q := "." + "/" + r;
    assert Join(".", r) == Normalize(q);
    TrailingJoinSegments(m);
    NormalizeRelativeTrailing(q, [m]);
    assert Render([m]) == m;
  }

  /** The pieces of `root + "/" + "./m/"`, normalized as an absolute path: the working directory's segments and `m`. */
  lemma TrailingStoredSegments(root: string, m: string)
    requires IsAbsolute(root) && IsName(m)
    ensures AllNames(RootSegments(root) + [m])
    ensures NormalizeSegments(Split(root + "/" + ("./" + (m + "/"))), false) == RootSegments(root) + [m]
  {
    var r := RootSegments(root);
    RootNames(root);
    JoinRelativeSplit(root, m + "/");
    SplitNoSlash(m);
    SplitTrailingSlashes(m);
    assert Split(m + "/") == [m, ""];
    assert ["."] + [m, ""] == [".", m, ""];
    NormalizeConcat([], Split(root), [".", m, ""], false);
    NormalizeWithoutUps(r, [".", m, ""], false);
    DropDotsAroundName(m);
  }

  /** Below any working directory, the id of `join(root, "./m/")` is "./m": the trailing separator is dropped. */
  lemma TrailingStored(root: string, m: string)
    requires IsAbsolute(root) && IsName(m)
    ensures StoredId(root, "./" + (m + "/")) == "./" + m
  {
    var dep := "./" + (m + "/");
    var q := root + "/" + dep;
    var t := RootSegments(root) + [m];
    TrailingStoredSegments(root, m);
    NormalizeAbsolute(q, t);
    assert q[|q| - 1] == '/';
    assert Join(root, dep) == "/" + Render(t) + "/";
    ResolveRendered(root, t, true);
    ResolveRendered(root, t, false);
    assert "/" + Render(t) + "" == Abs(t);
    assert ResolveSegments(root, Join(root, dep)) == t == ResolveSegments(root, Abs(t));
    assert Relative(root, root, Join(root, dep)) == Relative(root, root, Abs(t));
    ModuleIdBelowRoot(root, [m]);
    assert Render([m]) == m;
  }

  /**
   * As written, a request ending in a separator keeps it in the dependency
   * id, while the id of the path built from it has none: a top-level
   * module that requires "./m/", where `m` has an extension, records
   * "./m/", and the id of `join(root, "./m/")` is "./m".
   */
  lemma TrailingSeparatorMismatch(root: string, parentId: string, m: string)
    requires IsAbsolute(root)
    requires Canonical(parentId) && DirSegments(parentId) == []
    requires IsName(m) && Extname(m) != ""
    ensures var id := DependencyId(Dirname(parentId), "./" + (m + "/"));
      id == "./" + (m + "/") &&
      StoredId(root, id) == "./" + m &&
      StoredId(root, id) != id
  {
    TopLevelDirname(parentId);
    TrailingRequestExtension(m);
    TrailingJoin(m);
    TrailingStored(root, m);
    assert |"./" + m| < |"./" + (m + "/")|;
  }
}
