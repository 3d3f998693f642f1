/**
 * The part of Node's POSIX `path` module that the compiler relies on:
 * `join`, `normalize`, `resolve`, `relative`, `dirname` and `extname`.
 * Paths are strings; the functions work on the '/'-separated segments of a
 * string, the way Node's own implementation does.
 */
module NodePath {

  /** `s.split("/")`: the pieces between separators, empty pieces included. */
  function Split(s: string): (r: seq<string>)
    ensures |r| >= 1
    ensures forall i :: 0 <= i < |r| ==> '/' !in r[i]
    decreases |s|
  {
    if |s| == 0 then [""]
    else if s[0] == '/' then [""] + Split(s[1..])
    else
      var rest := Split(s[1..]);
      [[s[0]] + rest[0]] + rest[1..]
  }

  /** `segs.join("/")`. */
  function Render(segs: seq<string>): string
    decreases |segs|
  {
    if |segs| == 0 then ""
    else if |segs| == 1 then segs[0]
    else segs[0] + "/" + Render(segs[1..])
  }

  /** The absolute path whose segments below "/" are `segs`. */
  function Abs(segs: seq<string>): string
  {
    "/" + Render(segs)
  }

  /** A segment that names a file or directory: not empty, not "." or "..". */
  predicate IsName(seg: string)
  {
    seg != "" && seg != "." && seg != ".." && '/' !in seg
  }

  predicate AllNames(segs: seq<string>)
  {
    forall i :: 0 <= i < |segs| ==> IsName(segs[i])
  }

  predicate IsAbsolute(p: string)
  {
    |p| > 0 && p[0] == '/'
  }

  /**
   * One step of Node's `normalizeString`: empty and "." segments vanish,
   * ".." removes the previous real segment, or is kept (relative paths) or
   * dropped (absolute paths, which cannot climb above "/").
   */
  function NormalizeStep(acc: seq<string>, seg: string, allowAboveRoot: bool): seq<string>
  {
    if seg == "" || seg == "." then acc
    else if seg == ".." then
      if |acc| > 0 && acc[|acc| - 1] != ".." then acc[..|acc| - 1]
      else if allowAboveRoot then acc + [".."]
      else acc
    else acc + [seg]
  }

  function NormalizeFrom(acc: seq<string>, segs: seq<string>, allowAboveRoot: bool): seq<string>
    decreases |segs|
  {
    if segs == [] then acc
    else NormalizeFrom(NormalizeStep(acc, segs[0], allowAboveRoot), segs[1..], allowAboveRoot)
  }

  function NormalizeSegments(segs: seq<string>, allowAboveRoot: bool): seq<string>
  {
    NormalizeFrom([], segs, allowAboveRoot)
  }

  /** `path.normalize(p)`: a trailing separator is kept, an empty result is ".". */
  function Normalize(p: string): string
  {
    if p == "" then "."
    else
      var absolute := p[0] == '/';
      var trailing := p[|p| - 1] == '/';
      var body := Render(NormalizeSegments(Split(p), !absolute));
      if body == "" then (if absolute then "/" else if trailing then "./" else ".")
      else (if absolute then "/" else "") + body + (if trailing then "/" else "")
  }

  /** `path.join(a, b)`: empty arguments are skipped, the rest joined by "/" and normalized. */
  function Join(a: string, b: string): string
  {
    var joined := if a == "" then b else if b == "" then a else a + "/" + b;
    if joined == "" then "." else Normalize(joined)
  }

  /**
   * The segments of `path.resolve(cwd, p)`, for an absolute working
   * directory `cwd`: a relative `p` is taken below `cwd`; trailing
   * separators are dropped.
   */
  function ResolveSegments(cwd: string, p: string): seq<string>
  {
    var joined := if IsAbsolute(p) then p + "/" else if p == "" then cwd + "/" else cwd + "/" + p + "/";
    NormalizeSegments(Split(joined), false)
  }

  /** `path.resolve(cwd, p)`. */
  function Resolve(cwd: string, p: string): string
  {
    Abs(ResolveSegments(cwd, p))
  }

  /** Length of the longest common prefix of two segment sequences. */
  function CommonPrefix(a: seq<string>, b: seq<string>): (n: nat)
    ensures n <= |a| && n <= |b|
    decreases |a|
  {
    if a == [] || b == [] || a[0] != b[0] then 0 else 1 + CommonPrefix(a[1..], b[1..])
  }

  function Ups(n: nat): seq<string>
  {
    seq(n, _ => "..")
  }

  /**
   * `path.relative(from, to)` with both resolved against `cwd`: one ".." per
   * segment of `from` below the common prefix, then the rest of `to`.
   */
  function Relative(cwd: string, from: string, to: string): string
  {
    var f := ResolveSegments(cwd, from);
    var t := ResolveSegments(cwd, to);
    var c := CommonPrefix(f, t);
    Render(Ups(|f| - c) + t[c..])
  }

  /**
   * Index of the separator that ends the directory part, scanning right to
   * left from `i` (down to 1) after skipping trailing separators; -1 if none.
   */
  function DirnameEnd(p: string, i: int, matchedSlash: bool): (r: int)
    requires i < |p|
    ensures r == -1 || (1 <= r <= i && p[r] == '/')
    decreases i
  {
    if i < 1 then -1
    else if p[i] == '/' then (if !matchedSlash then i else DirnameEnd(p, i - 1, matchedSlash))
    else DirnameEnd(p, i - 1, false)
  }

  /** `path.dirname(p)`. */
  function Dirname(p: string): string
  {
    if p == "" then "."
    else
      var end := DirnameEnd(p, |p| - 1, true);
      if end == -1 then (if p[0] == '/' then "/" else ".")
      else if p[0] == '/' && end == 1 then "//"
      else p[..end]
  }

  function TrimTrailingSlashes(s: string): string
    decreases |s|
  {
    if |s| > 0 && s[|s| - 1] == '/' then TrimTrailingSlashes(s[..|s| - 1]) else s
  }

  /** Index of the last occurrence of `c` in `s`, or -1. */
  function LastIndexOf(s: string, c: char): (r: int)
    ensures -1 <= r < |s|
    ensures r >= 0 ==> s[r] == c && c !in s[r + 1..]
    ensures r == -1 ==> c !in s
    decreases |s|
  {
    if s == [] then -1
    else if s[|s| - 1] == c then |s| - 1
    else
      var init := s[..|s| - 1];
      var r := LastIndexOf(init, c);
      assert s == init + [s[|s| - 1]];
      assert r >= 0 ==> s[r + 1..] == init[r + 1..] + [s[|s| - 1]];
      r
  }

  /** The last segment of `p`, trailing separators ignored. */
  function Basename(p: string): string
  {
    var segs := Split(TrimTrailingSlashes(p));
    segs[|segs| - 1]
  }

  /**
   * `path.extname(p)`: the last segment from its last "." on; empty when
   * there is no ".", when the only "." leads the segment, or for "..".
   */
  function Extname(p: string): string
  {
    var b := Basename(p);
    var k := LastIndexOf(b, '.');
    if k <= 0 || b == ".." then "" else b[k..]
  }

  // ---------------------------------------------------------------------
  // Facts about splitting and rendering

  /** Splitting distributes over a separator. */
  lemma {:induction false} SplitConcat(x: string, y: string)
    ensures Split(x + "/" + y) == Split(x) + Split(y)
    decreases |x|
  {
    if |x| == 0 {
      assert x + "/" + y == "/" + y;
      assert ("/" + y)[1..] == y;
    } else {
      assert (x + "/" + y)[0] == x[0];
      assert (x + "/" + y)[1..] == x[1..] + "/" + y;
      SplitConcat(x[1..], y);
    }
  }

  lemma {:induction false} SplitNoSlash(x: string)
    requires '/' !in x
    ensures Split(x) == [x]
    decreases |x|
  {
    if |x| > 0 {
      SplitNoSlash(x[1..]);
      assert [x[0]] + x[1..] == x;
    }
  }

  /** Rendering segments that hold no separator and splitting again gives them back. */
  lemma {:induction false} SplitRender(segs: seq<string>)
    requires |segs| >= 1
    requires forall i :: 0 <= i < |segs| ==> '/' !in segs[i]
    ensures Split(Render(segs)) == segs
    decreases |segs|
  {
    SplitNoSlash(segs[0]);
    if |segs| > 1 {
      SplitRender(segs[1..]);
      SplitConcat(segs[0], Render(segs[1..]));
      assert [segs[0]] + segs[1..] == segs;
    }
  }

  /** Splitting and rendering again gives the string back. */
  lemma {:induction false} RenderSplit(s: string)
    ensures Render(Split(s)) == s
    decreases |s|
  {
    if |s| > 0 {
      RenderSplit(s[1..]);
      var rest := Split(s[1..]);
      if s[0] == '/' {
        assert ([""] + rest)[1..] == rest;
        assert "/" + s[1..] == s;
      } else {
        var r := [[s[0]] + rest[0]] + rest[1..];
        assert r[1..] == rest[1..];
        if |rest| > 1 {
          assert Render(rest) == rest[0] + "/" + Render(rest[1..]);
        }
        assert [s[0]] + s[1..] == s;
      }
    }
  }

  lemma {:induction false} RenderAppend(a: seq<string>, b: seq<string>)
    requires |a| >= 1 && |b| >= 1
    ensures Render(a + b) == Render(a) + "/" + Render(b)
    decreases |a|
  {
    if |a| > 1 {
      RenderAppend(a[1..], b);
      assert (a + b)[1..] == a[1..] + b;
    } else {
      assert (a + b)[1..] == b;
    }
  }

  /** The last character of a rendering is the last character of the last segment. */
  lemma {:induction false} RenderLast(segs: seq<string>)
    requires |segs| >= 1 && segs[|segs| - 1] != ""
    ensures |Render(segs)| > 0
    ensures Render(segs)[|Render(segs)| - 1] == segs[|segs| - 1][|segs[|segs| - 1]| - 1]
    decreases |segs|
  {
    if |segs| > 1 {
      RenderLast(segs[1..]);
    }
  }

  // ---------------------------------------------------------------------
  // Facts about normalization

  lemma {:induction false} NormalizeConcat(acc: seq<string>, a: seq<string>, b: seq<string>, allowAboveRoot: bool)
    ensures NormalizeFrom(acc, a + b, allowAboveRoot)
         == NormalizeFrom(NormalizeFrom(acc, a, allowAboveRoot), b, allowAboveRoot)
    decreases |a|
  {
    if a == [] {
      assert a + b == b;
    } else {
      assert (a + b)[0] == a[0];
      assert (a + b)[1..] == a[1..] + b;
      NormalizeConcat(NormalizeStep(acc, a[0], allowAboveRoot), a[1..], b, allowAboveRoot);
    }
  }

  /** Plain names pass through normalization unchanged. */
  lemma {:induction false} NormalizeNames(acc: seq<string>, segs: seq<string>, allowAboveRoot: bool)
    requires AllNames(segs)
    ensures NormalizeFrom(acc, segs, allowAboveRoot) == acc + segs
    decreases |segs|
  {
    if segs != [] {
      NormalizeNames(acc + [segs[0]], segs[1..], allowAboveRoot);
      assert acc + [segs[0]] + segs[1..] == acc + segs;
    }
  }

  /** An absolute normalization yields plain names only. */
  lemma {:induction false} NormalizeAbsoluteNames(acc: seq<string>, segs: seq<string>)
    requires AllNames(acc)
    requires forall i :: 0 <= i < |segs| ==> '/' !in segs[i]
    ensures AllNames(NormalizeFrom(acc, segs, false))
    decreases |segs|
  {
    if segs != [] {
      NormalizeAbsoluteNames(NormalizeStep(acc, segs[0], false), segs[1..]);
    }
  }

  /** A leading separator contributes one empty piece. */
  lemma SplitLeadingSlash(s: string)
    ensures Split("/" + s) == [""] + Split(s)
  {
    assert ("/" + s)[1..] == s;
  }

  /** Each ".." after plain names removes the last of them. */
  lemma {:induction false} NormalizeUps(acc: seq<string>, k: nat, allowAboveRoot: bool)
    requires AllNames(acc) && k <= |acc|
    ensures NormalizeFrom(acc, Ups(k), allowAboveRoot) == acc[..|acc| - k]
    decreases k
  {
    if k > 0 {
      assert Ups(k) == [".."] + Ups(k - 1);
      assert Ups(k)[1..] == Ups(k - 1);
      var popped := acc[..|acc| - 1];
      assert NormalizeStep(acc, "..", allowAboveRoot) == popped;
      NormalizeUps(popped, k - 1, allowAboveRoot);
      assert popped[..|popped| - (k - 1)] == acc[..|acc| - k];
    }
  }

  /** Two sequences agree up to their common prefix. */
  lemma {:induction false} CommonPrefixAgrees(a: seq<string>, b: seq<string>)
    ensures a[..CommonPrefix(a, b)] == b[..CommonPrefix(a, b)]
    decreases |a|
  {
    if a != [] && b != [] && a[0] == b[0] {
      CommonPrefixAgrees(a[1..], b[1..]);
      assert a[..CommonPrefix(a, b)] == [a[0]] + a[1..][..CommonPrefix(a[1..], b[1..])];
      assert b[..CommonPrefix(a, b)] == [b[0]] + b[1..][..CommonPrefix(a[1..], b[1..])];
    }
  }

  lemma {:induction false} CommonPrefixOfExtension(a: seq<string>, s: seq<string>)
    ensures CommonPrefix(a, a + s) == |a|
    decreases |a|
  {
    if a != [] {
      assert (a + s)[1..] == a[1..] + s;
      CommonPrefixOfExtension(a[1..], s);
    }
  }

  // ---------------------------------------------------------------------
  // Pieces of particular shapes of string

  /** Appending characters without a separator extends the last piece of a split. */
  lemma SplitAppendPlain(s: string, t: string)
    requires '/' !in t
    ensures var a := Split(s); Split(s + t) == a[..|a| - 1] + [a[|a| - 1] + t]
  {
    var j := LastIndexOf(s, '/');
    if j == -1 {
      SplitNoSlash(s);
      SplitNoSlash(s + t);
    } else {
      var x := s[..j];
      var y := s[j + 1..];
      assert s == x + "/" + y;
      assert s + t == x + "/" + (y + t);
      SplitConcat(x, y);
      SplitConcat(x, y + t);
      SplitNoSlash(y);
      SplitNoSlash(y + t);
    }
  }

  /** A string that does not end in a separator has a non-empty last piece. */
  lemma LastPieceNonEmpty(s: string)
    requires s != "" && s[|s| - 1] != '/'
    ensures var a := Split(s); a[|a| - 1] != ""
  {
    SplitAppendPlain(s[..|s| - 1], [s[|s| - 1]]);
    assert s[..|s| - 1] + [s[|s| - 1]] == s;
  }

  /** One or two trailing separators add as many empty pieces. */
  lemma SplitTrailingSlashes(x: string)
    ensures Split(x + "/") == Split(x) + [""]
    ensures Split(x + "/" + "/") == Split(x) + ["", ""]
  {
    SplitConcat(x, "");
    assert x + "/" + "" == x + "/";
    SplitConcat(x, "/");
    SplitConcat("", "");
    assert "" + "/" + "" == "/";
  }

  lemma Split3(a: string, b: string, c: string)
    requires '/' !in a && '/' !in b && '/' !in c
    ensures Split(a + "/" + (b + "/" + c)) == [a, b, c]
  {
    SplitNoSlash(a);
    SplitNoSlash(b);
    SplitNoSlash(c);
    SplitConcat(b, c);
    SplitConcat(a, b + "/" + c);
  }

  lemma Render3(a: string, b: string, c: string)
    ensures Render([a, b, c]) == a + "/" + (b + "/" + c)
  {
    assert [a, b, c][1..] == [b, c];
    assert [b, c][1..] == [c];
    assert Render([c]) == c;
    assert Render([b, c]) == b + "/" + c;
  }

  /** The pieces of "/" + `t` rendered, with one or two separators after it. */
  lemma SplitRenderedTail(t: seq<string>, trailing: bool)
    requires AllNames(t)
    ensures var p := "/" + Render(t) + (if trailing then "/" else "");
      Split(p + "/") == [""] + (if t == [] then [""] else t) + (if trailing then ["", ""] else [""])
  {
    var x := Render(t);
    if t != [] {
      SplitRender(t);
    }
    assert Split(x) == (if t == [] then [""] else t);
    SplitTrailingSlashes(x);
    if trailing {
      SplitLeadingSlash(x + "/" + "/");
      assert "/" + x + "/" + "/" == "/" + (x + "/" + "/");
    } else {
      SplitLeadingSlash(x + "/");
      assert "/" + x + "" + "/" == "/" + (x + "/");
    }
  }


  // ---------------------------------------------------------------------
  // Normalization without ".."

  /** The segments that survive normalization of a path without "..": all but "" and ".". */
  function DropDots(segs: seq<string>): seq<string>
  {
    if segs == [] then []
    else (if segs[0] == "" || segs[0] == "." then [] else [segs[0]]) + DropDots(segs[1..])
  }

  /** Without "..", normalization keeps exactly the non-empty, non-"." segments. */
  lemma {:induction false} NormalizeWithoutUps(acc: seq<string>, segs: seq<string>, allowAboveRoot: bool)
    requires ".." !in segs
    requires forall i :: 0 <= i < |segs| ==> '/' !in segs[i]
    ensures NormalizeFrom(acc, segs, allowAboveRoot) == acc + DropDots(segs)
    ensures AllNames(DropDots(segs))
    decreases |segs|
  {
    if segs != [] {
      NormalizeWithoutUps(NormalizeStep(acc, segs[0], allowAboveRoot), segs[1..], allowAboveRoot);
    }
  }

  lemma DropDotsKeepsLast(segs: seq<string>)
    requires |segs| >= 1 && segs[|segs| - 1] != "" && segs[|segs| - 1] != "."
    ensures DropDots(segs) != []
    decreases |segs|
  {
    if |segs| > 1 {
      DropDotsKeepsLast(segs[1..]);
    }
  }

  /** Normalization keeps only the name of "./m/" or "././m/". */
  lemma DropDotsAroundName(m: string)
    requires IsName(m)
    ensures DropDots([".", m, ""]) == [m]
    ensures DropDots([".", ".", m, ""]) == [m]
  {
    assert [""][1..] == [];
    assert DropDots([""]) == [];
    assert [m, ""][1..] == [""];
    assert DropDots([m, ""]) == [m];
    assert [".", m, ""][1..] == [m, ""];
    assert [".", ".", m, ""][1..] == [".", m, ""];
  }

  /** Normalizing a relative path that ends in a separator and whose pieces normalize to the names `segs`. */
  lemma NormalizeRelativeTrailing(q: string, segs: seq<string>)
    requires q != "" && q[0] != '/' && q[|q| - 1] == '/'
    requires segs != [] && AllNames(segs)
    requires NormalizeSegments(Split(q), true) == segs
    ensures Normalize(q) == Render(segs) + "/"
  {
    var body := Render(NormalizeSegments(Split(q), true));
    assert body == Render(segs);
    RenderLast(segs);
    assert body != "";
    assert Normalize(q) == "" + body + "/";
  }

  // ---------------------------------------------------------------------
  // Facts about dirname

  lemma {:induction false} DirnameScan(p: string, j: int, i: int, matchedSlash: bool)
    requires 1 <= j <= i < |p| && p[j] == '/'
    requires forall k :: j < k <= i ==> p[k] != '/'
    requires i > j || !matchedSlash
    ensures DirnameEnd(p, i, matchedSlash) == j
    decreases i
  {
    if i > j {
      DirnameScan(p, j, i - 1, false);
    }
  }

  /** The directory of a relative path ends at its last separator, when that is not its first character. */
  lemma DirnameAfterLastSeparator(p: string, j: int)
    requires 1 <= j < |p| - 1 && p[0] != '/' && p[j] == '/'
    requires forall k :: j < k < |p| ==> p[k] != '/'
    ensures Dirname(p) == p[..j]
  {
    DirnameScan(p, j, |p| - 1, true);
  }

  // ---------------------------------------------------------------------
  // Facts about resolve and relative

  /** A resolved path is made of plain names. */
  lemma ResolvedNames(cwd: string, p: string)
    ensures AllNames(ResolveSegments(cwd, p))
  {
    var joined := if IsAbsolute(p) then p + "/" else if p == "" then cwd + "/" else cwd + "/" + p + "/";
    NormalizeAbsoluteNames([], Split(joined));
  }

  /** Resolving an absolute path written from plain names gives those names back. */
  lemma ResolveRendered(cwd: string, t: seq<string>, trailing: bool)
    requires AllNames(t)
    ensures ResolveSegments(cwd, "/" + Render(t) + (if trailing then "/" else "")) == t
  {
    var tail: seq<string> := if trailing then ["", ""] else [""];
    var body: seq<string> := if t == [] then [""] else t;
    SplitRenderedTail(t, trailing);
    NormalizeConcat([], [""] + body, tail, false);
    NormalizeConcat([], [""], body, false);
    if t != [] {
      NormalizeNames([], t, false);
    }
  }

  /** The relative path, below the working directory, of a path whose resolved segments are `t`. */
  function RelativeSegments(r: seq<string>, t: seq<string>): seq<string>
  {
    Ups(|r| - CommonPrefix(r, t)) + t[CommonPrefix(r, t)..]
  }

  /** The pieces of the working directory joined with "./" and a relative path. */
  lemma JoinRelativeSplit(root: string, rel: string)
    ensures Split(root + "/" + ("./" + rel)) == Split(root) + (["."] + Split(rel))
  {
    assert "./" + rel == "." + "/" + rel;
    SplitConcat(".", rel);
    SplitNoSlash(".");
    SplitConcat(root, "./" + rel);
  }

  /** An empty relative path means the two resolved paths are the same. */
  lemma RelativeEmpty(r: seq<string>, t: seq<string>)
    requires RelativeSegments(r, t) == []
    ensures r == t
  {
    var c := CommonPrefix(r, t);
    assert |Ups(|r| - c)| == |r| - c;
    assert |r| == c && |t| == c;
    CommonPrefixAgrees(r, t);
    assert r == r[..c] && t == t[..c];
  }

  /** A relative path is empty only between equal resolved paths. */
  lemma RelativeEmptyOnlyWhenEqual(r: seq<string>, t: seq<string>)
    ensures RelativeSegments(r, t) == [] ==> r == t
  {
    if RelativeSegments(r, t) == [] {
      RelativeEmpty(r, t);
    }
  }

  /** `k` ".." segments after plain names pop the last `k` of them; further names are appended. */
  lemma UpsThenNames(r: seq<string>, k: nat, rest: seq<string>)
    requires AllNames(r) && k <= |r| && AllNames(rest)
    ensures NormalizeFrom(r, Ups(k) + rest, false) == r[..|r| - k] + rest
  {
    NormalizeConcat(r, Ups(k), rest, false);
    NormalizeUps(r, k, false);
    NormalizeNames(r[..|r| - k], rest, false);
  }

  /** The segments after a prefix of plain names are plain names. */
  lemma NamesAfter(t: seq<string>, c: nat)
    requires AllNames(t) && c <= |t|
    ensures AllNames(t[c..])
  {
    forall i | 0 <= i < |t| - c ensures IsName(t[c..][i]) {
      assert t[c..][i] == t[c + i];
    }
  }

  /** A prefix `t` shares with `r`, taken from `r`, followed by the rest of `t` is `t`. */
  lemma SharedPrefixThenRest(r: seq<string>, t: seq<string>, c: nat)
    requires c <= |r| && c <= |t| && r[..c] == t[..c]
    ensures r[..c] + t[c..] == t
  {
    assert t[..c] + t[c..] == t;
  }

  /** Climbing from `r` back to a prefix it shares with `t`, then adding the rest of `t`, gives `t`. */
  lemma UpsToSharedPrefix(r: seq<string>, t: seq<string>, c: nat)
    requires AllNames(r) && AllNames(t)
    requires c <= |r| && c <= |t| && r[..c] == t[..c]
    ensures NormalizeFrom(r, Ups(|r| - c) + t[c..], false) == t
  {
    NamesAfter(t, c);
    UpsThenNames(r, |r| - c, t[c..]);
    assert |r| - (|r| - c) == c;
    SharedPrefixThenRest(r, t, c);
  }

  /** Popping the ".." segments off the working directory's names and adding the rest of `t` gives `t`. */
  lemma NormalizeRelativeSegments(r: seq<string>, t: seq<string>)
    requires AllNames(r) && AllNames(t)
    ensures NormalizeFrom(r, RelativeSegments(r, t), false) == t
  {
    CommonPrefixAgrees(r, t);
    UpsToSharedPrefix(r, t, CommonPrefix(r, t));
  }

  /** From the working directory's names, the relative path's pieces normalize to `t`. */
  lemma NormalizeRelative(r: seq<string>, t: seq<string>)
    requires AllNames(r) && AllNames(t)
    ensures NormalizeFrom(r, Split(Render(RelativeSegments(r, t))), false) == t
  {
    var u := RelativeSegments(r, t);
    if u == [] {
      RelativeEmpty(r, t);
      assert NormalizeFrom(r, [""], false) == r;
    } else {
      RelativeSegmentsShape(r, t);
      SplitRender(u);
      NormalizeRelativeSegments(r, t);
    }
  }

  /** A relative path is made of ".." segments followed by names. */
  lemma RelativeSegmentsShape(r: seq<string>, t: seq<string>)
    requires AllNames(t)
    ensures var u := RelativeSegments(r, t);
      forall i :: 0 <= i < |u| ==> u[i] == ".." || IsName(u[i])
  {
    var c := CommonPrefix(r, t);
    var u := RelativeSegments(r, t);
    forall i | 0 <= i < |u|
      ensures u[i] == ".." || IsName(u[i])
    {
      if i >= |r| - c {
        assert u[i] == t[c + i - (|r| - c)];
      }
    }
  }

  /** Normalizing an absolute path whose pieces normalize to the names `t`. */
  lemma NormalizeAbsolute(q: string, t: seq<string>)
    requires IsAbsolute(q) && AllNames(t)
    requires NormalizeSegments(Split(q), false) == t
    ensures Normalize(q) == "/" + Render(t) + (if q[|q| - 1] == '/' && t != [] then "/" else "")
  {
    if t != [] {
      RenderLast(t);
    }
  }
}
