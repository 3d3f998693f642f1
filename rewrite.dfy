/**
 * The traversal inside `Compiler.parse`: every call whose callee is the
 * identifier `require` is turned into a call of `__webpack_require__` whose
 * only argument is the dependency id of the requested name, and that id is
 * recorded as a dependency. This module states the traversal as a function
 * over the call sites; `Bundler.Compiler.Parse` performs it in place.
 */
module Rewriting {
  import opened Syntax
  import opened ModuleIds

  const RequireName := "require"
  const WebpackRequireName := "__webpack_require__"

  /** What `parse` returns: the regenerated program and the dependency ids, in order. */
  datatype Parsed = Parsed(sourceCode: seq<CallSite>, dependencies: seq<string>)

  predicate IsRequire(c: CallSite)
  {
    c.callee == Identifier(RequireName)
  }

  /** `node.arguments[0].value` is a string: the first argument exists and is a string literal. */
  predicate HasLiteralArgument(c: CallSite)
  {
    |c.arguments| > 0 && c.arguments[0].StringLiteral?
  }

  /** Every `require` call can be rewritten. */
  predicate RequiresWellFormed(calls: seq<CallSite>)
  {
    forall i :: 0 <= i < |calls| && IsRequire(calls[i]) ==> HasLiteralArgument(calls[i])
  }

  function Request(c: CallSite): string
    requires HasLiteralArgument(c)
  {
    c.arguments[0].value
  }

  /** A `require` call after rewriting. */
  function RewrittenCall(id: string): CallSite
  {
    Call(Identifier(WebpackRequireName), [StringLiteral(id)])
  }

  /**
   * How `parse` turns a requested name into a dependency id, inside the
   * directory `parentPath`: the id of the module the build stores for it
   * (`ResolvedDependencyId`, which corrects `DependencyId`).
   */
  function Resolver(root: string, parentPath: string): (resolve: string -> string)
    ensures forall request :: |resolve(request)| >= 2 && resolve(request)[..2] == "./"
  {
    request => ResolvedDependencyId(root, parentPath, request)
  }

  /**
   * The traversal, one call site at a time in visiting order: the first
   * `require` call without a string-literal argument aborts it. `resolve`
   * gives the dependency id of a requested name (`Resolver(root, parentPath)`
   * in `parse`).
   */
  function Rewrite(calls: seq<CallSite>, resolve: string -> string): (r: Result<Parsed>)
    ensures r.Err? ==> r.error == RequireArgumentError
    decreases |calls|
  {
    if calls == [] then Ok(Parsed([], []))
    else
      var prefix := Rewrite(calls[..|calls| - 1], resolve);
      var c := calls[|calls| - 1];
      if prefix.Err? then prefix
      else if !IsRequire(c) then Ok(Parsed(prefix.value.sourceCode + [c], prefix.value.dependencies))
      else if !HasLiteralArgument(c) then Err(RequireArgumentError)
      else
        var id := resolve(Request(c));
        Ok(Parsed(prefix.value.sourceCode + [RewrittenCall(id)], prefix.value.dependencies + [id]))
  }

  /** A successful traversal of the first `i` call sites extends by the call site at `i`, when that one can be rewritten. */
  lemma RewriteExtend(calls: seq<CallSite>, i: nat, resolve: string -> string, done: Parsed)
    requires i < |calls| && Rewrite(calls[..i], resolve) == Ok(done)
    requires IsRequire(calls[i]) ==> HasLiteralArgument(calls[i])
    ensures Rewrite(calls[..i + 1], resolve) == Ok(
      if IsRequire(calls[i]) then
        Parsed(done.sourceCode + [RewrittenCall(resolve(Request(calls[i])))], done.dependencies + [resolve(Request(calls[i]))])
      else Parsed(done.sourceCode + [calls[i]], done.dependencies))
  {
    assert calls[..i + 1][..i] == calls[..i];
  }

  /** A `require` call without a string-literal argument after a successful prefix fails the whole traversal. */
  lemma {:induction false} RewriteFailsAt(calls: seq<CallSite>, i: nat, resolve: string -> string)
    requires i < |calls| && Rewrite(calls[..i], resolve).Ok?
    requires IsRequire(calls[i]) && !HasLiteralArgument(calls[i])
    ensures Rewrite(calls, resolve) == Err(RequireArgumentError)
    decreases |calls|
  {
    var init := calls[..|calls| - 1];
    if i == |calls| - 1 {
      assert init == calls[..i];
    } else {
      assert init[..i] == calls[..i] && init[i] == calls[i];
      RewriteFailsAt(init, i, resolve);
    }
  }

  /** The positions of the `require` calls, in visiting order. */
  function RequirePositions(calls: seq<CallSite>): seq<nat>
    decreases |calls|
  {
    if calls == [] then []
    else RequirePositions(calls[..|calls| - 1]) + (if IsRequire(calls[|calls| - 1]) then [|calls| - 1] else [])
  }

  /**
   * `RequirePositions` lists every `require` call and nothing else, each
   * once, in increasing order.
   */
  lemma {:induction false} RequirePositionsExact(calls: seq<CallSite>)
    ensures var ps := RequirePositions(calls);
      (forall j :: 0 <= j < |ps| ==> ps[j] < |calls| && IsRequire(calls[ps[j]])) &&
      (forall j, k :: 0 <= j < k < |ps| ==> ps[j] < ps[k]) &&
      (forall i :: 0 <= i < |calls| && IsRequire(calls[i]) ==> i in ps)
    decreases |calls|
  {
    if calls != [] {
      var init := calls[..|calls| - 1];
      RequirePositionsExact(init);
      var ps := RequirePositions(calls);
      var qs := RequirePositions(init);
      assert forall j :: 0 <= j < |qs| ==> ps[j] == qs[j];
      forall i | 0 <= i < |calls| && IsRequire(calls[i])
        ensures i in ps
      {
        if i < |calls| - 1 {
          assert calls[i] == init[i];
          var j :| 0 <= j < |qs| && qs[j] == i;
          assert ps[j] == i;
        } else {
          assert ps[|ps| - 1] == i;
        }
      }
    }
  }

  /** Once the traversal has failed on a prefix, it fails the same way on the whole. */
  lemma {:induction false} RewriteErrorPersists(calls: seq<CallSite>, k: nat, resolve: string -> string)
    requires k <= |calls|
    requires Rewrite(calls[..k], resolve).Err?
    ensures Rewrite(calls, resolve) == Rewrite(calls[..k], resolve)
    decreases |calls| - k
  {
    if k < |calls| {
      assert calls[..|calls| - 1][..k] == calls[..k];
      RewriteErrorPersists(calls[..|calls| - 1], k, resolve);
    } else {
      assert calls[..k] == calls;
    }
  }

  /** The traversal succeeds exactly when every `require` call has a string-literal argument. */
  lemma {:induction false} RewriteSucceeds(calls: seq<CallSite>, resolve: string -> string)
    ensures Rewrite(calls, resolve).Ok? <==> RequiresWellFormed(calls)
    ensures Rewrite(calls, resolve).Err? ==> Rewrite(calls, resolve).error == RequireArgumentError
    decreases |calls|
  {
    if calls != [] {
      var init := calls[..|calls| - 1];
      RewriteSucceeds(init, resolve);
      assert forall i :: 0 <= i < |init| ==> init[i] == calls[i];
      if RequiresWellFormed(calls) {
        assert RequiresWellFormed(init);
      }
    }
  }

  /** One step of a successful traversal: the last call site is appended, rewritten if it is a `require`. */
  lemma RewriteStep(calls: seq<CallSite>, resolve: string -> string)
    requires calls != [] && Rewrite(calls, resolve).Ok?
    ensures var init := calls[..|calls| - 1];
      var c := calls[|calls| - 1];
      var prefix := Rewrite(init, resolve);
      prefix.Ok? &&
      Rewrite(calls, resolve).value ==
        if IsRequire(c) then
          var id := resolve(Request(c));
          Parsed(prefix.value.sourceCode + [RewrittenCall(id)], prefix.value.dependencies + [id])
        else Parsed(prefix.value.sourceCode + [c], prefix.value.dependencies)
  {
  }

  /**
   * A successful traversal rewrites every `require` call into a call of
   * `__webpack_require__` with the dependency id as its only argument, and
   * leaves every other call as it was.
   */
  lemma {:induction false} RewriteCalls(calls: seq<CallSite>, resolve: string -> string)
    requires Rewrite(calls, resolve).Ok?
    ensures var code := Rewrite(calls, resolve).value.sourceCode;
      |code| == |calls| &&
      (forall i :: 0 <= i < |calls| && !IsRequire(calls[i]) ==> code[i] == calls[i]) &&
      (forall i :: 0 <= i < |calls| && IsRequire(calls[i]) ==>
         HasLiteralArgument(calls[i]) && code[i] == RewrittenCall(resolve(Request(calls[i]))))
  {
    RewriteLength(calls, resolve);
    forall i | 0 <= i < |calls|
      ensures var code := Rewrite(calls, resolve).value.sourceCode;
        (!IsRequire(calls[i]) ==> code[i] == calls[i]) &&
        (IsRequire(calls[i]) ==>
           HasLiteralArgument(calls[i]) && code[i] == RewrittenCall(resolve(Request(calls[i]))))
    {
      RewriteCallAt(calls, resolve, i);
    }
  }

  lemma {:induction false} RewriteLength(calls: seq<CallSite>, resolve: string -> string)
    requires Rewrite(calls, resolve).Ok?
    ensures |Rewrite(calls, resolve).value.sourceCode| == |calls|
    decreases |calls|
  {
    if calls != [] {
      RewriteStep(calls, resolve);
      RewriteLength(calls[..|calls| - 1], resolve);
    }
  }

  /** The call site at position `i` after a successful traversal. */
  lemma {:induction false} RewriteCallAt(calls: seq<CallSite>, resolve: string -> string, i: nat)
    requires Rewrite(calls, resolve).Ok? && i < |calls|
    ensures var code := Rewrite(calls, resolve).value.sourceCode;
      i < |code| &&
      (!IsRequire(calls[i]) ==> code[i] == calls[i]) &&
      (IsRequire(calls[i]) ==>
         HasLiteralArgument(calls[i]) && code[i] == RewrittenCall(resolve(Request(calls[i]))))
    decreases |calls|
  {
    var n := |calls|;
    var init := calls[..n - 1];
    RewriteStep(calls, resolve);
    RewriteLength(init, resolve);
    if i < n - 1 {
      RewriteCallAt(init, resolve, i);
      assert calls[i] == init[i];
    }
  }

  /**
   * A successful traversal records exactly one dependency per `require`
   * call, in visiting order, duplicates kept; the j-th dependency is the
   * argument of the j-th rewritten call.
   */
  lemma {:induction false} RewriteDependencies(calls: seq<CallSite>, resolve: string -> string)
    requires Rewrite(calls, resolve).Ok?
    ensures var p := Rewrite(calls, resolve).value;
      var ps := RequirePositions(calls);
      |p.sourceCode| == |calls| && |p.dependencies| == |ps| &&
      forall j :: 0 <= j < |ps| ==>
        ps[j] < |calls| && HasLiteralArgument(calls[ps[j]]) &&
        p.dependencies[j] == resolve(Request(calls[ps[j]])) &&
        p.sourceCode[ps[j]] == RewrittenCall(p.dependencies[j])
    decreases |calls|
  {
    RewriteCalls(calls, resolve);
    if calls != [] {
      var n := |calls|;
      var init := calls[..n - 1];
      var c := calls[n - 1];
      RewriteDependencies(init, resolve);
      RequirePositionsExact(init);
      var p' := Rewrite(init, resolve).value;
      var p := Rewrite(calls, resolve).value;
      var ps' := RequirePositions(init);
      var ps := RequirePositions(calls);
      assert |p'.sourceCode| == n - 1 by { RewriteCalls(init, resolve); }
      forall j | 0 <= j < |ps'|
        ensures ps[j] == ps'[j] && p.dependencies[j] == p'.dependencies[j]
        ensures calls[ps[j]] == init[ps'[j]] && p.sourceCode[ps[j]] == p'.sourceCode[ps'[j]]
      {
      }
      if IsRequire(c) {
        assert ps == ps' + [n - 1];
        assert p.sourceCode[n - 1] == RewrittenCall(p.dependencies[|ps'|]);
      }
    }
  }

  /**
   * Every dependency id is the id its module is stored under, so the
   * rewritten call and the stored module agree whatever the request.
   */
  lemma {:induction false} DependenciesStored(calls: seq<CallSite>, root: string, parentPath: string)
    requires NodePath.IsAbsolute(root)
    requires Rewrite(calls, Resolver(root, parentPath)).Ok?
    ensures forall d :: d in Rewrite(calls, Resolver(root, parentPath)).value.dependencies ==> StoredId(root, d) == d
    decreases |calls|
  {
    if calls != [] {
      var resolve := Resolver(root, parentPath);
      var init := calls[..|calls| - 1];
      var c := calls[|calls| - 1];
      RewriteStep(calls, resolve);
      DependenciesStored(init, root, parentPath);
      if IsRequire(c) {
        ResolvedDependencyIdStored(root, parentPath, Request(c));
      }
    }
  }

  /** How line 53 of the source turns a requested name into a dependency id, as written. */
  function WrittenResolver(parentPath: string): (resolve: string -> string)
    ensures forall request :: |resolve(request)| >= 2 && resolve(request)[..2] == "./"
  {
    request => DependencyId(parentPath, request)
  }

  /** Two resolvers that agree on every request of a program rewrite it alike. */
  lemma {:induction false} RewriteAgrees(calls: seq<CallSite>, f: string -> string, g: string -> string)
    requires forall i :: 0 <= i < |calls| && IsRequire(calls[i]) && HasLiteralArgument(calls[i]) ==>
      f(Request(calls[i])) == g(Request(calls[i]))
    ensures Rewrite(calls, f) == Rewrite(calls, g)
    decreases |calls|
  {
    if calls != [] {
      var init := calls[..|calls| - 1];
      assert forall i :: 0 <= i < |init| ==> init[i] == calls[i];
      RewriteAgrees(init, f, g);
    }
  }

  /**
   * When the requiring module's id is canonical and every request is
   * downward, the corrected ids are the ids line 53 computes, so the
   * correction changes nothing for such a module.
   */
  lemma DependenciesAsWritten(calls: seq<CallSite>, root: string, parentId: string)
    requires NodePath.IsAbsolute(root) && Canonical(parentId)
    requires forall i :: 0 <= i < |calls| && IsRequire(calls[i]) && HasLiteralArgument(calls[i]) ==> Downward(Request(calls[i]))
    ensures Rewrite(calls, Resolver(root, NodePath.Dirname(parentId))) ==
      Rewrite(calls, WrittenResolver(NodePath.Dirname(parentId)))
  {
    forall i | 0 <= i < |calls| && IsRequire(calls[i]) && HasLiteralArgument(calls[i])
      ensures Resolver(root, NodePath.Dirname(parentId))(Request(calls[i])) ==
        WrittenResolver(NodePath.Dirname(parentId))(Request(calls[i]))
    {
      ResolvedDependencyIdDownward(root, parentId, Request(calls[i]));
    }
    RewriteAgrees(calls, Resolver(root, NodePath.Dirname(parentId)), WrittenResolver(NodePath.Dirname(parentId)));
  }

  /**
   * With the ids line 53 computes: when the requiring module's id is
   * canonical and every request is downward, every dependency id is canonical.
   */
  lemma {:induction false} WrittenDependenciesCanonical(calls: seq<CallSite>, parentId: string)
    requires Canonical(parentId)
    requires Rewrite(calls, WrittenResolver(NodePath.Dirname(parentId))).Ok?
    requires forall i :: 0 <= i < |calls| && IsRequire(calls[i]) && HasLiteralArgument(calls[i]) ==> Downward(Request(calls[i]))
    ensures forall d :: d in Rewrite(calls, WrittenResolver(NodePath.Dirname(parentId))).value.dependencies ==> Canonical(d)
    decreases |calls|
  {
    if calls != [] {
      var resolve := WrittenResolver(NodePath.Dirname(parentId));
      var n := |calls|;
      var init := calls[..n - 1];
      var c := calls[n - 1];
      RewriteStep(calls, resolve);
      assert forall i :: 0 <= i < n - 1 ==> init[i] == calls[i];
      WrittenDependenciesCanonical(init, parentId);
      var deps := Rewrite(calls, resolve).value.dependencies;
      var before := Rewrite(init, resolve).value.dependencies;
      if IsRequire(c) && HasLiteralArgument(c) {
        var id := resolve(Request(c));
        DownwardDependencyId(parentId, Request(c));
        assert Canonical(id);
        assert deps == before + [id];
      } else {
        assert deps == before;
      }
    }
  }

  /**
   * When the requiring module's id is canonical and every request is
   * downward, every dependency id `parse` returns is canonical.
   */
  lemma {:induction false} DependenciesCanonical(calls: seq<CallSite>, root: string, parentId: string)
    requires NodePath.IsAbsolute(root) && Canonical(parentId)
    requires Rewrite(calls, Resolver(root, NodePath.Dirname(parentId))).Ok?
    requires forall i :: 0 <= i < |calls| && IsRequire(calls[i]) && HasLiteralArgument(calls[i]) ==> Downward(Request(calls[i]))
    ensures forall d :: d in Rewrite(calls, Resolver(root, NodePath.Dirname(parentId))).value.dependencies ==> Canonical(d)
  {
    DependenciesAsWritten(calls, root, parentId);
    WrittenDependenciesCanonical(calls, parentId);
  }
}
