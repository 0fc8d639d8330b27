/**
 * The router's default URL matcher and its navigation-canceling error
 * (packages/router/src/shared.ts). A route path is split at `/` into parts;
 * each literal part must equal the path of the segment at its position and
 * each `:name` part binds `name` to that segment.
 */
module UrlMatcher {
  import opened Wrappers

  datatype UrlSegment = UrlSegment(path: string, parameters: map<string, string>)

  /** What a successful match hands back: the consumed segments and the positional parameters. */
  datatype MatchResult = MatchResult(consumed: seq<UrlSegment>, posParams: map<string, UrlSegment>)

  /** Joins parts with `/` between them (the inverse of `Split`). */
  function Join(parts: seq<string>): string
    requires |parts| > 0
  {
    if |parts| == 1 then parts[0] else parts[0] + "/" + Join(parts[1..])
  }

  /**
   * JavaScript's `s.split('/')`: never empty, no part holds a `/`, and
   * joining the parts back gives `s`.
   */
  function Split(s: string): (parts: seq<string>)
    ensures |parts| > 0
    ensures forall k :: 0 <= k < |parts| ==> '/' !in parts[k]
    ensures Join(parts) == s
  {
    if |s| == 0 then [""]
    else
      var rest := Split(s[1..]);
      if s[0] == '/' then
        assert s == "" + "/" + Join(rest);
        [""] + rest
      else
        var parts := [[s[0]] + rest[0]] + rest[1..];
        assert parts[1..] == rest[1..];
        assert s == [s[0]] + Join(rest);
        parts
  }

  /** Splitting a join of slash-free parts gives the parts back. */
  lemma {:induction false} SplitJoin(parts: seq<string>)
    requires |parts| > 0
    requires forall k :: 0 <= k < |parts| ==> '/' !in parts[k]
    ensures Split(Join(parts)) == parts
    decreases |parts|, |parts[0]|
  {
    if |parts[0]| == 0 {
      if |parts| > 1 {
        SplitJoin(parts[1..]);
        assert Join(parts) == "/" + Join(parts[1..]);
        assert Join(parts)[1..] == Join(parts[1..]);
        assert [""] + parts[1..] == parts;
      }
    } else {
      var c := parts[0][0];
      var tail := [parts[0][1..]] + parts[1..];
      assert tail[1..] == parts[1..];
      assert Join(tail) == Join(parts)[1..] by {
        if |parts| == 1 {
        } else {
          assert Join(parts) == parts[0] + "/" + Join(parts[1..]);
          assert parts[0] == [c] + parts[0][1..];
        }
      }
      SplitJoin(tail);
      assert [[c] + tail[0]] + tail[1..] == parts;
    }
  }

  /** `p.startsWith(':')`. */
  predicate IsPosParam(p: string)
  {
    |p| > 0 && p[0] == ':'
  }

  /** Every literal among the parts equals the path of the segment at its position. */
  predicate LiteralsMatch(parts: seq<string>, segments: seq<UrlSegment>, n: nat)
    requires n <= |parts| && n <= |segments|
  {
    forall k :: 0 <= k < n && !IsPosParam(parts[k]) ==> parts[k] == segments[k].path
  }

  /** The positional parameters bound by the first `n` parts; a later binding of a name overrides an earlier one. */
  function Bindings(parts: seq<string>, segments: seq<UrlSegment>, n: nat): map<string, UrlSegment>
    requires n <= |parts| && n <= |segments|
  {
    if n == 0 then map[]
    else
      var m := Bindings(parts, segments, n - 1);
      if IsPosParam(parts[n - 1]) then m[parts[n - 1][1..] := segments[n - 1]] else m
  }

  /** Whether `defaultUrlMatcher` succeeds. */
  predicate Matches(parts: seq<string>, segments: seq<UrlSegment>, hasChildren: bool, pathMatch: string)
  {
    |parts| <= |segments| && LiteralsMatch(parts, segments, |parts|) &&
    !(pathMatch == "full" && (hasChildren || |parts| < |segments|))
  }

  /**
   * `defaultUrlMatcher(segments, segmentGroup, route)`: `hasChildren` is
   * `segmentGroup.hasChildren()`, `path` and `pathMatch` come from the route.
   */
  method DefaultUrlMatcher(segments: seq<UrlSegment>, hasChildren: bool, path: string, pathMatch: string)
    returns (r: Option<MatchResult>)
    ensures r.Some? <==> Matches(Split(path), segments, hasChildren, pathMatch)
    ensures r.Some? ==> r.value.consumed == segments[..|Split(path)|]
    ensures r.Some? ==> r.value.posParams == Bindings(Split(path), segments, |Split(path)|)
  {
    var parts := Split(path);
    var posParams: map<string, UrlSegment> := map[];
    var consumed: seq<UrlSegment> := [];
    var currentIndex := 0;
    for i := 0 to |parts|
      invariant currentIndex == i <= |segments|
      invariant LiteralsMatch(parts, segments, i)
      invariant consumed == segments[..i]
      invariant posParams == Bindings(parts, segments, i)
    {
      if currentIndex >= |segments| {
        return None;
      }
      var current := segments[currentIndex];
      var p := parts[i];
      var isPosParam := IsPosParam(p);
      if !isPosParam && p != current.path {
        return None;
      }
      if isPosParam {
        posParams := posParams[p[1..] := current];
      }
      consumed := consumed + [current];
      assert segments[..i + 1] == segments[..i] + [segments[i]];
      currentIndex := currentIndex + 1;
    }
    if pathMatch == "full" && (hasChildren || currentIndex < |segments|) {
      return None;
    }
    return Some(MatchResult(consumed, posParams));
  }

  /** A name is bound exactly when some `:name` part among the first `n` names it. */
  lemma {:induction false} BindingKeys(parts: seq<string>, segments: seq<UrlSegment>, n: nat, name: string)
    requires n <= |parts| && n <= |segments|
    ensures name in Bindings(parts, segments, n) <==>
            exists k :: 0 <= k < n && IsPosParam(parts[k]) && parts[k][1..] == name
  {
    if n > 0 {
      BindingKeys(parts, segments, n - 1, name);
      if name in Bindings(parts, segments, n) && name !in Bindings(parts, segments, n - 1) {
        assert IsPosParam(parts[n - 1]) && parts[n - 1][1..] == name;
      }
    }
  }

  /** A name is bound to the segment of its last `:name` part. */
  lemma {:induction false} BindingLastWins(parts: seq<string>, segments: seq<UrlSegment>, n: nat, j: nat)
    requires j < n <= |parts| && n <= |segments|
    requires IsPosParam(parts[j])
    requires forall k :: j < k < n && IsPosParam(parts[k]) ==> parts[k][1..] != parts[j][1..]
    ensures parts[j][1..] in Bindings(parts, segments, n)
    ensures Bindings(parts, segments, n)[parts[j][1..]] == segments[j]
  {
    if j < n - 1 {
      BindingLastWins(parts, segments, n - 1, j);
    }
  }

  /** An error of the router: its message and whether it carries the navigation-canceling mark. */
  datatype RouterError = RouterError(message: string, navigationCanceling: bool)

  const NavigationCancelingPrefix := "NavigationCancelingError: "

  /** `navigationCancelingError(message)`. */
  function NavigationCancelingError(message: string): (e: RouterError)
    ensures IsNavigationCancelingError(e)
    ensures |e.message| >= |NavigationCancelingPrefix|
    ensures e.message[..|NavigationCancelingPrefix|] == NavigationCancelingPrefix
    ensures e.message[|NavigationCancelingPrefix|..] == message
  {
    RouterError(NavigationCancelingPrefix + message, true)
  }

  /** A plain `Error(message)`: it has no navigation-canceling mark. */
  function PlainError(message: string): (e: RouterError)
    ensures !IsNavigationCancelingError(e) && e.message == message
  {
    RouterError(message, false)
  }

  /** `isNavigationCancelingError(error)`: the mark, absent (falsy) on other errors. */
  predicate IsNavigationCancelingError(e: RouterError)
  {
    e.navigationCanceling
  }
}
