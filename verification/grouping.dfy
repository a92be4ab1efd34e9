/** Exclusivity groups: how a checklist's flat, ordered section list is cut
    into singleton groups and maximal runs of mutually exclusive sections
    (the first loop of the `status` getter,
    Sources/AChecklist/Models/AChecklist.swift:24-46). */
module Grouping {
  import opened Sections

  /** Length of the leading run of exclusive sections. */
  function RunLength(secs: seq<Section>): (n: nat)
    ensures n <= |secs|
    ensures forall k :: 0 <= k < n ==> secs[k].isMutualExclusion
    ensures n < |secs| ==> !secs[n].isMutualExclusion
  {
    if |secs| == 0 || !secs[0].isMutualExclusion then 0
    else 1 + RunLength(secs[1..])
  }

  /** Positional reference definition: `secs[i..j]` is a maximal non-empty
      run of adjacent exclusive sections. */
  predicate MaximalRun(secs: seq<Section>, i: int, j: int) {
    && 0 <= i < j <= |secs|
    && (forall k :: i <= k < j ==> secs[k].isMutualExclusion)
    && (i == 0 || !secs[i - 1].isMutualExclusion)
    && (j == |secs| || !secs[j].isMutualExclusion)
  }

  predicate IsRun(g: seq<Section>) {
    |g| > 0 && forall k :: 0 <= k < |g| ==> g[k].isMutualExclusion
  }

  predicate IsSingle(g: seq<Section>) {
    |g| == 1 && !g[0].isMutualExclusion
  }

  function Flatten(gs: seq<seq<Section>>): seq<Section> {
    if |gs| == 0 then [] else gs[0] + Flatten(gs[1..])
  }

  /** The scan as the source writes it: exclusive sections accumulate in
      `current`; a non-exclusive section flushes the open run and is then
      emitted alone; the end of the list flushes the last run. */
  function GroupFrom(secs: seq<Section>, current: seq<Section>): seq<seq<Section>>
    decreases |secs|
  {
    if |secs| == 0 then (if |current| > 0 then [current] else [])
    else if secs[0].isMutualExclusion then GroupFrom(secs[1..], current + [secs[0]])
    else (if |current| > 0 then [current] else []) + [[secs[0]]] + GroupFrom(secs[1..], [])
  }

  function Groups(secs: seq<Section>): seq<seq<Section>> {
    GroupFrom(secs, [])
  }

  /** Independent definition by whole runs: a non-exclusive section is a
      group of its own, otherwise the leading run is one group. */
  function GroupsByRun(secs: seq<Section>): (gs: seq<seq<Section>>)
    ensures Flatten(gs) == secs
    ensures forall p :: 0 <= p < |gs| ==> IsRun(gs[p]) || IsSingle(gs[p])
    ensures forall p :: 0 <= p < |gs| - 1 ==> !(IsRun(gs[p]) && IsRun(gs[p + 1]))
    ensures |secs| > 0 ==> |gs| > 0 && |gs[0]| > 0 && gs[0][0] == secs[0]
    decreases |secs|
  {
    if |secs| == 0 then []
    else if !secs[0].isMutualExclusion then
      var rest := GroupsByRun(secs[1..]);
      assert Flatten([[secs[0]]] + rest) == [secs[0]] + Flatten(rest) by {
        assert ([[secs[0]]] + rest)[1..] == rest;
      }
      [[secs[0]]] + rest
    else
      var n := RunLength(secs);
      var rest := GroupsByRun(secs[n..]);
      assert Flatten([secs[..n]] + rest) == secs[..n] + Flatten(rest) by {
        assert ([secs[..n]] + rest)[1..] == rest;
      }
      assert secs[..n] + secs[n..] == secs;
      [secs[..n]] + rest
  }

  /** Splitting off the leading run, if any. */
  lemma GroupsByRunUnfold(secs: seq<Section>)
    ensures var n := RunLength(secs);
      GroupsByRun(secs) == (if n > 0 then [secs[..n]] else []) + GroupsByRun(secs[n..])
  {
    if |secs| > 0 && !secs[0].isMutualExclusion {
      assert secs[0..] == secs;
    } else if |secs| == 0 {
      assert secs[0..] == secs;
    }
  }

  lemma {:induction false} GroupFromByRun(secs: seq<Section>, current: seq<Section>)
    requires forall k :: 0 <= k < |current| ==> current[k].isMutualExclusion
    ensures var n := RunLength(secs);
      GroupFrom(secs, current)
        == (if |current| + n > 0 then [current + secs[..n]] else []) + GroupsByRun(secs[n..])
    decreases |secs|, 1
  {
    var n := RunLength(secs);
    if |secs| == 0 {
      assert current + secs[..n] == current;
    } else if secs[0].isMutualExclusion {
      var rest := secs[1..];
      var current' := current + [secs[0]];
      GroupFromByRun(rest, current');
      assert RunLength(rest) == n - 1;
      assert current' + rest[..n - 1] == current + secs[..n];
      assert rest[n - 1..] == secs[n..];
    } else {
      assert n == 0;
      assert current + secs[..n] == current;
      assert secs[n..] == secs;
      GroupFromNonExclusive(secs, current);
    }
  }

  lemma {:induction false} GroupFromNonExclusive(secs: seq<Section>, current: seq<Section>)
    requires |secs| > 0 && !secs[0].isMutualExclusion
    requires forall k :: 0 <= k < |current| ==> current[k].isMutualExclusion
    ensures GroupFrom(secs, current)
        == (if |current| > 0 then [current] else []) + GroupsByRun(secs)
    decreases |secs|, 0
  {
    var rest := secs[1..];
    var tail := GroupsByRun(rest);
    var whole := GroupsByRun(secs);
    assert whole == [[secs[0]]] + tail;
    GroupFromRestIsByRun(rest);
    if |current| > 0 {
      assert GroupFrom(secs, current) == [current] + [[secs[0]]] + tail;
      ConcatAssoc([current], [[secs[0]]], tail);
    } else {
      assert GroupFrom(secs, current) == [] + [[secs[0]]] + tail;
      ConcatAssoc([], [[secs[0]]], tail);
    }
  }

  lemma {:induction false} GroupFromRestIsByRun(rest: seq<Section>)
    ensures GroupFrom(rest, []) == GroupsByRun(rest)
    decreases |rest|, 2
  {
    var m := RunLength(rest);
    GroupFromByRun(rest, []);
    GroupsByRunUnfold(rest);
    assert [] + rest[..m] == rest[..m];
  }

  lemma ConcatAssoc<T>(a: seq<T>, b: seq<T>, c: seq<T>)
    ensures a + b + c == a + (b + c)
  {
  }

  /** The source's scan and the run-by-run definition agree. */
  lemma GroupsIsGroupsByRun(secs: seq<Section>)
    ensures Groups(secs) == GroupsByRun(secs)
  {
    GroupFromByRun(secs, []);
    GroupsByRunUnfold(secs);
    var n := RunLength(secs);
    assert [] + secs[..n] == secs[..n];
  }

  /** The groups partition the sections in order; each is one non-exclusive
      section or a non-empty run of exclusive ones, and no two runs are
      adjacent, so every run is maximal. */
  lemma GroupsPartition(secs: seq<Section>)
    ensures Flatten(Groups(secs)) == secs
    ensures forall g :: g in Groups(secs) ==> IsRun(g) || IsSingle(g)
    ensures var gs := Groups(secs);
      forall p :: 0 <= p < |gs| - 1 ==> !(IsRun(gs[p]) && IsRun(gs[p + 1]))
  {
    GroupsIsGroupsByRun(secs);
  }

  /** `d` does not cut through the middle of a run. */
  predicate Boundary(secs: seq<Section>, d: int) {
    0 <= d <= |secs|
    && (d == 0 || d == |secs| || !secs[d - 1].isMutualExclusion || !secs[d].isMutualExclusion)
  }

  /** Maximal runs at or after a boundary are those of the suffix, shifted. */
  lemma MaximalRunSuffix(secs: seq<Section>, d: int, i: int, j: int)
    requires Boundary(secs, d)
    requires d <= i
    ensures MaximalRun(secs, i, j) <==> MaximalRun(secs[d..], i - d, j - d)
  {
    var t := secs[d..];
    if MaximalRun(secs, i, j) {
      forall k | i - d <= k < j - d ensures t[k].isMutualExclusion {
        assert t[k] == secs[k + d];
      }
      if i - d > 0 { assert t[i - d - 1] == secs[i - 1]; }
      if j - d < |t| { assert t[j - d] == secs[j]; }
    }
    if MaximalRun(t, i - d, j - d) {
      forall k | i <= k < j ensures secs[k].isMutualExclusion {
        assert secs[k] == t[k - d];
      }
      if i > d { assert t[i - d - 1] == secs[i - 1]; }
      if j < |secs| { assert t[j - d] == secs[j]; }
      if i == d && d > 0 {
        assert t[0] == secs[d];
      }
    }
  }

  /** The leading run, when non-empty, is maximal, and it is the only
      maximal run that starts before its end. */
  lemma LeadingRun(secs: seq<Section>, i: int, j: int)
    requires RunLength(secs) > 0
    requires i < RunLength(secs)
    ensures MaximalRun(secs, i, j) <==> i == 0 && j == RunLength(secs)
  {
  }

  /** Maximal runs depend only on the exclusivity flags. */
  predicate SameFlags(a: seq<Section>, b: seq<Section>) {
    |a| == |b| && forall k :: 0 <= k < |a| ==> a[k].isMutualExclusion == b[k].isMutualExclusion
  }

  lemma MaximalRunFlags(a: seq<Section>, b: seq<Section>, i: int, j: int)
    requires SameFlags(a, b)
    ensures MaximalRun(a, i, j) <==> MaximalRun(b, i, j)
  {
    if MaximalRun(a, i, j) {
      forall k | i <= k < j ensures b[k].isMutualExclusion { assert a[k].isMutualExclusion; }
    }
    if MaximalRun(b, i, j) {
      forall k | i <= k < j ensures a[k].isMutualExclusion { assert b[k].isMutualExclusion; }
    }
  }
}
