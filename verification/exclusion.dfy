/** The two mutual-exclusion operations of a checklist, as written and as
    their doc comments describe them
    (Sources/AChecklist/Models/AChecklist.swift:133-203). */
module MutualExclusion {
  import opened Statuses
  import opened Items
  import opened Sections
  import opened Grouping
  import opened Checklists

  /* ---------- the first exclusive run ---------- */

  /** Position of the first exclusive section, `|secs|` when there is none. */
  function FirstRunStart(secs: seq<Section>): (i: nat)
    ensures i <= |secs|
    ensures forall k :: 0 <= k < i ==> !secs[k].isMutualExclusion
    ensures i < |secs| ==> secs[i].isMutualExclusion
  {
    if |secs| == 0 || secs[0].isMutualExclusion then 0
    else 1 + FirstRunStart(secs[1..])
  }

  /** End of the first exclusive run: the first non-exclusive position after
      its start, or `|secs|`. */
  function FirstRunEnd(secs: seq<Section>): (j: nat)
    ensures FirstRunStart(secs) <= j <= |secs|
    ensures forall k :: FirstRunStart(secs) <= k < j ==> secs[k].isMutualExclusion
    ensures j < |secs| ==> !secs[j].isMutualExclusion
  {
    var i := FirstRunStart(secs);
    RunLengthAt(secs, i);
    i + RunLength(secs[i..])
  }

  /** The run starting at position `i`, read in place. */
  lemma RunLengthAt(secs: seq<Section>, i: nat)
    requires i <= |secs|
    ensures forall k :: i <= k < i + RunLength(secs[i..]) ==> secs[k].isMutualExclusion
    ensures i + RunLength(secs[i..]) < |secs| ==> !secs[i + RunLength(secs[i..])].isMutualExclusion
  {
    var t := secs[i..];
    var n := RunLength(t);
    forall k | i <= k < i + n ensures secs[k].isMutualExclusion {
      assert secs[k] == t[k - i];
    }
    if i + n < |secs| {
      assert secs[i + n] == t[n];
    }
  }

  /** A leading non-exclusive section shifts the first run by one. */
  lemma FirstRunShift(secs: seq<Section>)
    requires |secs| > 0 && !secs[0].isMutualExclusion
    ensures FirstRunStart(secs) == 1 + FirstRunStart(secs[1..])
    ensures FirstRunEnd(secs) == 1 + FirstRunEnd(secs[1..])
  {
    var i := FirstRunStart(secs[1..]);
    assert secs[1 + i..] == secs[1..][i..];
  }

  predicate InFirstRun(secs: seq<Section>, k: int) {
    FirstRunStart(secs) <= k < FirstRunEnd(secs)
  }

  /** The collecting loop of `checkMutualExclusion`: skip to the first
      exclusive section, collect while sections stay exclusive, stop at the
      first non-exclusive one; `inGroup` is the loop's `inMutualGroup`. */
  function CollectRun(secs: seq<Section>, inGroup: bool): seq<Section>
    decreases |secs|
  {
    if |secs| == 0 then []
    else if secs[0].isMutualExclusion then [secs[0]] + CollectRun(secs[1..], true)
    else if inGroup then []
    else CollectRun(secs[1..], false)
  }

  /** Started inside a run, the loop collects the rest of that run;
      started outside, it collects exactly the first exclusive run. */
  lemma {:induction false} CollectRunMeaning(secs: seq<Section>, inGroup: bool)
    ensures inGroup ==> CollectRun(secs, inGroup) == secs[..RunLength(secs)]
    ensures !inGroup ==> CollectRun(secs, inGroup) == secs[FirstRunStart(secs)..FirstRunEnd(secs)]
    decreases |secs|
  {
    if |secs| == 0 {
    } else if secs[0].isMutualExclusion {
      var rest := secs[1..];
      CollectRunMeaning(rest, true);
      var m := RunLength(rest);
      assert RunLength(secs) == 1 + m;
      assert [secs[0]] + rest[..m] == secs[..1 + m];
      assert FirstRunStart(secs) == 0;
      assert secs[0..] == secs;
      assert FirstRunEnd(secs) == 1 + m;
    } else if !inGroup {
      var rest := secs[1..];
      CollectRunMeaning(rest, false);
      FirstRunShift(secs);
      assert secs[FirstRunStart(secs)..FirstRunEnd(secs)]
          == rest[FirstRunStart(rest)..FirstRunEnd(rest)];
    }
  }

  /** Whether a section other than `id` has any progress
      (`contains { $0.id != section.id && $0.status != .unchecked }`). */
  function AnyActiveOther(run: seq<Section>, id: Uuid): (b: bool)
    ensures b <==> exists i :: 0 <= i < |run| && run[i].id != id && SectionStatus(run[i]) != Unchecked
  {
    if |run| == 0 then false
    else
      assert forall i :: 1 <= i < |run| ==> run[i] == run[1..][i - 1];
      (run[0].id != id && SectionStatus(run[0]) != Unchecked) || AnyActiveOther(run[1..], id)
  }

  /** Some section of the first exclusive run, other than `id`, has progress. */
  ghost predicate FirstRunActive(secs: seq<Section>, id: Uuid) {
    exists k :: InFirstRun(secs, k) && secs[k].id != id && SectionStatus(secs[k]) != Unchecked
  }

  lemma FirstRunActiveIsCollected(secs: seq<Section>, id: Uuid)
    ensures AnyActiveOther(CollectRun(secs, false), id) <==> FirstRunActive(secs, id)
  {
    var i := FirstRunStart(secs);
    var e := FirstRunEnd(secs);
    var run := CollectRun(secs, false);
    CollectRunMeaning(secs, false);
    assert run == secs[i..e];
    if AnyActiveOther(run, id) {
      var x :| 0 <= x < |run| && run[x].id != id && SectionStatus(run[x]) != Unchecked;
      assert run[x] == secs[i + x];
    }
    if FirstRunActive(secs, id) {
      var k :| InFirstRun(secs, k) && secs[k].id != id && SectionStatus(secs[k]) != Unchecked;
      assert run[k - i] == secs[k];
    }
  }

  /** `checkMutualExclusion(for:)`, as written: a non-exclusive argument
      gives `(false, false)`; otherwise both answers are whether some section
      of the FIRST exclusive run with another id has progress, whichever run
      the argument belongs to. */
  function CheckMutualExclusion(c: Checklist, section: Section): (r: (bool, bool))
    ensures !section.isMutualExclusion ==> r == (false, false)
    ensures r.0 == r.1
    ensures section.isMutualExclusion ==> (r.0 <==> FirstRunActive(c.sections, section.id))
  {
    if !section.isMutualExclusion then (false, false)
    else
      var active := AnyActiveOther(CollectRun(c.sections, false), section.id);
      FirstRunActiveIsCollected(c.sections, section.id);
      (active, active)
  }

  /** The resetting loop of `handleMutualExclusionSelection`: exclusive
      sections whose id differs are reset; the scan stops at the first
      non-exclusive section after an exclusive one; `inGroup` is the loop's
      `isInTargetGroup`. */
  function ResetScan(secs: seq<Section>, id: Uuid, inGroup: bool): (r: seq<Section>)
    ensures |r| == |secs|
    decreases |secs|
  {
    if |secs| == 0 then []
    else if secs[0].isMutualExclusion then
      [if secs[0].id != id then UncheckAll(secs[0]) else secs[0]] + ResetScan(secs[1..], id, true)
    else if inGroup then secs
    else [secs[0]] + ResetScan(secs[1..], id, false)
  }

  /** Started inside a run, the loop resets the rest of that run, sparing `id`. */
  lemma {:induction false} ResetScanInRun(secs: seq<Section>, id: Uuid)
    ensures forall k :: 0 <= k < |secs| ==>
      ResetScan(secs, id, true)[k]
        == (if k < RunLength(secs) && secs[k].id != id then UncheckAll(secs[k]) else secs[k])
    decreases |secs|
  {
    if |secs| > 0 && secs[0].isMutualExclusion {
      var r := ResetScan(secs, id, true);
      var rest := secs[1..];
      var tail := ResetScan(rest, id, true);
      ResetScanInRun(rest, id);
      assert r == [if secs[0].id != id then UncheckAll(secs[0]) else secs[0]] + tail;
      assert RunLength(secs) == 1 + RunLength(rest);
      forall k | 1 <= k < |secs|
        ensures r[k] == (if k < RunLength(secs) && secs[k].id != id then UncheckAll(secs[k]) else secs[k])
      {
        assert r[k] == tail[k - 1];
        assert rest[k - 1] == secs[k];
      }
    }
  }

  /** A list that starts with an exclusive section has its first run in front. */
  lemma FirstRunInFront(secs: seq<Section>)
    requires |secs| > 0 && secs[0].isMutualExclusion
    ensures FirstRunStart(secs) == 0 && FirstRunEnd(secs) == RunLength(secs)
  {
    assert secs[0..] == secs;
  }

  /** Started outside any run, the loop resets exactly the first exclusive
      run, sparing `id`. */
  lemma {:induction false} ResetScanMeaning(secs: seq<Section>, id: Uuid)
    ensures forall k :: 0 <= k < |secs| ==>
      ResetScan(secs, id, false)[k]
        == (if InFirstRun(secs, k) && secs[k].id != id then UncheckAll(secs[k]) else secs[k])
    decreases |secs|
  {
    if |secs| == 0 {
    } else if secs[0].isMutualExclusion {
      ResetScanInRun(secs, id);
      FirstRunInFront(secs);
      assert ResetScan(secs, id, false) == ResetScan(secs, id, true);
    } else {
      var r := ResetScan(secs, id, false);
      var rest := secs[1..];
      var tail := ResetScan(rest, id, false);
      ResetScanMeaning(rest, id);
      FirstRunShift(secs);
      assert r == [secs[0]] + tail;
      forall k | 1 <= k < |secs|
        ensures r[k] == (if InFirstRun(secs, k) && secs[k].id != id then UncheckAll(secs[k]) else secs[k])
      {
        assert r[k] == tail[k - 1];
        assert rest[k - 1] == secs[k];
      }
    }
  }

  /** `handleMutualExclusionSelection(for:)`, as written. The argument is a
      separate section value: its own status decides whether anything
      happens. When it does, every section of the FIRST exclusive run whose
      id differs from the argument's is reset, and nothing else changes. */
  function HandleMutualExclusionSelection(c: Checklist, selected: Section): (r: Checklist)
    ensures r.id == c.id && r.name == c.name && |r.sections| == |c.sections|
    ensures !(selected.isMutualExclusion && SectionStatus(selected) != Unchecked) ==> r == c
    ensures selected.isMutualExclusion && SectionStatus(selected) != Unchecked ==>
      forall k :: 0 <= k < |c.sections| ==>
        r.sections[k] == (if InFirstRun(c.sections, k) && c.sections[k].id != selected.id
                          then UncheckAll(c.sections[k]) else c.sections[k])
  {
    if !(selected.isMutualExclusion && SectionStatus(selected) != Unchecked) then c
    else
      ResetScanMeaning(c.sections, selected.id);
      c.(sections := ResetScan(c.sections, selected.id, false))
  }

  /* ---------- the run the doc comments mean ---------- */

  /** `k` and `m` lie in one exclusive run: every section between them,
      both included, is exclusive. */
  ghost predicate SameRun(secs: seq<Section>, k: int, m: int) {
    && 0 <= k < |secs| && 0 <= m < |secs|
    && forall x :: (k <= x <= m || m <= x <= k) ==> secs[x].isMutualExclusion
  }

  /** The run of position `k` holds a section with id `id`. */
  ghost predicate RunHasId(secs: seq<Section>, k: int, id: Uuid) {
    exists m :: SameRun(secs, k, m) && secs[m].id == id
  }

  predicate HasId(run: seq<Section>, id: Uuid) {
    exists i :: 0 <= i < |run| && run[i].id == id
  }

  /** Resets the members of one run other than `id`, if `id` is in it. */
  function ResetRunExcept(run: seq<Section>, id: Uuid): (r: seq<Section>)
    ensures |r| == |run|
    ensures forall i :: 0 <= i < |run| ==>
      r[i] == (if HasId(run, id) && run[i].id != id then UncheckAll(run[i]) else run[i])
  {
    if HasId(run, id) then
      seq(|run|, i requires 0 <= i < |run| => if run[i].id != id then UncheckAll(run[i]) else run[i])
    else run
  }

  /** The reset the doc comment at line 185 describes, taken run by run:
      only the run(s) holding the selected id are touched. */
  function ResetOwnRun(secs: seq<Section>, id: Uuid): (r: seq<Section>)
    ensures |r| == |secs|
    decreases |secs|
  {
    if |secs| == 0 then []
    else if !secs[0].isMutualExclusion then [secs[0]] + ResetOwnRun(secs[1..], id)
    else
      var n := RunLength(secs);
      ResetRunExcept(secs[..n], id) + ResetOwnRun(secs[n..], id)
  }

  /** Runs after a boundary `d` are those of the suffix. */
  lemma RunHasIdSuffix(secs: seq<Section>, d: int, k: int, id: Uuid)
    requires Boundary(secs, d)
    requires d <= k < |secs|
    ensures RunHasId(secs, k, id) <==> RunHasId(secs[d..], k - d, id)
  {
    var t := secs[d..];
    if RunHasId(secs, k, id) {
      var m :| SameRun(secs, k, m) && secs[m].id == id;
      if m < d {
        assert false;
      }
      assert t[m - d] == secs[m];
      forall x | (k - d <= x <= m - d || m - d <= x <= k - d) ensures t[x].isMutualExclusion {
        assert t[x] == secs[x + d];
      }
      assert SameRun(t, k - d, m - d);
    }
    if RunHasId(t, k - d, id) {
      var m :| SameRun(t, k - d, m) && t[m].id == id;
      assert t[m] == secs[m + d];
      forall x | (k <= x <= m + d || m + d <= x <= k) ensures secs[x].isMutualExclusion {
        assert secs[x] == t[x - d];
      }
      assert SameRun(secs, k, m + d);
    }
  }

  /** Inside the leading run, the run of `k` is that run. */
  lemma RunHasIdLeading(secs: seq<Section>, k: int, id: Uuid)
    requires 0 <= k < RunLength(secs)
    ensures RunHasId(secs, k, id) <==> HasId(secs[..RunLength(secs)], id)
  {
    var n := RunLength(secs);
    if RunHasId(secs, k, id) {
      var m :| SameRun(secs, k, m) && secs[m].id == id;
      if m >= n {
        assert false;
      }
      assert secs[..n][m] == secs[m];
    }
    if HasId(secs[..n], id) {
      var m :| 0 <= m < n && secs[..n][m].id == id;
      assert SameRun(secs, k, m);
    }
  }

  /** The corrected reset touches exactly the exclusive sections, other than
      the selected id, whose own run holds the selected id. */
  lemma {:induction false} ResetOwnRunMeaning(secs: seq<Section>, id: Uuid)
    ensures forall k :: 0 <= k < |secs| ==>
      ResetOwnRun(secs, id)[k]
        == (if secs[k].isMutualExclusion && secs[k].id != id && RunHasId(secs, k, id)
            then UncheckAll(secs[k]) else secs[k])
    decreases |secs|
  {
    var r := ResetOwnRun(secs, id);
    if |secs| > 0 {
      var d := if secs[0].isMutualExclusion then RunLength(secs) else 1;
      var rest := secs[d..];
      ResetOwnRunMeaning(rest, id);
      assert Boundary(secs, d);
      if !secs[0].isMutualExclusion {
        assert r == [secs[0]] + ResetOwnRun(rest, id);
      } else {
        assert r == ResetRunExcept(secs[..d], id) + ResetOwnRun(rest, id);
      }
      forall k | 0 <= k < |secs|
        ensures r[k] == (if secs[k].isMutualExclusion && secs[k].id != id && RunHasId(secs, k, id)
                         then UncheckAll(secs[k]) else secs[k])
      {
        if k < d {
          if secs[0].isMutualExclusion {
            RunHasIdLeading(secs, k, id);
            assert secs[..d][k] == secs[k];
          }
        } else {
          assert rest[k - d] == secs[k];
          if secs[k].isMutualExclusion {
            RunHasIdSuffix(secs, d, k, id);
          }
        }
      }
    }
  }

  /** `handleMutualExclusionSelection` as its doc comment describes it. */
  function HandleSelectionInOwnRun(c: Checklist, selected: Section): (r: Checklist)
    ensures r.id == c.id && r.name == c.name && |r.sections| == |c.sections|
    ensures !(selected.isMutualExclusion && SectionStatus(selected) != Unchecked) ==> r == c
    ensures selected.isMutualExclusion && SectionStatus(selected) != Unchecked ==>
      forall k :: 0 <= k < |c.sections| ==>
        r.sections[k] == (if c.sections[k].isMutualExclusion && c.sections[k].id != selected.id
                             && RunHasId(c.sections, k, selected.id)
                          then UncheckAll(c.sections[k]) else c.sections[k])
  {
    if !(selected.isMutualExclusion && SectionStatus(selected) != Unchecked) then c
    else
      ResetOwnRunMeaning(c.sections, selected.id);
      c.(sections := ResetOwnRun(c.sections, selected.id))
  }

  /** Whether the run(s) holding `id` have another member with progress,
      taken run by run. */
  function ActiveInOwnRun(secs: seq<Section>, id: Uuid): bool
    decreases |secs|
  {
    if |secs| == 0 then false
    else if !secs[0].isMutualExclusion then ActiveInOwnRun(secs[1..], id)
    else
      var n := RunLength(secs);
      (HasId(secs[..n], id) && AnyActiveOther(secs[..n], id)) || ActiveInOwnRun(secs[n..], id)
  }

  /** Some section with another id, in a run holding `id`, has progress. */
  ghost predicate OwnRunActive(secs: seq<Section>, id: Uuid) {
    exists k :: 0 <= k < |secs| && secs[k].isMutualExclusion && secs[k].id != id
      && RunHasId(secs, k, id) && SectionStatus(secs[k]) != Unchecked
  }

  lemma {:induction false} ActiveInOwnRunMeaning(secs: seq<Section>, id: Uuid)
    ensures ActiveInOwnRun(secs, id) <==> OwnRunActive(secs, id)
    decreases |secs|
  {
    if |secs| > 0 {
      var d := if secs[0].isMutualExclusion then RunLength(secs) else 1;
      var rest := secs[d..];
      ActiveInOwnRunMeaning(rest, id);
      assert Boundary(secs, d);
      if OwnRunActive(rest, id) {
        var k :| 0 <= k < |rest| && rest[k].isMutualExclusion && rest[k].id != id
          && RunHasId(rest, k, id) && SectionStatus(rest[k]) != Unchecked;
        assert rest[k] == secs[k + d];
        RunHasIdSuffix(secs, d, k + d, id);
      }
      if OwnRunActive(secs, id) {
        var k :| 0 <= k < |secs| && secs[k].isMutualExclusion && secs[k].id != id
          && RunHasId(secs, k, id) && SectionStatus(secs[k]) != Unchecked;
        if k < d {
          RunHasIdLeading(secs, k, id);
          assert secs[..d][k] == secs[k];
        } else {
          assert rest[k - d] == secs[k];
          RunHasIdSuffix(secs, d, k, id);
        }
      }
      if secs[0].isMutualExclusion && HasId(secs[..d], id) && AnyActiveOther(secs[..d], id) {
        var k :| 0 <= k < d && secs[..d][k].id != id && SectionStatus(secs[..d][k]) != Unchecked;
        assert secs[..d][k] == secs[k];
        RunHasIdLeading(secs, k, id);
      }
    }
  }

  /** `checkMutualExclusion(for:)` as its doc comment describes it. */
  function CheckInOwnRun(c: Checklist, section: Section): (r: (bool, bool))
    ensures !section.isMutualExclusion ==> r == (false, false)
    ensures r.0 == r.1
    ensures section.isMutualExclusion ==> (r.0 <==> OwnRunActive(c.sections, section.id))
  {
    if !section.isMutualExclusion then (false, false)
    else
      var active := ActiveInOwnRun(c.sections, section.id);
      ActiveInOwnRunMeaning(c.sections, section.id);
      (active, active)
  }

  /* ---------- where the two readings agree ---------- */

  /** Every exclusive section carrying `id` is in the first run, and one is. */
  ghost predicate IdOnlyInFirstRun(secs: seq<Section>, id: Uuid) {
    && (exists m :: InFirstRun(secs, m) && secs[m].id == id)
    && (forall m :: 0 <= m < |secs| && secs[m].isMutualExclusion && secs[m].id == id ==> InFirstRun(secs, m))
  }

  lemma FirstRunIsOwnRun(secs: seq<Section>, id: Uuid, k: int)
    requires IdOnlyInFirstRun(secs, id)
    requires 0 <= k < |secs|
    ensures InFirstRun(secs, k) <==> secs[k].isMutualExclusion && RunHasId(secs, k, id)
  {
    var m0 :| InFirstRun(secs, m0) && secs[m0].id == id;
    if InFirstRun(secs, k) {
      assert SameRun(secs, k, m0);
    }
    if secs[k].isMutualExclusion && RunHasId(secs, k, id) {
      var m :| SameRun(secs, k, m) && secs[m].id == id;
      assert InFirstRun(secs, m);
      var e := FirstRunEnd(secs);
      if e <= k {
        assert false;
      }
    }
  }

  lemma FirstRunIsOwnRunAll(secs: seq<Section>, id: Uuid)
    requires IdOnlyInFirstRun(secs, id)
    ensures forall k :: 0 <= k < |secs| ==>
      (InFirstRun(secs, k) <==> secs[k].isMutualExclusion && RunHasId(secs, k, id))
  {
    forall k | 0 <= k < |secs|
      ensures InFirstRun(secs, k) <==> secs[k].isMutualExclusion && RunHasId(secs, k, id)
    {
      FirstRunIsOwnRun(secs, id, k);
    }
  }

  /** When the selected id lives only in the first exclusive run, the reset
      as written does what its doc comment says. */
  lemma HandleAsWrittenMatchesIntent(c: Checklist, selected: Section)
    requires IdOnlyInFirstRun(c.sections, selected.id)
    ensures HandleMutualExclusionSelection(c, selected) == HandleSelectionInOwnRun(c, selected)
  {
    FirstRunIsOwnRunAll(c.sections, selected.id);
    var a := HandleMutualExclusionSelection(c, selected);
    var b := HandleSelectionInOwnRun(c, selected);
    assert a.sections == b.sections;
  }

  /** When the queried id lives only in the first exclusive run, the query
      as written does what its doc comment says. */
  lemma CheckAsWrittenMatchesIntent(c: Checklist, section: Section)
    requires IdOnlyInFirstRun(c.sections, section.id)
    ensures CheckMutualExclusion(c, section) == CheckInOwnRun(c, section)
  {
    FirstRunIsOwnRunAll(c.sections, section.id);
    if section.isMutualExclusion {
      assert FirstRunActive(c.sections, section.id) <==> OwnRunActive(c.sections, section.id);
    }
  }
}
