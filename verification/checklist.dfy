/** A checklist: an ordered list of sections whose status understands
    exclusivity runs (Sources/AChecklist/Models/AChecklist.swift). */
module Checklists {
  import opened Options
  import opened Statuses
  import opened Items
  import opened Sections
  import opened Grouping

  datatype Checklist = Checklist(id: Uuid, name: string, sections: seq<Section>)

  /* ---------- the status getter, as the source computes it ---------- */

  /** Sections of a group that read `Checked`
      (`group.filter { $0.status == .checked }.count`). */
  function CountChecked(g: seq<Section>): (n: nat)
    ensures n <= |g|
  {
    if |g| == 0 then 0
    else (if SectionStatus(g[0]) == Checked then 1 else 0) + CountChecked(g[1..])
  }

  /** A lone non-exclusive section completes by reading `Checked`; any
      other group completes when exactly one member reads `Checked`. */
  predicate GroupComplete(g: seq<Section>) {
    if |g| == 1 && !g[0].isMutualExclusion then SectionStatus(g[0]) == Checked
    else CountChecked(g) == 1
  }

  /** A lone non-exclusive section has started unless it reads `Unchecked`;
      any other group has started only once a member reads `Checked`. */
  predicate GroupStarted(g: seq<Section>) {
    if |g| == 1 && !g[0].isMutualExclusion then SectionStatus(g[0]) != Unchecked
    else CountChecked(g) > 0
  }

  /** `allGroupsCompleted` after the loop over the groups. */
  predicate AllComplete(gs: seq<seq<Section>>) {
    |gs| == 0 || (GroupComplete(gs[0]) && AllComplete(gs[1..]))
  }

  /** `anyGroupStarted` after the loop over the groups. */
  predicate AnyStarted(gs: seq<seq<Section>>) {
    |gs| > 0 && (GroupStarted(gs[0]) || AnyStarted(gs[1..]))
  }

  /** The `status` getter. */
  function ChecklistStatus(c: Checklist): Status {
    var gs := Groups(c.sections);
    if AllComplete(gs) then Checked
    else if AnyStarted(gs) then PartiallyChecked
    else Unchecked
  }

  /* ---------- the same status, stated on positions ---------- */

  /** Every non-exclusive section reads `Checked`. */
  predicate SinglesChecked(secs: seq<Section>) {
    forall k :: 0 <= k < |secs| && !secs[k].isMutualExclusion ==> SectionStatus(secs[k]) == Checked
  }

  /** Every maximal exclusive run has exactly one member reading `Checked`. */
  ghost predicate RunsCheckedOnce(secs: seq<Section>) {
    forall i, j :: MaximalRun(secs, i, j) ==> CountChecked(secs[i..j]) == 1
  }

  ghost predicate Complete(secs: seq<Section>) {
    SinglesChecked(secs) && RunsCheckedOnce(secs)
  }

  /** What makes one section count as progress: a non-exclusive section
      that is not `Unchecked`, or an exclusive one that is fully `Checked`
      (a partially checked run member is no progress). */
  predicate SectionStarted(s: Section) {
    if s.isMutualExclusion then SectionStatus(s) == Checked else SectionStatus(s) != Unchecked
  }

  predicate Started(secs: seq<Section>) {
    exists k :: 0 <= k < |secs| && SectionStarted(secs[k])
  }

  lemma {:induction false} CountCheckedPositive(g: seq<Section>)
    ensures CountChecked(g) > 0 <==> exists k :: 0 <= k < |g| && SectionStatus(g[k]) == Checked
  {
    if |g| > 0 {
      CountCheckedPositive(g[1..]);
      if exists k :: 0 <= k < |g| && SectionStatus(g[k]) == Checked {
        var k :| 0 <= k < |g| && SectionStatus(g[k]) == Checked;
        if k > 0 { assert g[1..][k - 1] == g[k]; }
      }
      if CountChecked(g[1..]) > 0 {
        var k :| 0 <= k < |g[1..]| && SectionStatus(g[1..][k]) == Checked;
        assert g[k + 1] == g[1..][k];
      }
    }
  }

  lemma {:induction false} CountCheckedAll(g: seq<Section>)
    requires forall k :: 0 <= k < |g| ==> SectionStatus(g[k]) == Checked
    ensures CountChecked(g) == |g|
  {
    if |g| > 0 {
      assert forall k :: 0 <= k < |g[1..]| ==> g[1..][k] == g[k + 1];
      CountCheckedAll(g[1..]);
    }
  }

  /** Shifting maximal runs across a boundary `d`, together with their members. */
  lemma RunsShift(secs: seq<Section>, d: int)
    requires Boundary(secs, d)
    ensures forall i, j :: d <= i && MaximalRun(secs, i, j) ==>
      MaximalRun(secs[d..], i - d, j - d) && secs[i..j] == secs[d..][i - d..j - d]
    ensures forall i, j :: MaximalRun(secs[d..], i, j) ==>
      MaximalRun(secs, i + d, j + d) && secs[i + d..j + d] == secs[d..][i..j]
  {
    forall i, j | d <= i && MaximalRun(secs, i, j)
      ensures MaximalRun(secs[d..], i - d, j - d) && secs[i..j] == secs[d..][i - d..j - d]
    {
      MaximalRunSuffix(secs, d, i, j);
    }
    forall i, j | MaximalRun(secs[d..], i, j)
      ensures MaximalRun(secs, i + d, j + d) && secs[i + d..j + d] == secs[d..][i..j]
    {
      MaximalRunSuffix(secs, d, i + d, j + d);
    }
  }

  /** Completeness splits at a boundary that no maximal run straddles. */
  lemma CompleteSplit(secs: seq<Section>, d: int)
    requires Boundary(secs, d)
    ensures SinglesChecked(secs) <==>
      (forall k :: 0 <= k < d && !secs[k].isMutualExclusion ==> SectionStatus(secs[k]) == Checked)
      && SinglesChecked(secs[d..])
  {
    var t := secs[d..];
    if SinglesChecked(t) {
      forall k | d <= k < |secs| && !secs[k].isMutualExclusion ensures SectionStatus(secs[k]) == Checked {
        assert secs[k] == t[k - d];
      }
    }
    if SinglesChecked(secs) {
      forall k | 0 <= k < |t| && !t[k].isMutualExclusion ensures SectionStatus(t[k]) == Checked {
        assert t[k] == secs[k + d];
      }
    }
  }

  lemma StartedSplit(secs: seq<Section>, d: int)
    requires 0 <= d <= |secs|
    ensures Started(secs) <==>
      (exists k :: 0 <= k < d && SectionStarted(secs[k])) || Started(secs[d..])
  {
    var t := secs[d..];
    if Started(secs) {
      var k :| 0 <= k < |secs| && SectionStarted(secs[k]);
      if k >= d { assert t[k - d] == secs[k]; }
    }
    if Started(t) {
      var k :| 0 <= k < |t| && SectionStarted(t[k]);
      assert secs[k + d] == t[k];
    }
  }

  lemma {:induction false} AllCompleteByRun(secs: seq<Section>)
    ensures AllComplete(GroupsByRun(secs)) <==> Complete(secs)
    decreases |secs|
  {
    var gs := GroupsByRun(secs);
    if |secs| == 0 {
    } else if !secs[0].isMutualExclusion {
      var rest := secs[1..];
      assert gs == [[secs[0]]] + GroupsByRun(rest);
      assert gs[1..] == GroupsByRun(rest);
      AllCompleteByRun(rest);
      CompleteSplit(secs, 1);
      RunsShift(secs, 1);
      if RunsCheckedOnce(secs) {
        forall i, j | MaximalRun(rest, i, j) ensures CountChecked(rest[i..j]) == 1 {
          assert MaximalRun(secs, i + 1, j + 1);
        }
      }
      if RunsCheckedOnce(rest) {
        forall i, j | MaximalRun(secs, i, j) ensures CountChecked(secs[i..j]) == 1 {
          assert i >= 1;
          assert MaximalRun(rest, i - 1, j - 1);
        }
      }
    } else {
      var n := RunLength(secs);
      var rest := secs[n..];
      assert gs == [secs[..n]] + GroupsByRun(rest);
      assert gs[1..] == GroupsByRun(rest);
      assert GroupComplete(secs[..n]) <==> CountChecked(secs[..n]) == 1;
      AllCompleteByRun(rest);
      CompleteSplit(secs, n);
      RunsShift(secs, n);
      LeadingRun(secs, 0, n);
      assert secs[0..n] == secs[..n];
      if RunsCheckedOnce(secs) {
        forall i, j | MaximalRun(rest, i, j) ensures CountChecked(rest[i..j]) == 1 {
          assert MaximalRun(secs, i + n, j + n);
        }
      }
      if RunsCheckedOnce(rest) && CountChecked(secs[..n]) == 1 {
        forall i, j | MaximalRun(secs, i, j) ensures CountChecked(secs[i..j]) == 1 {
          if i < n {
            LeadingRun(secs, i, j);
          } else {
            assert MaximalRun(rest, i - n, j - n);
          }
        }
      }
    }
  }

  lemma {:induction false} AnyStartedByRun(secs: seq<Section>)
    ensures AnyStarted(GroupsByRun(secs)) <==> Started(secs)
    decreases |secs|
  {
    var gs := GroupsByRun(secs);
    if |secs| == 0 {
    } else if !secs[0].isMutualExclusion {
      var rest := secs[1..];
      assert gs == [[secs[0]]] + GroupsByRun(rest);
      assert gs[1..] == GroupsByRun(rest);
      AnyStartedByRun(rest);
      StartedSplit(secs, 1);
    } else {
      var n := RunLength(secs);
      var rest := secs[n..];
      var run := secs[..n];
      assert gs == [run] + GroupsByRun(rest);
      assert gs[1..] == GroupsByRun(rest);
      AnyStartedByRun(rest);
      StartedSplit(secs, n);
      CountCheckedPositive(run);
      assert GroupStarted(run) <==> CountChecked(run) > 0;
      if CountChecked(run) > 0 {
        var k :| 0 <= k < |run| && SectionStatus(run[k]) == Checked;
        assert SectionStarted(secs[k]);
      }
      if exists k :: 0 <= k < n && SectionStarted(secs[k]) {
        var k :| 0 <= k < n && SectionStarted(secs[k]);
        assert SectionStatus(run[k]) == Checked;
      }
    }
  }

  /** The checklist reads `Checked` exactly when every non-exclusive section
      reads `Checked` and every maximal exclusive run has exactly one member
      reading `Checked`; otherwise it reads `Unchecked` exactly when no
      section has made progress in the sense of `SectionStarted`. */
  lemma ChecklistStatusMeaning(c: Checklist)
    ensures ChecklistStatus(c) == Checked <==> Complete(c.sections)
    ensures ChecklistStatus(c) == PartiallyChecked <==> !Complete(c.sections) && Started(c.sections)
    ensures ChecklistStatus(c) == Unchecked <==> !Complete(c.sections) && !Started(c.sections)
  {
    GroupsIsGroupsByRun(c.sections);
    AllCompleteByRun(c.sections);
    AnyStartedByRun(c.sections);
  }

  /** A checklist without sections reads `Checked`. */
  lemma EmptyChecklistIsChecked(id: Uuid, name: string)
    ensures ChecklistStatus(Checklist(id, name, [])) == Checked
  {
  }

  /* ---------- the status setter and resetAllSections ---------- */

  /** What the checklist-level setters keep: the checklist's own fields and
      the order, ids, names and exclusivity flags of its sections. */
  predicate SameLayout(a: Checklist, b: Checklist) {
    && a.id == b.id && a.name == b.name && |a.sections| == |b.sections|
    && forall k :: 0 <= k < |a.sections| ==> SameShape(a.sections[k], b.sections[k])
  }

  /** The `status` setter: applies the section setter to every section;
      assigning `PartiallyChecked` changes nothing. */
  function SetChecklistStatus(c: Checklist, st: Status, now: Timestamp): (r: Checklist)
    ensures SameLayout(c, r)
    ensures st == PartiallyChecked ==> r == c
    ensures st == Checked ==> forall k, i :: 0 <= k < |r.sections| && 0 <= i < |r.sections[k].items| ==>
      r.sections[k].items[i] == c.sections[k].items[i].(currentDate := now + 1, lastChecked := Some(now))
    ensures st == Unchecked ==> forall k, i :: 0 <= k < |r.sections| && 0 <= i < |r.sections[k].items| ==>
      r.sections[k].items[i] == c.sections[k].items[i].(lastChecked := None)
  {
    if st == PartiallyChecked then c
    else
      c.(sections := seq(|c.sections|, k requires 0 <= k < |c.sections| => SetStatus(c.sections[k], st, now)))
  }

  /** `resetAllSections()`: every item of every section loses its check time. */
  function ResetAllSections(c: Checklist): (r: Checklist)
    ensures SameLayout(c, r)
    ensures forall k, i :: 0 <= k < |r.sections| && 0 <= i < |r.sections[k].items| ==>
      r.sections[k].items[i] == c.sections[k].items[i].(lastChecked := None)
  {
    c.(sections := seq(|c.sections|, k requires 0 <= k < |c.sections| => UncheckAll(c.sections[k])))
  }

  /** Resetting is assigning `.unchecked`, whatever the clock reads. */
  lemma ResetIsSetUnchecked(c: Checklist, now: Timestamp)
    ensures ResetAllSections(c) == SetChecklistStatus(c, Unchecked, now)
  {
    var a := ResetAllSections(c);
    var b := SetChecklistStatus(c, Unchecked, now);
    forall k | 0 <= k < |c.sections| ensures a.sections[k] == b.sections[k] {
      assert a.sections[k].items == b.sections[k].items;
    }
  }

  lemma SameLayoutFlags(a: Checklist, b: Checklist)
    requires SameLayout(a, b)
    ensures forall i, j :: MaximalRun(a.sections, i, j) <==> MaximalRun(b.sections, i, j)
  {
    assert SameFlags(a.sections, b.sections);
    forall i, j ensures MaximalRun(a.sections, i, j) <==> MaximalRun(b.sections, i, j) {
      MaximalRunFlags(a.sections, b.sections, i, j);
    }
  }

  /** Assigning `.checked` overrides exclusivity: the checklist then reads
      `Checked` only if every exclusive run has a single member, and
      `PartiallyChecked` otherwise. */
  lemma SetCheckedStatus(c: Checklist, now: Timestamp)
    ensures var r := SetChecklistStatus(c, Checked, now);
      ChecklistStatus(r) == (if forall i, j :: MaximalRun(c.sections, i, j) ==> j == i + 1
                             then Checked else PartiallyChecked)
  {
    var r := SetChecklistStatus(c, Checked, now);
    var secs := r.sections;
    ChecklistStatusMeaning(r);
    SameLayoutFlags(c, r);
    forall k | 0 <= k < |secs| ensures SectionStatus(secs[k]) == Checked {
      CheckAllReadsChecked(c.sections[k], now);
    }
    forall i, j | MaximalRun(secs, i, j) ensures CountChecked(secs[i..j]) == j - i {
      CountCheckedAll(secs[i..j]);
    }
    if forall i, j :: MaximalRun(c.sections, i, j) ==> j == i + 1 {
      assert Complete(secs);
    } else {
      var i, j :| MaximalRun(c.sections, i, j) && j != i + 1;
      assert MaximalRun(secs, i, j);
      assert SectionStarted(secs[i]);
    }
  }

  /** After a reset a section with items reads `Unchecked` and one without
      reads `Checked`; the checklist reads `Unchecked` exactly when it has
      sections and every one of them has items. */
  lemma ResetStatus(c: Checklist)
    ensures var r := ResetAllSections(c);
      forall k :: 0 <= k < |r.sections| ==>
        SectionStatus(r.sections[k]) == (if |c.sections[k].items| == 0 then Checked else Unchecked)
    ensures ChecklistStatus(ResetAllSections(c)) == Unchecked
      <==> |c.sections| > 0 && forall k :: 0 <= k < |c.sections| ==> |c.sections[k].items| > 0
  {
    var r := ResetAllSections(c);
    var secs := r.sections;
    forall k | 0 <= k < |secs|
      ensures SectionStatus(secs[k]) == (if |c.sections[k].items| == 0 then Checked else Unchecked)
    {
      UncheckAllReadsUnchecked(c.sections[k]);
    }
    ChecklistStatusMeaning(r);
    if |secs| > 0 && forall k :: 0 <= k < |c.sections| ==> |c.sections[k].items| > 0 {
      if secs[0].isMutualExclusion {
        var n := RunLength(secs);
        LeadingRun(secs, 0, n);
        CountCheckedPositive(secs[0..n]);
        assert !RunsCheckedOnce(secs);
      } else {
        assert !SinglesChecked(secs);
      }
    }
    if ChecklistStatus(r) == Unchecked {
      forall k | 0 <= k < |c.sections| ensures |c.sections[k].items| > 0 {
        assert !SectionStarted(secs[k]);
      }
    }
  }

  /* ---------- removeSection(id:) ---------- */

  function CountId(secs: seq<Section>, id: Uuid): nat {
    if |secs| == 0 then 0 else (if secs[0].id == id then 1 else 0) + CountId(secs[1..], id)
  }

  /** `sections.removeAll { $0.id == id }`. */
  function RemoveId(secs: seq<Section>, id: Uuid): (r: seq<Section>)
    ensures forall s :: s in r <==> s in secs && s.id != id
    ensures |r| == |secs| - CountId(secs, id)
  {
    if |secs| == 0 then []
    else if secs[0].id == id then RemoveId(secs[1..], id)
    else [secs[0]] + RemoveId(secs[1..], id)
  }

  /** Removal works piecewise, so the surviving sections keep their order. */
  lemma {:induction false} RemoveIdConcat(a: seq<Section>, b: seq<Section>, id: Uuid)
    ensures RemoveId(a + b, id) == RemoveId(a, id) + RemoveId(b, id)
  {
    if |a| > 0 {
      assert (a + b)[1..] == a[1..] + b;
      RemoveIdConcat(a[1..], b, id);
    } else {
      assert a + b == b;
    }
  }

  /** Removing the same id twice is removing it once. */
  lemma {:induction false} RemoveIdIdempotent(secs: seq<Section>, id: Uuid)
    ensures RemoveId(RemoveId(secs, id), id) == RemoveId(secs, id)
  {
    if |secs| > 0 {
      RemoveIdIdempotent(secs[1..], id);
      if secs[0].id != id {
        assert ([secs[0]] + RemoveId(secs[1..], id))[1..] == RemoveId(secs[1..], id);
      }
    }
  }

  /** `removeSection(id:)`. */
  function RemoveSection(c: Checklist, id: Uuid): (r: Checklist)
    ensures r.id == c.id && r.name == c.name
    ensures forall s :: s in r.sections <==> s in c.sections && s.id != id
    ensures |r.sections| == |c.sections| - CountId(c.sections, id)
  {
    c.(sections := RemoveId(c.sections, id))
  }
}
