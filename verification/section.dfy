/** A section: an ordered list of items with a derived, settable status
    (Sources/AChecklist/Models/AChecklistSection.swift). */
module Sections {
  import opened Options
  import opened Statuses
  import opened Items

  /** `isMutualExclusion` marks the section as a member of an exclusivity
      run; runs are found by adjacency in the owning checklist. */
  datatype Section = Section(
    id: Uuid,
    name: string,
    items: seq<Item>,
    isMutualExclusion: bool)

  /** Number of checked items (`items.filter { $0.isChecked }.count`). */
  function CheckedCount(items: seq<Item>): (n: nat)
    ensures n <= |items|
  {
    if |items| == 0 then 0
    else (if IsChecked(items[0]) then 1 else 0) + CheckedCount(items[1..])
  }

  predicate AllChecked(items: seq<Item>) {
    forall i :: 0 <= i < |items| ==> IsChecked(items[i])
  }

  predicate NoneChecked(items: seq<Item>) {
    forall i :: 0 <= i < |items| ==> !IsChecked(items[i])
  }

  lemma {:induction false} CheckedCountFull(items: seq<Item>)
    ensures CheckedCount(items) == |items| <==> AllChecked(items)
  {
    if |items| > 0 {
      CheckedCountFull(items[1..]);
      if AllChecked(items) {
        assert AllChecked(items[1..]) by {
          forall i | 0 <= i < |items[1..]| ensures IsChecked(items[1..][i]) {
            assert items[1..][i] == items[i + 1];
          }
        }
      }
      if CheckedCount(items) == |items| {
        forall i | 0 <= i < |items| ensures IsChecked(items[i]) {
          if i > 0 { assert items[i] == items[1..][i - 1]; }
        }
      }
    }
  }

  lemma {:induction false} CheckedCountZero(items: seq<Item>)
    ensures CheckedCount(items) == 0 <==> NoneChecked(items)
  {
    if |items| > 0 {
      CheckedCountZero(items[1..]);
      if NoneChecked(items) {
        assert NoneChecked(items[1..]) by {
          forall i | 0 <= i < |items[1..]| ensures !IsChecked(items[1..][i]) {
            assert items[1..][i] == items[i + 1];
          }
        }
      }
      if CheckedCount(items) == 0 {
        forall i | 0 <= i < |items| ensures !IsChecked(items[i]) {
          if i > 0 { assert items[i] == items[1..][i - 1]; }
        }
      }
    }
  }

  /** The `status` getter: all checked (including no items at all) reads
      `Checked`, some checked reads `PartiallyChecked`, otherwise `Unchecked`. */
  function SectionStatus(s: Section): Status {
    var n := CheckedCount(s.items);
    if n == |s.items| then Checked
    else if n > 0 then PartiallyChecked
    else Unchecked
  }

  /** The three readings in terms of the items alone. */
  lemma SectionStatusMeaning(s: Section)
    ensures SectionStatus(s) == Checked <==> AllChecked(s.items)
    ensures SectionStatus(s) == PartiallyChecked <==> !AllChecked(s.items) && !NoneChecked(s.items)
    ensures SectionStatus(s) == Unchecked <==> |s.items| > 0 && NoneChecked(s.items)
    ensures |s.items| == 0 ==> SectionStatus(s) == Checked
  {
    CheckedCountFull(s.items);
    CheckedCountZero(s.items);
  }

  /** What the status setter keeps: the section's own fields, the item
      count and order, and every item's id, title and detail. */
  predicate SameShape(a: Section, b: Section) {
    && a.id == b.id && a.name == b.name
    && a.isMutualExclusion == b.isMutualExclusion
    && |a.items| == |b.items|
    && forall i :: 0 <= i < |a.items| ==> SameIdentity(a.items[i], b.items[i])
  }

  /** `status = .checked`: every item is stamped with the clock. */
  function CheckAll(s: Section, now: Timestamp): (r: Section)
    ensures SameShape(s, r)
    ensures forall i :: 0 <= i < |r.items| ==>
      r.items[i] == s.items[i].(currentDate := now + 1, lastChecked := Some(now))
  {
    s.(items := seq(|s.items|, i requires 0 <= i < |s.items| => Check(s.items[i], now)))
  }

  /** `status = .unchecked`: every item loses its check time and nothing else. */
  function UncheckAll(s: Section): (r: Section)
    ensures SameShape(s, r)
    ensures forall i :: 0 <= i < |r.items| ==> r.items[i] == s.items[i].(lastChecked := None)
  {
    s.(items := seq(|s.items|, i requires 0 <= i < |s.items| => Uncheck(s.items[i])))
  }

  /** The `status` setter; assigning `PartiallyChecked` changes nothing. */
  function SetStatus(s: Section, st: Status, now: Timestamp): (r: Section)
    ensures SameShape(s, r)
    ensures st == PartiallyChecked ==> r == s
    ensures st == Checked ==> forall i :: 0 <= i < |r.items| ==> r.items[i].lastChecked == Some(now)
    ensures st == Unchecked ==> forall i :: 0 <= i < |r.items| ==> r.items[i].lastChecked == None
  {
    match st
    case Checked => CheckAll(s, now)
    case PartiallyChecked => s
    case Unchecked => UncheckAll(s)
  }

  /** After `status = .checked` the section reads `Checked`. */
  lemma CheckAllReadsChecked(s: Section, now: Timestamp)
    ensures SectionStatus(SetStatus(s, Checked, now)) == Checked
  {
    var r := SetStatus(s, Checked, now);
    assert AllChecked(r.items);
    CheckedCountFull(r.items);
  }

  /** After `status = .unchecked` the section reads `Unchecked`, unless it
      has no items, in which case it still reads `Checked`. */
  lemma UncheckAllReadsUnchecked(s: Section)
    ensures SectionStatus(UncheckAll(s)) == (if |s.items| == 0 then Checked else Unchecked)
  {
    var r := UncheckAll(s);
    assert NoneChecked(r.items);
    CheckedCountZero(r.items);
  }

  /** Assigning `.unchecked` twice is the same as assigning it once. */
  lemma UncheckAllIdempotent(s: Section)
    ensures UncheckAll(UncheckAll(s)) == UncheckAll(s)
  {
  }

  /** `init(name:items:)`; `isMutualExclusion` starts false. */
  function NewSection(id: Uuid, name: string, items: seq<Item>): (r: Section)
    ensures r.id == id && r.name == name && r.items == items
    ensures !r.isMutualExclusion
  {
    Section(id, name, items, false)
  }
}
