/** A checklist item: a leaf whose checked state is exactly the presence of
    its `lastChecked` timestamp (Sources/AChecklist/Models/AChecklistItem.swift). */
module Items {
  import opened Options

  type Uuid = int
  type Timestamp = int

  /** `currentDate` is a display-refresh stamp; it plays no part in the
      checked state but is kept so that the setters' side effects are visible. */
  datatype Item = Item(
    id: Uuid,
    title: string,
    detail: string,
    currentDate: Timestamp,
    lastChecked: Option<Timestamp>)

  /** The `isChecked` getter. */
  predicate IsChecked(item: Item) {
    item.lastChecked.Some?
  }

  /** The fields the setters must never touch. */
  predicate SameIdentity(a: Item, b: Item) {
    a.id == b.id && a.title == b.title && a.detail == b.detail
  }

  /** `isChecked = true`: stamps the refresh date one second ahead and the
      check time with the clock, even when the item was already checked. */
  function Check(item: Item, now: Timestamp): (r: Item)
    ensures IsChecked(r) && r.lastChecked == Some(now)
    ensures r.currentDate == now + 1
    ensures SameIdentity(item, r)
  {
    item.(currentDate := now + 1, lastChecked := Some(now))
  }

  /** `isChecked = false`: only the check time is cleared. */
  function Uncheck(item: Item): (r: Item)
    ensures !IsChecked(r)
    ensures r.currentDate == item.currentDate
    ensures SameIdentity(item, r)
  {
    item.(lastChecked := None)
  }

  /** The `isChecked` setter. */
  function SetChecked(item: Item, checked: bool, now: Timestamp): (r: Item)
    ensures IsChecked(r) == checked
    ensures checked ==> r.lastChecked == Some(now) && r.currentDate == now + 1
    ensures !checked ==> r.lastChecked == None && r.currentDate == item.currentDate
    ensures SameIdentity(item, r)
  {
    if checked then Check(item, now) else Uncheck(item)
  }

  /** `toggle()`: always refreshes `currentDate`; an unchecked item gets the
      clock as its check time, a checked one loses its check time. */
  function Toggle(item: Item, now: Timestamp): (r: Item)
    ensures IsChecked(r) == !IsChecked(item)
    ensures r.lastChecked == (if IsChecked(item) then None else Some(now))
    ensures r.currentDate == now + 1
    ensures SameIdentity(item, r)
  {
    var refreshed := item.(currentDate := now + 1);
    if item.lastChecked != None then refreshed.(lastChecked := None)
    else refreshed.(lastChecked := Some(now))
  }

  /** Toggling agrees with assigning the negated `isChecked`, except that
      toggling always refreshes `currentDate` and the setter's `false` path
      does not. */
  lemma ToggleIsNegatedSet(item: Item, now: Timestamp)
    ensures Toggle(item, now).lastChecked == SetChecked(item, !IsChecked(item), now).lastChecked
    ensures !IsChecked(item) ==> Toggle(item, now) == SetChecked(item, true, now)
    ensures IsChecked(item) ==> Toggle(item, now) == SetChecked(item, false, now).(currentDate := now + 1)
  {
  }

  /** Two toggles restore the checked state; an item that started checked
      comes back with the second clock reading, not its original stamp. */
  lemma ToggleTwice(item: Item, t1: Timestamp, t2: Timestamp)
    ensures IsChecked(Toggle(Toggle(item, t1), t2)) == IsChecked(item)
    ensures IsChecked(item) ==> Toggle(Toggle(item, t1), t2).lastChecked == Some(t2)
    ensures !IsChecked(item) ==> Toggle(Toggle(item, t1), t2).lastChecked == None
    ensures SameIdentity(item, Toggle(Toggle(item, t1), t2))
  {
  }

  /** `init(title:detail:lastChecked:)`; the id and the creation clock are
      parameters because `UUID()` and `Date()` are outside the model. */
  function NewItem(id: Uuid, title: string, detail: string, lastChecked: Option<Timestamp>, now: Timestamp): (r: Item)
    ensures r.id == id && r.title == title && r.detail == detail
    ensures IsChecked(r) <==> lastChecked.Some?
    ensures r.lastChecked == lastChecked && r.currentDate == now
  {
    Item(id, title, detail, now, lastChecked)
  }

  /** `init(title:)` with the default arguments: empty detail, unchecked. */
  function NewPlainItem(id: Uuid, title: string, now: Timestamp): (r: Item)
    ensures r.title == title && r.detail == ""
    ensures !IsChecked(r)
  {
    NewItem(id, title, "", None, now)
  }

  /* ---------- detailIsEmpty ---------- */

  /** True when every character of `s` is whitespace; the whitespace set
      (Foundation's `.whitespacesAndNewlines`) is the parameter `isSpace`. */
  predicate AllSpace(s: string, isSpace: char -> bool) {
    forall i :: 0 <= i < |s| ==> isSpace(s[i])
  }

  /** Drops leading whitespace. */
  function TrimStart(s: string, isSpace: char -> bool): (r: string)
    ensures |r| <= |s| && r == s[|s| - |r|..]
    ensures AllSpace(s[..|s| - |r|], isSpace)
    ensures |r| > 0 ==> !isSpace(r[0])
    decreases |s|
  {
    if |s| > 0 && isSpace(s[0]) then TrimStart(s[1..], isSpace) else s
  }

  /** Drops trailing whitespace. */
  function TrimEnd(s: string, isSpace: char -> bool): (r: string)
    ensures |r| <= |s| && r == s[..|r|]
    ensures AllSpace(s[|r|..], isSpace)
    ensures |r| > 0 ==> !isSpace(r[|r| - 1])
    decreases |s|
  {
    if |s| > 0 && isSpace(s[|s| - 1]) then TrimEnd(s[..|s| - 1], isSpace) else s
  }

  /** `trimmingCharacters(in:)`: a middle slice of `s` with whitespace
      removed from both ends. */
  function Trim(s: string, isSpace: char -> bool): (r: string)
    ensures exists a, b ::
              && 0 <= a <= b <= |s| && r == s[a..b]
              && AllSpace(s[..a], isSpace) && AllSpace(s[b..], isSpace)
    ensures |r| > 0 ==> !isSpace(r[0]) && !isSpace(r[|r| - 1])
  {
    var t := TrimStart(s, isSpace);
    var r := TrimEnd(t, isSpace);
    TrimSlice(s, t, r, isSpace);
    r
  }

  lemma TrimSlice(s: string, t: string, r: string, isSpace: char -> bool)
    requires |t| <= |s| && t == s[|s| - |t|..] && AllSpace(s[..|s| - |t|], isSpace)
    requires |r| <= |t| && r == t[..|r|] && AllSpace(t[|r|..], isSpace)
    ensures exists a, b ::
              && 0 <= a <= b <= |s| && r == s[a..b]
              && AllSpace(s[..a], isSpace) && AllSpace(s[b..], isSpace)
  {
    var a := |s| - |t|;
    var b := a + |r|;
    assert r == s[a..b];
    assert s[b..] == t[|r|..];
  }

  /** The `detailIsEmpty` getter. */
  predicate DetailIsEmpty(item: Item, isSpace: char -> bool) {
    Trim(item.detail, isSpace) == []
  }

  /** An item's detail reads as empty exactly when it is all whitespace;
      in particular an empty detail reads as empty. */
  lemma DetailIsEmptyIffAllSpace(item: Item, isSpace: char -> bool)
    ensures DetailIsEmpty(item, isSpace) <==> AllSpace(item.detail, isSpace)
    ensures item.detail == "" ==> DetailIsEmpty(item, isSpace)
  {
    var s := item.detail;
    var r := Trim(s, isSpace);
    var a, b :| 0 <= a <= b <= |s| && r == s[a..b]
      && AllSpace(s[..a], isSpace) && AllSpace(s[b..], isSpace);
    if r == [] {
      assert a == b;
      forall i | 0 <= i < |s| ensures isSpace(s[i]) {
        if i < a { assert s[..a][i] == s[i]; } else { assert s[b..][i - b] == s[i]; }
      }
    }
  }
}
