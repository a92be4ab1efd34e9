/** Concrete checklists: the library's own `example` value
    (Sources/AChecklist/Models/AChecklist.swift:207-288) and small layouts
    that pin down the grouping, completion and selection rules. */
module Examples {
  import opened Options
  import opened Statuses
  import opened Items
  import opened Sections
  import opened Grouping
  import opened Checklists
  import opened MutualExclusion

  /** A plain item, unchecked, created at `now`. */
  function Plain(id: Uuid, title: string, detail: string, now: Timestamp): Item {
    NewItem(id, title, detail, None, now)
  }

  function Exclusive(s: Section): Section {
    s.(isMutualExclusion := true)
  }

  /** The example checklist, with the Chinese titles glossed in English and
      ids numbered by position; item 1 of section 2 was checked ten hours
      before `now`. */
  function Example(id: Uuid, now: Timestamp): Checklist {
    Checklist(id, "Comprehensive checklist example", [
      NewSection(1, "Preparation", [
        Plain(11, "Check device battery", "Make sure all devices are charged", now),
        Plain(12, "Prepare the toolkit", "Screwdrivers, multimeter and basic tools", now),
        Plain(13, "Read the manual", "Get familiar with the operating procedure", now)]),
      NewSection(2, "System check", [
        NewItem(21, "Boot the operating system", "Confirm the system runs", Some(now - 36000), now),
        Plain(22, "Check the network", "Make sure the network is stable", now),
        Plain(23, "Verify account permissions", "Confirm the required permissions", now)]),
      NewSection(3, "Data backup", [
        Plain(31, "Back up key data", "Make sure all important data is backed up", now),
        Plain(32, "Verify backup integrity", "Check that backups restore", now),
        Plain(33, "Record backup time", "Update the backup log", now)]),
      Exclusive(NewSection(4, "Wired connection", [
        Plain(41, "Connect the USB cable", "Use a USB 3.0 cable", now),
        Plain(42, "Install drivers", "Make sure drivers are installed", now),
        Plain(43, "Test data transfer", "Verify the connection is stable", now)])),
      Exclusive(NewSection(5, "Wireless connection", [
        Plain(51, "Enable Wi-Fi", "Join the given network", now),
        Plain(52, "Configure IP address", "Static or DHCP", now),
        Plain(53, "Test connection speed", "Make sure performance is sufficient", now)])),
      Exclusive(NewSection(6, "Bluetooth connection", [
        Plain(61, "Enable Bluetooth", "Make the device visible", now),
        Plain(62, "Pair the device", "Complete pairing", now),
        Plain(63, "Verify link quality", "Check signal strength and stability", now)])),
      NewSection(7, "Configuration", [
        Plain(71, "Set basic parameters", "Adjust system parameters", now),
        Plain(72, "Configure user preferences", "Display, language and so on", now),
        Plain(73, "Save the configuration", "Export the current configuration", now)]),
      NewSection(8, "Final test", [
        Plain(81, "Run functional tests", "Verify all functions work", now),
        Plain(82, "Check the error log", "Confirm there are no errors", now),
        Plain(83, "Write the acceptance report", "Record the results", now)])
    ])
  }

  /** Any eight sections flagged like the example's group as
      [1], [2], [3], [4, 5, 6], [7], [8]. */
  lemma LayoutGroups(secs: seq<Section>)
    requires |secs| == 8
    requires forall k :: 0 <= k < 8 ==> (secs[k].isMutualExclusion <==> 3 <= k < 6)
    ensures Groups(secs) == [[secs[0]], [secs[1]], [secs[2]], secs[3..6], [secs[6]], [secs[7]]]
  {
    GroupsIsGroupsByRun(secs);
    assert secs[3..][1..] == secs[4..] && secs[4..][1..] == secs[5..] && secs[5..][1..] == secs[6..];
    assert RunLength(secs[6..]) == 0;
    assert RunLength(secs[5..]) == 1;
    assert RunLength(secs[4..]) == 2;
    assert RunLength(secs[3..]) == 3;
    assert secs[3..][..3] == secs[3..6] && secs[3..][3..] == secs[6..];
    assert secs[1..][1..] == secs[2..] && secs[2..][1..] == secs[3..] && secs[6..][1..] == secs[7..];
    assert GroupsByRun(secs[7..]) == [[secs[7]]];
    assert GroupsByRun(secs[6..]) == [[secs[6]], [secs[7]]];
    assert GroupsByRun(secs[3..]) == [secs[3..6], [secs[6]], [secs[7]]];
    assert GroupsByRun(secs[2..]) == [[secs[2]], secs[3..6], [secs[6]], [secs[7]]];
  }

  /** The example's sections group as [1], [2], [3], [4, 5, 6], [7], [8]. */
  lemma ExampleGroups(id: Uuid, now: Timestamp)
    ensures var gs := Groups(Example(id, now).sections);
      && |gs| == 6
      && |gs[0]| == |gs[1]| == |gs[2]| == |gs[4]| == |gs[5]| == 1
      && |gs[3]| == 3 && IsRun(gs[3])
      && gs[3][0].id == 4 && gs[3][2].id == 6
  {
    LayoutGroups(Example(id, now).sections);
  }

  /** Section 1 is untouched and section 2 has one of three items checked,
      so the example reads `PartiallyChecked`. */
  lemma ExampleStatus(id: Uuid, now: Timestamp)
    ensures ChecklistStatus(Example(id, now)) == PartiallyChecked
  {
    var secs := Example(id, now).sections;
    SectionStatusMeaning(secs[0]);
    SectionStatusMeaning(secs[1]);
    assert IsChecked(secs[1].items[0]) && !IsChecked(secs[1].items[1]);
    assert SectionStatus(secs[0]) == Unchecked;
    assert SectionStatus(secs[1]) == PartiallyChecked;
    ChecklistStatusMeaning(Example(id, now));
    assert SectionStarted(secs[1]);
  }

  /** A one-item section, checked at time 0 or not. */
  function Single(id: Uuid, checked: bool, exclusive: bool): Section {
    Section(id, "", [Item(id * 10, "", "", 0, if checked then Some(0) else None)], exclusive)
  }

  /** [A, B*, C*, D*, E] with A, C and E checked: the run [B, C, D] has
      exactly one checked member, so the checklist reads `Checked`. */
  lemma OneCheckedInRunCompletes()
    ensures ChecklistStatus(Checklist(0, "", [
      Single(1, true, false), Single(2, false, true), Single(3, true, true),
      Single(4, false, true), Single(5, true, false)])) == Checked
  {
    var secs := [Single(1, true, false), Single(2, false, true), Single(3, true, true),
                 Single(4, false, true), Single(5, true, false)];
    GroupsIsGroupsByRun(secs);
    assert secs[1..][1..] == secs[2..] && secs[2..][1..] == secs[3..] && secs[3..][1..] == secs[4..];
    assert RunLength(secs[4..]) == 0;
    assert RunLength(secs[3..]) == 1;
    assert RunLength(secs[2..]) == 2;
    assert RunLength(secs[1..]) == 3;
    assert secs[1..][..3] == secs[1..4] && secs[1..][3..] == secs[4..];
    assert GroupsByRun(secs[4..]) == [[secs[4]]];
    assert GroupsByRun(secs[1..]) == [secs[1..4], [secs[4]]];
    assert GroupsByRun(secs) == [[secs[0]], secs[1..4], [secs[4]]];
    assert CountChecked(secs[1..4]) == 1;
  }

  /** The same layout with B and C both checked reads `PartiallyChecked`. */
  lemma TwoCheckedInRunIsPartial()
    ensures ChecklistStatus(Checklist(0, "", [
      Single(1, true, false), Single(2, true, true), Single(3, true, true),
      Single(4, false, true), Single(5, true, false)])) == PartiallyChecked
  {
    var secs := [Single(1, true, false), Single(2, true, true), Single(3, true, true),
                 Single(4, false, true), Single(5, true, false)];
    GroupsIsGroupsByRun(secs);
    assert secs[1..][1..] == secs[2..] && secs[2..][1..] == secs[3..] && secs[3..][1..] == secs[4..];
    assert RunLength(secs[4..]) == 0;
    assert RunLength(secs[3..]) == 1;
    assert RunLength(secs[2..]) == 2;
    assert RunLength(secs[1..]) == 3;
    assert secs[1..][..3] == secs[1..4] && secs[1..][3..] == secs[4..];
    assert GroupsByRun(secs[4..]) == [[secs[4]]];
    assert GroupsByRun(secs[1..]) == [secs[1..4], [secs[4]]];
    assert GroupsByRun(secs) == [[secs[0]], secs[1..4], [secs[4]]];
    assert CountChecked(secs[1..4]) == 2;
  }

  /** Selecting the first of three checked exclusive sections resets the
      other two and leaves the selected one and the trailing section alone. */
  lemma SelectionResetsSiblings()
    ensures var c := Checklist(0, "", [
        Single(1, true, true), Single(2, true, true), Single(3, true, true), Single(4, true, false)]);
      var r := HandleMutualExclusionSelection(c, c.sections[0]);
      && r.sections[0] == c.sections[0]
      && SectionStatus(r.sections[1]) == Unchecked
      && SectionStatus(r.sections[2]) == Unchecked
      && r.sections[3] == c.sections[3]
  {
    var c := Checklist(0, "", [
        Single(1, true, true), Single(2, true, true), Single(3, true, true), Single(4, true, false)]);
    assert FirstRunStart(c.sections) == 0;
    assert RunLength(c.sections[0..]) == 3;
    assert FirstRunEnd(c.sections) == 3;
    var r := HandleMutualExclusionSelection(c, c.sections[0]);
    UncheckAllReadsUnchecked(c.sections[1]);
    UncheckAllReadsUnchecked(c.sections[2]);
  }

  /** Two separate runs, [E1] and [E2], split by a non-exclusive section N,
      with E1 and E2 both checked; E2 is selected. */
  function TwoRuns(): Checklist {
    Checklist(0, "", [Single(1, true, true), Single(2, false, false), Single(3, true, true)])
  }

  /** As written, selecting E2 resets E1, a section of another run, and
      querying E2 reports an active sibling it does not have. */
  lemma AsWrittenActsOnFirstRun()
    ensures var c := TwoRuns();
      && SectionStatus(c.sections[0]) == Checked
      && SectionStatus(HandleMutualExclusionSelection(c, c.sections[2]).sections[0]) == Unchecked
      && CheckMutualExclusion(c, c.sections[2]) == (true, true)
  {
    var c := TwoRuns();
    assert FirstRunStart(c.sections) == 0;
    assert RunLength(c.sections[0..]) == 1;
    assert FirstRunEnd(c.sections) == 1;
    assert InFirstRun(c.sections, 0);
    UncheckAllReadsUnchecked(c.sections[0]);
  }

  /** Read as the doc comments intend, selecting E2 leaves the checklist
      unchanged and E2 has no active sibling. */
  lemma OwnRunLeavesOtherRunsAlone()
    ensures var c := TwoRuns();
      && HandleSelectionInOwnRun(c, c.sections[2]) == c
      && CheckInOwnRun(c, c.sections[2]) == (false, false)
  {
    var c := TwoRuns();
    var secs := c.sections;
    assert RunLength(secs) == 1;
    RunHasIdLeading(secs, 0, 3);
    assert !RunHasId(secs, 0, 3);
    var r := HandleSelectionInOwnRun(c, secs[2]);
    assert r.sections == secs;
    assert !OwnRunActive(secs, 3);
  }
}
