/**
 * The plugin's module-level state and the operations that change it: which week cells of the
 * sidebar calendar carry the `value` (selected) class, the week remembered for each calendar
 * page, the week cells that carry a journal dot, and the last focused block, page and
 * visibility it saw. Everything the plugin reads from its host (the focused block, the block
 * store, the calendar header, the backend's alias lookup, the calendar's visibility) is a
 * parameter.
 */
module Plugin {
  import opened Optional
  import opened Text
  import opened WeekAlias
  import opened PanelTree

  /** A week cell of the calendar: its text, whether it is selected, whether it has a journal dot. */
  datatype Cell = Cell(text: string, selected: bool, hasDot: bool)

  /** The week number a cell shows: its text, trimmed. */
  function WeekOf(c: Cell): string {
    Trim(c.text)
  }

  /** Two cell lists that differ at most in which cells are selected. */
  predicate SameFaces(a: seq<Cell>, b: seq<Cell>) {
    |a| == |b| && forall i :: 0 <= i < |a| ==> a[i].text == b[i].text && a[i].hasDot == b[i].hasDot
  }

  // ---------------------------------------------------------------------------------------
  // Selection of week cells

  /** Every selection removed; texts and dots untouched. */
  function Cleared(cs: seq<Cell>): (r: seq<Cell>)
    ensures SameFaces(cs, r)
    ensures forall i :: 0 <= i < |r| ==> !r[i].selected
  {
    seq(|cs|, i requires 0 <= i < |cs| => cs[i].(selected := false))
  }

  /** After a click on cell `i`: that cell is the only selected one; texts and dots untouched. */
  function SelectOnly(cs: seq<Cell>, i: nat): (r: seq<Cell>)
    requires i < |cs|
    ensures SameFaces(cs, r)
    ensures forall k :: 0 <= k < |r| ==> (r[k].selected <==> k == i)
  {
    Cleared(cs)[i := cs[i].(selected := true)]
  }

  /** The cells showing `week` become selected in addition to those already selected. */
  function Highlighted(cs: seq<Cell>, week: string): (r: seq<Cell>)
    ensures SameFaces(cs, r)
    ensures forall k :: 0 <= k < |r| ==> (r[k].selected <==> cs[k].selected || WeekOf(cs[k]) == week)
  {
    seq(|cs|, k requires 0 <= k < |cs| => cs[k].(selected := cs[k].selected || WeekOf(cs[k]) == week))
  }

  // ---------------------------------------------------------------------------------------
  // Week remembered per calendar page

  /** The key of a calendar page: `${year}-${month}`. */
  function PageKey(year: string, month: string): string {
    year + "-" + month
  }

  /** Pages whose years contain no `-` have different keys unless they are the same page. */
  lemma {:induction false} PageKeyInjective(y1: string, m1: string, y2: string, m2: string)
    requires '-' !in y1 && '-' !in y2
    requires PageKey(y1, m1) == PageKey(y2, m2)
    ensures y1 == y2 && m1 == m2
  {
    var k := PageKey(y1, m1);
    assert k[|y1|] == '-';
    assert PageKey(y2, m2)[|y2|] == '-';
    if |y1| < |y2| {
      assert false;
    } else if |y2| < |y1| {
      assert false;
    }
    assert y1 == k[..|y1|] == y2;
    assert m1 == k[|y1| + 1..] == m2;
  }

  /**
   * Remembering week `w` for one page leaves what is remembered for every other page as it
   * was (for years without `-`, as the calendar header's digit years are).
   */
  lemma SaveKeepsOtherPages(sel: map<string, string>, y: string, m: string, w: string, y2: string, m2: string)
    requires '-' !in y && '-' !in y2 && (y, m) != (y2, m2)
    ensures var saved := sel[PageKey(y, m) := w];
      && (PageKey(y2, m2) in saved <==> PageKey(y2, m2) in sel)
      && (PageKey(y2, m2) in sel ==> saved[PageKey(y2, m2)] == sel[PageKey(y2, m2)])
  {
    if PageKey(y, m) == PageKey(y2, m2) {
      PageKeyInjective(y, m, y2, m2);
    }
  }

  /**
   * A click on week cell `i` of the page `year`/`month`, as a value: the new state and the
   * alias of the week page to open or create. The clicked cell becomes the only selected
   * cell even when its text is blank; a blank cell stops there. Otherwise its week is
   * remembered for the page, and the alias returned is one the weekly-note pattern
   * recognises as that week of that year whenever the week, year and month are well formed.
   */
  function WeekClick(st: State, i: nat, year: string, month: string): (r: (State, Option<string>))
    requires i < |st.cells|
    ensures SameFaces(st.cells, r.0.cells)
    ensures forall k :: 0 <= k < |r.0.cells| ==> (r.0.cells[k].selected <==> k == i)
    ensures var week := WeekOf(st.cells[i]);
      if week == [] then r.0.selections == st.selections && r.1 == None
      else
        && r.0.selections == st.selections[PageKey(year, month) := week]
        && r.1 == Some(Format(AliasParts(week, year, month)))
    ensures r.0 == st.(cells := r.0.cells, selections := r.0.selections)
    ensures r.1.Some? && WellFormed(AliasParts(WeekOf(st.cells[i]), year, month)) ==>
      MatchAlias(r.1.value) == Some(AliasParts(WeekOf(st.cells[i]), year, month))
  {
    var week := WeekOf(st.cells[i]);
    var cells := SelectOnly(st.cells, i);
    if week == [] then (st.(cells := cells), None)
    else
      var p := AliasParts(week, year, month);
      assert WellFormed(p) ==> MatchAlias(Format(p)) == Some(p) by {
        if WellFormed(p) {
          MatchFormat(p);
        }
      }
      (st.(cells := cells, selections := st.selections[PageKey(year, month) := week]), Some(Format(p)))
  }

  // ---------------------------------------------------------------------------------------
  // Journal dots

  /** The backend's `get-block-by-alias` answer names a block with a (non-zero) id. */
  predicate HasJournal(backend: map<string, nat>, alias: string) {
    alias in backend && backend[alias] != 0
  }

  /** A cell deserves a dot: it shows a week, and that week's note exists for this page. */
  predicate JournalFor(c: Cell, year: string, month: string, backend: map<string, nat>) {
    WeekOf(c) != [] && HasJournal(backend, Format(AliasParts(WeekOf(c), year, month)))
  }

  /** Dots exactly on the cells whose week note exists; texts and selection untouched. */
  function Dotted(cs: seq<Cell>, year: string, month: string, backend: map<string, nat>): (r: seq<Cell>)
    ensures |r| == |cs|
    ensures forall i :: 0 <= i < |r| ==> r[i].text == cs[i].text && r[i].selected == cs[i].selected
    ensures forall i :: 0 <= i < |r| ==> (r[i].hasDot <==> JournalFor(cs[i], year, month, backend))
  {
    seq(|cs|, i requires 0 <= i < |cs| => cs[i].(hasDot := JournalFor(cs[i], year, month, backend)))
  }

  /** The weeks among the first `n` cells whose note exists. */
  function JournalWeeksUpTo(cs: seq<Cell>, n: nat, year: string, month: string, backend: map<string, nat>): set<string>
    requires n <= |cs|
  {
    set k | 0 <= k < n && JournalFor(cs[k], year, month, backend) :: WeekOf(cs[k])
  }

  /** The weeks of the cells that carry a dot. */
  function DottedWeeks(cs: seq<Cell>): set<string> {
    set k | 0 <= k < |cs| && cs[k].hasDot :: WeekOf(cs[k])
  }

  /** The tracked set names exactly the weeks of the dotted cells, and no dotted cell is blank. */
  predicate DotsAgree(cs: seq<Cell>, weeks: set<string>) {
    && weeks == DottedWeeks(cs)
    && forall k :: 0 <= k < |cs| && cs[k].hasDot ==> WeekOf(cs[k]) != []
  }

  lemma JournalWeeksStep(cs: seq<Cell>, n: nat, year: string, month: string, backend: map<string, nat>)
    requires n < |cs|
    ensures JournalWeeksUpTo(cs, n + 1, year, month, backend)
      == JournalWeeksUpTo(cs, n, year, month, backend)
         + (if JournalFor(cs[n], year, month, backend) then {WeekOf(cs[n])} else {})
  {
  }

  /** Which cells deserve a dot depends on their texts only, not on the dots they had. */
  lemma {:induction false} DottedIgnoresOldDots(a: seq<Cell>, b: seq<Cell>, year: string, month: string, backend: map<string, nat>)
    requires |a| == |b| && forall k :: 0 <= k < |a| ==> a[k].text == b[k].text && a[k].selected == b[k].selected
    ensures Dotted(a, year, month, backend) == Dotted(b, year, month, backend)
    ensures JournalWeeksUpTo(a, |a|, year, month, backend) == JournalWeeksUpTo(b, |b|, year, month, backend)
  {
    assert forall k :: 0 <= k < |a| ==> WeekOf(a[k]) == WeekOf(b[k]);
    assert forall k :: 0 <= k < |a| ==> Dotted(a, year, month, backend)[k] == Dotted(b, year, month, backend)[k];
  }

  /** Dotting the cells keeps the tracked set in agreement with the dots. */
  lemma {:induction false} DottedAgrees(cs: seq<Cell>, year: string, month: string, backend: map<string, nat>)
    ensures DotsAgree(Dotted(cs, year, month, backend), JournalWeeksUpTo(cs, |cs|, year, month, backend))
  {
    var r := Dotted(cs, year, month, backend);
    forall w ensures w in DottedWeeks(r) <==> w in JournalWeeksUpTo(cs, |cs|, year, month, backend) {
      if w in DottedWeeks(r) {
        var k :| 0 <= k < |r| && r[k].hasDot && WeekOf(r[k]) == w;
        assert WeekOf(cs[k]) == w;
      }
      if w in JournalWeeksUpTo(cs, |cs|, year, month, backend) {
        var k :| 0 <= k < |cs| && JournalFor(cs[k], year, month, backend) && WeekOf(cs[k]) == w;
        assert WeekOf(r[k]) == w;
      }
    }
  }

  /** Changing only which cells are selected keeps the tracked set in agreement with the dots. */
  lemma {:induction false} DotsAgreeSameFaces(a: seq<Cell>, b: seq<Cell>, weeks: set<string>)
    requires SameFaces(a, b) && DotsAgree(a, weeks)
    ensures DotsAgree(b, weeks)
  {
    forall w ensures w in DottedWeeks(a) <==> w in DottedWeeks(b) {
      if w in DottedWeeks(a) {
        var k :| 0 <= k < |a| && a[k].hasDot && WeekOf(a[k]) == w;
        assert WeekOf(b[k]) == w;
      }
      if w in DottedWeeks(b) {
        var k :| 0 <= k < |b| && b[k].hasDot && WeekOf(b[k]) == w;
        assert WeekOf(a[k]) == w;
      }
    }
    assert forall k :: 0 <= k < |b| ==> WeekOf(b[k]) == WeekOf(a[k]);
  }

  // ---------------------------------------------------------------------------------------
  // The whole state, as a value

  /**
   * The module-level fields: the week cells, `weekSelections`, `isCalendarVisible`,
   * `lastFocusedBlockId`, `weeksWithJournalDots`, `lastCheckedYear`, `lastCheckedMonth`.
   */
  datatype State = State(
    cells: seq<Cell>,
    selections: map<string, string>,
    visible: bool,
    lastFocused: Option<string>,
    journalWeeks: set<string>,
    lastYear: string,
    lastMonth: string)

  /** The week to highlight for the focused block: its note's week, when its year is the header's. */
  function FocusTarget(focused: Option<string>, blocks: map<string, Block>, year: string): Option<string> {
    if focused.None? || focused.value == [] then None
    else match IsWeeklyNoteBlock(focused.value, blocks)
      case None => None
      case Some(ref) => if ref.year == year then Some(ref.week) else None
  }

  /**
   * The cells after a change of focus: exactly the cells showing the focused note's week are
   * selected, and only when that note's year is the header's year (the month is not compared).
   */
  function FocusHighlight(cs: seq<Cell>, focused: Option<string>, blocks: map<string, Block>, year: string): (r: seq<Cell>)
    ensures SameFaces(cs, r)
    ensures forall k :: 0 <= k < |r| ==>
      (r[k].selected <==> FocusTarget(focused, blocks, year) == Some(WeekOf(cs[k])))
  {
    match FocusTarget(focused, blocks, year)
    case None => Cleared(cs)
    case Some(w) => Highlighted(Cleared(cs), w)
  }

  /** One run of `updateWeekSelectionBasedOnFocusedBlock`. */
  function FocusUpdate(st: State, focused: Option<string>, blocks: map<string, Block>, year: string): State {
    if focused == st.lastFocused then st
    else st.(lastFocused := focused, cells := FocusHighlight(st.cells, focused, blocks, year))
  }

  /** One run of `updateJournalDots`. */
  function DotsUpdate(st: State, container: bool, year: string, month: string, backend: map<string, nat>): State {
    if !container || (year == st.lastYear && month == st.lastMonth) then st
    else st.(lastYear := year, lastMonth := month,
             cells := Dotted(st.cells, year, month, backend),
             journalWeeks := JournalWeeksUpTo(st.cells, |st.cells|, year, month, backend))
  }

  /**
   * One run of `checkCalendarVisibility`, statement by statement. Its contract says what it
   * comes to: the visibility flag ends equal to the current visibility and the remembered
   * weeks are never touched; a hidden calendar loses its selection and nothing else; a
   * visible calendar gets ONE focus update and ONE dots update (the repeated calls after a
   * show find nothing changed).
   */
  function VisibilityStep(st: State, container: bool, now: bool, focused: Option<string>,
                          blocks: map<string, Block>, year: string, month: string,
                          backend: map<string, nat>): (r: State)
    ensures r.visible == now && r.selections == st.selections
    ensures !now ==> r == (if st.visible then st.(cells := Cleared(st.cells)) else st).(visible := false)
    ensures now ==> r == DotsUpdate(FocusUpdate(st, focused, blocks, year), container, year, month, backend).(visible := true)
  {
    var s1 := if st.visible && !now then st.(cells := Cleared(st.cells)) else st;
    var s2 := if !st.visible && now
      then DotsUpdate(FocusUpdate(s1, focused, blocks, year), container, year, month, backend)
      else s1;
    var s3 := if now
      then DotsUpdate(FocusUpdate(s2, focused, blocks, year), container, year, month, backend)
      else s2;
    s3.(visible := now)
  }

  /**
   * The change detection of the poll: a second run of `checkCalendarVisibility` with the
   * same visibility, focused block, store, header and backend changes nothing, because the
   * focus update and the dots update each find what they last saw.
   */
  lemma VisibilityStepSettles(st: State, container: bool, now: bool, focused: Option<string>,
                              blocks: map<string, Block>, year: string, month: string,
                              backend: map<string, nat>)
    ensures var once := VisibilityStep(st, container, now, focused, blocks, year, month, backend);
      VisibilityStep(once, container, now, focused, blocks, year, month, backend) == once
  {
  }

  // ---------------------------------------------------------------------------------------
  // Hiding and showing the calendar with the same block focused

  /**
   * As written, hiding the calendar clears the selection but keeps `lastFocusedBlockId`, so
   * when it is shown again with the same block focused the focus update finds nothing
   * changed and the week stays unhighlighted, although a fresh focus would highlight it.
   */
  lemma {:induction false} HideThenShowLosesHighlight(
    st: State, container: bool, focused: Option<string>, blocks: map<string, Block>,
    year: string, month: string, backend: map<string, nat>, i: nat)
    requires st.visible && i < |st.cells| && focused != st.lastFocused
    requires FocusTarget(focused, blocks, year) == Some(WeekOf(st.cells[i]))
    ensures
      var shown := VisibilityStep(st, container, true, focused, blocks, year, month, backend);
      var hidden := VisibilityStep(shown, container, false, focused, blocks, year, month, backend);
      var back := VisibilityStep(hidden, container, true, focused, blocks, year, month, backend);
      && i < |back.cells|
      && shown.cells[i].selected
      && !back.cells[i].selected
      && FocusHighlight(back.cells, focused, blocks, year)[i].selected
  {
    var f1 := FocusUpdate(st, focused, blocks, year);
    assert f1.cells[i].selected && f1.lastFocused == focused;
    var shown := VisibilityStep(st, container, true, focused, blocks, year, month, backend);
    var d1 := DotsUpdate(f1, container, year, month, backend);
    assert shown == d1.(visible := true);
    assert shown.cells[i].selected && WeekOf(shown.cells[i]) == WeekOf(st.cells[i]);
    var hidden := VisibilityStep(shown, container, false, focused, blocks, year, month, backend);
    assert hidden == shown.(cells := Cleared(shown.cells), visible := false);
    assert WeekOf(hidden.cells[i]) == WeekOf(st.cells[i]);
    assert FocusUpdate(hidden, focused, blocks, year) == hidden;
    assert DotsUpdate(hidden, container, year, month, backend) == hidden;
  }

  /**
   * Such an input exists: block `7` is the note aliased `43周 · 2025年10月`, the calendar
   * shows October 2025 with a cell `43`, and nothing was focused before.
   */
  lemma {:induction false} HideThenShowExample()
    ensures
      var blocks := map["7" := Block([Format(AliasParts("43", "2025", "10"))])];
      FocusTarget(Some("7"), blocks, "2025") == Some(WeekOf(Cell("43", false, false)))
  {
    var week := AliasParts("43", "2025", "10");
    assert WellFormed(week);
    CreatedPageIsWeeklyNote("7", map["7" := Block([Format(week)])], week);
    DigitsAreTrimmed("43");
  }

  /**
   * `checkCalendarVisibility` as evidently intended: hiding the calendar also forgets the
   * last focused block, so that showing it again re-runs the focus update.
   */
  function VisibilityStepRestoring(st: State, container: bool, now: bool, focused: Option<string>,
                                   blocks: map<string, Block>, year: string, month: string,
                                   backend: map<string, nat>): (r: State)
    ensures r.visible == now && r.selections == st.selections
  {
    var s1 := if st.visible && !now then st.(cells := Cleared(st.cells), lastFocused := None) else st;
    var s2 := if !st.visible && now
      then DotsUpdate(FocusUpdate(s1, focused, blocks, year), container, year, month, backend)
      else s1;
    var s3 := if now
      then DotsUpdate(FocusUpdate(s2, focused, blocks, year), container, year, month, backend)
      else s2;
    s3.(visible := now)
  }

  /**
   * With the corrected step, hiding and then showing the calendar leaves exactly the
   * selection a fresh focus on the current block gives, whatever was focused before.
   */
  lemma {:induction false} HideThenShowRestoresHighlight(
    st: State, container: bool, hideFocus: Option<string>, focused: Option<string>,
    blocks: map<string, Block>, year: string, month: string, backend: map<string, nat>)
    requires st.visible
    ensures
      var hidden := VisibilityStepRestoring(st, container, false, hideFocus, blocks, year, month, backend);
      var back := VisibilityStepRestoring(hidden, container, true, focused, blocks, year, month, backend);
      var expected := FocusHighlight(st.cells, focused, blocks, year);
      |back.cells| == |expected| && forall k :: 0 <= k < |expected| ==> back.cells[k].selected == expected[k].selected
  {
    var hidden := VisibilityStepRestoring(st, container, false, hideFocus, blocks, year, month, backend);
    assert hidden.cells == Cleared(st.cells) && hidden.lastFocused == None;
    var f1 := FocusUpdate(hidden, focused, blocks, year);
    var d1 := DotsUpdate(f1, container, year, month, backend);
    var f2 := FocusUpdate(d1, focused, blocks, year);
    assert f1.lastFocused == focused && d1.lastFocused == focused && f2 == d1;
    var back := VisibilityStepRestoring(hidden, container, true, focused, blocks, year, month, backend);
    assert back.cells == DotsUpdate(d1, container, year, month, backend).cells;
    var expected := FocusHighlight(st.cells, focused, blocks, year);
    forall k | 0 <= k < |expected| ensures |back.cells| == |expected| && back.cells[k].selected == expected[k].selected {
      assert WeekOf(hidden.cells[k]) == WeekOf(st.cells[k]);
      if focused.None? {
        assert !expected[k].selected;
      }
    }
  }

  // ---------------------------------------------------------------------------------------
  // The plugin's state, updated in place

  class PluginState {
    /** Whether the calendar's `.days` container was found when the plugin loaded. */
    const hasContainer: bool
    /** The `.week` cells of the container, in document order. */
    var cells: seq<Cell>
    var weekSelections: map<string, string>
    var isCalendarVisible: bool
    var lastFocusedBlockId: Option<string>
    var weeksWithJournalDots: set<string>
    var lastCheckedYear: string
    var lastCheckedMonth: string

    /** Without a container there are no cells; the tracked dot set matches the dots shown. */
    ghost predicate Valid()
      reads this
    {
      && (!hasContainer ==> cells == [])
      && DotsAgree(cells, weeksWithJournalDots)
    }

    function Snapshot(): State
      reads this
    {
      State(cells, weekSelections, isCalendarVisible, lastFocusedBlockId,
            weeksWithJournalDots, lastCheckedYear, lastCheckedMonth)
    }

    /** The state at load: nothing selected, nothing remembered, no dots, calendar visible. */
    constructor (container: bool, labels: seq<string>)
      requires container || labels == []
      ensures Valid() && hasContainer == container
      ensures Snapshot() == State(seq(|labels|, i requires 0 <= i < |labels| => Cell(labels[i], false, false)),
                                  map[], true, None, {}, "", "")
    {
      hasContainer := container;
      cells := seq(|labels|, i requires 0 <= i < |labels| => Cell(labels[i], false, false));
      weekSelections := map[];
      isCalendarVisible := true;
      lastFocusedBlockId := None;
      weeksWithJournalDots := {};
      lastCheckedYear := "";
      lastCheckedMonth := "";
    }

    /** `clearWeekSelection`: removes the `value` class from every selected week cell. */
    method ClearWeekSelection()
      requires Valid()
      modifies this
      ensures Valid()
      ensures Snapshot() == old(Snapshot()).(cells := Cleared(old(cells)))
    {
      if hasContainer {
        ghost var cs0 := cells;
        var i := 0;
        while i < |cells|
          invariant 0 <= i <= |cells| == |cs0|
          invariant forall k :: 0 <= k < i ==> cells[k] == cs0[k].(selected := false)
          invariant forall k :: i <= k < |cells| ==> cells[k] == cs0[k]
          invariant Snapshot() == old(Snapshot()).(cells := cells)
        {
          if cells[i].selected {
            cells := cells[i := cells[i].(selected := false)];
          }
          i := i + 1;
        }
        assert cells == Cleared(cs0);
        DotsAgreeSameFaces(cs0, cells, weeksWithJournalDots);
      }
    }

    /** `saveWeekSelection`: remembers `week` for the page `year`-`month`. */
    method SaveWeekSelection(year: string, month: string, week: string)
      requires Valid()
      modifies this
      ensures Valid()
      ensures Snapshot() == old(Snapshot()).(selections := old(weekSelections)[PageKey(year, month) := week])
    {
      weekSelections := weekSelections[PageKey(year, month) := week];
    }

    /** Adds the `value` class to every cell whose trimmed text is `week`. */
    method SelectCellsOfWeek(week: string)
      requires Valid()
      modifies this
      ensures Valid()
      ensures Snapshot() == old(Snapshot()).(cells := Highlighted(old(cells), week))
    {
      ghost var cs0 := cells;
      var i := 0;
      while i < |cells|
        invariant 0 <= i <= |cells| == |cs0|
        invariant forall k :: 0 <= k < i ==> cells[k] == cs0[k].(selected := cs0[k].selected || WeekOf(cs0[k]) == week)
        invariant forall k :: i <= k < |cells| ==> cells[k] == cs0[k]
        invariant Snapshot() == old(Snapshot()).(cells := cells)
      {
        if WeekOf(cells[i]) == week {
          cells := cells[i := cells[i].(selected := true)];
        }
        i := i + 1;
      }
      assert cells == Highlighted(cs0, week);
      DotsAgreeSameFaces(cs0, cells, weeksWithJournalDots);
    }

    /**
     * `restoreWeekSelection`: when a non-empty week is remembered for the page, the cells
     * showing it are selected (nothing is unselected); otherwise nothing changes.
     */
    method RestoreWeekSelection(year: string, month: string)
      requires Valid()
      modifies this
      ensures Valid()
      ensures var key := PageKey(year, month);
        if key in weekSelections && weekSelections[key] != [] && hasContainer
        then Snapshot() == old(Snapshot()).(cells := Highlighted(old(cells), weekSelections[key]))
        else Snapshot() == old(Snapshot())
    {
      var key := PageKey(year, month);
      if key in weekSelections && weekSelections[key] != [] && hasContainer {
        SelectCellsOfWeek(weekSelections[key]);
      }
    }

    /**
     * `handleWeekClick` on cell `i`, with `year` and `month` read from the calendar header:
     * the state becomes that of `WeekClick`, and the alias it gives is returned in place of
     * opening or creating the week page.
     */
    method HandleWeekClick(i: nat, year: string, month: string) returns (pageAlias: Option<string>)
      requires Valid() && i < |cells|
      modifies this
      ensures Valid()
      ensures (Snapshot(), pageAlias) == WeekClick(old(Snapshot()), i, year, month)
    {
      ghost var st0 := Snapshot();
      ClearWeekSelection();
      cells := cells[i := cells[i].(selected := true)];
      assert cells == SelectOnly(st0.cells, i);
      DotsAgreeSameFaces(st0.cells, cells, weeksWithJournalDots);
      var week := Trim(cells[i].text);
      if week == [] {
        return None;
      }
      SaveWeekSelection(year, month, week);
      pageAlias := Some(Format(AliasParts(week, year, month)));
    }

    /**
     * The click listener of the day container: a click on a week cell is a week click;
     * a click anywhere else in the container only clears the week selection.
     */
    method OnContainerClick(target: Option<nat>, year: string, month: string) returns (pageAlias: Option<string>)
      requires Valid() && (target.Some? ==> target.value < |cells|)
      modifies this
      ensures Valid()
      ensures target.Some? ==> (Snapshot(), pageAlias) == WeekClick(old(Snapshot()), target.value, year, month)
      ensures target.None? ==> Snapshot() == old(Snapshot()).(cells := Cleared(old(cells))) && pageAlias == None
    {
      if target.Some? {
        pageAlias := HandleWeekClick(target.value, year, month);
      } else {
        ClearWeekSelection();
        pageAlias := None;
      }
    }

    /**
     * `updateWeekSelectionBasedOnFocusedBlock`: nothing happens when the focused block is the
     * last one seen; otherwise it is recorded and the selection becomes that of the new focus.
     */
    method UpdateWeekSelectionBasedOnFocusedBlock(activePanel: string, root: Panel, blocks: map<string, Block>, year: string)
      requires Valid()
      modifies this
      ensures Valid()
      ensures Snapshot() == FocusUpdate(old(Snapshot()), FocusedBlockId(activePanel, root), blocks, year)
    {
      var focused := FocusedBlockId(activePanel, root);
      if focused == lastFocusedBlockId {
        return;
      }
      lastFocusedBlockId := focused;
      ClearWeekSelection();
      if focused.None? || focused.value == [] {
        return;
      }
      var weeklyInfo := IsWeeklyNoteBlock(focused.value, blocks);
      if weeklyInfo.None? {
        return;
      }
      if weeklyInfo.value.year == year && hasContainer {
        SelectCellsOfWeek(weeklyInfo.value.week);
      }
    }

    /**
     * `updateJournalDots`: without a container, or when the page is the one last checked,
     * nothing happens. Otherwise the page is recorded, the tracked set is emptied, every dot
     * is removed, and a dot is put on each cell whose week note exists for this page, its week
     * added to the tracked set.
     */
    method UpdateJournalDots(year: string, month: string, backend: map<string, nat>)
      requires Valid()
      modifies this
      ensures Valid()
      ensures Snapshot() == DotsUpdate(old(Snapshot()), hasContainer, year, month, backend)
    {
      if !hasContainer {
        return;
      }
      if year == lastCheckedYear && month == lastCheckedMonth {
        return;
      }
      lastCheckedYear := year;
      lastCheckedMonth := month;
      weeksWithJournalDots := {};
      ghost var cs0 := cells;
      RemoveJournalDots();
      DottedIgnoresOldDots(cs0, cells, year, month, backend);
      AddJournalDots(year, month, backend);
      DottedAgrees(cs0, year, month, backend);
    }

    /** Removes the dot of every cell that has one. */
    method RemoveJournalDots()
      modifies this
      ensures |cells| == |old(cells)|
      ensures forall k :: 0 <= k < |cells| ==> cells[k] == old(cells)[k].(hasDot := false)
      ensures Snapshot() == old(Snapshot()).(cells := cells)
    {
      var i := 0;
      while i < |cells|
        invariant 0 <= i <= |cells| == |old(cells)|
        invariant forall k :: 0 <= k < i ==> cells[k] == old(cells)[k].(hasDot := false)
        invariant forall k :: i <= k < |cells| ==> cells[k] == old(cells)[k]
        invariant Snapshot() == old(Snapshot()).(cells := cells)
      {
        if cells[i].hasDot {
          cells := cells[i := cells[i].(hasDot := false)];
        }
        i := i + 1;
      }
    }

    /**
     * Puts a dot on each cell whose trimmed text is a week whose note exists for the page
     * `year`/`month`, adding that week to the (empty) tracked set.
     */
    method AddJournalDots(year: string, month: string, backend: map<string, nat>)
      requires weeksWithJournalDots == {}
      requires forall k :: 0 <= k < |cells| ==> !cells[k].hasDot
      modifies this
      ensures cells == Dotted(old(cells), year, month, backend)
      ensures weeksWithJournalDots == JournalWeeksUpTo(old(cells), |old(cells)|, year, month, backend)
      ensures Snapshot() == old(Snapshot()).(cells := cells, journalWeeks := weeksWithJournalDots)
    {
      ghost var cs0 := cells;
      var i := 0;
      while i < |cells|
        invariant 0 <= i <= |cells| == |cs0|
        invariant forall k :: 0 <= k < i ==> cells[k] == cs0[k].(hasDot := JournalFor(cs0[k], year, month, backend))
        invariant forall k :: i <= k < |cells| ==> cells[k] == cs0[k]
        invariant weeksWithJournalDots == JournalWeeksUpTo(cs0, i, year, month, backend)
        invariant Snapshot() == old(Snapshot()).(cells := cells, journalWeeks := weeksWithJournalDots)
      {
        DotCell(i, year, month, backend);
        JournalWeeksStep(cs0, i, year, month, backend);
        i := i + 1;
      }
      assert cells == Dotted(cs0, year, month, backend);
    }

    /**
     * One round of the dot loop on cell `i`: when its trimmed text is a week whose note
     * exists, the cell gets a dot and the week joins the tracked set.
     */
    method DotCell(i: nat, year: string, month: string, backend: map<string, nat>)
      requires i < |cells| && !cells[i].hasDot
      modifies this
      ensures cells == old(cells)[i := old(cells)[i].(hasDot := JournalFor(old(cells)[i], year, month, backend))]
      ensures weeksWithJournalDots == old(weeksWithJournalDots)
        + (if JournalFor(old(cells)[i], year, month, backend) then {WeekOf(old(cells)[i])} else {})
      ensures Snapshot() == old(Snapshot()).(cells := cells, journalWeeks := weeksWithJournalDots)
    {
      var week := WeekOf(cells[i]);
      if week != [] {
        var alias := Format(AliasParts(week, year, month));
        if alias in backend && backend[alias] != 0 {
          cells := cells[i := cells[i].(hasDot := true)];
          weeksWithJournalDots := weeksWithJournalDots + {week};
        }
      }
    }

    /**
     * `setupCalendarNavigationListeners`, run once at load: the selection follows the
     * focused block and the dots are put on the page shown.
     */
    method SetupCalendarNavigation(activePanel: string, root: Panel, blocks: map<string, Block>,
                                   year: string, month: string, backend: map<string, nat>)
      requires Valid()
      modifies this
      ensures Valid()
      ensures Snapshot() == DotsUpdate(FocusUpdate(old(Snapshot()), FocusedBlockId(activePanel, root), blocks, year),
                                       hasContainer, year, month, backend)
    {
      UpdateWeekSelectionBasedOnFocusedBlock(activePanel, root, blocks, year);
      UpdateJournalDots(year, month, backend);
    }

    /**
     * `checkCalendarVisibility`, given whether the calendar is now shown: the three checks
     * of the source in order, then the new visibility recorded. The result is
     * `VisibilityStep`.
     */
    method CheckCalendarVisibility(now: bool, activePanel: string, root: Panel, blocks: map<string, Block>,
                                   year: string, month: string, backend: map<string, nat>)
      requires Valid()
      modifies this
      ensures Valid()
      ensures Snapshot() == VisibilityStep(old(Snapshot()), hasContainer, now, FocusedBlockId(activePanel, root),
                                           blocks, year, month, backend)
    {
      if isCalendarVisible && !now {
        ClearWeekSelection();
      }
      if !isCalendarVisible && now {
        UpdateWeekSelectionBasedOnFocusedBlock(activePanel, root, blocks, year);
        UpdateJournalDots(year, month, backend);
      }
      if now {
        UpdateWeekSelectionBasedOnFocusedBlock(activePanel, root, blocks, year);
        UpdateJournalDots(year, month, backend);
      }
      isCalendarVisible := now;
    }

    /**
     * `checkCalendarVisibility` with the correction of `VisibilityStepRestoring`: hiding the
     * calendar also forgets the last focused block.
     */
    method CheckCalendarVisibilityRestoring(now: bool, activePanel: string, root: Panel, blocks: map<string, Block>,
                                            year: string, month: string, backend: map<string, nat>)
      requires Valid()
      modifies this
      ensures Valid()
      ensures Snapshot() == VisibilityStepRestoring(old(Snapshot()), hasContainer, now, FocusedBlockId(activePanel, root),
                                                    blocks, year, month, backend)
    {
      if isCalendarVisible && !now {
        ClearWeekSelection();
        lastFocusedBlockId := None;
      }
      if !isCalendarVisible && now {
        UpdateWeekSelectionBasedOnFocusedBlock(activePanel, root, blocks, year);
        UpdateJournalDots(year, month, backend);
      }
      if now {
        UpdateWeekSelectionBasedOnFocusedBlock(activePanel, root, blocks, year);
        UpdateJournalDots(year, month, backend);
      }
      isCalendarVisible := now;
    }
  }
}
