/**
 * The names of weekly-note pages. A page for week `43` of the calendar page October 2025 is
 * aliased `43周 · 2025年10月`; an alias is recognised again by the pattern
 * `^(\d+)周 · (\d{4})年(\d+)月$`, whose first two groups give the week and the year.
 */
module WeekAlias {
  import opened Optional
  import opened Text

  const WeekMark: char := '\U{5468}'   // 周
  const YearMark: char := '\U{5E74}'   // 年
  const MonthMark: char := '\U{6708}'  // 月
  /** `周 · `: the week mark, a space, a middle dot and a space. */
  const Separator: string := [WeekMark, ' ', '\U{B7}', ' ']

  /** The three capture groups of the alias pattern, in template order. */
  datatype AliasParts = AliasParts(week: string, year: string, month: string)

  /** What the plugin keeps of a recognised alias: `{ year, week }`. */
  datatype WeekRef = WeekRef(year: string, week: string)

  /** A block of the host's store, reduced to the aliases the plugin reads. */
  datatype Block = Block(aliases: seq<string>)

  /** Parts the pattern accepts: one or more digits, exactly four digits, one or more digits. */
  predicate WellFormed(p: AliasParts) {
    && p.week != [] && IsDigits(p.week)
    && |p.year| == 4 && IsDigits(p.year)
    && p.month != [] && IsDigits(p.month)
  }

  /** The alias template `${week}周 · ${year}年${month}月`. */
  function Format(p: AliasParts): string {
    p.week + Separator + p.year + [YearMark] + p.month + [MonthMark]
  }

  /** The length of the longest run of digits at the start of `s`. */
  function DigitRun(s: string): (n: nat)
    ensures n <= |s| && IsDigits(s[..n])
    ensures n < |s| ==> !IsDigit(s[n])
  {
    if s != [] && IsDigit(s[0]) then
      var n := 1 + DigitRun(s[1..]);
      assert s[..n] == [s[0]] + s[1..][..n - 1];
      n
    else 0
  }

  /** A maximal leading digit run is unique. */
  lemma DigitRunIs(s: string, k: nat)
    requires k <= |s| && IsDigits(s[..k]) && (k < |s| ==> !IsDigit(s[k]))
    ensures DigitRun(s) == k
  {
    var n := DigitRun(s);
    assert forall j :: 0 <= j < k ==> IsDigit(s[j]) by {
      forall j | 0 <= j < k ensures IsDigit(s[j]) { assert s[..k][j] == s[j]; }
    }
    assert forall j :: 0 <= j < n ==> IsDigit(s[j]) by {
      forall j | 0 <= j < n ensures IsDigit(s[j]) { assert s[..n][j] == s[j]; }
    }
  }

  /** After `week周 · `, the rest of an alias from the template: `${year}年${month}月`. */
  function Tail(year: string, month: string): string {
    year + [YearMark] + month + [MonthMark]
  }

  /** The template is the week, the separator and the tail. */
  lemma FormatIsWeekSepTail(p: AliasParts)
    ensures Format(p) == p.week + (Separator + Tail(p.year, p.month))
  {
  }

  /**
   * The part of the pattern after `周 · `: `(\d{4})年(\d+)月$`. The last group is everything
   * between `年` and the final `月`, so a tail is accepted exactly as the template builds it.
   */
  function MatchTail(t: string): (r: Option<(string, string)>)
    ensures r.Some? ==> var (year, month) := r.value;
      && |year| == 4 && IsDigits(year) && month != [] && IsDigits(month)
      && t == Tail(year, month)
  {
    if |t| < 7 || !IsDigits(t[..4]) || t[4] != YearMark then None
    else
      var u := t[5..];
      if u[|u| - 1] != MonthMark || !IsDigits(u[..|u| - 1]) then None
      else
        assert u == u[..|u| - 1] + [MonthMark];
        assert t == t[..4] + [YearMark] + u;
        Some((t[..4], u[..|u| - 1]))
  }

  /** The tail matcher recovers the year and month the tail was built from. */
  lemma {:induction false} MatchTailOf(p: AliasParts)
    requires WellFormed(p)
    ensures MatchTail(Tail(p.year, p.month)) == Some((p.year, p.month))
  {
    var t := Tail(p.year, p.month);
    assert t[..4] == p.year && t[4] == YearMark;
    var u := t[5..];
    assert u == p.month + [MonthMark];
    assert u[..|u| - 1] == p.month;
  }

  /**
   * `alias.match(/^(\d+)周 · (\d{4})年(\d+)月$/)`. The first group can only be the maximal
   * digit run (a shorter one would be followed by a digit, not by `周`). Whatever the pattern
   * accepts is exactly the template applied to well-formed parts.
   */
  function MatchAlias(s: string): (r: Option<AliasParts>)
    ensures r.Some? ==> WellFormed(r.value) && Format(r.value) == s
  {
    var n := DigitRun(s);
    if n == 0 || |s| - n < |Separator| || s[n..n + |Separator|] != Separator then None
    else match MatchTail(s[n + |Separator|..])
      case None => None
      case Some((year, month)) =>
        var p := AliasParts(s[..n], year, month);
        FormatIsWeekSepTail(p);
        assert s[n..] == Separator + Tail(p.year, p.month);
        assert s == p.week + s[n..];
        Some(p)
  }

  /** Round trip: the pattern recovers the parts the template was given. */
  lemma {:induction false} MatchFormat(p: AliasParts)
    requires WellFormed(p)
    ensures MatchAlias(Format(p)) == Some(p)
  {
    var s := Format(p);
    var w := |p.week|;
    FormatIsWeekSepTail(p);
    WeekIsDigitRun(s, p.week, Separator + Tail(p.year, p.month));
    assert s[w..w + |Separator|] == Separator;
    assert s[w + |Separator|..] == Tail(p.year, p.month);
    MatchTailOf(p);
  }

  /** The pattern rejects a string exactly when no well-formed parts produce it. */
  lemma MatchAliasNone(s: string)
    ensures MatchAlias(s).None? <==> forall p :: WellFormed(p) ==> Format(p) != s
  {
    if MatchAlias(s).None? {
      forall p | WellFormed(p) ensures Format(p) != s {
        MatchFormat(p);
      }
    }
  }

  /** An alias built with a year that is not exactly four digits is never recognised. */
  lemma {:induction false} BadYearRejected(week: string, year: string, month: string)
    requires week != [] && IsDigits(week)
    requires !(|year| == 4 && IsDigits(year))
    ensures MatchAlias(Format(AliasParts(week, year, month))) == None
  {
    var p := AliasParts(week, year, month);
    if MatchAlias(Format(p)).Some? {
      var q := MatchAlias(Format(p)).value;
      SameWeekSameTail(p, q);
      TailNeedsFourDigitYear(p, q);
    }
  }

  /** Two template outputs with digit-only weeks agree on the week and on the tail. */
  lemma {:induction false} SameWeekSameTail(p: AliasParts, q: AliasParts)
    requires p.week != [] && IsDigits(p.week) && q.week != [] && IsDigits(q.week)
    requires Format(p) == Format(q)
    ensures p.week == q.week && Tail(p.year, p.month) == Tail(q.year, q.month)
  {
    var s := Format(p);
    FormatIsWeekSepTail(p);
    FormatIsWeekSepTail(q);
    WeekIsDigitRun(s, p.week, Separator + Tail(p.year, p.month));
    WeekIsDigitRun(s, q.week, Separator + Tail(q.year, q.month));
    assert s[|p.week|..] == Separator + Tail(p.year, p.month);
    assert Tail(p.year, p.month) == (Separator + Tail(p.year, p.month))[|Separator|..];
    assert Tail(q.year, q.month) == (Separator + Tail(q.year, q.month))[|Separator|..];
  }

  /** A digit-only week followed by the separator is the leading digit run. */
  lemma {:induction false} WeekIsDigitRun(s: string, week: string, rest: string)
    requires IsDigits(week) && s == week + rest && rest != [] && rest[0] == WeekMark
    ensures DigitRun(s) == |week| && s[..|week|] == week && s[|week|..] == rest
  {
    assert s[..|week|] == week;
    assert s[|week|..] == rest;
    DigitRunIs(s, |week|);
  }

  /** A tail equal to that of well-formed parts starts with a four-digit year. */
  lemma {:induction false} TailNeedsFourDigitYear(p: AliasParts, q: AliasParts)
    requires WellFormed(q) && Tail(p.year, p.month) == Tail(q.year, q.month)
    ensures |p.year| == 4 && IsDigits(p.year)
  {
    var t := Tail(p.year, p.month);
    assert t[|p.year|] == YearMark;
    assert Tail(q.year, q.month)[4] == YearMark;
    assert forall j :: 0 <= j < 4 ==> Tail(q.year, q.month)[j] == q.year[j];
    if |p.year| < 4 {
      assert false;
    }
    if |p.year| > 4 {
      // the year mark of `q` sits inside `p.year`, so `p`'s own year mark falls in `q.month`
      assert false;
    }
    assert p.year == t[..4] == q.year;
  }

  /**
   * The scan of `isWeeklyNoteBlock` over a block's aliases: the year and week of the first
   * alias, in list order, that the pattern accepts; `None` when none does.
   */
  function FirstWeeklyAlias(aliases: seq<string>): (r: Option<WeekRef>)
    ensures r.None? <==> forall i :: 0 <= i < |aliases| ==> MatchAlias(aliases[i]).None?
    ensures r.Some? ==> exists i :: 0 <= i < |aliases| && IsFirstWeeklyAlias(aliases, i, r.value)
  {
    if aliases == [] then None
    else match MatchAlias(aliases[0])
      case Some(p) =>
        assert IsFirstWeeklyAlias(aliases, 0, WeekRef(p.year, p.week));
        Some(WeekRef(p.year, p.week))
      case None =>
        var r := FirstWeeklyAlias(aliases[1..]);
        assert forall i :: 1 <= i < |aliases| ==> aliases[i] == aliases[1..][i - 1];
        if r.Some? then
          var i :| 0 <= i < |aliases[1..]| && IsFirstWeeklyAlias(aliases[1..], i, r.value);
          assert IsFirstWeeklyAlias(aliases, i + 1, r.value);
          r
        else r
  }

  /** `aliases[i]` is the first alias the pattern accepts and it yields `ref`. */
  predicate IsFirstWeeklyAlias(aliases: seq<string>, i: int, ref: WeekRef) {
    && 0 <= i < |aliases|
    && (forall j :: 0 <= j < i ==> MatchAlias(aliases[j]).None?)
    && MatchAlias(aliases[i]).Some?
    && ref == WeekRef(MatchAlias(aliases[i]).value.year, MatchAlias(aliases[i]).value.week)
  }

  /**
   * `isWeeklyNoteBlock(blockId)`: `None` when the block is not in the store, has no alias,
   * or has no alias the pattern accepts; otherwise the year and week of the first one.
   */
  function IsWeeklyNoteBlock(blockId: string, blocks: map<string, Block>): (r: Option<WeekRef>)
    ensures blockId !in blocks ==> r.None?
    ensures blockId in blocks && blocks[blockId].aliases == [] ==> r.None?
    ensures r.None? <==> (blockId !in blocks
      || forall i :: 0 <= i < |blocks[blockId].aliases| ==> MatchAlias(blocks[blockId].aliases[i]).None?)
    ensures r.Some? ==> blockId in blocks && exists i :: IsFirstWeeklyAlias(blocks[blockId].aliases, i, r.value)
  {
    if blockId !in blocks then None
    else
      var aliases := blocks[blockId].aliases;
      if |aliases| > 0 then FirstWeeklyAlias(aliases) else None
  }

  /**
   * A block whose first alias is the one the plugin builds for a click on week `week` of
   * the page `month`/`year` is recognised as that week's note.
   */
  lemma {:induction false} CreatedPageIsWeeklyNote(blockId: string, blocks: map<string, Block>, p: AliasParts)
    requires WellFormed(p)
    requires blockId in blocks && |blocks[blockId].aliases| > 0
    requires blocks[blockId].aliases[0] == Format(p)
    ensures IsWeeklyNoteBlock(blockId, blocks) == Some(WeekRef(p.year, p.week))
  {
    MatchFormat(p);
  }
}
