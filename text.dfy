/** Optional values, standing for the plugin's `null` results. */
module Optional {
  datatype Option<+T> = None | Some(value: T)
}

/**
 * String helpers the plugin relies on from its JavaScript host: `String.prototype.trim`,
 * the regular-expression class `\d`, `Number.prototype.toString` on block ids and
 * `String.prototype.replace` with a one-character pattern.
 */
module Text {
  import opened Optional

  /** The regular-expression class `\d` without the `u` flag: ASCII decimal digits only. */
  predicate IsDigit(c: char) {
    '0' <= c <= '9'
  }

  predicate IsDigits(s: string) {
    forall i :: 0 <= i < |s| ==> IsDigit(s[i])
  }

  /** The WhiteSpace and LineTerminator code points that ECMAScript's `trim` removes. */
  predicate IsJsSpace(c: char) {
    || c == '\t' || c == '\n' || c == '\U{B}' || c == '\U{C}' || c == '\r' || c == ' '
    || c == '\U{A0}' || c == '\U{1680}' || ('\U{2000}' <= c <= '\U{200A}')
    || c == '\U{2028}' || c == '\U{2029}' || c == '\U{202F}' || c == '\U{205F}'
    || c == '\U{3000}' || c == '\U{FEFF}'
  }

  /** Neither end of `s` is a space character. */
  predicate IsTrimmed(s: string) {
    s == [] || (!IsJsSpace(s[0]) && !IsJsSpace(s[|s| - 1]))
  }

  /** Drops the leading space characters (see `TrimStartDrops`). */
  function TrimStart(s: string): string {
    if s != [] && IsJsSpace(s[0]) then TrimStart(s[1..]) else s
  }

  /** Drops the trailing space characters (see `TrimEndDrops`). */
  function TrimEnd(s: string): string {
    if s != [] && IsJsSpace(s[|s| - 1]) then TrimEnd(s[..|s| - 1]) else s
  }

  /** What `TrimStart` keeps is a suffix, everything it drops is space, and it stops at a non-space. */
  lemma {:induction false} TrimStartDrops(s: string)
    ensures var r := TrimStart(s);
      && |r| <= |s| && r == s[|s| - |r|..]
      && (forall i :: 0 <= i < |s| - |r| ==> IsJsSpace(s[i]))
      && (r == [] || !IsJsSpace(r[0]))
  {
    if s != [] && IsJsSpace(s[0]) {
      TrimStartDrops(s[1..]);
      assert forall i :: 1 <= i < |s| ==> s[i] == s[1..][i - 1];
    }
  }

  /** What `TrimEnd` keeps is a prefix, everything it drops is space, and it stops at a non-space. */
  lemma {:induction false} TrimEndDrops(s: string)
    ensures var r := TrimEnd(s);
      && |r| <= |s| && r == s[..|r|]
      && (forall i :: |r| <= i < |s| ==> IsJsSpace(s[i]))
      && (r == [] || !IsJsSpace(r[|r| - 1]))
  {
    if s != [] && IsJsSpace(s[|s| - 1]) {
      TrimEndDrops(s[..|s| - 1]);
    }
  }

  /** `s.trim()`: the leading and then the trailing space characters dropped. */
  function Trim(s: string): string {
    TrimEnd(TrimStart(s))
  }

  /**
   * What `trim` keeps is one slice of `s`, starting after the leading spaces, that neither
   * starts nor ends with a space, and everything outside that slice is space.
   */
  lemma {:induction false} TrimSlice(s: string)
    ensures TrimmedSliceOf(s, |s| - |TrimStart(s)|, Trim(s))
    ensures IsTrimmed(Trim(s))
  {
    var t := TrimStart(s);
    var r := TrimEnd(t);
    TrimStartDrops(s);
    TrimEndDrops(t);
    var lo := |s| - |t|;
    assert r == s[lo..lo + |r|];
    forall i | lo + |r| <= i < |s| ensures IsJsSpace(s[i]) {
      assert s[i] == t[i - lo];
    }
    if r != [] {
      assert r[0] == t[0];
    }
  }

  /** `r` is `s[lo..lo + |r|]` and everything of `s` outside that slice is space. */
  predicate TrimmedSliceOf(s: string, lo: int, r: string) {
    && 0 <= lo && lo + |r| <= |s| && r == s[lo..lo + |r|]
    && (forall i :: 0 <= i < lo ==> IsJsSpace(s[i]))
    && (forall i :: lo + |r| <= i < |s| ==> IsJsSpace(s[i]))
  }

  /** A string with no space at either end is left as it is, so trimming is idempotent. */
  lemma {:induction false} TrimOfTrimmed(s: string)
    requires IsTrimmed(s)
    ensures Trim(s) == s
  {
    if s != [] {
      assert TrimStart(s) == s;
      assert TrimEnd(s) == s;
    }
  }

  lemma TrimIdempotent(s: string)
    ensures Trim(Trim(s)) == Trim(s)
  {
    TrimSlice(s);
    TrimOfTrimmed(Trim(s));
  }

  /** A digit string has no space at either end, so trimming leaves it alone. */
  lemma DigitsAreTrimmed(s: string)
    requires IsDigits(s)
    ensures Trim(s) == s
  {
    if s != [] {
      assert IsDigit(s[0]) && IsDigit(s[|s| - 1]);
    }
    TrimOfTrimmed(s);
  }

  /**
   * `s.replace(c, "")` with a one-character string pattern: only the FIRST occurrence of `c`
   * is removed; without an occurrence the string is returned unchanged.
   */
  function RemoveFirst(s: string, c: char): (r: string)
    ensures c !in s ==> r == s
    ensures c in s ==> |r| == |s| - 1
  {
    if s == [] then []
    else if s[0] == c then s[1..]
    else
      assert c in s ==> c in s[1..];
      [s[0]] + RemoveFirst(s[1..], c)
  }

  /** When `s[i]` is the first occurrence of `c`, exactly that character is removed. */
  lemma {:induction false} RemoveFirstAt(s: string, c: char, i: nat)
    requires i < |s| && s[i] == c && c !in s[..i]
    ensures RemoveFirst(s, c) == s[..i] + s[i + 1..]
  {
    if i > 0 {
      assert s[0] in s[..i];
      assert s[1..][..i - 1] == s[1..i];
      assert c !in s[1..][..i - 1];
      RemoveFirstAt(s[1..], c, i - 1);
      assert s[..i] == [s[0]] + s[1..][..i - 1];
    }
  }

  function DigitChar(d: nat): (c: char)
    requires d < 10
    ensures IsDigit(c)
  {
    ('0' as int + d) as char
  }

  function DigitValue(c: char): (d: nat)
    requires IsDigit(c)
    ensures d < 10 && DigitChar(d) == c
  {
    (c as int - '0' as int)
  }

  /** The number a digit string denotes. */
  function DecimalValue(s: string): nat
    requires IsDigits(s)
  {
    if s == [] then 0 else DecimalValue(s[..|s| - 1]) * 10 + DigitValue(s[|s| - 1])
  }

  /**
   * `n.toString()` for a block id: a non-empty digit string that denotes `n`, so that
   * different ids always give different strings.
   */
  function DecimalString(n: nat): (r: string)
    ensures r != [] && IsDigits(r)
    ensures DecimalValue(r) == n
    ensures r[0] != '0' || r == "0"
  {
    if n < 10 then [DigitChar(n)]
    else
      var r := DecimalString(n / 10) + [DigitChar(n % 10)];
      assert r[..|r| - 1] == DecimalString(n / 10);
      r
  }

  lemma DecimalStringInjective(m: nat, n: nat)
    requires DecimalString(m) == DecimalString(n)
    ensures m == n
  {
  }

  /**
   * The text of a calendar header cell (`2025年`, `10月`) with its marker removed and the
   * rest trimmed; when the cell is missing or empty the caller's fallback (the clock) is used.
   */
  function HeaderValue(text: Option<string>, marker: char, fallback: string): (r: string)
    ensures (text.None? || text.value == []) ==> r == fallback
    ensures text.Some? && text.value != [] ==> IsTrimmed(r) && |r| <= |text.value|
    ensures text.Some? && text.value != [] ==> exists lo :: TrimmedSliceOf(RemoveFirst(text.value, marker), lo, r)
  {
    if text.Some? && text.value != [] then
      var stripped := RemoveFirst(text.value, marker);
      TrimSlice(stripped);
      Trim(stripped)
    else fallback
  }

  /** A header rendered as digits followed by its marker yields exactly those digits. */
  lemma {:induction false} HeaderOfDigits(digits: string, marker: char, fallback: string)
    requires digits != [] && IsDigits(digits) && !IsDigit(marker)
    ensures HeaderValue(Some(digits + [marker]), marker, fallback) == digits
  {
    var s := digits + [marker];
    assert s[..|digits|] == digits;
    assert marker !in digits;
    RemoveFirstAt(s, marker, |digits|);
    assert RemoveFirst(s, marker) == digits;
    DigitsAreTrimmed(digits);
  }
}
