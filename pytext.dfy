/**
 * The parts of Python's string semantics the bot relies on: `str.strip()`,
 * the `in` operator on strings, `str.split(sep)` / `sep.join(parts)` with a
 * one-character separator, `str(n)` for an int and `int(s)` for a string.
 */
module PyText {
  import opened Wrappers

  // ---------------------------------------------------------------------------
  // Whitespace and strip()

  /** Python's `str.isspace()` for one character: the characters `strip()` removes. */
  predicate IsSpace(c: char) {
    || ('\U{0009}' <= c <= '\U{000D}')
    || ('\U{001C}' <= c <= '\U{0020}')
    || c == '\U{0085}' || c == '\U{00A0}' || c == '\U{1680}'
    || ('\U{2000}' <= c <= '\U{200A}')
    || c == '\U{2028}' || c == '\U{2029}' || c == '\U{202F}'
    || c == '\U{205F}' || c == '\U{3000}'
  }

  /**
   * The whitespace `int()` skips around a literal. It maps non-ASCII
   * whitespace to ' ' and then skips the ASCII whitespace `\t\n\v\f\r` and
   * ' ', so of the `str.isspace()` set only the separators U+001C to U+001F
   * are not skipped.
   */
  predicate IsIntSpace(c: char) {
    IsSpace(c) && !('\U{001C}' <= c <= '\U{001F}')
  }

  /** Which whitespace set a trim skips: that of `str.strip()` or that of `int()`. */
  datatype Blank = StrBlank | IntBlank

  predicate Skips(ws: Blank, c: char) {
    match ws
    case StrBlank => IsSpace(c)
    case IntBlank => IsIntSpace(c)
  }

  /** Drops the longest prefix of characters in the set `ws`: `s.lstrip()` for `ws == StrBlank`. */
  function TrimStart(s: string, ws: Blank): (r: string)
    ensures |r| <= |s| && r == s[|s| - |r|..]
    ensures forall k :: 0 <= k < |s| - |r| ==> Skips(ws, s[k])
    ensures r == [] || !Skips(ws, r[0])
  {
    if s != [] && Skips(ws, s[0]) then
      var r := TrimStart(s[1..], ws);
      assert forall k :: 1 <= k < |s| ==> s[k] == s[1..][k - 1];
      r
    else s
  }

  /** Drops the longest suffix of characters in the set `ws`: `s.rstrip()` for `ws == StrBlank`. */
  function TrimEnd(s: string, ws: Blank): (r: string)
    ensures |r| <= |s| && r == s[..|r|]
    ensures forall k :: |r| <= k < |s| ==> Skips(ws, s[k])
    ensures r == [] || !Skips(ws, r[|r| - 1])
  {
    if s != [] && Skips(ws, s[|s| - 1]) then TrimEnd(s[..|s| - 1], ws) else s
  }

  /** `s.strip()`: no whitespace at either end of the result. */
  function Strip(s: string): (r: string)
    ensures r == [] || (!IsSpace(r[0]) && !IsSpace(r[|r| - 1]))
  {
    TrimEnd(TrimStart(s, StrBlank), StrBlank)
  }

  /**
   * The stripped text is the slice of `s` that starts after the leading
   * whitespace, and only whitespace follows it.
   */
  lemma StripSlice(s: string)
    ensures var i := |s| - |TrimStart(s, StrBlank)|;
      && i + |Strip(s)| <= |s|
      && Strip(s) == s[i..i + |Strip(s)|]
      && (forall k :: 0 <= k < i ==> IsSpace(s[k]))
      && (forall k :: i + |Strip(s)| <= k < |s| ==> IsSpace(s[k]))
  {
    StripIsSlice(s);
    StripTrailing(s);
  }

  lemma StripIsSlice(s: string)
    ensures var i := |s| - |TrimStart(s, StrBlank)|;
      i + |Strip(s)| <= |s| && Strip(s) == s[i..i + |Strip(s)|]
  {
    var t := TrimStart(s, StrBlank);
    var r := TrimEnd(t, StrBlank);
    var i := |s| - |t|;
    assert Strip(s) == r;
    SliceOfSuffix(s, i, |r|);
  }

  lemma SliceOfSuffix(s: string, i: nat, n: nat)
    requires i + n <= |s|
    ensures s[i..][..n] == s[i..i + n]
  {
  }

  lemma StripTrailing(s: string)
    ensures forall k :: |s| - |TrimStart(s, StrBlank)| + |Strip(s)| <= k < |s| ==> IsSpace(s[k])
  {
    var t := TrimStart(s, StrBlank);
    var r := TrimEnd(t, StrBlank);
    var i := |s| - |t|;
    assert t == s[i..];
    forall k | i + |r| <= k < |s|
      ensures IsSpace(s[k])
    {
      assert s[k] == t[k - i];
    }
  }

  lemma StripIdempotent(s: string)
    ensures Strip(Strip(s)) == Strip(s)
  {
    StripUnchanged(Strip(s));
  }

  /** Stripping leaves a string alone whose ends are not whitespace. */
  lemma StripUnchanged(s: string)
    requires s == [] || (!IsSpace(s[0]) && !IsSpace(s[|s| - 1]))
    ensures Strip(s) == s
  {
  }

  // ---------------------------------------------------------------------------
  // Substring test: `pat in s`

  ghost predicate OccursAt(s: string, pat: string, i: int) {
    0 <= i && i + |pat| <= |s| && s[i..i + |pat|] == pat
  }

  /** Python's `pat in s` on strings, scanning left to right. */
  function Contains(s: string, pat: string): bool
    decreases |s|
  {
    if |pat| > |s| then false
    else if s[..|pat|] == pat then true
    else Contains(s[1..], pat)
  }

  /** `Contains` agrees with its definition as "occurs at some position". */
  lemma {:induction false} ContainsIff(s: string, pat: string)
    ensures Contains(s, pat) <==> exists i :: OccursAt(s, pat, i)
    decreases |s|
  {
    if |pat| > |s| {
    } else if s[..|pat|] == pat {
      assert OccursAt(s, pat, 0);
    } else {
      ContainsIff(s[1..], pat);
      if Contains(s[1..], pat) {
        var i :| OccursAt(s[1..], pat, i);
        assert s[1..][i..i + |pat|] == s[i + 1..i + 1 + |pat|];
        assert OccursAt(s, pat, i + 1);
      }
      if exists i :: OccursAt(s, pat, i) {
        var i :| OccursAt(s, pat, i);
        assert i != 0;
        assert s[1..][i - 1..i - 1 + |pat|] == s[i..i + |pat|];
        assert OccursAt(s[1..], pat, i - 1);
      }
    }
  }

  // ---------------------------------------------------------------------------
  // split / join on one separator character

  /** `s.split(sep)`: the pieces between separators; never empty, pieces never contain `sep`. */
  function Split(s: string, sep: char): (parts: seq<string>)
    ensures |parts| >= 1
    ensures forall k :: 0 <= k < |parts| ==> sep !in parts[k]
  {
    if s == [] then [""]
    else
      var rest := Split(s[1..], sep);
      if s[0] == sep then [""] + rest
      else [[s[0]] + rest[0]] + rest[1..]
  }

  /** `sep.join(parts)`. */
  function Join(parts: seq<string>, sep: char): string {
    if parts == [] then ""
    else if |parts| == 1 then parts[0]
    else parts[0] + [sep] + Join(parts[1..], sep)
  }

  /** Joining the pieces of a split gives the string back. */
  lemma {:induction false} JoinSplit(s: string, sep: char)
    ensures Join(Split(s, sep), sep) == s
  {
    if s != [] {
      JoinSplit(s[1..], sep);
      var rest := Split(s[1..], sep);
      if s[0] != sep && |rest| > 1 {
        assert ([[s[0]] + rest[0]] + rest[1..])[1..] == rest[1..];
      }
    }
  }

  /** Splitting at the first separator: a leading piece free of `sep` comes off whole. */
  lemma {:induction false} SplitAfter(a: string, sep: char, b: string)
    requires sep !in a
    ensures Split(a + [sep] + b, sep) == [a] + Split(b, sep)
  {
    if a == [] {
      assert (a + [sep] + b)[1..] == b;
    } else {
      assert (a + [sep] + b)[1..] == a[1..] + [sep] + b;
      SplitAfter(a[1..], sep, b);
      assert [a[0]] + a[1..] == a;
    }
  }

  /** Splitting a join of separator-free pieces gives the pieces back. */
  lemma {:induction false} SplitJoin(parts: seq<string>, sep: char)
    requires |parts| >= 1
    requires forall k :: 0 <= k < |parts| ==> sep !in parts[k]
    ensures Split(Join(parts, sep), sep) == parts
  {
    if |parts| == 1 {
      NoSepSplit(parts[0], sep);
    } else {
      SplitJoin(parts[1..], sep);
      SplitAfter(parts[0], sep, Join(parts[1..], sep));
      assert [parts[0]] + parts[1..] == parts;
    }
  }

  /** A string without the separator splits into itself. */
  lemma {:induction false} NoSepSplit(s: string, sep: char)
    requires sep !in s
    ensures Split(s, sep) == [s]
  {
    if s != [] {
      NoSepSplit(s[1..], sep);
      assert [s[0]] + s[1..] == s;
    }
  }

  // ---------------------------------------------------------------------------
  // Decimal text: str(n) and int(s)

  predicate IsDigit(c: char) {
    '0' <= c <= '9'
  }

  predicate AllDigits(s: string) {
    forall k :: 0 <= k < |s| ==> IsDigit(s[k])
  }

  function DigitChar(d: nat): (c: char)
    requires d < 10
    ensures IsDigit(c) && c as int - '0' as int == d
  {
    (48 + d) as char
  }

  /** `str(n)` for a non-negative int: its decimal digits, most significant first. */
  function NatText(n: nat): (r: string)
    ensures |r| >= 1 && AllDigits(r)
  {
    if n < 10 then [DigitChar(n)] else NatText(n / 10) + [DigitChar(n % 10)]
  }

  /** `str(n)` for any int. */
  function IntText(n: int): string {
    if n < 0 then "-" + NatText(-n) else NatText(n)
  }

  /** The number a string of decimal digits denotes. */
  function DigitsValue(s: string): nat
    requires AllDigits(s)
  {
    if s == [] then 0 else DigitsValue(s[..|s| - 1]) * 10 + (s[|s| - 1] as int - '0' as int)
  }

  /**
   * The digit part of a base-10 literal as `int()` accepts it: digits, where a
   * single '_' may stand between two digits.
   */
  predicate DigitGroups(s: string) {
    && |s| >= 1
    && IsDigit(s[0]) && IsDigit(s[|s| - 1])
    && (forall k :: 0 <= k < |s| ==> IsDigit(s[k]) || s[k] == '_')
    && (forall k :: 0 <= k < |s| - 1 && s[k] == '_' ==> s[k + 1] != '_')
  }

  /** Drops the grouping underscores of a digit string. */
  function Ungrouped(s: string): (r: string)
    requires forall k :: 0 <= k < |s| ==> IsDigit(s[k]) || s[k] == '_'
    ensures AllDigits(r)
    ensures AllDigits(s) ==> r == s
  {
    if s == [] then []
    else if s[0] == '_' then Ungrouped(s[1..])
    else [s[0]] + Ungrouped(s[1..])
  }

  /** The text of `q` that `int()` reads: `q` without its leading and trailing `IsIntSpace` characters. */
  function IntStrip(q: string): (r: string)
    ensures r == [] || (!IsIntSpace(r[0]) && !IsIntSpace(r[|r| - 1]))
  {
    TrimEnd(TrimStart(q, IntBlank), IntBlank)
  }

  /** `int()` leaves a text alone whose ends are not whitespace to it. */
  lemma IntStripUnchanged(q: string)
    requires q == [] || (!IsIntSpace(q[0]) && !IsIntSpace(q[|q| - 1]))
    ensures IntStrip(q) == q
  {
  }

  /**
   * `int(q)` for a string: surrounding `IsIntSpace` whitespace is ignored,
   * one optional sign, then digit groups. `None` stands for the `ValueError`
   * Python raises.
   */
  function ParseInt(q: string): Option<int> {
    ParseLiteral(IntStrip(q))
  }

  /** `int()` on an already stripped string. */
  function ParseLiteral(t: string): Option<int> {
    if t == [] then None
    else
      var body := if t[0] == '-' || t[0] == '+' then t[1..] else t;
      if !DigitGroups(body) then None
      else
        var v: int := DigitsValue(Ungrouped(body));
        Some(if t[0] == '-' then -v else v)
  }

  lemma {:induction false} DigitsValueOfNatText(n: nat)
    ensures DigitsValue(NatText(n)) == n
  {
    if n >= 10 {
      DigitsValueOfNatText(n / 10);
      var s := NatText(n);
      assert s[..|s| - 1] == NatText(n / 10);
    }
  }

  /** `int(str(n)) == n`. */
  lemma ParseIntText(n: int)
    ensures ParseInt(IntText(n)) == Some(n)
  {
    StripIntText(n);
    ParseLiteralIntText(n);
  }

  lemma StripIntText(n: int)
    ensures IntStrip(IntText(n)) == IntText(n)
  {
    var m: nat := if n < 0 then -n else n;
    var d := NatText(m);
    var s := IntText(n);
    assert s[|s| - 1] == d[|d| - 1];
    IntStripUnchanged(s);
  }

  lemma ParseLiteralIntText(n: int)
    ensures ParseLiteral(IntText(n)) == Some(n)
  {
    var m: nat := if n < 0 then -n else n;
    var digits := NatText(m);
    var t := IntText(n);
    DigitsOfNatText(m);
    var body := if t[0] == '-' || t[0] == '+' then t[1..] else t;
    assert body == digits by {
      if n < 0 {
        assert t == "-" + digits;
      } else {
        assert t == digits && IsDigit(t[0]);
      }
    }
  }

  lemma DigitsOfNatText(m: nat)
    ensures DigitGroups(NatText(m))
    ensures DigitsValue(Ungrouped(NatText(m))) == m
  {
    DigitsValueOfNatText(m);
  }

  /** An information separator (U+001C to U+001F) before a literal makes `int()` raise. */
  lemma SeparatorNotSkipped(q: string)
    requires |q| >= 1 && '\U{001C}' <= q[0] <= '\U{001F}'
    ensures ParseInt(q) == None
  {
    assert !IsIntSpace(q[0]);
    var t := TrimStart(q, IntBlank);
    assert t == q;
    var r := TrimEnd(t, IntBlank);
    assert r == IntStrip(q);
    assert |r| >= 1 && r[0] == q[0];
    assert r[0] != '-' && r[0] != '+' && !IsDigit(r[0]);
    assert !DigitGroups(r);
  }

  /** `str(n)` of a positive number has no leading zero. */
  lemma {:induction false} NatTextNoLeadingZero(n: nat)
    requires n >= 1
    ensures NatText(n)[0] != '0'
  {
    if n >= 10 {
      NatTextNoLeadingZero(n / 10);
    }
  }

  /** The decimal text of an int holds only digits and a leading minus sign. */
  lemma IntTextChars(n: int)
    ensures forall k :: 0 <= k < |IntText(n)| ==> IsDigit(IntText(n)[k]) || (k == 0 && IntText(n)[k] == '-')
  {
  }
}
