/** Character classes, searches and string operations shared by the URL parser
    and the product store: the small part of Python's `str`, `re` and `int`
    behaviour the core relies on. */
module Text {
  import opened Wrappers

  /** An ASCII decimal digit: the part of the regular-expression class `\d`
      this model keeps. */
  predicate IsDigit(c: char) {
    '0' <= c <= '9'
  }

  /** Python's `str.isspace`, which both `str.strip()` and the regular-expression
      class `\s` use for `str` patterns. */
  predicate IsSpace(c: char) {
    || ('\t' <= c <= '\r')
    || ('\U{1C}' <= c <= ' ')
    || c == '\U{85}' || c == '\U{A0}' || c == '\U{1680}'
    || ('\U{2000}' <= c <= '\U{200A}')
    || c == '\U{2028}' || c == '\U{2029}' || c == '\U{202F}' || c == '\U{205F}'
    || c == '\U{3000}'
  }

  predicate AllDigits(s: string) {
    forall m :: 0 <= m < |s| ==> IsDigit(s[m])
  }

  /** `pat` occurs in `s` starting at position `i`. */
  predicate StartsAt(s: string, i: int, pat: string) {
    0 <= i && i + |pat| <= |s| && s[i..i + |pat|] == pat
  }

  /** The least position p with from <= p < end at which `at` holds: the
      left-to-right scan a regular-expression search performs over its
      candidate start positions. */
  function FindFirst(at: nat -> bool, from: nat, end: nat): (r: Option<nat>)
    ensures r.Some? ==> from <= r.value < end && at(r.value)
    ensures r.Some? ==> forall p: nat :: from <= p < r.value ==> !at(p)
    ensures r.None? ==> forall p: nat :: from <= p < end ==> !at(p)
    decreases end - from
  {
    if from >= end then None
    else if at(from) then Some(from)
    else FindFirst(at, from + 1, end)
  }

  /** The greatest position p with lo <= p < hi at which `at` holds: the choice
      a greedy repetition makes when it backtracks. */
  function FindLast(at: nat -> bool, lo: nat, hi: nat): (r: Option<nat>)
    ensures r.Some? ==> lo <= r.value < hi && at(r.value)
    ensures r.Some? ==> forall p: nat :: r.value < p < hi ==> !at(p)
    ensures r.None? ==> forall p: nat :: lo <= p < hi ==> !at(p)
    decreases hi
  {
    if hi <= lo then None
    else if at(hi - 1) then Some(hi - 1)
    else FindLast(at, lo, hi - 1)
  }

  /** Python's `pat in s`. */
  function Contains(s: string, pat: string): (r: bool)
    ensures r <==> exists i :: StartsAt(s, i, pat)
  {
    var at := (i: nat) => StartsAt(s, i, pat);
    var found := FindFirst(at, 0, |s| + 1);
    if found.Some? then
      assert StartsAt(s, found.value, pat);
      true
    else
      forall i ensures !StartsAt(s, i, pat) {
        if 0 <= i < |s| + 1 {
          assert !at(i);
        }
      }
      false
  }

  /** The end of the longest run of characters of class `cls` starting at `i`:
      what a greedy `[...]*` consumes. */
  function SpanEnd(s: string, i: nat, cls: char -> bool): (e: nat)
    requires i <= |s|
    ensures i <= e <= |s|
    ensures forall m :: i <= m < e ==> cls(s[m])
    ensures e == |s| || !cls(s[e])
    decreases |s| - i
  {
    if i == |s| || !cls(s[i]) then i else SpanEnd(s, i + 1, cls)
  }

  /** The end of a greedy run is fixed by the run and the character after it. */
  lemma {:induction false} SpanEndIsRunEnd(s: string, i: nat, e: nat, cls: char -> bool)
    requires i <= e <= |s|
    requires forall m :: i <= m < e ==> cls(s[m])
    requires e == |s| || !cls(s[e])
    ensures SpanEnd(s, i, cls) == e
    decreases e - i
  {
    if i < e {
      SpanEndIsRunEnd(s, i + 1, e, cls);
    }
  }

  /** The longest run of digits starting at `i`: what a greedy `(\d+)` group
      captures once its first digit is known to be at `i`. */
  function DigitRun(s: string, i: nat): (r: string)
    requires i <= |s|
    ensures AllDigits(r)
    ensures i < |s| && IsDigit(s[i]) ==> |r| > 0
    ensures i + |r| <= |s| && r == s[i..i + |r|]
    ensures i + |r| == |s| || !IsDigit(s[i + |r|])
  {
    s[i..SpanEnd(s, i, IsDigit)]
  }

  /** Python's `s.rstrip()`. */
  function StripRight(s: string): (r: string)
    ensures |r| <= |s| && r == s[..|r|]
    ensures forall m :: |r| <= m < |s| ==> IsSpace(s[m])
    ensures |r| == 0 || !IsSpace(r[|r| - 1])
  {
    if |s| > 0 && IsSpace(s[|s| - 1]) then StripRight(s[..|s| - 1]) else s
  }

  /** Python's `s.strip()`: the slice left after removing leading and trailing
      whitespace, which is uniquely determined by the three properties below. */
  function Strip(s: string): (r: string)
    ensures exists a, b :: 0 <= a <= b <= |s| && r == s[a..b]
                           && (forall m :: 0 <= m < a ==> IsSpace(s[m]))
                           && (forall m :: b <= m < |s| ==> IsSpace(s[m]))
    ensures |r| > 0 ==> !IsSpace(r[0]) && !IsSpace(r[|r| - 1])
  {
    var a := SpanEnd(s, 0, IsSpace);
    var r := StripRight(s[a..]);
    assert r == s[a..a + |r|];
    assert forall m :: a + |r| <= m < |s| ==> IsSpace(s[m]) by {
      forall m | a + |r| <= m < |s| ensures IsSpace(s[m]) {
        assert s[a..][m - a] == s[m];
      }
    }
    r
  }

  /** Python's `s.replace(pat, '')` for a non-empty `pat`: occurrences are
      found left to right and never overlap. The result equals `s` exactly
      when `pat` does not occur in it, and is strictly shorter otherwise. */
  function RemoveAll(s: string, pat: string): (r: string)
    requires |pat| > 0
    ensures |r| <= |s|
    ensures |r| == |s| <==> forall i :: !StartsAt(s, i, pat)
    ensures (forall i :: !StartsAt(s, i, pat)) ==> r == s
    decreases |s|
  {
    if |s| < |pat| then s
    else if s[..|pat|] == pat then
      assert StartsAt(s, 0, pat);
      RemoveAll(s[|pat|..], pat)
    else
      ShiftStartsAt(s, pat);
      assert !StartsAt(s, 0, pat);
      assert (exists i :: StartsAt(s, i, pat)) ==> exists i :: StartsAt(s[1..], i, pat) by {
        if i :| StartsAt(s, i, pat) {
          assert StartsAt(s[1..], i - 1, pat);
        }
      }
      [s[0]] + RemoveAll(s[1..], pat)
  }

  /** Occurrences in `s[1..]` are the occurrences in `s` after position 0. */
  lemma ShiftStartsAt(s: string, pat: string)
    requires |s| > 0
    ensures forall i :: 0 <= i ==> (StartsAt(s[1..], i, pat) <==> StartsAt(s, i + 1, pat))
  {
    forall i | 0 <= i ensures StartsAt(s[1..], i, pat) <==> StartsAt(s, i + 1, pat) {
      if i + |pat| <= |s[1..]| {
        assert s[1..][i..i + |pat|] == s[i + 1..i + 1 + |pat|];
      }
    }
  }

  /** Removing every occurrence works left to right: text before the first
      occurrence is kept, that occurrence is dropped, and the removal goes on
      after it. With the no-occurrence case this fixes `replace(pat, '')`. */
  lemma {:induction false} RemoveAllFirst(a: string, pat: string, b: string)
    requires |pat| > 0
    requires forall i :: 0 <= i < |a| ==> !StartsAt(a + pat + b, i, pat)
    ensures RemoveAll(a + pat + b, pat) == a + RemoveAll(b, pat)
    decreases |a|
  {
    var s := a + pat + b;
    if |a| == 0 {
      assert s[..|pat|] == pat && s[|pat|..] == b by {
        assert s == pat + b;
      }
      assert RemoveAll(s, pat) == RemoveAll(b, pat);
      assert a + RemoveAll(b, pat) == RemoveAll(b, pat);
    } else {
      var t := a[1..] + pat + b;
      assert s[1..] == t;
      assert s[..|pat|] != pat by {
        assert !StartsAt(s, 0, pat);
      }
      assert RemoveAll(s, pat) == [s[0]] + RemoveAll(t, pat);
      forall i | 0 <= i < |a[1..]| ensures !StartsAt(t, i, pat) {
        StartsAtShifted(s, pat, i);
        assert !StartsAt(s, i + 1, pat);
      }
      RemoveAllFirst(a[1..], pat, b);
      var rb := RemoveAll(b, pat);
      assert RemoveAll(t, pat) == a[1..] + rb;
      assert s[0] == a[0];
      ConsTail(a, rb);
    }
  }

  lemma ConsTail(a: string, r: string)
    requires |a| > 0
    ensures [a[0]] + (a[1..] + r) == a + r
  {
    assert a == [a[0]] + a[1..];
  }

  /** An occurrence in `s[1..]` at `i` is an occurrence in `s` at `i + 1`. */
  lemma StartsAtShifted(s: string, pat: string, i: nat)
    requires |s| > 0
    ensures StartsAt(s[1..], i, pat) <==> StartsAt(s, i + 1, pat)
  {
    if i + |pat| <= |s[1..]| {
      assert s[1..][i..i + |pat|] == s[i + 1..i + 1 + |pat|];
    }
  }

  /** `pat` cannot occur in `s` when one of its characters never appears in `s`. */
  lemma AbsentCharBlocks(s: string, pat: string, k: nat)
    requires k < |pat| && forall m :: 0 <= m < |s| ==> s[m] != pat[k]
    ensures forall i :: !StartsAt(s, i, pat)
  {
    forall i ensures !StartsAt(s, i, pat) {
      if 0 <= i && i + |pat| <= |s| {
        assert s[i..i + |pat|][k] == s[i + k] != pat[k];
      }
    }
  }

  /** Text without whitespace at either end is its own `strip()`. */
  lemma StripIdentity(s: string)
    requires |s| == 0 || (!IsSpace(s[0]) && !IsSpace(s[|s| - 1]))
    ensures Strip(s) == s
  {
    var r := Strip(s);
    var a, b :| 0 <= a <= b <= |s| && r == s[a..b]
                && (forall m :: 0 <= m < a ==> IsSpace(s[m]))
                && (forall m :: b <= m < |s| ==> IsSpace(s[m]));
    if |s| > 0 {
      assert !IsSpace(s[0]) && !IsSpace(s[|s| - 1]);
      assert a == 0 && b == |s|;
    }
  }

  /** `strip()` is idempotent. */
  lemma StripIdempotent(s: string)
    ensures Strip(Strip(s)) == Strip(s)
  {
    StripIdentity(Strip(s));
  }

  /** Python's `s[:n]`. */
  function Truncate(s: string, n: nat): (r: string)
    ensures |r| <= n && |r| <= |s| && r == s[..|r|]
    ensures |s| <= n ==> r == s
  {
    if |s| <= n then s else s[..n]
  }

  /** ASCII lower-casing of one character: 'A'..'Z' to 'a'..'z', every other
      character unchanged. */
  function LowerChar(c: char): (d: char)
    ensures 'A' <= c <= 'Z' ==> 'a' <= d <= 'z' && d as int - c as int == 32
    ensures !('A' <= c <= 'Z') ==> d == c
  {
    if 'A' <= c <= 'Z' then (c as int + 32) as char else c
  }

  /** ASCII lower-casing, character by character. */
  function LowerAscii(s: string): (r: string)
    ensures |r| == |s|
    ensures forall i :: 0 <= i < |s| ==> r[i] == LowerChar(s[i])
  {
    if |s| == 0 then []
    else [LowerChar(s[0])] + LowerAscii(s[1..])
  }

  /** Lower-casing twice is lower-casing once. */
  lemma LowerAsciiIdempotent(s: string)
    ensures LowerAscii(LowerAscii(s)) == LowerAscii(s)
  {
    var r := LowerAscii(s);
    assert forall i :: 0 <= i < |r| ==> LowerChar(r[i]) == r[i];
  }

  /** The value of a decimal numeral, as Python's `int()` reads an ASCII digit
      string (leading zeros allowed). */
  function DigitsValue(d: string): nat
  {
    if |d| == 0 then 0
    else DigitsValue(d[..|d| - 1]) * 10 + DigitValue(d[|d| - 1])
  }

  function DigitValue(c: char): nat {
    if IsDigit(c) then c as int - '0' as int else 0
  }

  function DigitChar(n: nat): char
    requires n < 10
  {
    ('0' as int + n) as char
  }

  /** Python's `str(n)` for a natural number: the canonical decimal numeral. */
  function NatToString(n: nat): (r: string)
    ensures |r| > 0 && AllDigits(r)
    ensures r[0] == '0' ==> n == 0
    decreases n
  {
    if n < 10 then [DigitChar(n)] else NatToString(n / 10) + [DigitChar(n % 10)]
  }

  /** A canonical numeral: digits only, no leading zero unless it is "0". */
  predicate Canonical(s: string) {
    |s| > 0 && AllDigits(s) && (s[0] == '0' ==> |s| == 1)
  }

  /** The longest decimal numeral Python's `int()` converts: the default of
      `sys.get_int_max_str_digits()` since Python 3.11. */
  const MaxIntDigits: nat := 4300

  /** Python's `int(d)` on a string of ASCII digits: its value, or None when
      the conversion raises ValueError, which it does for the empty string and
      for a numeral longer than the digit limit. Printing the value back gives
      the numeral without its leading zeros. */
  function IntOfDigits(d: string): (r: Option<nat>)
    requires AllDigits(d)
    ensures r.None? <==> |d| == 0 || |d| > MaxIntDigits
    ensures r.Some? ==> NatToString(r.value) == DropLeadingZeros(d)
  {
    if |d| == 0 || |d| > MaxIntDigits then None
    else
      var c := DropLeadingZeros(d);
      NatToStringOfValue(c);
      Some(DigitsValue(d))
  }

  /** A non-empty digit string without its leading zeros ("0" when only zeros
      are left): a canonical numeral of the same value. */
  function DropLeadingZeros(d: string): (r: string)
    requires |d| > 0 && AllDigits(d)
    ensures Canonical(r)
    ensures DigitsValue(r) == DigitsValue(d)
    ensures |r| <= |d| && r == d[|d| - |r|..]
    decreases |d|
  {
    if |d| > 1 && d[0] == '0' then
      LeadingZeroValue(d);
      DropLeadingZeros(d[1..])
    else d
  }

  /** A leading zero does not change a numeral's value. */
  lemma {:induction false} LeadingZeroValue(d: string)
    requires |d| > 0 && d[0] == '0'
    ensures DigitsValue(d) == DigitsValue(d[1..])
    decreases |d|
  {
    if |d| > 1 {
      var p := d[..|d| - 1];
      assert p[0] == '0';
      LeadingZeroValue(p);
      assert p[1..] == d[1..][..|d| - 2];
      assert d[1..][|d| - 2] == d[|d| - 1];
    }
  }

  /** An id written as text, resolved the way the database reads a plain
      decimal numeral; anything else is rejected (None). */
  function ResolveNumeral(s: string): (r: Option<nat>)
    ensures r.Some? <==> |s| > 0 && AllDigits(s)
    ensures r.Some? ==> NatToString(r.value) == DropLeadingZeros(s)
  {
    if |s| > 0 && AllDigits(s) then
      NatToStringOfValue(DropLeadingZeros(s));
      Some(DigitsValue(s))
    else None
  }

  /** Reading back the numeral `str(n)` gives `n`. */
  lemma {:induction false} ValueOfNatToString(n: nat)
    ensures DigitsValue(NatToString(n)) == n
    decreases n
  {
    var s := NatToString(n);
    if n >= 10 {
      ValueOfNatToString(n / 10);
      assert s[..|s| - 1] == NatToString(n / 10);
    }
  }

  /** The numeral `str(n)` resolves to `n`. */
  lemma ResolveNatToString(n: nat)
    ensures ResolveNumeral(NatToString(n)) == Some(n)
  {
    ValueOfNatToString(n);
  }

  /** A non-empty canonical numeral other than "0" denotes a positive value. */
  lemma {:induction false} CanonicalPositive(s: string)
    requires Canonical(s) && s[0] != '0'
    ensures DigitsValue(s) > 0
    decreases |s|
  {
    if |s| > 1 {
      var p := s[..|s| - 1];
      assert p[0] == s[0];
      CanonicalPositive(p);
    }
  }

  /** Every canonical numeral is `str` of its value: numerals and naturals are
      in one-to-one correspondence. */
  lemma {:induction false} NatToStringOfValue(s: string)
    requires Canonical(s)
    ensures NatToString(DigitsValue(s)) == s
    decreases |s|
  {
    if |s| > 1 {
      var p := s[..|s| - 1];
      assert p[0] == s[0];
      CanonicalPositive(p);
      NatToStringOfValue(p);
      var v := DigitsValue(s);
      assert v / 10 == DigitsValue(p) && v % 10 == DigitValue(s[|s| - 1]);
    }
  }
}
