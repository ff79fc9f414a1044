/**
 Text helpers the catalog relies on: ASCII lower-casing (Python's str.lower),
 whitespace stripping (str.strip, and the narrower trimming int() does), substring search (the `in` operator on
 strings) and decimal integers as int() reads them and f-strings print them.
 */
module Text {
  import opened Wrappers

  // ---------------------------------------------------------------- case

  predicate IsUpper(c: char) {
    'A' <= c <= 'Z'
  }

  /** Lower-cases one ASCII letter; every other character is kept. A capital
      becomes the small letter at the same place in the alphabet. */
  function LowerChar(c: char): (r: char)
    ensures !IsUpper(r)
    ensures r == c || IsUpper(c)
    ensures IsUpper(c) ==> 'a' <= r <= 'z' && r as int - 'a' as int == c as int - 'A' as int
  {
    if IsUpper(c) then (c as int + 32) as char else c
  }

  /** Two characters that are the same letter in either case, or equal. */
  predicate SameIgnoringCase(x: char, y: char) {
    x == y
    || (IsUpper(x) && y as int - 'a' as int == x as int - 'A' as int)
    || (IsUpper(y) && x as int - 'a' as int == y as int - 'A' as int)
  }

  /** Lower-casing makes two characters equal exactly when they agree up to
      case. */
  lemma LowerCharEqual(x: char, y: char)
    ensures LowerChar(x) == LowerChar(y) <==> SameIgnoringCase(x, y)
  {
  }

  /** str.lower() on ASCII text: the same length, each character lowered. */
  function Lower(s: string): (r: string)
    ensures |r| == |s|
    ensures forall i :: 0 <= i < |s| ==> r[i] == LowerChar(s[i])
  {
    seq(|s|, i requires 0 <= i < |s| => LowerChar(s[i]))
  }

  /** Two texts compare equal once lowered exactly when they have the same
      length and agree character by character up to case. */
  lemma LowerEqual(a: string, b: string)
    ensures Lower(a) == Lower(b) <==>
      |a| == |b| && forall i :: 0 <= i < |a| ==> SameIgnoringCase(a[i], b[i])
  {
    if Lower(a) == Lower(b) {
      forall i | 0 <= i < |a| ensures SameIgnoringCase(a[i], b[i]) {
        assert Lower(a)[i] == Lower(b)[i];
        LowerCharEqual(a[i], b[i]);
      }
    }
    if |a| == |b| && forall i :: 0 <= i < |a| ==> SameIgnoringCase(a[i], b[i]) {
      forall i | 0 <= i < |a| ensures Lower(a)[i] == Lower(b)[i] {
        LowerCharEqual(a[i], b[i]);
      }
    }
  }

  lemma LowerIdempotent(s: string)
    ensures Lower(Lower(s)) == Lower(s)
  {
  }

  // ---------------------------------------------------------- whitespace

  /** The ASCII characters str.isspace() accepts, which str.strip() drops:
      space, TAB, LF, VT, FF, CR and the four separators 0x1C-0x1F. */
  predicate IsSpace(c: char) {
    c == ' ' || 9 <= c as int <= 13 || 28 <= c as int <= 31
  }

  /** The ASCII characters int() skips around a number: space, TAB, LF, VT,
      FF and CR, but not the separators 0x1C-0x1F. */
  predicate IsIntSpace(c: char) {
    c == ' ' || 9 <= c as int <= 13
  }

  /** The first index at or after `i` that does not hold a `ws` character,
      or |s| when there is none. */
  function SkipSpace(s: string, i: nat, ws: char -> bool): (k: nat)
    requires i <= |s|
    ensures i <= k <= |s|
    ensures k == |s| || !ws(s[k])
    ensures forall j :: i <= j < k ==> ws(s[j])
    decreases |s| - i
  {
    if i < |s| && ws(s[i]) then SkipSpace(s, i + 1, ws) else i
  }

  /** The end of `s[..j]` once its trailing `ws` characters are dropped. */
  function SkipSpaceBack(s: string, j: nat, ws: char -> bool): (k: nat)
    requires j <= |s|
    ensures k <= j
    ensures k == 0 || !ws(s[k - 1])
    ensures forall i :: k <= i < j ==> ws(s[i])
  {
    if j > 0 && ws(s[j - 1]) then SkipSpaceBack(s, j - 1, ws) else j
  }

  /** How many leading characters trimming `ws` drops. */
  function Lead(s: string, ws: char -> bool): (n: nat)
    ensures n <= |s|
  {
    SkipSpace(s, 0, ws)
  }

  /** The text between the leading and the trailing `ws` characters; neither
      end of the result is one of them. */
  function Trim(s: string, ws: char -> bool): (r: string)
    ensures |r| <= |s|
    ensures r == [] || (!ws(r[0]) && !ws(r[|r| - 1]))
  {
    var first := SkipSpace(s, 0, ws);
    var end := SkipSpaceBack(s, |s|, ws);
    if first < end then s[first..end] else []
  }

  /** Trimming removes `ws` characters only, and only at the two ends: the
      result is the slice of `s` that starts after the `Lead(s, ws)` dropped
      characters. */
  lemma TrimSlices(s: string, ws: char -> bool)
    ensures Lead(s, ws) + |Trim(s, ws)| <= |s|
    ensures Trim(s, ws) == s[Lead(s, ws)..Lead(s, ws) + |Trim(s, ws)|]
    ensures forall i :: 0 <= i < Lead(s, ws) ==> ws(s[i])
    ensures forall i :: Lead(s, ws) + |Trim(s, ws)| <= i < |s| ==> ws(s[i])
  {
    var first := SkipSpace(s, 0, ws);
    var end := SkipSpaceBack(s, |s|, ws);
    if end <= first {
      assert first == |s|;
    }
  }

  /** Text with no `ws` character at either end is left as it is. */
  lemma TrimKeepsTrimmed(s: string, ws: char -> bool)
    requires s == [] || (!ws(s[0]) && !ws(s[|s| - 1]))
    ensures Trim(s, ws) == s
  {
  }

  /** str.strip(): neither end of the result is whitespace. */
  function Strip(s: string): (r: string)
    ensures |r| <= |s|
    ensures r == [] || (!IsSpace(r[0]) && !IsSpace(r[|r| - 1]))
  {
    Trim(s, IsSpace)
  }

  lemma StripIdempotent(s: string)
    ensures Strip(Strip(s)) == Strip(s)
  {
    TrimKeepsTrimmed(Strip(s), IsSpace);
  }

  // ----------------------------------------------------------- substring

  predicate StartsWith(s: string, p: string) {
    |p| <= |s| && s[..|p|] == p
  }

  predicate EndsWith(s: string, p: string) {
    |p| <= |s| && s[|s| - |p|..] == p
  }

  /** The last `k` characters of `u + t` are those of `t` when `t` has `k`. */
  lemma SuffixOfConcat(u: string, t: string, k: nat)
    requires k <= |t|
    ensures (u + t)[|u + t| - k..] == t[|t| - k..]
  {
  }

  /** `needle` occurs in `hay` starting at index `i`. */
  predicate OccursAt(hay: string, needle: string, i: int) {
    0 <= i && i + |needle| <= |hay| && hay[i..i + |needle|] == needle
  }

  /** Python's `needle in hay` for strings, scanning from the left. */
  predicate Contains(hay: string, needle: string)
    decreases |hay|
  {
    StartsWith(hay, needle) || (|hay| > 0 && Contains(hay[1..], needle))
  }

  /** The scan finds `needle` exactly when it occurs at some index. */
  lemma {:induction false} ContainsOccurs(hay: string, needle: string)
    ensures Contains(hay, needle) <==> exists i :: OccursAt(hay, needle, i)
    decreases |hay|
  {
    if |hay| > 0 {
      ContainsOccurs(hay[1..], needle);
    }
    if Contains(hay, needle) {
      if StartsWith(hay, needle) {
        assert OccursAt(hay, needle, 0);
      } else {
        var i :| OccursAt(hay[1..], needle, i);
        assert hay[1..][i..i + |needle|] == hay[i + 1..i + 1 + |needle|];
        assert OccursAt(hay, needle, i + 1);
      }
    }
    if exists i :: OccursAt(hay, needle, i) {
      var i :| OccursAt(hay, needle, i);
      if i == 0 {
        assert hay[..|needle|] == needle;
      } else {
        assert hay[1..][i - 1..i - 1 + |needle|] == hay[i..i + |needle|];
        assert OccursAt(hay[1..], needle, i - 1);
      }
    }
  }

  lemma ContainsItself(s: string)
    ensures Contains(s, s)
  {
    assert s[..|s|] == s;
  }

  lemma ContainsEmpty(s: string)
    ensures Contains(s, [])
  {
  }

  // ------------------------------------------------------------- numbers

  predicate IsDigit(c: char) {
    '0' <= c <= '9'
  }

  predicate AllDigits(s: string) {
    forall i :: 0 <= i < |s| ==> IsDigit(s[i])
  }

  function DigitValue(c: char): (d: nat)
    requires IsDigit(c)
    ensures d < 10
  {
    c as int - '0' as int
  }

  function DigitChar(d: nat): (c: char)
    requires d < 10
    ensures IsDigit(c) && DigitValue(c) == d
  {
    ('0' as int + d) as char
  }

  /** The value of a string of decimal digits, most significant first. */
  function DigitsValue(s: string): nat
    requires AllDigits(s)
  {
    if s == [] then 0 else 10 * DigitsValue(s[..|s| - 1]) + DigitValue(s[|s| - 1])
  }

  /** Decimal rendering of a natural number, as str() and f-strings print it:
      no sign, no leading zero except for 0 itself. */
  function NatToString(n: nat): (r: string)
    ensures |r| > 0 && AllDigits(r)
    ensures r[0] != '0' || n == 0
    ensures r[0] == '0' ==> r == "0"
    decreases n
  {
    (if n < 10 then [] else NatToString(n / 10)) + [DigitChar(n % 10)]
  }

  /** Reading back a printed number gives the number. */
  lemma {:induction false} NatToStringValue(n: nat)
    ensures DigitsValue(NatToString(n)) == n
    decreases n
  {
    var s := NatToString(n);
    assert s[|s| - 1] == DigitChar(n % 10);
    if n < 10 {
      assert s[..|s| - 1] == [];
    } else {
      assert s[..|s| - 1] == NatToString(n / 10);
      NatToStringValue(n / 10);
    }
  }

  /** int(s) for a string of ASCII decimal digits: the whitespace int()
      skips is ignored at both ends, one optional sign is allowed, at least
      one digit is required. None stands for the ValueError int() raises. An
      accepted text, once trimmed, is a digit or a sign followed by digits
      only and ends in a digit; a negative value needs a minus sign. */
  function ParseInt(s: string): (r: Option<int>)
    ensures r.Some? ==> var t := Trim(s, IsIntSpace);
      |t| > 0 && (IsDigit(t[0]) || t[0] == '+' || t[0] == '-') && AllDigits(t[1..]) && IsDigit(t[|t| - 1])
    ensures r.Some? && r.value < 0 ==> var t := Trim(s, IsIntSpace); |t| > 0 && t[0] == '-'
  {
    var t := Trim(s, IsIntSpace);
    if |t| > 0 && (t[0] == '-' || t[0] == '+') then
      var digits := t[1..];
      if |digits| > 0 && AllDigits(digits) then
        assert t[|t| - 1] == digits[|digits| - 1];
        var magnitude: int := DigitsValue(digits);
        Some(if t[0] == '-' then -magnitude else magnitude)
      else
        None
    else if |t| > 0 && AllDigits(t) then
      Some(DigitsValue(t))
    else
      None
  }

  /** int() turns down any text without a digit. */
  lemma ParseIntNeedsDigit(s: string)
    requires forall i :: 0 <= i < |s| ==> !IsDigit(s[i])
    ensures ParseInt(s) == None
  {
    var t := Trim(s, IsIntSpace);
    TrimSlices(s, IsIntSpace);
    if |t| > 1 {
      assert t[1] == s[Lead(s, IsIntSpace) + 1];
    }
    if |t| > 0 {
      assert t[0] == s[Lead(s, IsIntSpace)];
    }
  }

  /** int() does not skip the separators 0x1C-0x1F that str.strip() drops:
      text that starts with one is turned down. */
  lemma ParseIntRejectsSeparator(s: string)
    requires |s| > 0 && 28 <= s[0] as int <= 31
    ensures ParseInt(s) == None
  {
    var t := Trim(s, IsIntSpace);
    TrimSlices(s, IsIntSpace);
    assert Lead(s, IsIntSpace) == 0;
    if |t| > 0 {
      assert t[0] == s[0];
    }
  }

  lemma ParseIntNat(n: nat)
    ensures ParseInt(NatToString(n)) == Some(n)
  {
    var s := NatToString(n);
    assert IsDigit(s[0]) && IsDigit(s[|s| - 1]);
    TrimKeepsTrimmed(s, IsIntSpace);
    assert s[0] != '-' && s[0] != '+';
    NatToStringValue(n);
  }

  lemma ParseIntNegative(n: nat)
    ensures ParseInt("-" + NatToString(n)).Some?
    ensures ParseInt("-" + NatToString(n)).value + n == 0
  {
    var digits := NatToString(n);
    var s := "-" + digits;
    assert s[|s| - 1] == digits[|digits| - 1];
    TrimKeepsTrimmed(s, IsIntSpace);
    assert s[1..] == digits;
    NatToStringValue(n);
  }
}
