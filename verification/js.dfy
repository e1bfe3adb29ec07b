/**
 * The slice of JavaScript string and number semantics the extension relies on:
 * `trim`, `startsWith`, `includes`, `substring`, `slice(-n)`, `replace`,
 * `parseInt`, the `Number(...)` conversion of strings, and the 32-bit
 * truncation performed by the bitwise operators.
 */
module Js {

  /** A JavaScript number, restricted to the integers the extension produces, or NaN. */
  datatype JsNumber = Finite(value: int) | NaN

  /** The relational operator `a < b` on numbers: any comparison involving NaN is false. */
  predicate Less(a: JsNumber, b: JsNumber)
    ensures a.NaN? || b.NaN? ==> !Less(a, b)
    ensures Less(a, b) ==> a != b
  {
    a.Finite? && b.Finite? && a.value < b.value
  }

  // ---------------------------------------------------------------------------
  // Characters

  /** The WhiteSpace and LineTerminator code points that `String.prototype.trim` removes. */
  predicate IsSpace(c: char)
  {
    c == '\t' || c == '\n' || c == '\U{B}' || c == '\U{C}' || c == '\r' || c == ' '
    || c == '\U{A0}' || c == '\U{1680}' || ('\U{2000}' <= c <= '\U{200A}')
    || c == '\U{2028}' || c == '\U{2029}' || c == '\U{202F}' || c == '\U{205F}'
    || c == '\U{3000}' || c == '\U{FEFF}'
  }

  /** The regular-expression class `\d`. */
  predicate IsDigit(c: char)
  {
    '0' <= c <= '9'
  }

  predicate IsHexDigit(c: char)
  {
    IsDigit(c) || 'a' <= c <= 'f' || 'A' <= c <= 'F'
  }

  /** The regular-expression class `[A-Z]`. */
  predicate IsAsciiUpper(c: char)
  {
    'A' <= c <= 'Z'
  }

  function ToAsciiLower(c: char): (r: char)
    ensures IsAsciiUpper(c) ==> r as int == c as int + 32
    ensures !IsAsciiUpper(c) ==> r == c
  {
    if IsAsciiUpper(c) then (c as int + 32) as char else c
  }

  function ToAsciiUpper(c: char): (r: char)
    ensures 'a' <= c <= 'z' ==> r as int == c as int - 32
    ensures !('a' <= c <= 'z') ==> r == c
  {
    if 'a' <= c <= 'z' then (c as int - 32) as char else c
  }

  predicate AllDigits(s: string)
  {
    forall i :: 0 <= i < |s| ==> IsDigit(s[i])
  }

  predicate AllHexDigits(s: string)
  {
    forall i :: 0 <= i < |s| ==> IsHexDigit(s[i])
  }

  // ---------------------------------------------------------------------------
  // Strings

  /** `s.startsWith(p)` */
  predicate StartsWith(s: string, p: string)
  {
    |p| <= |s| && s[..|p|] == p
  }

  /** `s.includes(p)`: `p` occurs somewhere in `s` as a contiguous block. */
  predicate Includes(s: string, p: string)
  {
    exists i :: 0 <= i <= |s| - |p| && OccursAt(s, p, i)
  }

  /** `p` occurs in `s` starting at position `i`. */
  predicate OccursAt(s: string, p: string, i: int)
  {
    0 <= i && i + |p| <= |s| && s[i..i + |p|] == p
  }

  /** `s.substring(0, n)` */
  function Truncate(s: string, n: nat): (r: string)
    ensures |r| <= n && |r| <= |s|
    ensures forall i :: 0 <= i < |r| ==> r[i] == s[i]
    ensures |s| <= n ==> r == s
    ensures n < |s| ==> |r| == n
  {
    if |s| <= n then s else s[..n]
  }

  /** `s.slice(-n)` for a positive `n`: the last `n` characters, or all of `s` when it is shorter. */
  function SliceFromEnd(s: string, n: nat): (r: string)
    requires n > 0
    ensures |r| == if |s| < n then |s| else n
    ensures forall i :: 0 <= i < |r| ==> r[i] == s[|s| - |r| + i]
  {
    if |s| < n then s else s[|s| - n..]
  }

  /** `s.replace(/c/g, d)`: every occurrence of `c` becomes `d`. */
  function ReplaceAll(s: string, c: char, d: char): (r: string)
    ensures |r| == |s|
    ensures forall i :: 0 <= i < |s| ==> r[i] == if s[i] == c then d else s[i]
  {
    if s == [] then [] else [if s[0] == c then d else s[0]] + ReplaceAll(s[1..], c, d)
  }

  /** `s.replace(c, '')` with a one-character string pattern: only the first occurrence is removed. */
  function RemoveFirst(s: string, c: char): (r: string)
    ensures c !in s ==> r == s
    ensures c in s ==> |r| == |s| - 1
    ensures |s| > 0 && s[0] == c ==> r == s[1..]
  {
    if s == [] then []
    else if s[0] == c then s[1..]
    else [s[0]] + RemoveFirst(s[1..], c)
  }

  // ---------------------------------------------------------------------------
  // trim

  /** The leading-whitespace half of `trim` (also the whitespace `parseInt` skips). */
  function TrimStart(s: string): (r: string)
    ensures |r| <= |s| && r == s[|s| - |r|..]
    ensures forall i :: 0 <= i < |s| - |r| ==> IsSpace(s[i])
    ensures r != [] ==> !IsSpace(r[0])
  {
    if s != [] && IsSpace(s[0]) then
      var r := TrimStart(s[1..]);
      assert forall i :: 1 <= i < |s| - |r| ==> s[i] == s[1..][i - 1];
      r
    else s
  }

  function TrimEnd(s: string): (r: string)
    ensures |r| <= |s| && r == s[..|r|]
    ensures forall i :: |r| <= i < |s| ==> IsSpace(s[i])
    ensures r != [] ==> !IsSpace(r[|r| - 1])
  {
    if s != [] && IsSpace(s[|s| - 1]) then TrimEnd(s[..|s| - 1]) else s
  }

  /** `s.trim()` */
  function Trim(s: string): (r: string)
    ensures |r| <= |s|
    ensures r != [] ==> !IsSpace(r[0]) && !IsSpace(r[|r| - 1])
  {
    TrimEnd(TrimStart(s))
  }

  /** `trim` removes exactly the whitespace at both ends: the result is a block of `s`
      that neither starts nor ends with whitespace, and everything outside it is whitespace. */
  lemma TrimShape(s: string)
    ensures var r := Trim(s);
      exists i :: OccursAt(s, r, i)
        && (forall k :: 0 <= k < i ==> IsSpace(s[k]))
        && (forall k :: i + |r| <= k < |s| ==> IsSpace(s[k]))
    ensures Trim(s) != [] ==> !IsSpace(Trim(s)[0]) && !IsSpace(Trim(s)[|Trim(s)| - 1])
  {
    var t := TrimStart(s);
    var r := TrimEnd(t);
    var i := |s| - |t|;
    assert OccursAt(s, r, i);
    forall k | i + |r| <= k < |s|
      ensures IsSpace(s[k])
    {
      assert s[k] == t[k - i];
    }
    assert r == Trim(s);
    assert OccursAt(s, r, i)
      && (forall k :: 0 <= k < i ==> IsSpace(s[k]))
      && (forall k :: i + |r| <= k < |s| ==> IsSpace(s[k]));
  }

  /** A string with no whitespace at either end is its own trim. */
  lemma TrimOfTrimmed(s: string)
    requires s != [] ==> !IsSpace(s[0]) && !IsSpace(s[|s| - 1])
    ensures Trim(s) == s
  {
    TrimStartOfUnspaced(s);
    TrimEndOfUnspaced(s);
  }

  lemma TrimStartOfUnspaced(s: string)
    requires s != [] ==> !IsSpace(s[0])
    ensures TrimStart(s) == s
  {
  }

  lemma TrimEndOfUnspaced(s: string)
    requires s != [] ==> !IsSpace(s[|s| - 1])
    ensures TrimEnd(s) == s
  {
  }

  lemma DigitIsNotSpace(c: char)
    requires IsDigit(c)
    ensures !IsSpace(c) && c != '-' && c != '+' && c != 'x' && c != 'X'
  {
  }

  /** Trimming twice is trimming once. */
  lemma TrimIdempotent(s: string)
    ensures Trim(Trim(s)) == Trim(s)
  {
    TrimShape(s);
    TrimOfTrimmed(Trim(s));
  }

  // ---------------------------------------------------------------------------
  // Decimal digits

  function DigitValue(c: char): (d: nat)
    requires IsDigit(c)
    ensures d < 10
  {
    c as int - '0' as int
  }

  function DigitChar(d: nat): (c: char)
    requires d < 10
    ensures IsDigit(c) && DigitValue(c) == d
  {
    ('0' as int + d) as char
  }

  /** The value of a string of decimal digits, most significant first. */
  function DigitsValue(s: string): nat
    requires AllDigits(s)
  {
    if s == [] then 0 else 10 * DigitsValue(s[..|s| - 1]) + DigitValue(s[|s| - 1])
  }

  /** `n.toString()` for a non-negative integer. */
  function DecimalString(n: nat): (r: string)
    ensures r != [] && AllDigits(r)
    ensures DigitsValue(r) == n
    ensures r[0] == '0' ==> n == 0
  {
    if n < 10 then [DigitChar(n)]
    else
      var p := DecimalString(n / 10);
      var r := p + [DigitChar(n % 10)];
      assert r[..|r| - 1] == p;
      r
  }

  function HexDigitValue(c: char): (d: nat)
    requires IsHexDigit(c)
    ensures d < 16
  {
    if IsDigit(c) then DigitValue(c)
    else if 'a' <= c <= 'f' then c as int - 'a' as int + 10
    else c as int - 'A' as int + 10
  }

  function HexDigitsValue(s: string): nat
    requires AllHexDigits(s)
  {
    if s == [] then 0 else 16 * HexDigitsValue(s[..|s| - 1]) + HexDigitValue(s[|s| - 1])
  }

  /** The longest prefix of `s` made of decimal digits. */
  function LeadingDigits(s: string): (r: string)
    ensures StartsWith(s, r) && AllDigits(r)
    ensures |r| < |s| ==> !IsDigit(s[|r|])
  {
    if s != [] && IsDigit(s[0]) then [s[0]] + LeadingDigits(s[1..]) else []
  }

  function LeadingHexDigits(s: string): (r: string)
    ensures StartsWith(s, r) && AllHexDigits(r)
    ensures |r| < |s| ==> !IsHexDigit(s[|r|])
  {
    if s != [] && IsHexDigit(s[0]) then [s[0]] + LeadingHexDigits(s[1..]) else []
  }

  // ---------------------------------------------------------------------------
  // Number conversions

  function Negate(n: JsNumber): JsNumber
  {
    if n.Finite? then Finite(-n.value) else NaN
  }

  /** `parseInt(s)` with no radix: leading whitespace is skipped, then an optional sign, then
      a `0x`/`0X` prefix selects base 16; the longest run of digits of the base is read, and
      NaN results when that run is empty. */
  function ParseInt(s: string): (r: JsNumber)
    ensures r.Finite? ==> LeadingDigits(TrimStart(s)) != [] || |TrimStart(s)| >= 2
    ensures var t := TrimStart(s);
      var u := if t != [] && (t[0] == '-' || t[0] == '+') then t[1..] else t;
      !HexPrefixed(u) ==>
        r == if LeadingDigits(u) == [] then NaN
          else if t[0] == '-' then Finite(-(DigitsValue(LeadingDigits(u)) as int))
          else Finite(DigitsValue(LeadingDigits(u)))
  {
    var t := TrimStart(s);
    if t != [] && t[0] == '-' then Negate(ParseUnsigned(t[1..]))
    else if t != [] && t[0] == '+' then ParseUnsigned(t[1..])
    else ParseUnsigned(t)
  }

  /** A `0x` or `0X` prefix, which makes `parseInt` read base 16. */
  predicate HexPrefixed(u: string)
  {
    |u| >= 2 && u[0] == '0' && (u[1] == 'x' || u[1] == 'X')
  }

  function ParseUnsigned(t: string): (r: JsNumber)
    ensures r.Finite? ==> r.value >= 0
    ensures r.NaN? <==>
      if |t| >= 2 && t[0] == '0' && (t[1] == 'x' || t[1] == 'X') then LeadingHexDigits(t[2..]) == []
      else LeadingDigits(t) == []
  {
    if |t| >= 2 && t[0] == '0' && (t[1] == 'x' || t[1] == 'X') then
      var h := LeadingHexDigits(t[2..]);
      if h == [] then NaN else Finite(HexDigitsValue(h))
    else
      var d := LeadingDigits(t);
      if d == [] then NaN else Finite(DigitsValue(d))
  }

  /** A digit run followed by other characters reads as the run. */
  lemma ParseIntStopsAtNonDigit()
    ensures ParseInt("12abc") == Finite(12)
  {
    assert !IsSpace('1');
    assert TrimStart("12abc") == "12abc";
    assert "12abc"[1..] == "2abc" && "2abc"[1..] == "abc";
    assert LeadingDigits("abc") == [];
    assert LeadingDigits("12abc") == "12";
    assert DigitsValue("12") == 12 by {
      assert "12"[..1] == "1";
      assert "1"[..0] == "";
    }
  }

  /** Leading whitespace is skipped and a '-' sign negates the run. */
  lemma ParseIntSignedAfterSpace()
    ensures ParseInt(" -5") == Finite(-5)
  {
    assert IsSpace(' ') && !IsSpace('-');
    assert " -5"[1..] == "-5";
    assert TrimStart("-5") == "-5";
    assert TrimStart(" -5") == "-5";
    assert "-5"[1..] == "5" && "5"[1..] == [];
    assert LeadingDigits("5") == "5";
    assert DigitsValue("5") == 5 by {
      assert "5"[..0] == "";
    }
  }

  /** `parseInt` of a string made only of decimal digits reads exactly that number, and of the
      empty string gives NaN. */
  lemma ParseIntOfDigits(s: string)
    requires AllDigits(s)
    ensures ParseInt(s) == if s == [] then NaN else Finite(DigitsValue(s))
  {
    if s != [] {
      DigitIsNotSpace(s[0]);
      TrimStartOfUnspaced(s);
      if |s| >= 2 {
        DigitIsNotSpace(s[1]);
      }
      LeadingDigitsOfDigits(s);
      assert ParseInt(s) == ParseUnsigned(s);
    }
  }

  lemma {:induction false} LeadingDigitsOfDigits(s: string)
    requires AllDigits(s)
    ensures LeadingDigits(s) == s
  {
    if s != [] {
      LeadingDigitsOfDigits(s[1..]);
    }
  }

  /** The `Number(s)` conversion of a string, for the literal forms the model reads: after
      trimming, the empty string is 0, an optionally signed run of decimal digits is its value,
      and an unsigned `0x`/`0X` run of hex digits is its value; anything else is NaN. */
  function StringToNumber(s: string): (r: JsNumber)
    ensures Trim(s) == [] ==> r == Finite(0)
    ensures Trim(s) != [] && AllDigits(Trim(s)) ==> r == Finite(DigitsValue(Trim(s)))
    ensures |Trim(s)| > 1 && Trim(s)[0] == '-' && AllDigits(Trim(s)[1..]) ==> r == Finite(-(DigitsValue(Trim(s)[1..]) as int))
    ensures r.Finite? && Trim(s) != [] ==> IsHexDigit(Trim(s)[|Trim(s)| - 1])
  {
    var t := Trim(s);
    if t == [] then Finite(0)
    else if |t| > 2 && t[0] == '0' && (t[1] == 'x' || t[1] == 'X') && AllHexDigits(t[2..]) then
      assert !IsDigit(t[1]) && t[2..][|t| - 3] == t[|t| - 1];
      Finite(HexDigitsValue(t[2..]))
    else if (t[0] == '-' || t[0] == '+') && |t| > 1 && AllDigits(t[1..]) then
      assert !IsDigit(t[0]) && t[1..][|t| - 2] == t[|t| - 1];
      if t[0] == '-' then Finite(-(DigitsValue(t[1..]) as int)) else Finite(DigitsValue(t[1..]))
    else if AllDigits(t) then
      assert IsDigit(t[|t| - 1]);
      Finite(DigitsValue(t))
    else NaN
  }

  /** `Number` of a non-empty run of decimal digits is the number they spell. */
  lemma StringToNumberOfDigits(s: string)
    requires s != [] && AllDigits(s)
    ensures StringToNumber(s) == Finite(DigitsValue(s))
  {
    DigitIsNotSpace(s[0]);
    DigitIsNotSpace(s[|s| - 1]);
    TrimOfTrimmed(s);
    if |s| >= 2 {
      DigitIsNotSpace(s[1]);
    }
  }

  // ---------------------------------------------------------------------------
  // 32-bit integers

  const TWO_31: int := 0x8000_0000
  const TWO_32: int := 0x1_0000_0000

  predicate IsInt32(x: int)
  {
    -TWO_31 <= x < TWO_31
  }

  /** ToInt32: the value modulo 2^32, read as a signed 32-bit integer. */
  function ToInt32(x: int): (r: int)
    ensures IsInt32(r)
    ensures (r - x) % TWO_32 == 0
    ensures IsInt32(x) ==> r == x
  {
    (x + TWO_31) % TWO_32 - TWO_31
  }

  /** ToInt32 depends only on the value modulo 2^32. */
  lemma ToInt32Congruent(x: int, y: int)
    requires (x - y) % TWO_32 == 0
    ensures ToInt32(x) == ToInt32(y)
  {
    var k := (x - y) / TWO_32;
    assert x == y + k * TWO_32;
    ModAddMultiple(y + TWO_31, k);
  }

  lemma ModAddMultiple(a: int, k: int)
    ensures (a + k * TWO_32) % TWO_32 == a % TWO_32
  {
  }
}
