/** The JavaScript string operations and values the holidays page uses:
    `toLowerCase`, `includes`, `parseInt`, and the three kinds of value
    its state fields take (a number, NaN, a string). */
module JsStrings {

  /** A JavaScript value as the page's state fields hold it. Numbers are the
      integers `parseInt` and the page counter produce. */
  datatype JsValue = Number(n: int) | NaN | Str(s: string)

  /** JavaScript truthiness of such a value. */
  predicate Truthy(v: JsValue)
  {
    match v
    case Number(n) => n != 0
    case NaN => false
    case Str(s) => s != ""
  }

  // ---------------------------------------------------------------------
  // toLowerCase
  // ---------------------------------------------------------------------

  /** An upper-case letter of Basic Latin or of Latin-1 (which covers the
      accented capitals of French, such as 'É' and 'À'). */
  predicate IsUpper(c: char)
  {
    ('A' <= c <= 'Z') || ('\U{C0}' <= c <= '\U{DE}' && c != '\U{D7}')
  }

  /** The lower-case form of one character; for the letters above it is the
      code point 32 places further on. */
  function LowerChar(c: char): (d: char)
    ensures IsUpper(c) ==> d as int == c as int + 32
    ensures !IsUpper(c) ==> d == c
    ensures !IsUpper(d)
  {
    if IsUpper(c) then (c as int + 32) as char else c
  }

  /** `s.toLowerCase()`, restricted to the letters `LowerChar` knows. */
  function ToLower(s: string): (r: string)
    ensures |r| == |s|
    ensures forall i :: 0 <= i < |s| ==> r[i] == LowerChar(s[i])
  {
    if s == [] then [] else [LowerChar(s[0])] + ToLower(s[1..])
  }

  /** Lower-casing a part of a string gives that part of the lower-cased
      string. */
  lemma ToLowerSlice(s: string, i: nat, j: nat)
    requires i <= j <= |s|
    ensures ToLower(s[i..j]) == ToLower(s)[i..j]
  {
    var part, whole := ToLower(s[i..j]), ToLower(s);
    assert |part| == |whole[i..j]|;
    forall k | 0 <= k < |part|
      ensures part[k] == whole[i..j][k]
    {
      assert s[i..j][k] == s[i + k];
    }
  }

  /** Lower-casing twice is lower-casing once. */
  lemma ToLowerIdempotent(s: string)
    ensures ToLower(ToLower(s)) == ToLower(s)
  {
  }

  // ---------------------------------------------------------------------
  // includes
  // ---------------------------------------------------------------------

  predicate StartsWith(s: string, prefix: string)
  {
    |prefix| <= |s| && s[..|prefix|] == prefix
  }

  /** `hay.includes(needle)`: `needle` occurs in `hay` at some position,
      searched from the front. */
  predicate Includes(hay: string, needle: string): (b: bool)
    decreases |hay|
    ensures b ==> |needle| <= |hay|
    ensures needle == [] ==> b
  {
    StartsWith(hay, needle) || (hay != [] && Includes(hay[1..], needle))
  }

  /** `needle` occurs in `hay` starting at position `i`. */
  predicate OccursAt(hay: string, needle: string, i: int)
  {
    0 <= i && i + |needle| <= |hay| && hay[i..i + |needle|] == needle
  }

  /** The front-to-back search agrees with the definition of an occurrence,
      in both directions. */
  lemma {:induction false} IncludesIff(hay: string, needle: string)
    ensures Includes(hay, needle) <==> exists i :: OccursAt(hay, needle, i)
  {
    if StartsWith(hay, needle) {
      assert OccursAt(hay, needle, 0);
    }
    if hay != [] {
      IncludesIff(hay[1..], needle);
      if exists i :: OccursAt(hay, needle, i) {
        var i :| OccursAt(hay, needle, i);
        if i > 0 {
          assert OccursAt(hay[1..], needle, i - 1) by {
            assert hay[1..][i - 1..i - 1 + |needle|] == hay[i..i + |needle|];
          }
        }
      }
      if Includes(hay[1..], needle) {
        var i :| OccursAt(hay[1..], needle, i);
        assert OccursAt(hay, needle, i + 1) by {
          assert hay[1..][i..i + |needle|] == hay[i + 1..i + 1 + |needle|];
        }
      }
    } else if exists i :: OccursAt(hay, needle, i) {
      var i :| OccursAt(hay, needle, i);
      assert StartsWith(hay, needle);
    }
  }

  /** Occurrence is transitive: a string that includes `mid` includes
      everything `mid` includes. */
  lemma IncludesTransitive(hay: string, mid: string, needle: string)
    requires Includes(hay, mid) && Includes(mid, needle)
    ensures Includes(hay, needle)
  {
    IncludesIff(hay, mid);
    IncludesIff(mid, needle);
    var i :| OccursAt(hay, mid, i);
    var j :| OccursAt(mid, needle, j);
    assert OccursAt(hay, needle, i + j) by {
      forall k | 0 <= k < |needle|
        ensures hay[i + j + k] == needle[k]
      {
        assert needle[k] == mid[j + k] == hay[i..i + |mid|][j + k];
      }
    }
    IncludesIff(hay, needle);
  }

  /** Lower-casing both sides keeps every occurrence. */
  lemma IncludesToLower(hay: string, needle: string)
    requires Includes(hay, needle)
    ensures Includes(ToLower(hay), ToLower(needle))
  {
    IncludesIff(hay, needle);
    var i :| OccursAt(hay, needle, i);
    OccursAtToLower(hay, needle, i);
    IncludesIff(ToLower(hay), ToLower(needle));
  }

  /** An occurrence at `i` is still an occurrence at `i` after lower-casing. */
  lemma OccursAtToLower(hay: string, needle: string, i: int)
    requires OccursAt(hay, needle, i)
    ensures OccursAt(ToLower(hay), ToLower(needle), i)
  {
    ToLowerSlice(hay, i, i + |needle|);
  }

  // ---------------------------------------------------------------------
  // parseInt (one argument, no radix)
  // ---------------------------------------------------------------------

  /** The white-space and line-terminator characters `parseInt` skips at the
      front: tab, line feed, vertical tab, form feed, carriage return, the
      space separators (space, no-break space, U+1680, U+2000 to U+200A,
      U+202F, U+205F, U+3000), the line and paragraph separators and the
      byte order mark. */
  predicate IsJsWhiteSpace(c: char)
  {
    c == '\t' || c == '\n' || c == '\U{B}' || c == '\U{C}' || c == '\r' || c == ' '
    || c == '\U{A0}' || c == '\U{1680}' || ('\U{2000}' <= c <= '\U{200A}')
    || c == '\U{2028}' || c == '\U{2029}' || c == '\U{202F}' || c == '\U{205F}'
    || c == '\U{3000}' || c == '\U{FEFF}'
  }

  function TrimStart(s: string): (r: string)
    ensures |r| <= |s| && r == s[|s| - |r|..]
    ensures r == [] || !IsJsWhiteSpace(r[0])
    ensures forall i :: 0 <= i < |s| - |r| ==> IsJsWhiteSpace(s[i])
  {
    if s != [] && IsJsWhiteSpace(s[0]) then TrimStart(s[1..]) else s
  }

  /** The value of a digit character in radix 36: '0'-'9', then 'a'-'z' or
      'A'-'Z' for 10 to 35; 36 for any other character. */
  function DigitValue(c: char): (d: nat)
    ensures d <= 36
    ensures '0' <= c <= '9' ==> d == c as int - '0' as int
    ensures 'a' <= c <= 'z' ==> d == c as int - 'a' as int + 10
    ensures 'A' <= c <= 'Z' ==> d == c as int - 'A' as int + 10
    ensures d == 36 <==> !(('0' <= c <= '9') || ('a' <= c <= 'z') || ('A' <= c <= 'Z'))
  {
    if '0' <= c <= '9' then c as int - '0' as int
    else if 'a' <= c <= 'z' then c as int - 'a' as int + 10
    else if 'A' <= c <= 'Z' then c as int - 'A' as int + 10
    else 36
  }

  /** The length of the longest prefix of `s` made of digits of `radix`. */
  function DigitRun(s: string, radix: nat): (k: nat)
    ensures k <= |s|
    ensures forall i :: 0 <= i < k ==> DigitValue(s[i]) < radix
    ensures k < |s| ==> DigitValue(s[k]) >= radix
  {
    if s == [] || DigitValue(s[0]) >= radix then 0 else 1 + DigitRun(s[1..], radix)
  }

  /** The number a string of digits denotes in `radix`, most significant
      digit first. */
  function DigitsValue(ds: string, radix: nat): nat
  {
    if ds == [] then 0
    else DigitsValue(ds[..|ds| - 1], radix) * radix + DigitValue(ds[|ds| - 1])
  }

  /** The unsigned part of `parseInt`: hexadecimal after a "0x"/"0X"
      prefix, decimal otherwise, converting the longest run of digits; NaN
      when that run is empty. */
  function ParseMagnitude(u: string): (r: JsValue)
    ensures r.NaN? || (r.Number? && r.n >= 0)
  {
    var hex := |u| >= 2 && u[0] == '0' && (u[1] == 'x' || u[1] == 'X');
    var radix := if hex then 16 else 10;
    var v := if hex then u[2..] else u;
    var k := DigitRun(v, radix);
    if k == 0 then NaN else Number(DigitsValue(v[..k], radix))
  }

  /** `parseInt(s)`: skip leading white space, take an optional sign, then
      read the magnitude; a '-' negates it. */
  function ParseInt(s: string): (r: JsValue)
    ensures !r.Str?
  {
    var t := TrimStart(s);
    if t != [] && t[0] == '-' then
      match ParseMagnitude(t[1..])
      case Number(m) => Number(-m)
      case _ => NaN
    else if t != [] && t[0] == '+' then ParseMagnitude(t[1..])
    else ParseMagnitude(t)
  }

  // ---------------------------------------------------------------------
  // Decimal rendering, the form in which the year selector offers years
  // ---------------------------------------------------------------------

  function DigitChar(d: nat): (c: char)
    requires d < 10
    ensures DigitValue(c) == d
  {
    ('0' as int + d) as char
  }

  /** `String(n)` for a non-negative integer. */
  function NatToString(n: nat): (s: string)
    ensures |s| > 0
    ensures forall i :: 0 <= i < |s| ==> '0' <= s[i] <= '9'
    ensures |s| > 1 ==> s[0] != '0'
  {
    if n < 10 then [DigitChar(n)] else NatToString(n / 10) + [DigitChar(n % 10)]
  }

  lemma {:induction false} DigitsValueOfNatToString(n: nat)
    ensures DigitsValue(NatToString(n), 10) == n
  {
    var s := NatToString(n);
    if n >= 10 {
      DigitsValueOfNatToString(n / 10);
      assert s[..|s| - 1] == NatToString(n / 10);
    }
  }

  /** The magnitude reader reads back a rendered number and stops at the
      first character that is not a decimal digit. */
  lemma MagnitudeOfDecimal(n: nat, rest: string)
    requires rest == [] || !('0' <= rest[0] <= '9')
    requires n == 0 && rest != [] ==> rest[0] != 'x' && rest[0] != 'X'
    ensures ParseMagnitude(NatToString(n) + rest) == Number(n)
  {
    var digits := NatToString(n);
    var u := digits + rest;
    assert u[0] == digits[0];
    assert |u| >= 2 && u[0] == '0' ==> |digits| == 1 && u[1] == rest[0];
    DigitRunOfDigits(digits, rest);
    assert u[..|digits|] == digits;
    DigitsValueOfNatToString(n);
  }

  /** A string that does not begin with white space is not trimmed. */
  lemma TrimStartNoWhiteSpace(s: string)
    requires s != [] && !IsJsWhiteSpace(s[0])
    ensures TrimStart(s) == s
  {
  }

  /** `parseInt` reads back a rendered number, and ignores whatever follows
      it from the first character that is not a decimal digit (unless that
      turns "0" into a hexadecimal prefix). */
  lemma ParseIntOfDecimal(n: nat, rest: string)
    requires rest == [] || !('0' <= rest[0] <= '9')
    requires n == 0 && rest != [] ==> rest[0] != 'x' && rest[0] != 'X'
    ensures ParseInt(NatToString(n) + rest) == Number(n)
  {
    var s := NatToString(n) + rest;
    MagnitudeOfDecimal(n, rest);
    assert s[0] == NatToString(n)[0];
    TrimStartNoWhiteSpace(s);
  }

  /** A leading '-' negates what `parseInt` reads. */
  lemma ParseIntOfNegatedDecimal(n: nat, rest: string)
    requires rest == [] || !('0' <= rest[0] <= '9')
    requires n == 0 && rest != [] ==> rest[0] != 'x' && rest[0] != 'X'
    ensures ParseInt("-" + NatToString(n) + rest) == Number(-(n as int))
  {
    var u := NatToString(n) + rest;
    assert "-" + NatToString(n) + rest == ['-'] + u;
    MagnitudeOfDecimal(n, rest);
    ParseIntNegated(u, n);
  }

  lemma ParseIntNegated(u: string, n: nat)
    requires ParseMagnitude(u) == Number(n)
    ensures ParseInt(['-'] + u) == Number(-(n as int))
  {
    var s := ['-'] + u;
    TrimStartNoWhiteSpace(s);
    assert s[1..] == u;
  }

  lemma DigitRunOfDigits(digits: string, rest: string)
    requires forall i :: 0 <= i < |digits| ==> '0' <= digits[i] <= '9'
    requires rest == [] || !('0' <= rest[0] <= '9')
    ensures DigitRun(digits + rest, 10) == |digits|
  {
    var s := digits + rest;
    assert forall i :: 0 <= i < |digits| ==> s[i] == digits[i];
    assert |digits| < |s| ==> s[|digits|] == rest[0];
  }
}
