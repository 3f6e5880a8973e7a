/** unicodeEncode (util.go): a string as the hexadecimal text of its UTF-16 code
    units, the form a modem in UCS2 character-set mode expects for message bodies and
    telephone numbers. */
module Ucs2 {
  import opened Wrappers
  import opened Text

  /** A UTF-16 code unit. */
  predicate IsUnit(u: int) {
    0 <= u < 0x1_0000
  }

  predicate AllUnits(us: seq<int>) {
    forall i :: 0 <= i < |us| ==> IsUnit(us[i])
  }

  /** utf16.Encode on one character: a character of the Basic Multilingual Plane is
      its own code unit; any other is a high surrogate followed by a low surrogate.
      A Dafny `char` is a Unicode scalar value, so the replacement-character case
      for surrogate code points and values past U+10FFFF cannot arise. */
  function CharUnits(c: char): (us: seq<int>)
    ensures |us| == (if c as int < 0x1_0000 then 1 else 2)
    ensures AllUnits(us)
  {
    if c as int < 0x1_0000 then [c as int]
    else
      var v := c as int - 0x1_0000;
      [0xD800 + v / 0x400, 0xDC00 + v % 0x400]
  }

  /** utf16.Encode([]rune(s)): the code units of every character, in order. */
  function Utf16(s: string): (us: seq<int>)
    ensures AllUnits(us)
    decreases |s|
  {
    if s == [] then [] else CharUnits(s[0]) + Utf16(s[1..])
  }

  // ---------------------------------------------------------------------------
  // The verb %04x on one code unit

  predicate IsLowerHex(c: char) {
    '0' <= c <= '9' || 'a' <= c <= 'f'
  }

  function HexDigit(d: nat): (c: char)
    requires d < 16
    ensures IsLowerHex(c)
  {
    if d < 10 then ('0' as int + d) as char else ('a' as int + d - 10) as char
  }

  /** %04x on a code unit: four lower-case hexadecimal digits, zero-padded. A code
      unit never needs more than four. */
  function Hex4(u: int): (r: string)
    requires IsUnit(u)
    ensures |r| == 4 && forall i :: 0 <= i < 4 ==> IsLowerHex(r[i])
  {
    var q1 := u / 16;
    var q2 := q1 / 16;
    [HexDigit(q2 / 16), HexDigit(q2 % 16), HexDigit(q1 % 16), HexDigit(u % 16)]
  }

  function Hex4Each(us: seq<int>): (r: seq<string>)
    requires AllUnits(us)
    ensures |r| == |us| && forall i :: 0 <= i < |us| ==> r[i] == Hex4(us[i])
  {
    seq(|us|, i requires 0 <= i < |us| => Hex4(us[i]))
  }

  /** fmt.Sprintf("%04x", units) on a slice: the formatted elements separated by
      spaces, inside square brackets. */
  function SprintHex(us: seq<int>): string
    requires AllUnits(us)
  {
    "[" + Join(Hex4Each(us), " ") + "]"
  }

  /** strings.Replace(s, " ", "", -1) */
  function RemoveSpaces(s: string): (r: string)
    ensures forall i :: 0 <= i < |r| ==> r[i] != ' '
    decreases |s|
  {
    if s == [] then [] else (if s[0] == ' ' then [] else [s[0]]) + RemoveSpaces(s[1..])
  }

  /** unicodeEncode: format the code units, drop the brackets, drop the spaces. */
  function UnicodeEncode(s: string): string {
    var hex := SprintHex(Utf16(s));
    RemoveSpaces(hex[1..|hex| - 1])
  }

  // ---------------------------------------------------------------------------
  // What unicodeEncode produces: four hex digits per code unit, run together

  /** The four-digit groups of the code units, concatenated without separators. */
  function HexText(us: seq<int>): (r: string)
    requires AllUnits(us)
    ensures |r| == 4 * |us|
    decreases |us|
  {
    if us == [] then [] else Hex4(us[0]) + HexText(us[1..])
  }

  lemma {:induction false} RemoveSpacesAppend(a: string, b: string)
    ensures RemoveSpaces(a + b) == RemoveSpaces(a) + RemoveSpaces(b)
    decreases |a|
  {
    if a == [] {
      assert a + b == b;
    } else {
      assert (a + b)[0] == a[0] && (a + b)[1..] == a[1..] + b;
      RemoveSpacesAppend(a[1..], b);
    }
  }

  lemma {:induction false} RemoveSpacesNone(s: string)
    requires forall i :: 0 <= i < |s| ==> s[i] != ' '
    ensures RemoveSpaces(s) == s
    decreases |s|
  {
    if s != [] {
      RemoveSpacesNone(s[1..]);
    }
  }

  /** Removing the spaces from the space-separated groups runs the groups together. */
  lemma {:induction false} RemoveSpacesOfJoin(us: seq<int>)
    requires AllUnits(us)
    ensures RemoveSpaces(Join(Hex4Each(us), " ")) == HexText(us)
    decreases |us|
  {
    if us != [] {
      var parts := Hex4Each(us);
      RemoveSpacesNone(Hex4(us[0]));
      assert parts[1..] == Hex4Each(us[1..]);
      if |us| == 1 {
        assert HexText(us) == Hex4(us[0]) + HexText([]);
      } else {
        RemoveSpacesOfJoin(us[1..]);
        RemoveSpacesAppend(Hex4(us[0]) + " ", Join(parts[1..], " "));
        RemoveSpacesAppend(Hex4(us[0]), " ");
      }
    }
  }

  /** unicodeEncode is the four-digit groups of the UTF-16 code units, run together. */
  lemma UnicodeEncodeIsHexText(s: string)
    ensures UnicodeEncode(s) == HexText(Utf16(s))
  {
    var hex := SprintHex(Utf16(s));
    assert hex[1..|hex| - 1] == Join(Hex4Each(Utf16(s)), " ");
    RemoveSpacesOfJoin(Utf16(s));
  }

  /** Every character of the output is a lower-case hexadecimal digit, four per code
      unit, and the empty string encodes to the empty string. */
  lemma UnicodeEncodeShape(s: string)
    ensures |UnicodeEncode(s)| == 4 * |Utf16(s)|
    ensures forall i :: 0 <= i < |UnicodeEncode(s)| ==> IsLowerHex(UnicodeEncode(s)[i])
    ensures s == [] <==> UnicodeEncode(s) == []
  {
    UnicodeEncodeIsHexText(s);
    HexTextDigits(Utf16(s));
    if s != [] {
      assert |Utf16(s)| >= 1;
    }
  }

  lemma {:induction false} HexTextDigits(us: seq<int>)
    requires AllUnits(us)
    ensures forall i :: 0 <= i < |HexText(us)| ==> IsLowerHex(HexText(us)[i])
    decreases |us|
  {
    if us != [] {
      HexTextDigits(us[1..]);
      var h := Hex4(us[0]);
      var t := HexText(us[1..]);
      assert forall i :: 4 <= i < |h + t| ==> (h + t)[i] == t[i - 4];
    }
  }

  /** Within the Basic Multilingual Plane every character is one code unit. */
  lemma {:induction false} Utf16OfBmp(s: string)
    requires forall i :: 0 <= i < |s| ==> s[i] as int < 0x1_0000
    ensures |Utf16(s)| == |s|
    ensures forall i :: 0 <= i < |s| ==> Utf16(s)[i] == s[i] as int
    decreases |s|
  {
    if s != [] {
      Utf16OfBmp(s[1..]);
    }
  }

  /** Within the Basic Multilingual Plane the output is exactly four hex digits per
      character, and character `i` is the number written by digits 4i to 4i+3. */
  lemma UnicodeEncodeBmp(s: string)
    requires forall i :: 0 <= i < |s| ==> s[i] as int < 0x1_0000
    ensures |UnicodeEncode(s)| == 4 * |s|
    ensures forall i :: 0 <= i < |s| ==> UnicodeEncode(s)[4 * i..4 * i + 4] == Hex4(s[i] as int)
  {
    Utf16OfBmp(s);
    UnicodeEncodeIsHexText(s);
    HexTextGroups(Utf16(s));
  }

  lemma {:induction false} HexTextGroups(us: seq<int>)
    requires AllUnits(us)
    ensures forall i :: 0 <= i < |us| ==> HexText(us)[4 * i..4 * i + 4] == Hex4(us[i])
    decreases |us|
  {
    if us != [] {
      HexTextGroups(us[1..]);
      var h := Hex4(us[0]);
      var t := HexText(us[1..]);
      forall i | 0 <= i < |us| ensures (h + t)[4 * i..4 * i + 4] == Hex4(us[i]) {
        if i == 0 {
          assert (h + t)[..4] == h;
        } else {
          assert (h + t)[4 * i..4 * i + 4] == t[4 * (i - 1)..4 * (i - 1) + 4];
        }
      }
    }
  }

  // ---------------------------------------------------------------------------
  // The inverse: reading the hexadecimal text back (what the modem does with it)

  function HexValue(c: char): Option<nat> {
    if '0' <= c <= '9' then Some(c as int - '0' as int)
    else if 'a' <= c <= 'f' then Some(c as int - 'a' as int + 10)
    else if 'A' <= c <= 'F' then Some(c as int - 'A' as int + 10)
    else None
  }

  /** Four hexadecimal digits read as a code unit. */
  function ParseHex4(t: string): (r: Option<int>)
    requires |t| == 4
    ensures r.Some? ==> IsUnit(r.value)
  {
    match (HexValue(t[0]), HexValue(t[1]), HexValue(t[2]), HexValue(t[3]))
    case (Some(a), Some(b), Some(c), Some(d)) =>
      if a < 16 && b < 16 && c < 16 && d < 16 then Some(((a * 16 + b) * 16 + c) * 16 + d) else None
    case _ => None
  }

  /** Hexadecimal text read four digits at a time. */
  function ParseUnits(h: string): (r: Option<seq<int>>)
    ensures r.Some? ==> AllUnits(r.value)
    decreases |h|
  {
    if h == [] then Some([])
    else if |h| < 4 then None
    else
      match (ParseHex4(h[..4]), ParseUnits(h[4..]))
      case (Some(u), Some(us)) => Some([u] + us)
      case _ => None
  }

  /** utf16.Decode without replacement: a surrogate pair becomes one character, and a
      lone surrogate is an error. */
  function FromUtf16(us: seq<int>): Option<string>
    decreases |us|
  {
    if us == [] then Some([])
    else
      var u := us[0];
      if 0xD800 <= u < 0xDC00 && |us| >= 2 && 0xDC00 <= us[1] < 0xE000 then
        var c := (0x1_0000 + (u - 0xD800) * 0x400 + (us[1] - 0xDC00)) as char;
        match FromUtf16(us[2..])
        case Some(t) => Some([c] + t)
        case None => None
      else if 0 <= u < 0xD800 || 0xE000 <= u < 0x1_0000 then
        match FromUtf16(us[1..])
        case Some(t) => Some([u as char] + t)
        case None => None
      else None
  }

  /** The modem's reading of UCS2 hexadecimal text. */
  function UnicodeDecode(h: string): Option<string> {
    match ParseUnits(h)
    case Some(us) => FromUtf16(us)
    case None => None
  }

  lemma HexDigitValue(d: nat)
    requires d < 16
    ensures HexValue(HexDigit(d)) == Some(d)
  {
  }

  lemma Hex4RoundTrip(u: int)
    requires IsUnit(u)
    ensures ParseHex4(Hex4(u)) == Some(u)
  {
    var q1 := u / 16;
    var q2 := q1 / 16;
    HexDigitValue(q2 / 16);
    HexDigitValue(q2 % 16);
    HexDigitValue(q1 % 16);
    HexDigitValue(u % 16);
  }

  lemma {:induction false} ParseHexText(us: seq<int>)
    requires AllUnits(us)
    ensures ParseUnits(HexText(us)) == Some(us)
    decreases |us|
  {
    if us != [] {
      var h := Hex4(us[0]);
      var t := HexText(us[1..]);
      assert (h + t)[..4] == h && (h + t)[4..] == t;
      Hex4RoundTrip(us[0]);
      ParseHexText(us[1..]);
      assert [us[0]] + us[1..] == us;
    }
  }

  lemma CharUnitsRoundTrip(c: char, rest: seq<int>, t: string)
    requires FromUtf16(rest) == Some(t)
    ensures FromUtf16(CharUnits(c) + rest) == Some([c] + t)
  {
    var us := CharUnits(c) + rest;
    if c as int < 0x1_0000 {
      assert us[1..] == rest;
    } else {
      assert us[2..] == rest;
    }
  }

  lemma {:induction false} Utf16RoundTrip(s: string)
    ensures FromUtf16(Utf16(s)) == Some(s)
    decreases |s|
  {
    if s != [] {
      Utf16RoundTrip(s[1..]);
      CharUnitsRoundTrip(s[0], Utf16(s[1..]), s[1..]);
      assert [s[0]] + s[1..] == s;
    }
  }

  /** Nothing is lost: the modem can read every string back from its encoding, so
      two different strings never share an encoding. */
  lemma UnicodeRoundTrip(s: string)
    ensures UnicodeDecode(UnicodeEncode(s)) == Some(s)
  {
    UnicodeEncodeIsHexText(s);
    ParseHexText(Utf16(s));
    Utf16RoundTrip(s);
  }

  lemma UnicodeEncodeInjective(s: string, t: string)
    requires UnicodeEncode(s) == UnicodeEncode(t)
    ensures s == t
  {
    UnicodeRoundTrip(s);
    UnicodeRoundTrip(t);
  }
}
