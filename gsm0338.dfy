/** The GSM 03.38 default-alphabet conversion the driver applies to message text: a
    character-for-character table in each direction, where the extension characters
    are written as the escape character 0x1B followed by a second character. */
module Gsm0338 {
  import opened Wrappers

  const Escape: char := '\U{1B}'

  /** The gsm0338Encode table, keyed like the source's map by the character's code
      point: the text that stands for the character on the wire, or None when the
      table does not list it. Note that it sends '\r' as 0x0A and '\n' as 0x0D. */
  function EncodeTable(c: char): Option<string> {
    match c as int
    case 0x40 => Some("\U{0}")  // '@'
    case 0xA3 => Some("\U{1}")  // '£'
    case 0x24 => Some("\U{2}")  // '$'
    case 0xA5 => Some("\U{3}")  // '¥'
    case 0xE8 => Some("\U{4}")  // 'è'
    case 0xE9 => Some("\U{5}")  // 'é'
    case 0xF9 => Some("\U{6}")  // 'ù'
    case 0xEC => Some("\U{7}")  // 'ì'
    case 0xF2 => Some("\U{8}")  // 'ò'
    case 0xC7 => Some("\U{9}")  // 'Ç'
    case 0xD => Some("\U{A}")  // '\r'
    case 0xD8 => Some("\U{B}")  // 'Ø'
    case 0xF8 => Some("\U{C}")  // 'ø'
    case 0xA => Some("\U{D}")  // '\n'
    case 0xC5 => Some("\U{E}")  // 'Å'
    case 0xE5 => Some("\U{F}")  // 'å'
    case 0x394 => Some("\U{10}")  // 'Δ'
    case 0x5F => Some("\U{11}")  // '_'
    case 0x3A6 => Some("\U{12}")  // 'Φ'
    case 0x393 => Some("\U{13}")  // 'Γ'
    case 0x39B => Some("\U{14}")  // 'Λ'
    case 0x3A9 => Some("\U{15}")  // 'Ω'
    case 0x3A0 => Some("\U{16}")  // 'Π'
    case 0x3A8 => Some("\U{17}")  // 'Ψ'
    case 0x3A3 => Some("\U{18}")  // 'Σ'
    case 0x398 => Some("\U{19}")  // 'Θ'
    case 0x39E => Some("\U{1A}")  // 'Ξ'
    case 0xC6 => Some("\U{1C}")  // 'Æ'
    case 0xE6 => Some("\U{1D}")  // 'æ'
    case 0xC9 => Some("\U{1F}")  // 'É'
    case 0xA4 => Some("\U{24}")  // '¤'
    case 0x25 => Some("\U{25}")  // '%'
    case 0xA1 => Some("\U{40}")  // '¡'
    case 0xC4 => Some("\U{5B}")  // 'Ä'
    case 0xD6 => Some("\U{5C}")  // 'Ö'
    case 0xD1 => Some("\U{5D}")  // 'Ñ'
    case 0xDC => Some("\U{5E}")  // 'Ü'
    case 0xA7 => Some("\U{5F}")  // '§'
    case 0xE4 => Some("\U{7B}")  // 'ä'
    case 0xF6 => Some("\U{7C}")  // 'ö'
    case 0xF1 => Some("\U{7D}")  // 'ñ'
    case 0xFC => Some("\U{7E}")  // 'ü'
    case 0xE0 => Some("\U{7F}")  // 'à'
    // the extension set, each behind an escape
    case 0x20AC => Some("\U{1B}e")  // '€'
    case 0x5B => Some("\U{1B}<")  // '['
    case 0x5C => Some("\U{1B}/")  // '\\'
    case 0x5D => Some("\U{1B}>")  // ']'
    case 0x5E => Some("\U{1B}^")  // '^'
    case 0x7B => Some("\U{1B}(")  // '{'
    case 0x7C => Some("\U{1B}@")  // '|'
    case 0x7D => Some("\U{1B})")  // '}'
    case 0x7E => Some("\U{1B}=")  // '~'
    case _ => None
  }

  /** The gsm0338Decode table, keyed by code point: the character a wire character
      stands for. The table has no entries for the escaped pairs. */
  function DecodeTable(c: char): Option<char> {
    match c as int
    case 0x0 => Some('@')
    case 0x1 => Some('£')
    case 0x2 => Some('$')
    case 0x3 => Some('¥')
    case 0x4 => Some('è')
    case 0x5 => Some('é')
    case 0x6 => Some('ù')
    case 0x7 => Some('ì')
    case 0x8 => Some('ò')
    case 0x9 => Some('Ç')
    case 0xA => Some('\r')
    case 0xB => Some('Ø')
    case 0xC => Some('ø')
    case 0xD => Some('\n')
    case 0xE => Some('Å')
    case 0xF => Some('å')
    case 0x10 => Some('Δ')
    case 0x11 => Some('_')
    case 0x12 => Some('Φ')
    case 0x13 => Some('Γ')
    case 0x14 => Some('Λ')
    case 0x15 => Some('Ω')
    case 0x16 => Some('Π')
    case 0x17 => Some('Ψ')
    case 0x18 => Some('Σ')
    case 0x19 => Some('Θ')
    case 0x1A => Some('Ξ')
    case 0x1C => Some('Æ')
    case 0x1D => Some('æ')
    case 0x1F => Some('É')
    case 0x24 => Some('¤')
    case 0x25 => Some('%')
    case 0x40 => Some('¡')
    case 0x5B => Some('Ä')
    case 0x5C => Some('Ö')
    case 0x5D => Some('Ñ')
    case 0x5E => Some('Ü')
    case 0x5F => Some('§')
    case 0x7B => Some('ä')
    case 0x7C => Some('ö')
    case 0x7D => Some('ñ')
    case 0x7E => Some('ü')
    case 0x7F => Some('à')
    case _ => None
  }

  /** The characters the encode table writes as an escaped pair. */
  const EscapeSet: set<char> := {'€', '[', '\\', ']', '^', '{', '|', '}', '~'}

  /** The encode table's entries: the escape character and one more for the extension
      set, a single character for the rest. */
  lemma EncodeTableShape()
    ensures forall c :: c in EscapeSet ==> EncodeTable(c).Some?
    ensures forall c :: EncodeTable(c).Some? ==>
      if c in EscapeSet then |EncodeTable(c).value| == 2 && EncodeTable(c).value[0] == Escape
      else |EncodeTable(c).value| == 1
  {
    forall c | EncodeTable(c).Some?
      ensures if c in EscapeSet then |EncodeTable(c).value| == 2 && EncodeTable(c).value[0] == Escape
              else |EncodeTable(c).value| == 1
    {
      match c as int
      case 0x40 => case 0xA3 => case 0x24 => case 0xA5 => case 0xE8 => case 0xE9 => case 0xF9 => case 0xEC =>
      case 0xF2 => case 0xC7 => case 0xD => case 0xD8 => case 0xF8 => case 0xA => case 0xC5 => case 0xE5 =>
      case 0x394 => case 0x5F => case 0x3A6 => case 0x393 => case 0x39B => case 0x3A9 => case 0x3A0 => case 0x3A8 =>
      case 0x3A3 => case 0x398 => case 0x39E => case 0xC6 => case 0xE6 => case 0xC9 => case 0xA4 => case 0x25 =>
      case 0xA1 => case 0xC4 => case 0xD6 => case 0xD1 => case 0xDC => case 0xA7 => case 0xE4 => case 0xF6 =>
      case 0xF1 => case 0xFC => case 0xE0 => case 0x20AC => case 0x5B => case 0x5C => case 0x5D => case 0x5E =>
      case 0x7B => case 0x7C => case 0x7D => case 0x7E =>
      case _ =>
    }
  }

  /** Decoding undoes every basic-alphabet entry of the encode table. */
  lemma DecodeInvertsEncode()
    ensures forall c :: EncodeTable(c).Some? && c !in EscapeSet ==>
      |EncodeTable(c).value| == 1 && DecodeTable(EncodeTable(c).value[0]) == Some(c)
  {
    forall c | EncodeTable(c).Some? && c !in EscapeSet
      ensures |EncodeTable(c).value| == 1 && DecodeTable(EncodeTable(c).value[0]) == Some(c)
    {
      match c as int
      case 0x40 => case 0xA3 => case 0x24 => case 0xA5 => case 0xE8 => case 0xE9 => case 0xF9 => case 0xEC =>
      case 0xF2 => case 0xC7 => case 0xD => case 0xD8 => case 0xF8 => case 0xA => case 0xC5 => case 0xE5 =>
      case 0x394 => case 0x5F => case 0x3A6 => case 0x393 => case 0x39B => case 0x3A9 => case 0x3A0 => case 0x3A8 =>
      case 0x3A3 => case 0x398 => case 0x39E => case 0xC6 => case 0xE6 => case 0xC9 => case 0xA4 => case 0x25 =>
      case 0xA1 => case 0xC4 => case 0xD6 => case 0xD1 => case 0xDC => case 0xA7 => case 0xE4 => case 0xF6 =>
      case 0xF1 => case 0xFC => case 0xE0 =>
      case _ =>
    }
  }

  /** Every decode entry is a basic-alphabet entry of the encode table read backwards,
      so the decode table holds nothing the encode table does not write. */
  lemma EncodeInvertsDecode()
    ensures forall b :: DecodeTable(b).Some? ==> EncodeTable(DecodeTable(b).value) == Some([b])
  {
  }

  /** One character's image under gsmEncode: its table entry, or itself. */
  function EncodeChar(c: char): string {
    match EncodeTable(c)
    case Some(d) => d
    case None => [c]
  }

  /** One character's image under gsmDecode: its table entry, or itself. */
  function DecodeChar(c: char): char {
    match DecodeTable(c)
    case Some(d) => d
    case None => c
  }

  /** What one character encodes to: two characters led by the escape for the extension
      set, one otherwise, and the character itself when the table does not know it. */
  lemma EncodeCharShape(c: char)
    ensures |EncodeChar(c)| == (if c in EscapeSet then 2 else 1)
    ensures c in EscapeSet ==> EncodeChar(c)[0] == Escape
    ensures EncodeTable(c).None? ==> EncodeChar(c) == [c]
  {
    EncodeTableShape();
  }

  /** The images of the characters of `s` under `f`, concatenated in order. */
  function Concat(f: char -> string, s: string): string
    decreases |s|
  {
    if s == [] then [] else Concat(f, s[..|s| - 1]) + f(s[|s| - 1])
  }

  /** gsmEncode: the images of the characters, in order. */
  function Encoded(s: string): string {
    Concat(EncodeChar, s)
  }

  /** gsmDecode: every character replaced by its decoded image. */
  function Decoded(s: string): (r: string)
    ensures |r| == |s| && forall i :: 0 <= i < |s| ==> r[i] == DecodeChar(s[i])
  {
    seq(|s|, i requires 0 <= i < |s| => DecodeChar(s[i]))
  }

  /** gsmEncode, as the source writes it: one table lookup per character. */
  method GsmEncode(s: string) returns (res: string)
    ensures res == Encoded(s)
  {
    res := "";
    for i := 0 to |s|
      invariant res == Encoded(s[..i])
    {
      assert s[..i + 1][..i] == s[..i];
      res := res + EncodeChar(s[i]);
    }
    assert s[..|s|] == s;
  }

  /** gsmDecode, as the source writes it. */
  method GsmDecode(s: string) returns (res: string)
    ensures res == Decoded(s)
  {
    res := "";
    for i := 0 to |s|
      invariant res == Decoded(s[..i])
    {
      res := res + [DecodeChar(s[i])];
    }
    assert s[..|s|] == s;
  }

  /** The image of a concatenation is the concatenation of the images. */
  lemma {:induction false} ConcatAppend(f: char -> string, a: string, b: string)
    ensures Concat(f, a + b) == Concat(f, a) + Concat(f, b)
    decreases |b|
  {
    if b == [] {
      assert a + b == a;
    } else {
      var b' := b[..|b| - 1];
      assert (a + b)[..|a + b| - 1] == a + b';
      ConcatAppend(f, a, b');
    }
  }

  /** When every image is one character long, the concatenation is the string of
      those characters. */
  lemma {:induction false} ConcatPointwise(f: char -> string, s: string)
    requires forall i :: 0 <= i < |s| ==> |f(s[i])| == 1
    ensures |Concat(f, s)| == |s|
    ensures forall i :: 0 <= i < |s| ==> Concat(f, s)[i] == f(s[i])[0]
    decreases |s|
  {
    if s != [] {
      var p := s[..|s| - 1];
      assert forall i :: 0 <= i < |p| ==> p[i] == s[i];
      ConcatPointwise(f, p);
    }
  }

  /** When no image is empty, one image of two characters or more makes the
      concatenation longer than the string. */
  lemma {:induction false} ConcatLonger(f: char -> string, s: string, k: nat)
    requires forall i :: 0 <= i < |s| ==> |f(s[i])| >= 1
    requires k < |s| && |f(s[k])| >= 2
    ensures |Concat(f, s)| > |s|
    decreases |s|
  {
    var p := s[..|s| - 1];
    assert forall i :: 0 <= i < |p| ==> p[i] == s[i];
    if k < |s| - 1 {
      ConcatLonger(f, p, k);
    } else {
      ConcatNotShorter(f, p);
    }
  }

  /** When no image is empty, the concatenation is at least as long as the string. */
  lemma {:induction false} ConcatNotShorter(f: char -> string, s: string)
    requires forall i :: 0 <= i < |s| ==> |f(s[i])| >= 1
    ensures |Concat(f, s)| >= |s|
    decreases |s|
  {
    if s != [] {
      var p := s[..|s| - 1];
      assert forall i :: 0 <= i < |p| ==> p[i] == s[i];
      ConcatNotShorter(f, p);
    }
  }

  /** Encoding works character by character: the image of a concatenation is the
      concatenation of the images. */
  lemma EncodedAppend(a: string, b: string)
    ensures Encoded(a + b) == Encoded(a) + Encoded(b)
  {
    ConcatAppend(EncodeChar, a, b);
  }

  /** The number of extension-set characters in `s`. */
  function EscapeCount(s: string): nat
    decreases |s|
  {
    if s == [] then 0 else EscapeCount(s[..|s| - 1]) + (if s[|s| - 1] in EscapeSet then 1 else 0)
  }

  /** Every extension character adds one character to the encoding. */
  lemma {:induction false} EncodedLength(s: string)
    ensures |Encoded(s)| == |s| + EscapeCount(s)
    decreases |s|
  {
    if s != [] {
      EncodedLength(s[..|s| - 1]);
      EncodeCharShape(s[|s| - 1]);
    }
  }

  /** Without extension characters the encoding is one character per character. */
  lemma EncodedPointwise(s: string)
    requires forall i :: 0 <= i < |s| ==> s[i] !in EscapeSet
    ensures |Encoded(s)| == |s|
    ensures forall i :: 0 <= i < |s| ==> Encoded(s)[i] == EncodeChar(s[i])[0]
  {
    forall i | 0 <= i < |s| ensures |EncodeChar(s[i])| == 1 {
      EncodeCharShape(s[i]);
    }
    ConcatPointwise(EncodeChar, s);
  }

  /** A character survives encoding and decoding: a basic-alphabet character of the
      encode table, or one neither table mentions. */
  predicate RoundTrips(c: char) {
    (EncodeTable(c).Some? && c !in EscapeSet) || (EncodeTable(c).None? && DecodeTable(c).None?)
  }

  /** For a character encoded as one character, decoding gives it back exactly when
      it round-trips. */
  lemma CharRoundTrip(c: char)
    requires c !in EscapeSet
    ensures DecodeChar(EncodeChar(c)[0]) == c <==> RoundTrips(c)
  {
    DecodeInvertsEncode();
    EncodeInvertsDecode();
    EncodeCharShape(c);
  }

  /** gsmDecode undoes gsmEncode exactly on the strings whose every character
      round-trips: the basic-alphabet entries invert, while an extension character
      comes back as two characters and a character that only the decode table knows
      comes back changed. */
  lemma RoundTripIff(s: string)
    ensures Decoded(Encoded(s)) == s <==> forall i :: 0 <= i < |s| ==> RoundTrips(s[i])
  {
    if forall i :: 0 <= i < |s| ==> s[i] !in EscapeSet {
      EncodedPointwise(s);
      forall i | 0 <= i < |s| ensures DecodeChar(EncodeChar(s[i])[0]) == s[i] <==> RoundTrips(s[i]) {
        CharRoundTrip(s[i]);
      }
      if forall i :: 0 <= i < |s| ==> RoundTrips(s[i]) {
        assert forall i :: 0 <= i < |s| ==> Decoded(Encoded(s))[i] == s[i];
      } else {
        var k :| 0 <= k < |s| && !RoundTrips(s[k]);
        assert Decoded(Encoded(s))[k] != s[k];
      }
    } else {
      var k :| 0 <= k < |s| && s[k] in EscapeSet;
      forall i | 0 <= i < |s| ensures |EncodeChar(s[i])| >= 1 {
        EncodeCharShape(s[i]);
      }
      EncodeCharShape(s[k]);
      ConcatLonger(EncodeChar, s, k);
      assert |Decoded(Encoded(s))| != |s|;
      assert !RoundTrips(s[k]);
    }
  }

  /** Every basic-alphabet entry of the encode table decodes back to its character. */
  lemma SingleByteRoundTrip(c: char)
    requires EncodeTable(c).Some? && c !in EscapeSet
    ensures Decoded(Encoded([c])) == [c]
  {
    RoundTripIff([c]);
  }

  /** '[' is sent as the escape followed by '<', and decoding leaves both as they are. */
  lemma ExtensionDoesNotRoundTrip()
    ensures Encoded("[") == "\U{1B}<"
    ensures Decoded(Encoded("[")) == "\U{1B}<"
  {
    assert Encoded("[") == Encoded("") + EncodeChar('[');
  }
}
