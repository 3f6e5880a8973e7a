/** The pieces of Go's `strings` and `strconv` packages that the modem code relies on,
    written out over `seq<char>`. Strings are sequences of Unicode scalar values; the
    separators the code searches for are all ASCII, so byte offsets and character
    offsets pick the same split points. */
module Text {
  import opened Wrappers

  /** `p` occurs in `s` starting at offset `i`. */
  ghost predicate OccursAt(s: string, p: string, i: int) {
    0 <= i && i + |p| <= |s| && s[i..i + |p|] == p
  }

  /** strings.HasPrefix */
  predicate HasPrefix(s: string, p: string) {
    |p| <= |s| && s[..|p|] == p
  }

  lemma OccursAtShift(s: string, p: string, j: int)
    requires |s| > 0 && j >= 0
    ensures OccursAt(s, p, j + 1) <==> OccursAt(s[1..], p, j)
  {
    if 0 <= j && j + 1 + |p| <= |s| {
      assert s[1..][j..j + |p|] == s[j + 1..j + 1 + |p|];
    }
  }

  lemma OccursAtZero(s: string, p: string)
    ensures OccursAt(s, p, 0) <==> HasPrefix(s, p)
  {
    if |p| <= |s| { assert s[0..|p|] == s[..|p|]; }
  }

  /** strings.Index: the offset of the first occurrence of `p` in `s`, or -1. */
  function Index(s: string, p: string): (r: int)
    ensures r == -1 || OccursAt(s, p, r)
    ensures r >= 0 ==> forall j :: 0 <= j < r ==> !OccursAt(s, p, j)
    ensures r == -1 <==> forall j :: !OccursAt(s, p, j)
    decreases |s|
  {
    OccursAtZero(s, p);
    if HasPrefix(s, p) then 0
    else if |s| == 0 then -1
    else
      var k := Index(s[1..], p);
      forall j | j >= 0 ensures OccursAt(s, p, j + 1) <==> OccursAt(s[1..], p, j) {
        OccursAtShift(s, p, j);
      }
      assert forall j :: OccursAt(s, p, j) ==> j >= 1 && OccursAt(s[1..], p, j - 1) by {
        forall j | OccursAt(s, p, j) ensures j >= 1 && OccursAt(s[1..], p, j - 1) {
          OccursAtShift(s, p, j - 1);
        }
      }
      if k < 0 then -1 else k + 1
  }

  /** The package's own `startsWith(s, p)`, written as `strings.Index(s, p) == 0`. */
  predicate StartsWith(s: string, p: string) {
    Index(s, p) == 0
  }

  /** strings.Contains, which Go defines as `Index(s, substr) >= 0`. */
  predicate Contains(s: string, p: string) {
    Index(s, p) >= 0
  }

  /** Checking for an occurrence at offset 0 is checking for a prefix; in particular
      every string starts with the empty string. */
  lemma StartsWithIsPrefix(s: string, p: string)
    ensures StartsWith(s, p) <==> HasPrefix(s, p)
  {
    assert HasPrefix(s, p) <==> OccursAt(s, p, 0) by {
      if |p| <= |s| { assert s[0..|p|] == s[..|p|]; }
    }
  }

  /** Contains holds exactly when some offset holds an occurrence. */
  lemma ContainsIsOccurrence(s: string, p: string)
    ensures Contains(s, p) <==> exists i :: OccursAt(s, p, i)
  {
  }

  /** The offset of the first `c` in `s`, or |s| when there is none. */
  function FirstIndex(s: string, c: char): (n: nat)
    ensures n <= |s|
    ensures n < |s| ==> s[n] == c
    decreases |s|
  {
    if |s| == 0 then 0
    else if s[0] == c then 0
    else 1 + FirstIndex(s[1..], c)
  }

  /** No `c` comes before the offset FirstIndex reports. */
  lemma {:induction false} FirstIndexBefore(s: string, c: char)
    ensures forall i :: 0 <= i < FirstIndex(s, c) ==> s[i] != c
    decreases |s|
  {
    if |s| > 0 && s[0] != c {
      FirstIndexBefore(s[1..], c);
      assert forall i :: 1 <= i < FirstIndex(s, c) ==> s[i] == s[1..][i - 1];
    }
  }

  /** The first `c` is where `c` occurs (or the end) with no `c` before it. */
  lemma FirstIndexIs(s: string, c: char, n: nat)
    requires n <= |s| && (n < |s| ==> s[n] == c)
    requires forall i :: 0 <= i < n ==> s[i] != c
    ensures FirstIndex(s, c) == n
  {
    FirstIndexBefore(s, c);
  }

  /** FirstIndex runs off the end exactly when `c` does not occur. */
  lemma FirstIndexAbsent(s: string, c: char)
    ensures FirstIndex(s, c) == |s| <==> c !in s
  {
    FirstIndexBefore(s, c);
  }

  /** A string is what comes before position `i`, the character there, and the rest. */
  lemma SplitAround(s: string, i: nat)
    requires i < |s|
    ensures s == s[..i] + [s[i]] + s[i + 1..]
  {
    assert s == s[..i] + s[i..];
    assert s[i..] == [s[i]] + s[i + 1..];
  }

  /** strings.SplitN(s, sep, n) for n >= 1 and a non-empty separator: at most `n`
      pieces, the last one holding the unsplit remainder. */
  function SplitN(s: string, sep: string, n: nat): (r: seq<string>)
    requires |sep| > 0 && n >= 1
    ensures 1 <= |r| <= n
    decreases n
  {
    var i := Index(s, sep);
    if n == 1 || i < 0 then [s]
    else [s[..i]] + SplitN(s[i + |sep|..], sep, n - 1)
  }

  /** The first occurrence of a one-character separator is its first position. */
  lemma IndexOfFirst(a: string, c: char, b: string)
    requires c !in a
    ensures Index(a + [c] + b, [c]) == |a|
  {
    var s := a + [c] + b;
    assert OccursAt(s, [c], |a|) by {
      assert s[|a|..|a| + 1] == [c];
    }
    forall j | 0 <= j < |a| ensures !OccursAt(s, [c], j) {
      assert s[j..j + 1][0] == s[j] == a[j];
    }
  }

  /** A one-character separator that does not occur is never found. */
  lemma IndexAbsent(s: string, c: char)
    requires c !in s
    ensures Index(s, [c]) == -1
  {
    forall j | 0 <= j < |s| ensures !OccursAt(s, [c], j) {
      assert s[j..j + 1][0] == s[j];
    }
  }

  /** A string holding `c` is the text before its first `c`, the `c`, and the rest. */
  lemma CutAtFirst(s: string, c: char) returns (a: string, b: string)
    requires c in s
    ensures s == a + [c] + b && c !in a
  {
    var i := FirstIndex(s, c);
    FirstIndexAbsent(s, c);
    FirstIndexBefore(s, c);
    SplitAround(s, i);
    a, b := s[..i], s[i + 1..];
  }

  /** SplitN(s, sep, 2) cuts at the first separator, or returns `s` whole. */
  lemma SplitNAtFirst(a: string, c: char, b: string)
    requires c !in a
    ensures SplitN(a + [c] + b, [c], 2) == [a, b]
  {
    var s := a + [c] + b;
    IndexOfFirst(a, c, b);
    assert s[..|a|] == a && s[|a| + 1..] == b;
  }

  lemma SplitNAbsent(s: string, c: char)
    requires c !in s
    ensures SplitN(s, [c], 2) == [s]
  {
    IndexAbsent(s, c);
  }

  /** Index finds `i` when `p` occurs there and at no earlier offset. */
  lemma IndexIs(s: string, p: string, i: nat)
    requires OccursAt(s, p, i)
    requires forall j :: 0 <= j < i ==> !OccursAt(s, p, j)
    ensures Index(s, p) == i
  {
  }

  /** An occurrence that ends within the first `m` characters is one of the prefix. */
  lemma OccursAtPrefix(s: string, p: string, j: int, m: nat)
    requires 0 <= j && j + |p| <= m <= |s|
    ensures OccursAt(s[..m], p, j) <==> OccursAt(s, p, j)
  {
    assert s[..m][j..j + |p|] == s[j..j + |p|];
  }

  /** Cutting `s` just after the first occurrence of `sep` keeps that occurrence first. */
  lemma IndexOfCut(s: string, sep: string)
    requires Index(s, sep) >= 0
    ensures Index(s[..Index(s, sep) + |sep|], sep) == Index(s, sep)
  {
    var i := Index(s, sep);
    var m := i + |sep|;
    OccursAtPrefix(s, sep, i, m);
    forall j | 0 <= j < i ensures !OccursAt(s[..m], sep, j) {
      OccursAtPrefix(s, sep, j, m);
    }
    IndexIs(s[..m], sep, i);
  }

  /** When `a` lacks the first character of `sep`, the first `sep` in `a + sep` is the
      one at the end. */
  lemma IndexAfter(a: string, sep: string)
    requires |sep| > 0 && sep[0] !in a
    ensures Index(a + sep, sep) == |a|
  {
    var s := a + sep;
    assert s[|a|..|a| + |sep|] == sep;
    forall j | 0 <= j < |a| ensures !OccursAt(s, sep, j) {
      assert s[j] == a[j] && a[j] in a;
      assert j + |sep| <= |s| ==> s[j..j + |sep|][0] == s[j];
    }
    IndexIs(s, sep, |a|);
  }

  /** A string lacking the first character of `sep` holds no `sep`. */
  lemma IndexNone(s: string, sep: string)
    requires |sep| > 0 && sep[0] !in s
    ensures Index(s, sep) == -1
  {
    forall j ensures !OccursAt(s, sep, j) {
      if 0 <= j < |s| {
        assert s[j] in s;
        assert j + |sep| <= |s| ==> s[j..j + |sep|][0] == s[j];
      }
    }
  }

  /** The pieces of SplitN join back into `s` with `sep`; every cut is at the first
      `sep` of what remains; and fewer than `n` pieces means the last holds no `sep`. */
  lemma {:induction false} SplitNShape(s: string, sep: string, n: nat)
    requires |sep| > 0 && n >= 1
    ensures var r := SplitN(s, sep, n);
      Join(r, sep) == s
      && (forall k :: 0 <= k < |r| - 1 ==> Index(r[k] + sep, sep) == |r[k]|)
      && (|r| < n ==> Index(r[|r| - 1], sep) == -1)
    decreases n
  {
    var i := Index(s, sep);
    if n > 1 && i >= 0 {
      var rest := s[i + |sep|..];
      SplitNShape(rest, sep, n - 1);
      var tail := SplitN(rest, sep, n - 1);
      var r := [s[..i]] + tail;
      SplitNStep(s, sep, n);
      JoinCons(r, sep);
      assert r[1..] == tail;
      AroundOccurrence(s, sep, i);
      IndexOfCut(s, sep);
      assert s[..i + |sep|] == s[..i] + sep;
      forall k | 0 <= k < |r| - 1 ensures Index(r[k] + sep, sep) == |r[k]| {
        if k > 0 {
          assert r[k] == tail[k - 1];
        }
      }
      assert r[|r| - 1] == tail[|tail| - 1];
    }
  }

  /** One step of SplitN when `sep` occurs. */
  lemma SplitNStep(s: string, sep: string, n: nat)
    requires |sep| > 0 && n >= 2 && Index(s, sep) >= 0
    ensures SplitN(s, sep, n) == [s[..Index(s, sep)]] + SplitN(s[Index(s, sep) + |sep|..], sep, n - 1)
  {
  }

  /** A string is what comes before an occurrence of `p`, `p`, and the rest. */
  lemma AroundOccurrence(s: string, p: string, i: int)
    requires OccursAt(s, p, i)
    ensures s == s[..i] + (p + s[i + |p|..])
  {
    assert s == s[..i] + s[i..];
    assert s[i..] == s[i..i + |p|] + s[i + |p|..];
  }

  /** A first piece holding no earlier `sep` comes off first. */
  lemma SplitNCons(a: string, sep: string, rest: string, n: nat)
    requires |sep| > 0 && n >= 2
    requires Index(a + sep, sep) == |a|
    ensures SplitN(a + sep + rest, sep, n) == [a] + SplitN(rest, sep, n - 1)
  {
    var s := a + sep + rest;
    var m := |a| + |sep|;
    assert s[..m] == a + sep;
    OccursAtPrefix(s, sep, |a|, m);
    forall j | 0 <= j < |a| ensures !OccursAt(s, sep, j) {
      OccursAtPrefix(s, sep, j, m);
    }
    IndexIs(s, sep, |a|);
    assert s[..|a|] == a && s[m..] == rest;
  }

  lemma Associative<T>(x: seq<T>, y: seq<T>, z: seq<T>)
    ensures (x + y) + z == x + (y + z)
  {
  }

  /** strings.Join */
  function Join(parts: seq<string>, sep: string): string
    decreases |parts|
  {
    if |parts| == 0 then ""
    else if |parts| == 1 then parts[0]
    else parts[0] + sep + Join(parts[1..], sep)
  }

  lemma JoinCons(parts: seq<string>, sep: string)
    requires |parts| >= 2
    ensures Join(parts, sep) == parts[0] + (sep + Join(parts[1..], sep))
  {
    Associative(parts[0], sep, Join(parts[1..], sep));
  }

  /** A character in neither the parts nor the separator is not in their join. */
  lemma {:induction false} JoinAvoids(parts: seq<string>, sep: string, c: char)
    requires c !in sep && forall i :: 0 <= i < |parts| ==> c !in parts[i]
    ensures c !in Join(parts, sep)
    decreases |parts|
  {
    if |parts| >= 2 {
      JoinAvoids(parts[1..], sep, c);
      assert c !in parts[0];
    } else if |parts| == 1 {
      assert c !in parts[0];
    }
  }

  /** TrimPrefix removes a prefix that is there. */
  lemma TrimPrefixOf(p: string, r: string)
    ensures TrimPrefix(p + r, p) == r
  {
    assert (p + r)[..|p|] == p && (p + r)[|p|..] == r;
  }

  /** TrimSuffix removes a suffix that is there. */
  lemma TrimSuffixOf(r: string, p: string)
    ensures TrimSuffix(r + p, p) == r
  {
    var s := r + p;
    assert s[|s| - |p|..] == p && s[..|s| - |p|] == r;
  }

  /** strings.TrimRight(s, cutset): drop every trailing character that is in `cut`. */
  function TrimRight(s: string, cut: set<char>): (r: string)
    ensures |r| <= |s| && r == s[..|r|]
    ensures forall i :: |r| <= i < |s| ==> s[i] in cut
    ensures r == [] || r[|r| - 1] !in cut
    decreases |s|
  {
    if |s| > 0 && s[|s| - 1] in cut then TrimRight(s[..|s| - 1], cut) else s
  }

  /** strings.TrimLeft(s, cutset): drop every leading character that is in `cut`. */
  function TrimLeft(s: string, cut: set<char>): (r: string)
    ensures |r| <= |s| && r == s[|s| - |r|..]
    ensures forall i :: 0 <= i < |s| - |r| ==> s[i] in cut
    ensures r == [] || r[0] !in cut
    decreases |s|
  {
    if |s| > 0 && s[0] in cut then TrimLeft(s[1..], cut) else s
  }

  /** The two line terminators stripped by `strings.TrimRight(line, "\r\n")`. */
  const LineEnds: set<char> := {'\r', '\n'}

  /** The characters unicode.IsSpace reports as white space. */
  const Spaces: set<char> := {
    '\t', '\n', '\U{B}', '\U{C}', '\r', ' ', '\U{85}', '\U{A0}', '\U{1680}',
    '\U{2000}', '\U{2001}', '\U{2002}', '\U{2003}', '\U{2004}', '\U{2005}',
    '\U{2006}', '\U{2007}', '\U{2008}', '\U{2009}', '\U{200A}',
    '\U{2028}', '\U{2029}', '\U{202F}', '\U{205F}', '\U{3000}'}

  /** strings.TrimSpace */
  function TrimSpace(s: string): string {
    TrimRight(TrimLeft(s, Spaces), Spaces)
  }

  /** strings.Trim(s, `"`): every leading and every trailing double quote goes. */
  function TrimQuotes(s: string): string {
    TrimRight(TrimLeft(s, {'"'}), {'"'})
  }

  /** strings.TrimPrefix */
  function TrimPrefix(s: string, p: string): (r: string)
    ensures HasPrefix(s, p) ==> s == p + r
    ensures !HasPrefix(s, p) ==> r == s
  {
    if HasPrefix(s, p) then s[|p|..] else s
  }

  /** strings.TrimSuffix */
  function TrimSuffix(s: string, p: string): (r: string)
    ensures (|p| <= |s| && s[|s| - |p|..] == p) ==> s == r + p
    ensures !(|p| <= |s| && s[|s| - |p|..] == p) ==> r == s
  {
    if |p| <= |s| && s[|s| - |p|..] == p then s[..|s| - |p|] else s
  }

  // ---------------------------------------------------------------------------
  // Decimal integers: strconv.Itoa / fmt.Sprint and strconv.Atoi on Go's 64-bit int.

  const MinInt64: int := -0x8000_0000_0000_0000
  const MaxInt64: int := 0x7FFF_FFFF_FFFF_FFFF

  predicate IsDigit(c: char) {
    '0' <= c <= '9'
  }

  predicate AllDigits(s: string) {
    forall i :: 0 <= i < |s| ==> IsDigit(s[i])
  }

  function DigitChar(d: nat): (c: char)
    requires d < 10
    ensures IsDigit(c) && c as int - '0' as int == d
  {
    ('0' as int + d) as char
  }

  /** The decimal digits of `n`, most significant first, without leading zeros. */
  function Digits(n: nat): (r: string)
    ensures |r| >= 1 && AllDigits(r)
    decreases n
  {
    if n < 10 then [DigitChar(n)] else Digits(n / 10) + [DigitChar(n % 10)]
  }

  /** The value of a run of decimal digits. */
  function DigitsValue(ds: string): nat
    requires AllDigits(ds)
    decreases |ds|
  {
    if ds == [] then 0
    else DigitsValue(ds[..|ds| - 1]) * 10 + (ds[|ds| - 1] as int - '0' as int)
  }

  /** strconv.Itoa: an optional minus sign followed by the digits. */
  function DecimalText(i: int): string {
    if i < 0 then "-" + Digits(-i) else Digits(i)
  }

  /** strconv.Atoi: an optional sign and at least one decimal digit, nothing else,
      and a value that fits Go's 64-bit `int`; anything else is an error (None). */
  function Atoi(s: string): (r: Option<int>)
    ensures r.Some? ==> MinInt64 <= r.value <= MaxInt64
  {
    if |s| == 0 then None
    else
      var negative := s[0] == '-';
      var ds := if s[0] == '-' || s[0] == '+' then s[1..] else s;
      if |ds| == 0 || !AllDigits(ds) then None
      else
        var v: int := if negative then -(DigitsValue(ds) as int) else DigitsValue(ds);
        if MinInt64 <= v <= MaxInt64 then Some(v) else None
  }

  lemma {:induction false} DigitsRoundTrip(n: nat)
    ensures DigitsValue(Digits(n)) == n
    decreases n
  {
    if n >= 10 {
      var d := Digits(n / 10);
      DigitsRoundTrip(n / 10);
      assert (d + [DigitChar(n % 10)])[..|d|] == d;
    }
  }

  /** Atoi reads back what Itoa writes, for every value of Go's `int`. */
  lemma AtoiOfDecimalText(i: int)
    requires MinInt64 <= i <= MaxInt64
    ensures Atoi(DecimalText(i)) == Some(i)
  {
    if i < 0 {
      AtoiOfNegative(i);
    } else {
      AtoiOfDigits(i);
    }
  }

  lemma AtoiOfDigits(n: nat)
    requires n <= MaxInt64
    ensures Atoi(Digits(n)) == Some(n)
  {
    var s := Digits(n);
    DigitsRoundTrip(n);
    assert IsDigit(s[0]);
    assert s[0] != '-' && s[0] != '+';
  }

  lemma AtoiOfNegative(i: int)
    requires MinInt64 <= i < 0
    ensures Atoi("-" + Digits(-i)) == Some(i)
  {
    var d := Digits(-i);
    var s := "-" + d;
    DigitsRoundTrip(-i);
    assert s[0] == '-' && s[1..] == d;
  }

  /** Decimal text is never empty and holds neither a comma nor a double quote. */
  lemma DecimalTextShape(i: int)
    ensures |DecimalText(i)| >= 1
    ensures DecimalText(i)[0] == '-' || IsDigit(DecimalText(i)[0])
    ensures ',' !in DecimalText(i) && '"' !in DecimalText(i)
    ensures forall k :: 0 <= k < |DecimalText(i)| ==> DecimalText(i)[k] !in Spaces
  {
  }
}
