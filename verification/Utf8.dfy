/** UTF-8 as RFC 3629 defines it. A Dafny `char` is a Unicode scalar value, so a Rust `str` is a
    Dafny `string`: its bytes are `Encode`, `from_utf8` is `Decode` and `from_utf8_lossy` is
    `DecodeLossy`. */
module Utf8 {
  import opened Common

  const REPLACEMENT := '\U{FFFD}'

  function EncodeChar(c: char): (b: seq<byte>)
    ensures 1 <= |b| <= 4
  {
    var n := c as int;
    if n < 0x80 then [n]
    else if n < 0x800 then [0xC0 + n / 64, 0x80 + n % 64]
    else if n < 0x1_0000 then [0xE0 + n / 4096, 0x80 + n / 64 % 64, 0x80 + n % 64]
    else [0xF0 + n / 262144, 0x80 + n / 4096 % 64, 0x80 + n / 64 % 64, 0x80 + n % 64]
  }

  function Encode(s: string): seq<byte> {
    if s == "" then [] else EncodeChar(s[0]) + Encode(s[1..])
  }

  // ---------------------------------------------------------------------------
  // Decoding
  // ---------------------------------------------------------------------------

  /** Length of a character from its first byte; 0 for a byte that cannot come first. */
  function Width(b: byte): nat {
    if b < 0x80 then 1
    else if 0xC2 <= b <= 0xDF then 2
    else if 0xE0 <= b <= 0xEF then 3
    else if 0xF0 <= b <= 0xF4 then 4
    else 0
  }

  predicate IsContinuation(b: byte) {
    0x80 <= b <= 0xBF
  }

  /** The second byte's range rules out overlong forms, surrogates and values past U+10FFFF. */
  predicate SecondByteOk(first: byte, second: byte) {
    if first == 0xE0 then 0xA0 <= second <= 0xBF
    else if first == 0xED then 0x80 <= second <= 0x9F
    else if first == 0xF0 then 0x90 <= second <= 0xBF
    else if first == 0xF4 then 0x80 <= second <= 0x8F
    else IsContinuation(second)
  }

  /** How many leading bytes can belong to one character: the whole character, or the part that
      the lossy decoder replaces as a unit. */
  function Accepted(b: seq<byte>): (k: nat)
    requires b != []
    ensures 1 <= k <= |b|
  {
    var w := Width(b[0]);
    if w <= 1 || |b| < 2 || !SecondByteOk(b[0], b[1]) then 1
    else if w == 2 || |b| < 3 || !IsContinuation(b[2]) then 2
    else if w == 3 || |b| < 4 || !IsContinuation(b[3]) then 3
    else 4
  }

  predicate StartsWithChar(b: seq<byte>) {
    b != [] && Accepted(b) == Width(b[0])
  }

  /** The code point that the first `w` bytes carry. */
  function CodePoint(b: seq<byte>, w: nat): int
    requires 1 <= w <= 4 && w <= |b|
  {
    var tail := (i: int) requires 0 <= i < |b| => b[i] as int - 0x80;
    match w
    case 1 => b[0]
    case 2 => (b[0] as int - 0xC0) * 64 + tail(1)
    case 3 => (b[0] as int - 0xE0) * 4096 + tail(1) * 64 + tail(2)
    case _ => (b[0] as int - 0xF0) * 262144 + tail(1) * 4096 + tail(2) * 64 + tail(3)
  }

  function FirstChar(b: seq<byte>): char
    requires StartsWithChar(b)
  {
    CodePoint(b, Width(b[0])) as char
  }

  predicate WellFormed(b: seq<byte>) {
    b == [] || (StartsWithChar(b) && WellFormed(b[Accepted(b)..]))
  }

  function DecodeLossy(b: seq<byte>): string {
    if b == [] then ""
    else [if StartsWithChar(b) then FirstChar(b) else REPLACEMENT] + DecodeLossy(b[Accepted(b)..])
  }

  function Decode(b: seq<byte>): Option<string> {
    if WellFormed(b) then Some(DecodeLossy(b)) else None
  }

  // ---------------------------------------------------------------------------
  // Decoding inverts encoding
  // ---------------------------------------------------------------------------

  lemma Base64Digits(n: int)
    requires 0 <= n
    ensures n == n / 64 * 64 + n % 64
    ensures n / 64 == n / 4096 * 64 + n / 64 % 64
    ensures n / 4096 == n / 262144 * 64 + n / 4096 % 64
  {}

  lemma FirstCharOfEncoding(c: char, rest: seq<byte>)
    ensures var b := EncodeChar(c) + rest;
            StartsWithChar(b) && Accepted(b) == |EncodeChar(c)| && FirstChar(b) == c
  {
    var b, w := EncodeChar(c) + rest, |EncodeChar(c)|;
    EncodedStart(c, rest);
    EncodedCodePoint(c, b);
    hide EncodeChar, CodePoint, Accepted;
  }

  lemma EncodedStart(c: char, rest: seq<byte>)
    ensures var b := EncodeChar(c) + rest;
            Accepted(b) == |EncodeChar(c)| && Width(b[0]) == |EncodeChar(c)|
  {
    EncodedBytes(c);
    var e := EncodeChar(c);
    var b := e + rest;
    assert forall i | 0 <= i < |e| :: b[i] == e[i];
    hide EncodeChar;
  }

  lemma EncodedBytes(c: char)
    ensures var e := EncodeChar(c);
            Width(e[0]) == |e| && (|e| >= 2 ==> SecondByteOk(e[0], e[1])) &&
            forall i | 2 <= i < |e| :: IsContinuation(e[i])
  {}

  lemma EncodedCodePoint(c: char, b: seq<byte>)
    requires var w := |EncodeChar(c)|; |b| >= w && b[..w] == EncodeChar(c)
    ensures CodePoint(b, |EncodeChar(c)|) == c as int
  {
    Base64Digits(c as int);
    var w := |EncodeChar(c)|;
    assert forall i | 0 <= i < w :: b[i] == EncodeChar(c)[i];
  }

  lemma Base64Split(n: int, hi: int, lo: int)
    requires n == hi * 64 + lo && 0 <= lo < 64
    ensures n / 64 == hi && n % 64 == lo
  {}

  lemma EncodingOfFirstChar(b: seq<byte>)
    requires StartsWithChar(b)
    ensures EncodeChar(FirstChar(b)) == b[..Accepted(b)]
  {
    var n, w := FirstChar(b) as int, Width(b[0]);
    if w == 2 {
      Base64Split(n, b[0] as int - 0xC0, b[1] as int - 0x80);
    } else if w >= 3 {
      var hi := if w == 3 then b[0] as int - 0xE0 else (b[0] as int - 0xF0) * 64 + (b[1] as int - 0x80);
      var mid := hi * 64 + (b[w - 2] as int - 0x80);
      Base64Split(n, mid, b[w - 1] as int - 0x80);
      Base64Split(mid, hi, b[w - 2] as int - 0x80);
      assert n / 4096 == hi;
      if w == 4 {
        Base64Split(hi, b[0] as int - 0xF0, b[1] as int - 0x80);
        assert n / 262144 == b[0] as int - 0xF0;
      }
    }
  }

  lemma DecodeEncodedChar(c: char, rest: seq<byte>)
    ensures DecodeLossy(EncodeChar(c) + rest) == [c] + DecodeLossy(rest)
    ensures WellFormed(EncodeChar(c) + rest) <==> WellFormed(rest)
  {
    FirstCharOfEncoding(c, rest);
    hide EncodeChar, StartsWithChar, Accepted, FirstChar;
    var b := EncodeChar(c) + rest;
    assert b[Accepted(b)..] == rest;
  }

  /** Lossy decoding reads an encoded prefix exactly, whatever follows it. */
  lemma {:induction false} DecodeEncodedPrefix(s: string, rest: seq<byte>)
    ensures DecodeLossy(Encode(s) + rest) == s + DecodeLossy(rest)
    ensures WellFormed(Encode(s) + rest) <==> WellFormed(rest)
  {
    hide EncodeChar, DecodeLossy, WellFormed;
    if s == "" {
      assert Encode(s) + rest == rest;
      assert s + DecodeLossy(rest) == DecodeLossy(rest);
    } else {
      var t := Encode(s[1..]) + rest;
      assert Encode(s) + rest == EncodeChar(s[0]) + t;
      DecodeEncodedChar(s[0], t);
      DecodeEncodedPrefix(s[1..], rest);
      assert s + DecodeLossy(rest) == [s[0]] + (s[1..] + DecodeLossy(rest));
    }
  }

  /** `from_utf8` returns the string whose bytes it is given. */
  lemma DecodeInvertsEncode(s: string)
    ensures Decode(Encode(s)) == Some(s)
  {
    DecodeEncodedPrefix(s, []);
    assert Encode(s) + [] == Encode(s);
    assert s + DecodeLossy([]) == s;
  }

  lemma DecodeCons(b: seq<byte>)
    requires WellFormed(b) && b != []
    ensures StartsWithChar(b) && WellFormed(b[Accepted(b)..])
    ensures DecodeLossy(b) == [FirstChar(b)] + DecodeLossy(b[Accepted(b)..])
  {}

  /** Well-formed bytes are the bytes of the string they decode to. */
  lemma {:induction false} EncodeInvertsDecode(b: seq<byte>)
    requires WellFormed(b)
    ensures Encode(DecodeLossy(b)) == b
  {
    hide StartsWithChar, Accepted, FirstChar, EncodeChar;
    if b != [] {
      DecodeCons(b);
      EncodingOfFirstChar(b);
      var c, rest := FirstChar(b), b[Accepted(b)..];
      EncodeInvertsDecode(rest);
      EncodeCons(c, DecodeLossy(rest));
      assert b == b[..Accepted(b)] + rest;
    }
  }

  lemma EncodeCons(c: char, s: string)
    ensures Encode([c] + s) == EncodeChar(c) + Encode(s)
  {}

  // ---------------------------------------------------------------------------
  // Ill-formed bytes
  // ---------------------------------------------------------------------------

  /** The encoding of `c` and the bytes `b` agree on their first `j` bytes. */
  ghost predicate Agree(c: char, b: seq<byte>, j: nat) {
    j <= |b| && j <= |EncodeChar(c)| && EncodeChar(c)[..j] == b[..j]
  }

  lemma PrefixAccepted(b: seq<byte>, c: char, j: nat)
    requires b != [] && j >= 2 && Agree(c, b, j)
    ensures Accepted(b) >= j && (j == |EncodeChar(c)| ==> StartsWithChar(b))
  {
    EncodedBytes(c);
    var e := EncodeChar(c);
    assert forall i | 0 <= i < j :: b[i] == e[..j][i] == e[i];
    hide EncodeChar;
  }

  /** The accepted start of a longer character, filled up to one. */
  lemma Completion(b: seq<byte>) returns (c: char)
    requires b != [] && Accepted(b) >= 2
    ensures Agree(c, b, Accepted(b))
  {
    var k, w := Accepted(b), Width(b[0]);
    var full := b[..k] + seq(w - k, i => 0x80);
    assert forall i | 0 <= i < k :: full[i] == b[i];
    assert StartsWithChar(full) && Accepted(full) == w;
    c := FirstChar(full);
    EncodingOfFirstChar(full);
    hide EncodeChar, FirstChar;
    assert full[..w] == full && full[..k] == b[..k];
  }

  lemma CharAgrees(b: seq<byte>)
    ensures StartsWithChar(b) ==> Agree(FirstChar(b), b, |EncodeChar(FirstChar(b))|)
  {
    if StartsWithChar(b) {
      EncodingOfFirstChar(b);
    }
  }

  /** Where no character stands, lossy decoding puts one U+FFFD for the longest start of a character
      that is there, or for a single byte when there is none, and goes on behind it. */
  lemma Replaced(b: seq<byte>)
    requires b != [] && forall c :: !Agree(c, b, |EncodeChar(c)|)
    ensures var k := Accepted(b);
            DecodeLossy(b) == ['\U{FFFD}'] + DecodeLossy(b[k..]) &&
            (k == 1 || exists c :: Agree(c, b, k)) &&
            forall c, j: nat | j > k :: !Agree(c, b, j)
  {
    var k := Accepted(b);
    CharAgrees(b);
    if k >= 2 {
      var c := Completion(b);
    }
    hide EncodeChar, Accepted, DecodeLossy;
    forall c, j: nat | j > k ensures !Agree(c, b, j) {
      if Agree(c, b, j) {
        PrefixAccepted(b, c, j);
      }
    }
  }

  /** Characters of one to four bytes from the examples of section 7 of RFC 3629. */
  lemma Rfc3629Examples()
    ensures EncodeChar('A') == [0x41] && EncodeChar('\U{391}') == [0xCE, 0x91]
    ensures EncodeChar('\U{2262}') == [0xE2, 0x89, 0xA2] && EncodeChar('\U{D55C}') == [0xED, 0x95, 0x9C]
    ensures EncodeChar('\U{65E5}') == [0xE6, 0x97, 0xA5] && EncodeChar('\U{233B4}') == [0xF0, 0xA3, 0x8E, 0xB4]
  {}

  // ---------------------------------------------------------------------------
  // Character boundaries
  // ---------------------------------------------------------------------------

  /** Byte offset `i` of `Encode(s)` falls between two characters, or at an end. */
  predicate Boundary(s: string, i: nat) {
    i == 0 || (s != "" && i >= |EncodeChar(s[0])| && Boundary(s[1..], i - |EncodeChar(s[0])|))
  }

  /** A boundary is an offset at which some number of whole characters ends. */
  lemma {:induction false} BoundaryIsPrefixLength(s: string, i: nat)
    ensures Boundary(s, i) <==> exists k | 0 <= k <= |s| :: |Encode(s[..k])| == i
  {
    if i == 0 {
      assert s[..0] == "" && |Encode(s[..0])| == 0;
    } else if s != "" {
      var w := |EncodeChar(s[0])|;
      forall k | 1 <= k <= |s| ensures |Encode(s[..k])| == w + |Encode(s[1..][..k - 1])| {
        assert s[..k][1..] == s[1..][..k - 1];
      }
      if i >= w {
        BoundaryIsPrefixLength(s[1..], i - w);
        if Boundary(s, i) {
          var k :| 0 <= k <= |s[1..]| && |Encode(s[1..][..k])| == i - w;
          assert |Encode(s[..k + 1])| == w + |Encode(s[1..][..k + 1 - 1])|;
        }
      }
    }
  }

  lemma CharHasOneStart(c: char)
    ensures forall i | 1 <= i < |EncodeChar(c)| :: IsContinuation(EncodeChar(c)[i])
    ensures Width(EncodeChar(c)[0]) == |EncodeChar(c)|
  {}

  /** A slice that starts inside a character, or ends inside its first one, is not well-formed. */
  lemma PartialChar(c: char, t: seq<byte>, a: nat, b: nat)
    requires var e := EncodeChar(c) + t; a < b <= |e| && (0 < a < |EncodeChar(c)| || (a == 0 && b < |EncodeChar(c)|))
    ensures !WellFormed((EncodeChar(c) + t)[a..b])
  {
    CharHasOneStart(c);
    var slice := (EncodeChar(c) + t)[a..b];
    assert slice[0] == EncodeChar(c)[a];
    hide EncodeChar;
    assert !StartsWithChar(slice);
  }

  lemma EmptyWellFormed()
    ensures WellFormed([])
  {}

  /** A non-empty slice of a string's bytes is well-formed exactly when both its ends fall between
      characters, so that no character straddles an end. */
  lemma {:induction false} SliceWellFormed(s: string, a: nat, b: nat)
    requires a < b <= |Encode(s)|
    ensures WellFormed(Encode(s)[a..b]) <==> Boundary(s, a) && Boundary(s, b)
    decreases |s|
  {
    hide EncodeChar, WellFormed;
    var e, t := EncodeChar(s[0]), Encode(s[1..]);
    var w := |e|;
    if a >= w {
      assert (e + t)[a..b] == t[a - w..b - w];
      SliceWellFormed(s[1..], a - w, b - w);
    } else if a > 0 || b < w {
      PartialChar(s[0], t, a, b);
    } else {
      DecodeEncodedChar(s[0], t[..b - w]);
      assert (e + t)[a..b] == e + t[..b - w];
      assert WellFormed(t[..0]) by { EmptyWellFormed(); }
      if b > w {
        assert t[..b - w] == t[0..b - w];
        SliceWellFormed(s[1..], 0, b - w);
      }
    }
  }

  // ---------------------------------------------------------------------------
  // ASCII
  // ---------------------------------------------------------------------------

  /** An ASCII byte is a character of its own; any other first byte stands for a character outside
      ASCII, in bytes that are all outside ASCII. */
  lemma AsciiStandsAlone(b: seq<byte>)
    requires b != []
    ensures b[0] < 0x80 ==> Accepted(b) == 1 && StartsWithChar(b) && FirstChar(b) as int == b[0]
    ensures b[0] >= 0x80 ==> forall i | 0 <= i < Accepted(b) :: b[i] >= 0x80
    ensures b[0] >= 0x80 && StartsWithChar(b) ==> FirstChar(b) as int >= 0x80
  {}

  predicate Ascii(b: seq<byte>) {
    forall i | 0 <= i < |b| :: b[i] < 0x80
  }
}
