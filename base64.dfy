/** The browser's `atob`: the forgiving-base64 decode algorithm of the
    WHATWG Infra Standard over the base64 alphabet of section 4 of RFC 4648,
    with the RFC 4648 encoder as its partner. */
module Base64 {
  import opened Wrappers

  /** An octet, the element type of a `Uint8Array`. */
  newtype byte = x: int | 0 <= x < 256

  /** A six-bit group, the value of one base64 character. */
  type Sextet = x: int | 0 <= x < 64

  /** ASCII whitespace: TAB, LF, FF, CR and SPACE. */
  predicate IsAsciiWhitespace(c: char)
  {
    c == '\t' || c == '\n' || c == '\U{000C}' || c == '\r' || c == ' '
  }

  /** The 64 characters of the base64 alphabet (RFC 4648, section 4, table 1). */
  predicate InAlphabet(c: char)
  {
    ('A' <= c <= 'Z') || ('a' <= c <= 'z') || ('0' <= c <= '9') || c == '+' || c == '/'
  }

  predicate AllInAlphabet(d: string)
  {
    forall k :: 0 <= k < |d| ==> InAlphabet(d[k])
  }

  /** The value of an alphabet character: `A`-`Z` are 0-25, `a`-`z` 26-51,
      `0`-`9` 52-61, `+` is 62 and `/` is 63. */
  function SextetOf(c: char): (v: Sextet)
    requires InAlphabet(c)
    ensures v < 26 <==> 'A' <= c <= 'Z'
    ensures 26 <= v < 52 <==> 'a' <= c <= 'z'
    ensures 52 <= v < 62 <==> '0' <= c <= '9'
    ensures v == 62 <==> c == '+'
    ensures v == 63 <==> c == '/'
  {
    if 'A' <= c <= 'Z' then c as int - 'A' as int
    else if 'a' <= c <= 'z' then c as int - 'a' as int + 26
    else if '0' <= c <= '9' then c as int - '0' as int + 52
    else if c == '+' then 62
    else 63
  }

  /** The alphabet character for a sextet; `SextetOf` undoes it. */
  function CharOf(v: Sextet): (c: char)
    ensures InAlphabet(c) && SextetOf(c) == v
  {
    if v < 26 then ('A' as int + v) as char
    else if v < 52 then ('a' as int + v - 26) as char
    else if v < 62 then ('0' as int + v - 52) as char
    else if v == 62 then '+'
    else '/'
  }

  /** `CharOf` and `SextetOf` are inverse bijections between sextets and the alphabet. */
  lemma CharOfSextetOf(c: char)
    requires InAlphabet(c)
    ensures CharOf(SextetOf(c)) == c
  {
  }

  /** Step 1 of forgiving-base64 decode: drop every ASCII whitespace character. */
  function RemoveWhitespace(s: string): (r: string)
    ensures |r| <= |s|
    ensures forall k :: 0 <= k < |r| ==> !IsAsciiWhitespace(r[k])
  {
    if s == [] then []
    else if IsAsciiWhitespace(s[0]) then RemoveWhitespace(s[1..])
    else [s[0]] + RemoveWhitespace(s[1..])
  }

  /** Every other character is kept, in order: a string without whitespace is unchanged. */
  lemma {:induction false} RemoveWhitespaceKeepsPlain(s: string)
    requires forall k :: 0 <= k < |s| ==> !IsAsciiWhitespace(s[k])
    ensures RemoveWhitespace(s) == s
  {
    if s != [] {
      assert !IsAsciiWhitespace(s[0]);
      RemoveWhitespaceKeepsPlain(s[1..]);
    }
  }

  lemma {:induction false} RemoveWhitespaceAppend(a: string, b: string)
    ensures RemoveWhitespace(a + b) == RemoveWhitespace(a) + RemoveWhitespace(b)
  {
    if a == [] {
      assert a + b == b;
    } else {
      assert (a + b)[0] == a[0] && (a + b)[1..] == a[1..] + b;
      RemoveWhitespaceAppend(a[1..], b);
    }
  }

  /** Step 2: when the length is a multiple of four, drop one or two trailing `=`. */
  function StripPadding(d: string): (r: string)
    ensures |d| % 4 != 0 ==> r == d
    ensures |d| - 2 <= |r| <= |d| && r == d[..|r|]
    ensures forall k :: |r| <= k < |d| ==> d[k] == '='
    ensures |d| % 4 == 0 && |d| >= 1 && d[|d| - 1] == '=' ==> |r| < |d|
  {
    if |d| % 4 == 0 && |d| >= 2 && d[|d| - 1] == '=' && d[|d| - 2] == '=' then d[..|d| - 2]
    else if |d| % 4 == 0 && |d| >= 1 && d[|d| - 1] == '=' then d[..|d| - 1]
    else d
  }

  /** The three octets packed in four sextets (24 bits). */
  function DecodeQuad(a: Sextet, b: Sextet, c: Sextet, d: Sextet): seq<byte>
  {
    [(a * 4 + b / 16) as byte, ((b % 16) * 16 + c / 4) as byte, ((c % 4) * 64 + d) as byte]
  }

  /** Steps 5 to 7: read six bits per character, emit each full octet, and
      discard the 4 or 2 leftover bits of a trailing group of 2 or 3 characters. */
  function DecodeChars(d: string): (r: seq<byte>)
    requires forall k :: 0 <= k < |d| ==> InAlphabet(d[k])
    requires |d| % 4 != 1
    ensures |r| == 3 * (|d| / 4) + (if |d| % 4 == 0 then 0 else |d| % 4 - 1)
  {
    if |d| >= 4 then
      DecodeQuad(SextetOf(d[0]), SextetOf(d[1]), SextetOf(d[2]), SextetOf(d[3])) + DecodeChars(d[4..])
    else if |d| == 3 then
      DecodeQuad(SextetOf(d[0]), SextetOf(d[1]), SextetOf(d[2]), 0)[..2]
    else if |d| == 2 then
      DecodeQuad(SextetOf(d[0]), SextetOf(d[1]), 0, 0)[..1]
    else
      []
  }

  /** Forgiving-base64 decode: `None` is the algorithm's failure. */
  function ForgivingDecode(s: string): (r: Option<seq<byte>>)
    ensures r.Some? <==>
      var d := StripPadding(RemoveWhitespace(s));
      |d| % 4 != 1 && AllInAlphabet(d)
    ensures r.Some? ==>
      var n := |StripPadding(RemoveWhitespace(s))|;
      |r.value| == 3 * (n / 4) + (if n % 4 == 0 then 0 else n % 4 - 1)
  {
    var d := StripPadding(RemoveWhitespace(s));
    if |d| % 4 == 1 then None
    else if !AllInAlphabet(d) then None
    else Some(DecodeChars(d))
  }

  /** `atob(data)`: the decoded octets as a string of code points 0 to 255
      (isomorphic decode); `None` stands for the thrown `InvalidCharacterError`. */
  function Atob(data: string): (r: Option<string>)
    ensures r.None? <==> ForgivingDecode(data).None?
    ensures r.Some? ==>
      |r.value| == |ForgivingDecode(data).value| &&
      forall k :: 0 <= k < |r.value| ==> r.value[k] as int == ForgivingDecode(data).value[k] as int
  {
    match ForgivingDecode(data)
    case None => None
    case Some(bytes) => Some(seq(|bytes|, k requires 0 <= k < |bytes| => bytes[k] as int as char))
  }

  /** ASCII whitespace anywhere in the input does not change what it decodes to. */
  lemma WhitespaceIgnored(a: string, w: char, b: string)
    requires IsAsciiWhitespace(w)
    ensures ForgivingDecode(a + [w] + b) == ForgivingDecode(a + b)
  {
    RemoveWhitespaceAppend(a + [w], b);
    RemoveWhitespaceAppend(a, [w]);
    RemoveWhitespaceAppend(a, b);
    assert RemoveWhitespace([w]) == [];
    assert RemoveWhitespace(a + [w]) == RemoveWhitespace(a) + [];
    assert RemoveWhitespace(a) + [] == RemoveWhitespace(a);
    assert RemoveWhitespace(a + [w] + b) == RemoveWhitespace(a + b);
  }

  /** Input without whitespace whose length is 1 modulo 4 always fails. */
  lemma LengthOneModFourFails(s: string)
    requires forall k :: 0 <= k < |s| ==> !IsAsciiWhitespace(s[k])
    requires |s| % 4 == 1
    ensures Atob(s) == None
  {
    RemoveWhitespaceKeepsPlain(s);
  }

  /** `atob(undefined)` decodes the nine letters "undefined" and so throws. */
  lemma AtobUndefined()
    ensures Atob("undefined") == None
  {
    LengthOneModFourFails("undefined");
  }

  // ---- The encoder (RFC 4648, section 4), the partner of the decoder ----

  /** The four characters of three octets. */
  function EncodeTriple(x: byte, y: byte, z: byte): (r: string)
    ensures |r| == 4 && AllInAlphabet(r)
  {
    [CharOf(x as int / 4), CharOf((x as int % 4) * 16 + y as int / 16),
     CharOf((y as int % 16) * 4 + z as int / 64), CharOf(z as int % 64)]
  }

  /** The three characters of two trailing octets. */
  function EncodePair(x: byte, y: byte): (r: string)
    ensures |r| == 3 && AllInAlphabet(r)
  {
    [CharOf(x as int / 4), CharOf((x as int % 4) * 16 + y as int / 16), CharOf((y as int % 16) * 4)]
  }

  /** The two characters of one trailing octet. */
  function EncodeSingle(x: byte): (r: string)
    ensures |r| == 2 && AllInAlphabet(r)
  {
    [CharOf(x as int / 4), CharOf((x as int % 4) * 16)]
  }

  /** The characters a trailing partial group of octets takes: none, 2 or 3. */
  function TailChars(n: nat): nat
  {
    if n % 3 == 0 then 0 else n % 3 + 1
  }

  /** An unpadded encoding's length modulo four is its tail's length. */
  lemma UnpaddedLengthMod(n: nat)
    ensures (4 * (n / 3) + TailChars(n)) % 4 == TailChars(n)
  {
    var q := n / 3;
    assert TailChars(n) < 4;
    assert 4 * q + TailChars(n) == TailChars(n) + 4 * q;
  }

  /** The base64 characters of `b` without padding: four per full group of
      three octets, then three for two trailing octets or two for one. */
  function EncodeUnpadded(b: seq<byte>): (r: string)
    ensures AllInAlphabet(r)
    ensures |r| == 4 * (|b| / 3) + TailChars(|b|)
    ensures |r| % 4 == TailChars(|b|)
  {
    UnpaddedLengthMod(|b|);
    if |b| >= 3 then
      var head, tail := EncodeTriple(b[0], b[1], b[2]), EncodeUnpadded(b[3..]);
      assert forall k :: 0 <= k < |head| + |tail| ==> (head + tail)[k] == if k < 4 then head[k] else tail[k - 4];
      head + tail
    else if |b| == 2 then EncodePair(b[0], b[1])
    else if |b| == 1 then EncodeSingle(b[0])
    else []
  }

  /** Base64 encoding with `=` padding to a multiple of four characters. */
  function Encode(b: seq<byte>): (r: string)
    ensures |r| == 4 * ((|b| + 2) / 3)
  {
    PaddedLength(|b|);
    EncodeUnpadded(b) + Padding(|b|)
  }

  /** The `=` characters that complete the last group of `n` octets. */
  function Padding(n: nat): string
  {
    if n % 3 == 1 then "==" else if n % 3 == 2 then "=" else ""
  }

  lemma PaddedLength(n: nat)
    ensures 4 * (n / 3) + TailChars(n)
            + (if n % 3 == 1 then 2 else if n % 3 == 2 then 1 else 0) == 4 * ((n + 2) / 3)
  {
  }

  /** The octet arithmetic of a group: the sextets of three octets, read back. */
  lemma RegroupTriple(x: int, y: int, z: int)
    requires 0 <= x < 256 && 0 <= y < 256 && 0 <= z < 256
    ensures var a, b, c, d := x / 4, (x % 4) * 16 + y / 16, (y % 16) * 4 + z / 64, z % 64;
      a * 4 + b / 16 == x && (b % 16) * 16 + c / 4 == y && (c % 4) * 64 + d == z
  {
    var b, c := (x % 4) * 16 + y / 16, (y % 16) * 4 + z / 64;
    assert b / 16 == x % 4 && b % 16 == y / 16;
    assert c / 4 == y % 16 && c % 4 == z / 64;
  }

  /** Three octets survive their four characters. */
  lemma DecodeTriple(x: byte, y: byte, z: byte)
    ensures var c := EncodeTriple(x, y, z);
      DecodeQuad(SextetOf(c[0]), SextetOf(c[1]), SextetOf(c[2]), SextetOf(c[3])) == [x, y, z]
  {
    var c := EncodeTriple(x, y, z);
    var a, b, d, e := x as int / 4, (x as int % 4) * 16 + y as int / 16,
                      (y as int % 16) * 4 + z as int / 64, z as int % 64;
    assert c == [CharOf(a), CharOf(b), CharOf(d), CharOf(e)];
    assert SextetOf(c[0]) == a && SextetOf(c[1]) == b && SextetOf(c[2]) == d && SextetOf(c[3]) == e;
    DecodeQuadRegroups(x, y, z);
  }

  /** The four sextets of three octets pack back into those octets. */
  lemma DecodeQuadRegroups(x: byte, y: byte, z: byte)
    ensures DecodeQuad(x as int / 4, (x as int % 4) * 16 + y as int / 16,
                       (y as int % 16) * 4 + z as int / 64, z as int % 64) == [x, y, z]
  {
    RegroupTriple(x as int, y as int, z as int);
  }

  /** Two trailing octets survive their three characters. */
  lemma DecodePair(x: byte, y: byte)
    ensures var c := EncodePair(x, y);
      DecodeChars(c) == [x, y]
  {
  }

  /** One trailing octet survives its two characters. */
  lemma DecodeSingle(x: byte)
    ensures DecodeChars(EncodeSingle(x)) == [x]
  {
  }

  lemma {:induction false} DecodeEncodeUnpadded(b: seq<byte>)
    ensures DecodeChars(EncodeUnpadded(b)) == b
  {
    if |b| >= 3 {
      var head, tail := EncodeTriple(b[0], b[1], b[2]), EncodeUnpadded(b[3..]);
      var e := head + tail;
      assert e[..4] == head && e[4..] == tail;
      DecodeEncodeUnpadded(b[3..]);
      DecodeTriple(b[0], b[1], b[2]);
      assert b == [b[0], b[1], b[2]] + b[3..];
    } else if |b| == 2 {
      DecodePair(b[0], b[1]);
      assert b == [b[0], b[1]];
    } else if |b| == 1 {
      DecodeSingle(b[0]);
      assert b == [b[0]];
    }
  }

  /** The alphabet holds no whitespace and no padding character. */
  lemma AlphabetIsPlain(d: string)
    requires AllInAlphabet(d)
    ensures forall k :: 0 <= k < |d| ==> !IsAsciiWhitespace(d[k]) && d[k] != '='
  {
  }

  /** A two-character tail contributes only the high 2 bits of its second
      character: characters that agree there decode alike. */
  lemma PairTailDiscardsLowBits(c0: char, c1: char, c1': char)
    requires InAlphabet(c0) && InAlphabet(c1) && InAlphabet(c1')
    requires SextetOf(c1) / 16 == SextetOf(c1') / 16
    ensures DecodeChars([c0, c1]) == DecodeChars([c0, c1'])
  {
  }

  /** A three-character tail contributes only the high 4 bits of its third
      character. */
  lemma TripleTailDiscardsLowBits(c0: char, c1: char, c2: char, c2': char)
    requires InAlphabet(c0) && InAlphabet(c1) && InAlphabet(c2) && InAlphabet(c2')
    requires SextetOf(c2) / 4 == SextetOf(c2') / 4
    ensures DecodeChars([c0, c1, c2]) == DecodeChars([c0, c1, c2'])
  {
  }

  /** Whitespace removal and padding removal leave an unpadded encoding as it is. */
  lemma StripUnpadded(b: seq<byte>)
    ensures StripPadding(RemoveWhitespace(EncodeUnpadded(b))) == EncodeUnpadded(b)
  {
    var u := EncodeUnpadded(b);
    AlphabetIsPlain(u);
    RemoveWhitespaceKeepsPlain(u);
    if |u| >= 1 { assert u[|u| - 1] != '='; }
  }

  /** Whitespace removal keeps alphabet characters followed by padding. */
  lemma KeepsPadded(u: string, pad: string)
    requires AllInAlphabet(u)
    requires forall k :: 0 <= k < |pad| ==> pad[k] == '='
    ensures RemoveWhitespace(u + pad) == u + pad
  {
    AlphabetIsPlain(u);
    RemoveWhitespaceKeepsPlain(u);
    RemoveWhitespaceKeepsPlain(pad);
    RemoveWhitespaceAppend(u, pad);
  }

  /** Two `=` after a group of two characters are stripped again. */
  lemma StripTwo(u: string)
    requires |u| % 4 == 2
    ensures StripPadding(u + "==") == u
  {
    var e := u + "==";
    assert |e| % 4 == 0;
    assert e[|e| - 2] == '=' && e[|e| - 1] == '=';
    assert StripPadding(e) == e[..|e| - 2];
    assert e[..|e| - 2] == u;
  }

  /** One `=` after a group of three characters is stripped again. */
  lemma StripOne(u: string)
    requires |u| % 4 == 3 && u[|u| - 1] != '='
    ensures StripPadding(u + "=") == u
  {
    var e := u + "=";
    assert |e| % 4 == 0;
    assert e[|e| - 2] == u[|u| - 1];
    assert e[|e| - 1] == '=';
    assert StripPadding(e) == e[..|e| - 1];
    assert e[..|e| - 1] == u;
  }

  lemma StripEncodedOne(b: seq<byte>)
    requires |b| % 3 == 1
    ensures StripPadding(RemoveWhitespace(Encode(b))) == EncodeUnpadded(b)
  {
    var u := EncodeUnpadded(b);
    UnpaddedLengthMod(|b|);
    assert Padding(|b|) == "==";
    assert Encode(b) == u + "==";
    KeepsPadded(u, "==");
    StripTwo(u);
  }

  lemma StripEncodedTwo(b: seq<byte>)
    requires |b| % 3 == 2
    ensures StripPadding(RemoveWhitespace(Encode(b))) == EncodeUnpadded(b)
  {
    var u := EncodeUnpadded(b);
    UnpaddedLengthMod(|b|);
    assert Padding(|b|) == "=";
    assert Encode(b) == u + "=";
    assert InAlphabet(u[|u| - 1]);
    KeepsPadded(u, "=");
    StripOne(u);
  }

  /** Whitespace removal and padding removal turn an encoding into its unpadded form. */
  lemma StripEncoded(b: seq<byte>)
    ensures StripPadding(RemoveWhitespace(Encode(b))) == EncodeUnpadded(b)
  {
    if |b| % 3 == 1 {
      StripEncodedOne(b);
    } else if |b| % 3 == 2 {
      StripEncodedTwo(b);
    } else {
      var u := EncodeUnpadded(b);
      assert Padding(|b|) == [];
      assert Encode(b) == u + [];
      assert u + [] == u;
      StripUnpadded(b);
    }
  }

  /** Decoding an unpadded encoding also succeeds: padding is optional. */
  lemma DecodeUnpadded(b: seq<byte>)
    ensures ForgivingDecode(EncodeUnpadded(b)) == Some(b)
  {
    StripUnpadded(b);
    DecodeEncodeUnpadded(b);
  }

  /** Round trip: whatever octets are encoded, decoding gives them back. */
  lemma DecodeEncode(b: seq<byte>)
    ensures ForgivingDecode(Encode(b)) == Some(b)
  {
    StripEncoded(b);
    DecodeEncodeUnpadded(b);
  }

  /** An encoding holds only alphabet characters and `=`. */
  lemma EncodedCharacters(b: seq<byte>)
    ensures forall k :: 0 <= k < |Encode(b)| ==> InAlphabet(Encode(b)[k]) || Encode(b)[k] == '='
  {
    var u := EncodeUnpadded(b);
    var e := Encode(b);
    assert forall k :: 0 <= k < |e| && k < |u| ==> e[k] == u[k];
  }
}
