/**
 * The chunked upload of a recording: WAV header and PCM are base64-encoded
 * piece by piece between a JSON prefix and suffix, under a Content-Length that
 * is computed beforehand.
 */
module WavUpload {
  import opened Common
  import opened Bytes

  const SIZE_LIMIT: nat := U32_MAX
  const INT_LIMIT := 0x7FFF_FFFF
  const WAV_HEADER_BYTES := 44
  const RAW_CHUNK_BYTES := 3072
  const ENCODED_CHUNK_BYTES := 4100
  const REQUEST_PART_SIZE := 512
  const MAX_AUDIO_BYTES := 10 * 1024 * 1024
  const QUOTE: Byte := 34

  // ---- base64, section 4 of RFC 4648 -------------------------------------------------

  /** The four 6-bit values of a group of three bytes. */
  function Sextets(a: Byte, b: Byte, c: Byte): (v: (int, int, int, int))
    ensures 0 <= v.0 < 64 && 0 <= v.1 < 64 && 0 <= v.2 < 64 && 0 <= v.3 < 64
  {
    (a / 4, a % 4 * 16 + b / 16, b % 16 * 4 + c / 64, c % 64)
  }

  function Symbol(v: int): Byte
    requires 0 <= v < 64
  {
    if v < 26 then 65 + v
    else if v < 52 then 97 + (v - 26)
    else if v < 62 then 48 + (v - 52)
    else if v == 62 then 43
    else 47
  }

  const PAD: Byte := 61

  /** Table 1 of RFC 4648: A to Z, a to z, 0 to 9, plus and slash. */
  lemma SymbolIsStandard(v: int)
    requires 0 <= v < 64
    ensures Symbol(0) == 'A' as int && Symbol(25) == 'Z' as int && Symbol(26) == 'a' as int && Symbol(51) == 'z' as int
    ensures Symbol(52) == '0' as int && Symbol(61) == '9' as int && Symbol(62) == '+' as int && Symbol(63) == '/' as int
    ensures v !in {25, 51, 61, 62, 63} ==> Symbol(v + 1) == Symbol(v) + 1
  {
  }

  /** The four symbols of a group. */
  function Group(a: Byte, b: Byte, c: Byte): (g: Bytes)
    ensures |g| == 4
  {
    var v := Sextets(a, b, c);
    [Symbol(v.0), Symbol(v.1), Symbol(v.2), Symbol(v.3)]
  }

  function Base64(s: Bytes): (e: Bytes)
    ensures |e| == (|s| + 2) / 3 * 4
  {
    if s == [] then []
    else if |s| == 1 then Group(s[0], 0, 0)[..2] + [PAD, PAD]
    else if |s| == 2 then Group(s[0], s[1], 0)[..3] + [PAD]
    else Group(s[0], s[1], s[2]) + Base64(s[3..])
  }

  /** The test vectors "f", "fo", "foo" and "foobar" of section 10 of RFC 4648. */
  lemma StandardVectors()
    ensures Base64([102]) == [90, 103, 61, 61] && Base64([102, 111]) == [90, 109, 56, 61]
    ensures Base64([102, 111, 111]) == [90, 109, 57, 118]
    ensures Base64([102, 111, 111, 98, 97, 114]) == [90, 109, 57, 118, 89, 109, 70, 121]
  {
    hide Group;
    GroupVectors();
    var word: Bytes := [102, 111, 111, 98, 97, 114];
    assert Base64(word) == Group(word[0], word[1], word[2]) + Base64(word[3..]);
    assert word[3..] == [98, 97, 114] && word[3..][3..] == [];
    var short: Bytes := [102, 111, 111];
    assert short[3..] == [];
  }

  lemma GroupIs(a: Byte, b: Byte, c: Byte, v: (int, int, int, int), g: Bytes)
    requires |g| == 4 && 0 <= v.0 < 64 && 0 <= v.1 < 64 && 0 <= v.2 < 64 && 0 <= v.3 < 64
    requires a == 4 * v.0 + v.1 / 16 && b == v.1 % 16 * 16 + v.2 / 4 && c == v.2 % 4 * 64 + v.3
    requires g[0] == Symbol(v.0) && g[1] == Symbol(v.1) && g[2] == Symbol(v.2) && g[3] == Symbol(v.3)
    ensures Group(a, b, c) == g
  {
    hide Symbol;
    assert a / 4 == v.0 && a % 4 == v.1 / 16;
    assert b / 16 == v.1 % 16 && b % 16 == v.2 / 4;
    assert c / 64 == v.2 % 4 && c % 64 == v.3;
  }

  lemma GroupVectors()
    ensures Group(102, 0, 0) == [90, 103, 65, 65] && Group(102, 111, 0) == [90, 109, 56, 65]
    ensures Group(102, 111, 111) == [90, 109, 57, 118] && Group(98, 97, 114) == [89, 109, 70, 121]
  {
    hide Symbol, Group;
    SomeSymbols();
    GroupIs(102, 0, 0, (25, 32, 0, 0), [90, 103, 65, 65]);
    GroupIs(102, 111, 0, (25, 38, 60, 0), [90, 109, 56, 65]);
    GroupIs(102, 111, 111, (25, 38, 61, 47), [90, 109, 57, 118]);
    GroupIs(98, 97, 114, (24, 38, 5, 50), [89, 109, 70, 121]);
  }

  lemma SomeSymbols()
    ensures Symbol(0) == 65 && Symbol(5) == 70 && Symbol(24) == 89 && Symbol(25) == 90 && Symbol(32) == 103
    ensures Symbol(38) == 109 && Symbol(47) == 118 && Symbol(50) == 121 && Symbol(60) == 56 && Symbol(61) == 57
  {
  }

  /** The value of a symbol, or nothing if it is none. */
  function ValueOf(c: Byte): Option<int> {
    if 65 <= c <= 90 then Some(c - 65)
    else if 97 <= c <= 122 then Some(c - 97 + 26)
    else if 48 <= c <= 57 then Some(c - 48 + 52)
    else if c == 43 then Some(62)
    else if c == 47 then Some(63)
    else None
  }

  /** The three bytes that four 6-bit values spell. */
  function Join(v0: int, v1: int, v2: int, v3: int): (int, int, int) {
    (v0 * 4 + v1 / 16, v1 % 16 * 16 + v2 / 4, v2 % 4 * 64 + v3)
  }

  /** The value of a symbol, where it is one. */
  function V(c: Byte): int { if ValueOf(c).Some? then ValueOf(c).value else 0 }

  /** A decoder to check the encoder against. */
  function Decode64(e: Bytes): Option<seq<int>> {
    if e == [] then Some([])
    else if |e| < 4 || ValueOf(e[0]).None? || ValueOf(e[1]).None? then None
    else if |e| == 4 && e[2] == PAD && e[3] == PAD then Some([Join(V(e[0]), V(e[1]), 0, 0).0])
    else if ValueOf(e[2]).None? then None
    else if |e| == 4 && e[3] == PAD then
      Some([Join(V(e[0]), V(e[1]), V(e[2]), 0).0, Join(V(e[0]), V(e[1]), V(e[2]), 0).1])
    else if ValueOf(e[3]).None? || Decode64(e[4..]).None? then None
    else
      var j := Join(V(e[0]), V(e[1]), V(e[2]), V(e[3]));
      Some([j.0, j.1, j.2] + Decode64(e[4..]).value)
  }

  lemma SymbolRoundTrip(v: int)
    requires 0 <= v < 64
    ensures ValueOf(Symbol(v)) == Some(v) && Symbol(v) != PAD
  {
  }

  /** High part times size plus low part comes apart again. */
  lemma Carry(high: nat, low: nat, size: nat, bound: nat)
    requires low < size && high < bound && (size == 16 || size == 4)
    ensures (high * size + low) / size == high && (high * size + low) % size == low
  {
  }

  lemma JoinSextets(a: Byte, b: Byte, c: Byte)
    ensures var (v0, v1, v2, v3) := Sextets(a, b, c); Join(v0, v1, v2, v3) == (a, b, c)
    ensures c == 0 ==> Sextets(a, b, c).3 == 0
    ensures b == 0 && c == 0 ==> Sextets(a, b, c).2 == 0
  {
    Carry(a % 4, b / 16, 16, 4);
    Carry(b % 16, c / 64, 4, 16);
  }

  lemma NotPad()
    ensures ValueOf(PAD).None?
  {
  }

  /** Two symbols and two pads, or three symbols and one pad. */
  lemma DecodeShort(e: Bytes)
    requires |e| == 4 && ValueOf(e[0]).Some? && ValueOf(e[1]).Some? && e[3] == PAD && (e[2] == PAD || ValueOf(e[2]).Some?)
    ensures ValueOf(PAD).None? && e[2] == PAD ==> Decode64(e) == Some([Join(V(e[0]), V(e[1]), 0, 0).0])
    ensures e[2] != PAD ==>
      Decode64(e) == Some([Join(V(e[0]), V(e[1]), V(e[2]), 0).0, Join(V(e[0]), V(e[1]), V(e[2]), 0).1])
  {
    hide ValueOf, Join;
  }

  lemma OneRoundTrip(a: Byte)
    ensures Decode64(Base64([a])) == Some([a])
  {
    hide Sextets, Symbol, ValueOf, Join, Decode64;
    JoinSextets(a, 0, 0);
    NotPad();
    var v := Sextets(a, 0, 0);
    SymbolRoundTrip(v.0);
    SymbolRoundTrip(v.1);
    assert Base64([a]) == [Symbol(v.0), Symbol(v.1), PAD, PAD];
    hide Base64;
    DecodeShort([Symbol(v.0), Symbol(v.1), PAD, PAD]);
  }

  lemma TwoRoundTrip(a: Byte, b: Byte)
    ensures Decode64(Base64([a, b])) == Some([a, b])
  {
    hide Sextets, Symbol, ValueOf, Join, Decode64;
    JoinSextets(a, b, 0);
    var v := Sextets(a, b, 0);
    SymbolRoundTrip(v.0);
    SymbolRoundTrip(v.1);
    SymbolRoundTrip(v.2);
    assert Base64([a, b]) == [Symbol(v.0), Symbol(v.1), Symbol(v.2), PAD];
    hide Base64;
    DecodeShort([Symbol(v.0), Symbol(v.1), Symbol(v.2), PAD]);
  }

  lemma EncodeLong(s: Bytes)
    requires |s| >= 3
    ensures var e := Base64(s); var v := Sextets(s[0], s[1], s[2]);
      && |e| >= 4 && e[0] == Symbol(v.0) && e[1] == Symbol(v.1) && e[2] == Symbol(v.2) && e[3] == Symbol(v.3)
      && e[4..] == Base64(s[3..])
  {
    hide Sextets, Symbol;
  }

  lemma DecodeLong(e: Bytes)
    requires |e| >= 4 && ValueOf(e[0]).Some? && ValueOf(e[1]).Some? && ValueOf(e[2]).Some? && ValueOf(e[3]).Some?
    requires e[2] != PAD && e[3] != PAD && Decode64(e[4..]).Some?
    ensures var j := Join(V(e[0]), V(e[1]), V(e[2]), V(e[3]));
      Decode64(e) == Some([j.0, j.1, j.2] + Decode64(e[4..]).value)
  {
    hide ValueOf, Join;
  }

  lemma LongRoundTrip(s: Bytes)
    requires |s| >= 3 && Decode64(Base64(s[3..])) == Some(s[3..])
    ensures Decode64(Base64(s)) == Some(s)
  {
    hide Sextets, Symbol, ValueOf, Join, Decode64, Base64;
    JoinSextets(s[0], s[1], s[2]);
    EncodeLong(s);
    var v := Sextets(s[0], s[1], s[2]);
    SymbolRoundTrip(v.0);
    SymbolRoundTrip(v.1);
    SymbolRoundTrip(v.2);
    SymbolRoundTrip(v.3);
    DecodeLong(Base64(s));
    assert s == [s[0], s[1], s[2]] + s[3..];
  }

  /** The encoding can be read back, whatever the length. */
  lemma {:induction false} Base64RoundTrip(s: Bytes)
    ensures Decode64(Base64(s)) == Some(s)
    decreases |s|
  {
    hide Sextets, Symbol, ValueOf, Join;
    if |s| >= 3 {
      Base64RoundTrip(s[3..]);
      LongRoundTrip(s);
    } else if |s| == 2 {
      assert s == [s[0], s[1]];
      TwoRoundTrip(s[0], s[1]);
    } else if |s| == 1 {
      assert s == [s[0]];
      OneRoundTrip(s[0]);
    }
  }

  /** Pieces of a length divisible by three encode to what the whole encodes to. */
  lemma {:induction false} Base64Concat(a: Bytes, b: Bytes)
    requires |a| % 3 == 0
    ensures Base64(a + b) == Base64(a) + Base64(b)
  {
    if a == [] {
      assert a + b == b;
    } else {
      assert (a + b)[3..] == a[3..] + b;
      Base64Concat(a[3..], b);
    }
  }

  /** One more piece of a multiple-of-three walk over `s`. */
  lemma NextPiece(s: Bytes, offset: nat, next: nat)
    requires offset <= next <= |s| && offset % 3 == 0
    ensures Base64(s[..next]) == Base64(s[..offset]) + Base64(s[offset..next])
  {
    hide Base64;
    assert s[..next] == s[..offset] + s[offset..next];
    Base64Concat(s[..offset], s[offset..next]);
  }

  lemma PieceWithin(s: Bytes, n: nat)
    requires n <= |s| && (n < |s| ==> n % 3 == 0)
    ensures Base64(s[..n]) <= Base64(s)
  {
    hide Base64;
    if n < |s| {
      NextPiece(s, n, |s|);
      assert s[..|s|] == s;
    } else {
      assert s[..n] == s;
    }
  }

  /** The server got some part of `body` so far, on top of what came before. */
  predicate Within(before: Bytes, wire: Bytes, body: Bytes) { before <= wire <= before + body }

  lemma Between(before: Bytes, done: Bytes, piece: Bytes, whole: Bytes, wire: Bytes)
    requires Within(before + done, wire, piece) && done + piece <= whole
    ensures Within(before, wire, whole)
    ensures wire == before + done + piece ==> wire == before + (done + piece)
  {
  }

  // ---- lengths ------------------------------------------------------------------------

  function Wrap(n: nat): nat { n % (SIZE_LIMIT + 1) }

  lemma WrapSmall(n: nat)
    requires n <= SIZE_LIMIT
    ensures Wrap(n) == n
  {
  }

  /** Unsigned 32-bit arithmetic throughout; 0 stands for "does not fit". */
  function EncodedLength(raw: nat): nat {
    if raw > SIZE_LIMIT / 4 * 3 then 0 else Wrap(Wrap(raw + 2) / 3 * 4)
  }

  /** The guard is exact: it refuses a length precisely when its encoding would not fit. */
  lemma EncodedLengthIsExact(s: Bytes)
    requires |s| <= SIZE_LIMIT
    ensures EncodedLength(|s|) == if |Base64(s)| <= SIZE_LIMIT then |Base64(s)| else 0
  {
    hide Base64;
    var n := |s|;
    if n <= SIZE_LIMIT / 4 * 3 {
      WrapSmall(n + 2);
      WrapSmall((n + 2) / 3 * 4);
    }
  }

  function WavBytes(pcm: nat): nat {
    if pcm > SIZE_LIMIT - WAV_HEADER_BYTES then 0 else pcm + WAV_HEADER_BYTES
  }

  // ---- the WAV header --------------------------------------------------------------------

  function Little16(v: nat): (b: Bytes)
    ensures |b| == 2
  {
    [v % 256, v / 256 % 256]
  }

  function Little32(v: nat): (b: Bytes)
    ensures |b| == 4
  {
    [v % 256, v / 0x100 % 256, v / 0x1_0000 % 256, v / 0x100_0000 % 256]
  }

  datatype Format = Format(rate: U32, bits: nat, channels: nat)

  function BlockAlign(f: Format): nat { f.channels * (f.bits / 8) % 0x1_0000 }

  predicate FormatOk(f: Format, pcm: nat) {
    && f.rate != 0 && 0 < f.bits < 0x1_0000 && 0 < f.channels < 0x1_0000 && f.bits % 8 == 0
    && 0 < pcm <= U32_MAX - 36
    && BlockAlign(f) != 0 && pcm % BlockAlign(f) == 0
  }

  /** "RIFF" in ASCII. */
  function RiffTag(): (tag: Bytes)
    ensures |tag| == 4
  {
    [82, 73, 70, 70]
  }

  const WAVE_FMT: Bytes := [87, 65, 86, 69, 102, 109, 116, 32]
  const DATA: Bytes := [100, 97, 116, 97]

  /** Everything between the two sizes. */
  function HeaderMiddle(f: Format): (h: Bytes)
    ensures |h| == 32
  {
    WAVE_FMT + Little32(16) + Little16(1) + Little16(f.channels) + Little32(f.rate)
    + Little32(f.rate * f.channels * (f.bits / 8)) + Little16(BlockAlign(f)) + Little16(f.bits) + DATA
  }

  function WavHeader(f: Format, pcm: nat): (h: Bytes)
    ensures |h| == WAV_HEADER_BYTES
  {
    RiffTag() + Little32(36 + pcm) + HeaderMiddle(f) + Little32(pcm)
  }

  function FromLittle(b: Bytes): nat { if b == [] then 0 else b[0] + 256 * FromLittle(b[1..]) }

  lemma FromNext(x: Byte, rest: Bytes)
    ensures FromLittle([x] + rest) == x + 256 * FromLittle(rest)
  {
    assert ([x] + rest)[1..] == rest;
  }

  lemma FromFour(a: Byte, b: Byte, c: Byte, d: Byte)
    ensures FromLittle([a, b, c, d]) == a + 256 * (b + 256 * (c + 256 * d))
  {
    FromNext(d, []);
    FromNext(c, [d]);
    FromNext(b, [c, d]);
    FromNext(a, [b, c, d]);
    assert [a, b, c, d] == [a] + [b, c, d] && [b, c, d] == [b] + [c, d] && [c, d] == [c] + [d] && [d] == [d] + [];
    assert FromLittle([]) == 0;
  }

  lemma Little32Reads(v: nat)
    requires v <= U32_MAX
    ensures FromLittle(Little32(v)) == v
  {
    hide FromLittle;
    var a, b, c, d := v % 256, v / 0x100 % 256, v / 0x1_0000 % 256, v / 0x100_0000 % 256;
    FromFour(a, b, c, d);
    FourDigits(v);
  }

  lemma FourDigits(v: nat)
    requires v <= U32_MAX
    ensures v == v % 256 + 256 * (v / 0x100 % 256 + 256 * (v / 0x1_0000 % 256 + 256 * (v / 0x100_0000 % 256)))
  {
    assert v / 0x1_0000 == v / 0x1_0000 % 256 + 256 * (v / 0x100_0000);
    assert v / 0x100 == v / 0x100 % 256 + 256 * (v / 0x1_0000);
  }

  lemma Little16Reads(v: nat)
    requires v < 0x1_0000
    ensures FromLittle(Little16(v)) == v
  {
    var b := Little16(v);
    assert b[1..] == [v / 256 % 256] && b[1..][1..] == [];
    assert FromLittle(b[1..]) == v / 256;
  }

  /** More than 32 bits are cut off, as an unsigned multiplication does. */
  lemma Little32Wraps(v: nat)
    ensures Little32(v) == Little32(v % 0x1_0000_0000)
  {
    var q, w := v / 0x1_0000_0000, v % 0x1_0000_0000;
    WrapsAt(v, q, w, 0x1, 0x1_0000_0000);
    WrapsAt(v, q, w, 0x100, 0x100_0000);
    WrapsAt(v, q, w, 0x1_0000, 0x1_0000);
    WrapsAt(v, q, w, 0x100_0000, 0x100);
  }

  lemma WrapsAt(v: nat, q: nat, w: nat, place: nat, above: nat)
    requires v == 0x1_0000_0000 * q + w
    requires (place, above) in {(0x1, 0x1_0000_0000), (0x100, 0x100_0000), (0x1_0000, 0x1_0000), (0x100_0000, 0x100)}
    ensures v / place % 256 == w / place % 256
  {
    assert v / place == above * q + w / place;
  }

  lemma Pieces(a: Bytes, b: Bytes, c: Bytes, d: Bytes, e: Bytes, f: Bytes, g: Bytes, h: Bytes, i: Bytes)
    requires |a| == 8 && |b| == 4 && |c| == 2 && |d| == 2 && |e| == 4 && |f| == 4 && |g| == 2 && |h| == 2 && |i| == 4
    ensures var m := a + b + c + d + e + f + g + h + i;
      && m[..8] == a && m[8..12] == b && m[12..14] == c && m[14..16] == d && m[16..20] == e && m[20..24] == f
      && m[24..26] == g && m[26..28] == h && m[28..32] == i
  {
  }

  /** What the middle of the header says, read back at the offsets of the WAV format: PCM, and the format given. */
  lemma HeaderFormat(f: Format, pcm: nat)
    requires FormatOk(f, pcm)
    ensures var m := HeaderMiddle(f);
      && m[..8] == [87, 65, 86, 69, 102, 109, 116, 32] && FromLittle(m[8..12]) == 16 && FromLittle(m[12..14]) == 1
      && FromLittle(m[14..16]) == f.channels && FromLittle(m[16..20]) == f.rate
      && FromLittle(m[20..24]) == f.rate * f.channels * (f.bits / 8) % 0x1_0000_0000
      && FromLittle(m[24..26]) == f.channels * (f.bits / 8) % 0x1_0000 && FromLittle(m[26..28]) == f.bits
      && m[28..32] == [100, 97, 116, 97]
  {
    hide Little16, Little32, FromLittle;
    var rate := f.rate * f.channels * (f.bits / 8);
    Pieces(WAVE_FMT, Little32(16), Little16(1), Little16(f.channels), Little32(f.rate), Little32(rate),
           Little16(BlockAlign(f)), Little16(f.bits), DATA);
    Little32Reads(16);
    Little16Reads(1);
    Little16Reads(f.channels);
    Little32Reads(f.rate);
    Little32Wraps(rate);
    Little32Reads(rate % 0x1_0000_0000);
    Little16Reads(BlockAlign(f));
    Little16Reads(f.bits);
  }

  /** Where the middle stands in the file, and what comes before it. */
  lemma HeaderPlaces(f: Format, pcm: Bytes)
    ensures var file := WavHeader(f, |pcm|) + pcm;
      |file| == WAV_HEADER_BYTES + |pcm| && file[..4] == [82, 73, 70, 70] && file[8..40] == HeaderMiddle(f)
      && file[WAV_HEADER_BYTES..] == pcm
  {
    hide HeaderMiddle, Little32;
  }

  lemma SizesAt(a: Bytes, b: Bytes, c: Bytes, d: Bytes, e: Bytes)
    requires |a| == 4 && |b| == 4 && |c| == 32 && |d| == 4
    ensures var file := a + b + c + d + e;
      |file| == WAV_HEADER_BYTES + |e| && file[4..8] == b && file[40..44] == d
  {
  }

  lemma SmallEnough(f: Format, pcm: nat)
    requires FormatOk(f, pcm)
    ensures pcm + 36 <= U32_MAX
  {
  }

  /** The two sizes in the header describe the file: what follows each of them is exactly that long. */
  lemma HeaderSizes(f: Format, pcm: Bytes)
    requires FormatOk(f, |pcm|)
    ensures var file := WavHeader(f, |pcm|) + pcm;
      && |file| == WAV_HEADER_BYTES + |pcm|
      && FromLittle(file[4..8]) == |file| - 8 && FromLittle(file[40..44]) == |file| - WAV_HEADER_BYTES
  {
    hide RiffTag, HeaderMiddle, Little32, FromLittle, FormatOk, BlockAlign;
    SmallEnough(f, |pcm|);
    Little32Reads(36 + |pcm|);
    Little32Reads(|pcm|);
    SizesAt(RiffTag(), Little32(36 + |pcm|), HeaderMiddle(f), Little32(|pcm|), pcm);
  }

  // ---- the connection --------------------------------------------------------------------------

  datatype Result = Ok | InvalidArg | InvalidState | Timeout | Fail

  /** An HTTP client that takes what it likes of each write, and a request that may be cancelled. */
  class Connection {
    var cancelled: bool
    ghost var wire: Bytes

    constructor ()
      ensures wire == []
    {
      cancelled, wire := false, [];
    }

    /** Cancelling is for good. */
    method IsCurrent() returns (current: bool)
      modifies this`cancelled
      ensures current == !cancelled && (old(cancelled) ==> cancelled)
    {
      if * { cancelled := true; }
      current := !cancelled;
    }

    method Write(data: Bytes) returns (written: int)
      requires data != []
      modifies this`wire
      ensures written <= |data|
      ensures wire == if written > 0 then old(wire) + data[..written] else old(wire)
    {
      written := *;
      if written > |data| { written := |data|; }
      if written > 0 { wire := wire + data[..written]; }
    }

    method BeforeDeadline() returns (ok: bool) { ok := *; }
  }

  class Uploader {
    const connection: Connection
    var uploaded: nat

    constructor ()
      ensures fresh(connection) && uploaded == 0 && connection.wire == []
    {
      connection := new Connection();
      uploaded := 0;
    }

    /** All of the data, in as many writes as it takes, or an error after some prefix of it. */
    method WriteAll(data: Bytes) returns (r: Result)
      modifies this, connection
      ensures Within(old(connection.wire), connection.wire, data)
      ensures r == Ok ==> connection.wire == old(connection.wire) + data
      ensures uploaded - old(uploaded) == |connection.wire| - |old(connection.wire)| && r != InvalidArg
      ensures old(connection.cancelled) ==> connection.cancelled
    {
      var total := 0;
      while total < |data|
        invariant total <= |data| && connection.wire == old(connection.wire) + data[..total]
        invariant uploaded == old(uploaded) + total && (old(connection.cancelled) ==> connection.cancelled)
      {
        var current := connection.IsCurrent();
        if !current { return InvalidState; }
        var intime := connection.BeforeDeadline();
        if !intime { return Timeout; }
        var remaining := |data| - total;
        var request := if remaining > INT_LIMIT then INT_LIMIT else remaining;
        var written := connection.Write(data[total..total + request]);
        if written == 0 { return Timeout; }
        if written < 0 { return Fail; }
        assert data[total..total + request][..written] == data[total..total + written];
        assert data[..total + written] == data[..total] + data[total..total + written];
        total, uploaded := total + written, uploaded + written;
      }
      assert data[..total] == data;
      r := Ok;
    }

    /** A window of the file that is never built: header, then PCM. */
    method CopyVirtualChunk(header: Bytes, pcm: Bytes, offset: nat, out: array<Byte>, length: nat)
      requires |header| == WAV_HEADER_BYTES && offset + length <= |header| + |pcm| && length <= out.Length
      modifies out
      ensures out[..length] == (header + pcm)[offset..offset + length]
    {
      var copied := 0;
      if offset < WAV_HEADER_BYTES {
        var available := WAV_HEADER_BYTES - offset;
        copied := if available < length then available else length;
        for i := 0 to copied
          invariant forall k | 0 <= k < i :: out[k] == header[offset + k]
        {
          out[i] := header[offset + i];
        }
      }
      for i := copied to length
        invariant forall k | 0 <= k < i :: out[k] == (header + pcm)[offset + k]
      {
        out[i] := pcm[offset + i - WAV_HEADER_BYTES];
      }
    }

    /** The library's encoder: it may fail, and needs room for a terminating NUL. */
    method Encode(raw: Bytes, capacity: nat) returns (encoded: Option<Bytes>)
      ensures encoded.Some? ==> encoded.value == Base64(raw)
    {
      if * { return None; }
      if |Base64(raw)| + 1 > capacity { return None; }
      encoded := Some(Base64(raw));
    }

    /** One piece of the file, encoded on its own. */
    method UploadPiece(header: Bytes, pcm: Bytes, offset: nat, raw: array<Byte>) returns (r: Result, length: nat)
      requires |header| == WAV_HEADER_BYTES && raw.Length == RAW_CHUNK_BYTES
      requires offset < |header| + |pcm| && offset % 3 == 0
      modifies this, connection, raw
      ensures 0 < length && offset + length <= |header| + |pcm|
      ensures offset + length < |header| + |pcm| ==> (offset + length) % 3 == 0
      ensures var piece := Base64((header + pcm)[offset..offset + length]);
        && Within(old(connection.wire), connection.wire, piece)
        && (r == Ok ==> connection.wire == old(connection.wire) + piece)
      ensures uploaded - old(uploaded) == |connection.wire| - |old(connection.wire)|
      ensures old(connection.cancelled) ==> connection.cancelled
      ensures r != InvalidArg
    {
      hide Base64;
      var rest := |header| + |pcm| - offset;
      length := if rest > RAW_CHUNK_BYTES then RAW_CHUNK_BYTES else rest;
      CopyVirtualChunk(header, pcm, offset, raw, length);
      var encoded := Encode(raw[..length], ENCODED_CHUNK_BYTES);
      if encoded.None? { return Fail, length; }
      r := WriteAll(encoded.value);
    }

    /** The file in pieces of 3072 bytes. */
    method UploadFile(header: Bytes, pcm: Bytes) returns (r: Result)
      requires |header| == WAV_HEADER_BYTES
      modifies this, connection
      ensures Within(old(connection.wire), connection.wire, Base64(header + pcm))
      ensures r == Ok && !connection.cancelled ==> connection.wire == old(connection.wire) + Base64(header + pcm)
      ensures uploaded - old(uploaded) == |connection.wire| - |old(connection.wire)|
      ensures r != InvalidArg
    {
      ghost var file, before := header + pcm, connection.wire;
      var raw := new Byte[RAW_CHUNK_BYTES];
      var offset := 0;
      assert Base64(file[..0]) == [];
      assert Within(before, before, Base64(file));
      hide Base64, Within;
      r := Ok;
      var current := connection.IsCurrent();
      while r == Ok && current && offset < |header| + |pcm|
        invariant offset <= |file| && (offset < |file| ==> offset % 3 == 0)
        invariant r == Ok ==> connection.wire == before + Base64(file[..offset])
        invariant Within(before, connection.wire, Base64(file))
        invariant uploaded - old(uploaded) == |connection.wire| - |before|
        invariant (current || connection.cancelled) && r != InvalidArg
        decreases |file| - offset
      {
        var length;
        r, length := UploadPiece(header, pcm, offset, raw);
        ghost var next := offset + length;
        ghost var done, piece, more := Base64(file[..offset]), Base64(file[offset..next]), Base64(file[..next]);
        NextPiece(file, offset, next);
        PieceWithin(file, next);
        assert more == done + piece;
        Between(before, done, piece, Base64(file), connection.wire);
        offset := offset + length;
        current := connection.IsCurrent();
      }
      assert file[..|file|] == file;
    }

    /** Prefix, file, quote, suffix: all of it, or a prefix of it and an error. */
    method SendAll(header: Bytes, pcm: Bytes, prefix: Bytes, suffix: Bytes) returns (r: Result)
      requires |header| == WAV_HEADER_BYTES && uploaded == 0 && connection.wire == []
      modifies this, connection
      ensures var body := prefix + Base64(header + pcm) + [QUOTE] + suffix;
        connection.wire <= body && (r == Ok ==> connection.wire == body)
      ensures uploaded == |connection.wire| && r != InvalidArg
    {
      hide Base64;
      ghost var encoding := Base64(header + pcm);
      var current := connection.IsCurrent();
      if !current { return InvalidState; }
      r := WriteAll(prefix);
      if r != Ok { return; }
      r := UploadFile(header, pcm);
      if r != Ok { return; }
      current := connection.IsCurrent();
      if !current { return InvalidState; }
      assert connection.wire == prefix + encoding;
      r := WriteAll([QUOTE]);
      if r != Ok { return; }
      r := WriteAll(suffix);
    }

    /**
     * The whole request. On success the server got exactly the declared number of bytes: prefix,
     * encoded file, quote and suffix; on any failure it got a prefix of that.
     */
    method Upload(f: Format, pcm: Bytes, prefix: Bytes, suffix: Bytes) returns (r: Result, declared: nat)
      requires |prefix| < REQUEST_PART_SIZE && |suffix| < REQUEST_PART_SIZE && |pcm| <= SIZE_LIMIT
      requires uploaded == 0 && connection.wire == []
      modifies this, connection
      ensures var body := prefix + Base64(WavHeader(f, |pcm|) + pcm) + [QUOTE] + suffix;
        && (r == Ok ==> connection.wire == body && uploaded == declared == |body| <= INT_LIMIT)
        && (r != Ok ==> connection.wire <= body)
      ensures r == InvalidArg <==> |pcm| == 0 || |pcm| + WAV_HEADER_BYTES > MAX_AUDIO_BYTES || !FormatOk(f, |pcm|)
      ensures uploaded == |connection.wire|
    {
      hide Base64, WavHeader, FormatOk, EncodedLength, Wrap;
      declared := 0;
      if |pcm| == 0 { return InvalidArg, 0; }
      var wav := WavBytes(|pcm|);
      if wav == 0 || wav > MAX_AUDIO_BYTES { return InvalidArg, 0; }
      if !FormatOk(f, |pcm|) { return InvalidArg, 0; }
      var header := WavHeader(f, |pcm|);
      EncodedLengthIsExact(header + pcm);
      var encoded := EncodedLength(wav);
      r := InvalidArg;
      if encoded == 0 { return; }
      WrapSmall(|prefix| + encoded + 1 + |suffix|);
      declared := Wrap(|prefix| + encoded + 1 + |suffix|);
      if declared > INT_LIMIT { return; }
      r := SendAll(header, pcm, prefix, suffix);
    }
  }
}
