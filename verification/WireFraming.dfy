/**
 * The management wire format: frames behind a magic word, decoded byte by byte
 * on the device (C) and in the browser (TypeScript). Both decoders are proved
 * against one transition function.
 */
module WireFraming {
  import opened Common
  import opened Bytes

  const MAGIC: Bytes := [0x41, 0x51, 0x4D, 0x47]
  const MAGIC_SIZE := 4
  const HEADER_SIZE := 12
  const VERSION: Byte := 1
  const MAX_PAYLOAD := 4096

  datatype Frame = Frame(kind: Byte, payload: Bytes)

  predicate KindIsValid(kind: Byte) { kind == 1 || kind == 2 || kind == 3 }

  predicate FrameOk(f: Frame) { KindIsValid(f.kind) && |f.payload| <= MAX_PAYLOAD }

  function Header(kind: Byte, length: nat): (h: Bytes)
    ensures |h| == HEADER_SIZE
  {
    MAGIC + [VERSION, kind, 0, 0] + Put(length, 4)
  }

  function Encode(f: Frame): Bytes { Header(f.kind, |f.payload|) + f.payload }

  function EncodeAll(frames: seq<Frame>): Bytes {
    if frames == [] then [] else Encode(frames[0]) + EncodeAll(frames[1..])
  }

  // ---- the transition function -------------------------------------------------

  /** What a decoder remembers between two bytes. */
  datatype Parser = Parser(header: Bytes, payload: Bytes)

  const EMPTY := Parser([], [])

  predicate HeaderOk(h: Bytes)
    requires |h| == HEADER_SIZE
  {
    h[4] == VERSION && KindIsValid(h[5]) && h[6] == 0 && h[7] == 0 && Get(h[8..12]) <= MAX_PAYLOAD
  }

  predicate ParserOk(p: Parser) {
    && (if |p.header| <= MAGIC_SIZE then p.header == MAGIC[..|p.header|] else p.header[..MAGIC_SIZE] == MAGIC)
    && |p.header| <= HEADER_SIZE
    && (|p.header| < HEADER_SIZE ==> p.payload == [])
    && (|p.header| == HEADER_SIZE ==> HeaderOk(p.header) && |p.payload| < Get(p.header[8..12]))
  }

  datatype Stepped = Stepped(next: Parser, frames: seq<Frame>, bad: bool, mismatches: nat)

  function Step(p: Parser, b: Byte): Stepped
    requires ParserOk(p)
  {
    var h := p.header + [b];
    if |p.header| < MAGIC_SIZE then
      if b == MAGIC[|p.header|] then Stepped(Parser(h, []), [], false, 0)
      else Stepped(Parser(if b == MAGIC[0] then [b] else [], []), [], false, 1)
    else if |p.header| < HEADER_SIZE then
      if |h| < HEADER_SIZE then Stepped(Parser(h, []), [], false, 0)
      else if !HeaderOk(h) then Stepped(EMPTY, [], true, 0)
      else if Get(h[8..12]) == 0 then Stepped(EMPTY, [Frame(h[5], [])], false, 0)
      else Stepped(Parser(h, []), [], false, 0)
    else
      var payload := p.payload + [b];
      if |payload| == Get(p.header[8..12]) then Stepped(EMPTY, [Frame(p.header[5], payload)], false, 0)
      else Stepped(Parser(p.header, payload), [], false, 0)
  }

  lemma StepOk(p: Parser, b: Byte)
    requires ParserOk(p)
    ensures ParserOk(Step(p, b).next)
  {
  }

  /** A step inside a header, whose magic word is already complete. */
  lemma HeaderStep(p: Parser, b: Byte)
    requires ParserOk(p) && MAGIC_SIZE <= |p.header| < HEADER_SIZE
    ensures var h := p.header + [b];
      Step(p, b) ==
        if |h| < HEADER_SIZE then Stepped(Parser(h, []), [], false, 0)
        else if !HeaderOk(h) then Stepped(EMPTY, [], true, 0)
        else if Get(h[8..12]) == 0 then Stepped(EMPTY, [Frame(h[5], [])], false, 0)
        else Stepped(Parser(h, []), [], false, 0)
    ensures ParserOk(Step(p, b).next)
  {
    StepOk(p, b);
  }

  /** Feeding stops at the first bad header; what follows it in `data` is lost. */
  function Feed(p: Parser, data: Bytes): (r: Stepped)
    requires ParserOk(p)
    ensures ParserOk(r.next)
    decreases data
  {
    if data == [] then Stepped(p, [], false, 0)
    else
      StepOk(p, data[0]);
      var s := Step(p, data[0]);
      if s.bad then s
      else
        var t := Feed(s.next, data[1..]);
        Stepped(t.next, s.frames + t.frames, t.bad, s.mismatches + t.mismatches)
  }

  lemma {:induction false} FeedConcat(p: Parser, a: Bytes, b: Bytes)
    requires ParserOk(p)
    ensures var r := Feed(p, a);
      Feed(p, a + b) ==
        if r.bad then r
        else
          var t := Feed(r.next, b);
          Stepped(t.next, r.frames + t.frames, t.bad, r.mismatches + t.mismatches)
    decreases a
  {
    hide Step, ParserOk;
    if a == [] {
      assert a + b == b;
    } else {
      StepOk(p, a[0]);
      assert (a + b)[0] == a[0] && (a + b)[1..] == a[1..] + b;
      FeedConcat(Step(p, a[0]).next, a[1..], b);
    }
  }

  function Flatten(chunks: seq<Bytes>): Bytes {
    if chunks == [] then [] else chunks[0] + Flatten(chunks[1..])
  }

  /** Chunk after chunk. A chunk with a bad header ends early, the next one starts afresh. */
  function FeedChunks(p: Parser, chunks: seq<Bytes>): (r: Stepped)
    requires ParserOk(p)
    decreases chunks
  {
    if chunks == [] then Stepped(p, [], false, 0)
    else
      var s := Feed(p, chunks[0]);
      var t := FeedChunks(s.next, chunks[1..]);
      Stepped(t.next, s.frames + t.frames, s.bad || t.bad, s.mismatches + t.mismatches)
  }

  /** Without a bad header, the cutting into chunks makes no difference. */
  lemma {:induction false} ChunkInvariance(p: Parser, chunks: seq<Bytes>)
    requires ParserOk(p) && !Feed(p, Flatten(chunks)).bad
    ensures FeedChunks(p, chunks) == Feed(p, Flatten(chunks))
    decreases chunks
  {
    if chunks != [] {
      FeedConcat(p, chunks[0], Flatten(chunks[1..]));
      ChunkInvariance(Feed(p, chunks[0]).next, chunks[1..]);
    }
  }

  // ---- round trip -----------------------------------------------------------------

  lemma HeaderReads(kind: Byte, length: nat)
    requires length <= MAX_PAYLOAD
    ensures var h := Header(kind, length);
      && h[..MAGIC_SIZE] == MAGIC && h[4..8] == [VERSION, kind, 0, 0] && Get(h[8..12]) == length
      && (KindIsValid(kind) ==> HeaderOk(h))
  {
    Powers();
    GetPut(length, 4);
    var h := Header(kind, length);
    assert h[8..12] == Put(length, 4);
    assert h[4..8] == [VERSION, kind, 0, 0] && h[4] == h[4..8][0];
  }

  lemma {:induction false} FeedPayload(h: Bytes, payload: Bytes, i: nat)
    requires |h| == HEADER_SIZE && h[..MAGIC_SIZE] == MAGIC && HeaderOk(h)
    requires i < |payload| == Get(h[8..12])
    ensures ParserOk(Parser(h, payload[..i]))
    ensures Feed(Parser(h, payload[..i]), payload[i..]) == Stepped(EMPTY, [Frame(h[5], payload)], false, 0)
    decreases |payload| - i
  {
    var p := Parser(h, payload[..i]);
    assert payload[i..][0] == payload[i] && payload[i..][1..] == payload[i + 1..];
    assert payload[..i] + [payload[i]] == payload[..i + 1];
    if i + 1 < |payload| {
      FeedPayload(h, payload, i + 1);
    } else {
      assert payload[..i + 1] == payload && payload[i + 1..] == [];
    }
  }

  lemma {:induction false} FeedHeader(h: Bytes, i: nat)
    requires |h| == HEADER_SIZE && h[..MAGIC_SIZE] == MAGIC && HeaderOk(h) && i < HEADER_SIZE
    ensures ParserOk(Parser(h[..i], []))
    ensures Feed(Parser(h[..i], []), h[i..]) ==
      if Get(h[8..12]) == 0 then Stepped(EMPTY, [Frame(h[5], [])], false, 0) else Stepped(Parser(h, []), [], false, 0)
    decreases HEADER_SIZE - i
  {
    assert h[i..][0] == h[i] && h[i..][1..] == h[i + 1..];
    assert h[..i] + [h[i]] == h[..i + 1];
    assert i < MAGIC_SIZE ==> h[i] == h[..MAGIC_SIZE][i];
    assert if i <= MAGIC_SIZE then h[..i] == MAGIC[..i] else h[..i][..MAGIC_SIZE] == h[..MAGIC_SIZE];
    if i + 1 < HEADER_SIZE {
      FeedHeader(h, i + 1);
    } else {
      assert h[..i + 1] == h && h[i + 1..] == [];
    }
  }

  lemma FeedFrame(f: Frame)
    requires FrameOk(f)
    ensures Feed(EMPTY, Encode(f)) == Stepped(EMPTY, [f], false, 0)
  {
    var h := Header(f.kind, |f.payload|);
    HeaderReads(f.kind, |f.payload|);
    FeedHeader(h, 0);
    assert h[0..] == h && h[..0] == [] && h[5] == h[4..8][1];
    FeedConcat(EMPTY, h, f.payload);
    if f.payload != [] {
      FeedPayload(h, f.payload, 0);
      assert f.payload[..0] == [] && f.payload[0..] == f.payload;
    }
  }

  lemma {:induction false} FeedFrames(frames: seq<Frame>)
    requires forall f | f in frames :: FrameOk(f)
    ensures Feed(EMPTY, EncodeAll(frames)) == Stepped(EMPTY, frames, false, 0)
  {
    if frames != [] {
      FeedFrame(frames[0]);
      FeedFrames(frames[1..]);
      FeedConcat(EMPTY, Encode(frames[0]), EncodeAll(frames[1..]));
    }
  }

  /** Any list of frames, its encoding cut up anyhow: exactly that list comes out and nothing is left over. */
  lemma RoundTrip(frames: seq<Frame>, chunks: seq<Bytes>)
    requires (forall f | f in frames :: FrameOk(f)) && Flatten(chunks) == EncodeAll(frames)
    ensures FeedChunks(EMPTY, chunks) == Stepped(EMPTY, frames, false, 0)
  {
    FeedFrames(frames);
    ChunkInvariance(EMPTY, chunks);
  }

  // ---- the hunt for the magic word ---------------------------------------------------

  predicate MagicAt(s: Bytes, k: nat) { k + MAGIC_SIZE <= |s| && s[k..k + MAGIC_SIZE] == MAGIC }

  /** The word does not end before the last byte of `s`. */
  predicate NoMagic(s: Bytes) { forall k | 0 <= k < |s| :: !MagicAt(s, k) }

  /** `s` ends with the first `m` bytes of the word. */
  predicate Ends(s: Bytes, m: nat) { m <= MAGIC_SIZE && m <= |s| && s[|s| - m..] == MAGIC[..m] }

  lemma EndsStep(front: Bytes, b: Byte, m: nat)
    requires 0 < m <= MAGIC_SIZE
    ensures Ends(front + [b], m) <==> Ends(front, m - 1) && b == MAGIC[m - 1]
  {
    var s := front + [b];
    assert MAGIC[..m] == MAGIC[..m - 1] + [MAGIC[m - 1]];
    if m <= |s| { assert s[|s| - m..] == front[|front| - (m - 1)..] + [b]; }
  }

  /** The bytes of the word differ, so two of its prefixes cannot both end `s`. */
  lemma OneEnd(s: Bytes, m: nat, n: nat)
    requires 0 < m <= MAGIC_SIZE && 0 < n <= MAGIC_SIZE && Ends(s, m) && Ends(s, n)
    ensures m == n
  {
    assert s[|s| - 1] == s[|s| - m..][m - 1] == MAGIC[m - 1];
    assert s[|s| - 1] == s[|s| - n..][n - 1] == MAGIC[n - 1];
  }

  /**
   * Where the hunt stands after `s`: what it remembers is the longest end of `s` that could start the
   * word, and the bytes before it are lost. Each mismatch loses between one and four of them.
   */
  predicate Hunting(s: Bytes, r: Stepped) {
    var n := |r.next.header|;
    && n < MAGIC_SIZE && Ends(s, n) && r.next == Parser(MAGIC[..n], []) && !r.bad && r.frames == []
    && (forall m | n < m <= MAGIC_SIZE :: !Ends(s, m))
    && r.mismatches <= |s| - n <= MAGIC_SIZE * r.mismatches
  }

  lemma HuntStep(front: Bytes, b: Byte, r: Stepped)
    requires Hunting(front, r) && !Ends(front + [b], MAGIC_SIZE)
    ensures var t := Step(r.next, b);
      Hunting(front + [b], Stepped(t.next, [], t.bad, r.mismatches + t.mismatches)) && t.frames == []
  {
    var n, s := |r.next.header|, front + [b];
    assert MAGIC[..n] + [MAGIC[n]] == MAGIC[..n + 1];
    assert MAGIC[..0] == [] && MAGIC[..1] == [MAGIC[0]];
    var next := if b == MAGIC[n] then n + 1 else if b == MAGIC[0] then 1 else 0;
    EndsNow(front, b, n);
    hide Ends;
    assert Step(r.next, b).next == Parser(MAGIC[..next], []);
  }

  /** The longest end of `front + [b]` that could start the word, from the longest end of `front`. */
  lemma EndsNow(front: Bytes, b: Byte, n: nat)
    requires n < MAGIC_SIZE && Ends(front, n) && forall m | n < m <= MAGIC_SIZE :: !Ends(front, m)
    ensures var next := if b == MAGIC[n] then n + 1 else if b == MAGIC[0] then 1 else 0;
      Ends(front + [b], next) && forall m | next < m <= MAGIC_SIZE :: !Ends(front + [b], m)
  {
    forall m | 0 < m <= MAGIC_SIZE ensures Ends(front + [b], m) <==> Ends(front, m - 1) && b == MAGIC[m - 1] {
      EndsStep(front, b, m);
    }
    forall m | 0 < m < n ensures !Ends(front, m) { if Ends(front, m) { OneEnd(front, m, n); } }
    assert Ends(front, 0) && Ends(front + [b], 0);
    hide Ends;
  }

  lemma NoMagicFront(s: Bytes, n: nat)
    requires NoMagic(s) && n <= |s|
    ensures NoMagic(s[..n])
  {
    forall k | 0 <= k < n ensures !MagicAt(s[..n], k) {
      assert !MagicAt(s, k);
      if k + MAGIC_SIZE <= n { assert s[..n][k..k + MAGIC_SIZE] == s[k..k + MAGIC_SIZE]; }
    }
  }

  lemma {:induction false} HuntsOn(s: Bytes)
    requires NoMagic(s)
    ensures Hunting(s, Feed(EMPTY, s))
    decreases |s|
  {
    if s != [] {
      var front, b := s[..|s| - 1], s[|s| - 1];
      assert s == front + [b];
      NoMagicFront(s, |s| - 1);
      HuntsOn(front);
      if Ends(s, MAGIC_SIZE) { assert MagicAt(s, |s| - MAGIC_SIZE); }
      HuntStep(front, b, Feed(EMPTY, front));
      FeedConcat(EMPTY, front, [b]);
      FeedOne(Feed(EMPTY, front).next, b);
    }
  }

  lemma FeedOne(p: Parser, b: Byte)
    requires ParserOk(p)
    ensures Feed(p, [b]) == Step(p, b)
  {
    hide ParserOk, Step;
    StepOk(p, b);
    assert [b][1..] == [];
  }

  /** The decoder locks onto the first occurrence of the magic word, whatever garbage comes before it. */
  lemma LocksOntoFirst(s: Bytes, k: nat)
    requires MagicAt(s, k) && forall j | 0 <= j < k :: !MagicAt(s, j)
    ensures var r := Feed(EMPTY, s[..k + MAGIC_SIZE]);
      r.next == Parser(MAGIC, []) && !r.bad && r.frames == [] && r.mismatches <= k <= MAGIC_SIZE * r.mismatches
  {
    var upto := s[..k + 3];
    hide Step, ParserOk, Feed;
    NoMagicBefore(s, k);
    HuntsOn(upto);
    assert upto[k..] == s[k..k + 4][..3] == MAGIC[..3];
    assert Ends(upto, 3);
    assert s[k + 3] == s[k..k + 4][3] == MAGIC[3];
    assert s[..k + MAGIC_SIZE] == upto + [MAGIC[3]];
    FeedConcat(EMPTY, upto, [MAGIC[3]]);
    FeedOne(Feed(EMPTY, upto).next, MAGIC[3]);
    LastMagicByte();
  }

  lemma LastMagicByte()
    ensures ParserOk(Parser(MAGIC[..3], [])) && Step(Parser(MAGIC[..3], []), MAGIC[3]) == Stepped(Parser(MAGIC, []), [], false, 0)
  {
    assert MAGIC[..3] + [MAGIC[3]] == MAGIC;
  }

  lemma NoMagicBefore(s: Bytes, k: nat)
    requires MagicAt(s, k) && forall j | 0 <= j < k :: !MagicAt(s, j)
    ensures NoMagic(s[..k + 3])
  {
    var upto := s[..k + 3];
    forall j | 0 <= j < |upto| ensures !MagicAt(upto, j) {
      if j + MAGIC_SIZE <= |upto| {
        assert upto[j..j + MAGIC_SIZE] == s[j..j + MAGIC_SIZE];
        assert !MagicAt(s, j);
      }
    }
  }

  /** The counter counts mismatches, not lost bytes: here four bytes are lost at once and one is counted. */
  lemma CounterIsNotLostBytes(s: Bytes, b: Byte)
    requires NoMagic(s) && Ends(s, 3) && b !in MAGIC
    ensures |Feed(EMPTY, s).next.header| == 3
    ensures Feed(EMPTY, s + [b]) == Stepped(EMPTY, [], false, Feed(EMPTY, s).mismatches + 1)
  {
    HuntsOn(s);
    FeedConcat(EMPTY, s, [b]);
    FeedOne(Feed(EMPTY, s).next, b);
    hide Feed, Ends, NoMagic;
    assert b != MAGIC[3] && b != MAGIC[0];
  }

  /** If this byte is the word's first, so is the next. */
  predicate Repeats(s: Bytes, k: nat)
    requires k < |s|
  {
    s[k] == MAGIC[0] ==> k + 1 < |s| && s[k + 1] == MAGIC[0]
  }

  /** Among the first `lost` bytes, the word's first byte occurs only directly before another one. */
  predicate OnlyRepeats(s: Bytes, lost: nat)
    requires lost <= |s|
  {
    forall k | 0 <= k < lost :: Repeats(s, k)
  }

  /** What was lost before `b` arrives says the same with `b` behind it. */
  lemma RepeatsFront(front: Bytes, b: Byte, n: nat)
    requires n < MAGIC_SIZE && Ends(front, n) && forall m | n < m <= MAGIC_SIZE :: !Ends(front, m)
    ensures OnlyRepeats(front + [b], |front| - n) <==> OnlyRepeats(front, |front| - n)
  {
    var s, lost := front + [b], |front| - n;
    if front != [] { EndsOne(front); }
    forall k | 0 <= k < lost ensures Repeats(s, k) == Repeats(front, k) {
      assert k + 1 == |front| ==> n == 0;
    }
  }

  lemma EndsOne(s: Bytes)
    requires s != []
    ensures Ends(s, 1) <==> s[|s| - 1] == MAGIC[0]
  {
    assert s[|s| - 1..] == [s[|s| - 1]] && MAGIC[..1] == [MAGIC[0]];
  }

  lemma RepeatsStep(front: Bytes, b: Byte, n: nat)
    requires n < MAGIC_SIZE && Ends(front, n) && forall m | n < m <= MAGIC_SIZE :: !Ends(front, m)
    requires b != MAGIC[n]
    ensures var s, lost := front + [b], |front| - n;
      if b == MAGIC[0] then n > 0 && (OnlyRepeats(s, lost + n) <==> OnlyRepeats(front, lost) && n == 1)
      else OnlyRepeats(s, lost + n + 1) <==> OnlyRepeats(front, lost) && n == 0
  {
    var s, lost := front + [b], |front| - n;
    RepeatsFront(front, b, n);
    assert front[lost..] == MAGIC[..n];
    forall k | 0 <= k < n ensures s[lost + k] == MAGIC[k] { assert front[lost..][k] == MAGIC[..n][k]; }
    hide Ends;
    if n > 1 {
      assert s[lost] == MAGIC[0] && s[lost + 1] == MAGIC[1];
      assert !Repeats(s, lost);
    } else if n == 1 {
      assert s[lost] == MAGIC[0] && s[lost + 1] == b;
      assert Repeats(s, lost) <==> b == MAGIC[0];
    } else {
      assert s[lost] == b;
    }
  }

  /** Every lost byte was counted, or not every one, as the lost bytes decide. */
  predicate Counted(s: Bytes, r: Stepped) {
    Hunting(s, r) && (r.mismatches == |s| - |r.next.header| <==> OnlyRepeats(s, |s| - |r.next.header|))
  }

  /** The counter equals the number of lost bytes exactly when every lost first magic byte is directly followed by another. */
  lemma {:induction false} CountsLostBytes(s: Bytes)
    requires NoMagic(s)
    ensures Counted(s, Feed(EMPTY, s))
    decreases |s|
  {
    if s == [] {
      assert MAGIC[..0] == [];
      HuntsOn(s);
    } else {
      hide Counted, NoMagic, Step, Feed;
      var front, b := s[..|s| - 1], s[|s| - 1];
      assert s == front + [b];
      NoMagicFront(s, |s| - 1);
      CountsLostBytes(front);
      CountNext(front, b);
    }
  }

  lemma CountNext(front: Bytes, b: Byte)
    requires NoMagic(front + [b]) && Counted(front, Feed(EMPTY, front))
    ensures Counted(front + [b], Feed(EMPTY, front + [b]))
  {
    HuntsOn(front + [b]);
    FeedConcat(EMPTY, front, [b]);
    FeedOne(Feed(EMPTY, front).next, b);
    hide Feed, NoMagic, Step, Ends, OnlyRepeats;
    CountStep(front, b, Feed(EMPTY, front), Feed(EMPTY, front + [b]));
  }

  lemma CountStep(front: Bytes, b: Byte, r: Stepped, t: Stepped)
    requires Counted(front, r) && Hunting(front + [b], t)
    requires t.next == Step(r.next, b).next && t.mismatches == r.mismatches + Step(r.next, b).mismatches
    ensures Counted(front + [b], t)
  {
    var n := |r.next.header|;
    RepeatsFront(front, b, n);
    if b != MAGIC[n] { RepeatsStep(front, b, n); }
    hide Ends, OnlyRepeats;
    assert |MAGIC[..n]| == n;
  }

  lemma FeedNothing(p: Parser, data: Bytes)
    requires ParserOk(p)
    ensures Feed(p, data[..0]) == Stepped(p, [], false, 0)
  {
  }

  lemma FeedNext(p: Parser, data: Bytes, i: nat)
    requires ParserOk(p) && i < |data| && !Feed(p, data[..i]).bad
    ensures var r := Feed(p, data[..i]); var t := Step(r.next, data[i]);
      Feed(p, data[..i + 1]) == Stepped(t.next, r.frames + t.frames, t.bad, r.mismatches + t.mismatches)
  {
    hide Step, ParserOk;
    assert data[..i + 1] == data[..i] + [data[i]];
    FeedConcat(p, data[..i], [data[i]]);
    FeedOne(Feed(p, data[..i]).next, data[i]);
  }

  /** After a bad header the rest of the data is not looked at. */
  lemma FeedStops(p: Parser, data: Bytes, i: nat)
    requires ParserOk(p) && i <= |data| && Feed(p, data[..i]).bad
    ensures Feed(p, data) == Feed(p, data[..i])
  {
    assert data == data[..i] + data[i..];
    FeedConcat(p, data[..i], data[i..]);
  }

  /** The counters are unsigned C integers. */
  function Wrap64(n: nat): U64 { n % (U64_MAX + 1) }

  function Wrap32(n: nat): U32 { n % (U32_MAX + 1) }

  lemma WrapAdds(n: nat, k: nat)
    ensures Wrap64(Wrap64(n) + k) == Wrap64(n + k) && (n <= U64_MAX ==> Wrap64(n) == n)
    ensures n <= U32_MAX ==> Wrap32(n) == n
  {
    assert n == (U64_MAX + 1) * (n / (U64_MAX + 1)) + Wrap64(n);
    ModuloTerm(Wrap64(n) + k, n / (U64_MAX + 1));
  }

  lemma {:induction false} ModuloTerm(n: nat, q: nat)
    ensures Wrap64((U64_MAX + 1) * q + n) == Wrap64(n)
  {
    if q > 0 { ModuloTerm(n, q - 1); }
  }

  /** The checks on a complete header, the same in both decoders. */
  method CheckHeader(header: array<Byte>) returns (good: bool, length: nat)
    requires header.Length == HEADER_SIZE
    ensures good == HeaderOk(header[..]) && length == Get(header[..][8..12])
  {
    assert header[8..12] == header[..][8..12];
    length := Get(header[8..12]);
    good := header[4] == VERSION && KindIsValid(header[5]) && header[6] == 0 && header[7] == 0 && length <= MAX_PAYLOAD;
  }

  // ---- the decoder on the device -------------------------------------------------------

  class WireDecoder {
    const header: array<Byte>
    var headerUsed: nat
    const payload: array<Byte>
    var payloadUsed: nat
    var expected: nat
    var dropped: U64
    var errors: U32

    ghost function Framing(): Parser
      requires headerUsed <= header.Length && payloadUsed <= payload.Length
      reads this, header, payload
    {
      Parser(header[..headerUsed], payload[..payloadUsed])
    }

    ghost predicate Valid()
      reads this, header, payload
    {
      && header.Length == HEADER_SIZE && payload.Length == MAX_PAYLOAD && header != payload
      && headerUsed <= HEADER_SIZE && payloadUsed <= MAX_PAYLOAD
      && ParserOk(Framing())
      && expected == if headerUsed == HEADER_SIZE then Get(header[8..12]) else 0
    }

    constructor ()
      ensures Valid() && fresh(header) && fresh(payload) && Framing() == EMPTY && dropped == 0 && errors == 0
    {
      header, payload := new Byte[HEADER_SIZE](_ => 0), new Byte[MAX_PAYLOAD](_ => 0);
      headerUsed, payloadUsed, expected, dropped, errors := 0, 0, 0, 0, 0;
    }

    method ResetFrame()
      requires header.Length == HEADER_SIZE && payload.Length == MAX_PAYLOAD && header != payload
      requires headerUsed <= HEADER_SIZE && payloadUsed <= MAX_PAYLOAD
      modifies this`headerUsed, this`payloadUsed, this`expected, header, payload
      ensures Valid() && Framing() == EMPTY
    {
      var used := payloadUsed;
      for i := 0 to header.Length { header[i] := 0; }
      for i := 0 to used { payload[i] := 0; }
      headerUsed, payloadUsed, expected := 0, 0, 0;
    }

    /** A byte before the magic word is complete. */
    method HuntByte(b: Byte)
      requires Valid() && headerUsed < MAGIC_SIZE
      modifies this`headerUsed, this`dropped, header
      ensures Valid()
      ensures var t := Step(old(Framing()), b);
        Framing() == t.next && t.frames == [] && !t.bad && dropped == Wrap64(old(dropped) + t.mismatches)
    {
      ghost var h := header[..headerUsed];
      if b == MAGIC[headerUsed] {
        header[headerUsed] := b;
        headerUsed := headerUsed + 1;
        assert header[..headerUsed] == h + [b];
        assert MAGIC[..headerUsed] == MAGIC[..headerUsed - 1] + [b];
      } else {
        dropped := Wrap64(dropped + 1);
        headerUsed := if b == MAGIC[0] then 1 else 0;
        if headerUsed == 1 {
          header[0] := b;
          assert header[..1] == [b] == MAGIC[..1];
        }
      }
    }

    method RejectHeader()
      requires header.Length == HEADER_SIZE && payload.Length == MAX_PAYLOAD && header != payload
      requires headerUsed <= HEADER_SIZE && payloadUsed <= MAX_PAYLOAD
      modifies this`headerUsed, this`payloadUsed, this`expected, this`errors, header, payload
      ensures Valid() && Framing() == EMPTY && errors == Wrap32(old(errors) + 1)
    {
      errors := Wrap32(errors + 1);
      ResetFrame();
    }

    /** The checks on a complete header: a bad one is forgotten at once, an empty frame handed over at once. */
    method FinishHeader() returns (ok: bool, frames: seq<Frame>)
      requires header.Length == HEADER_SIZE && payload.Length == MAX_PAYLOAD && header != payload
      requires headerUsed == HEADER_SIZE && payloadUsed == 0 && header[..][..MAGIC_SIZE] == MAGIC
      modifies this`headerUsed, this`payloadUsed, this`expected, this`errors, header, payload
      ensures Valid() && errors == (if ok then old(errors) else Wrap32(old(errors) + 1))
      ensures var h := old(header[..]);
        if !HeaderOk(h) then !ok && frames == [] && Framing() == EMPTY
        else if Get(h[8..12]) == 0 then ok && frames == [Frame(h[5], [])] && Framing() == EMPTY
        else ok && frames == [] && Framing() == Parser(h, [])
    {
      hide Step, HeaderOk, Get, Put, Wrap32;
      frames := [];
      ghost var h := header[..];
      var good, length := CheckHeader(header);
      if !good {
        RejectHeader();
        return false, [];
      }
      expected, ok := length, true;
      assert header[..headerUsed] == h && header[8..12] == h[8..12];
      if expected == 0 {
        frames := [Frame(header[5], [])];
        ResetFrame();
      }
    }

    method PayloadByte(b: Byte) returns (frames: seq<Frame>)
      requires Valid() && headerUsed == HEADER_SIZE
      modifies this`headerUsed, this`payloadUsed, this`expected, header, payload
      ensures Valid()
      ensures var t := Step(old(Framing()), b);
        Framing() == t.next && frames == t.frames && !t.bad && t.mismatches == 0
    {
      ghost var before := payload[..payloadUsed];
      assert header[..headerUsed][8..12] == header[8..12];
      frames := [];
      payload[payloadUsed] := b;
      payloadUsed := payloadUsed + 1;
      assert payload[..payloadUsed] == before + [b];
      if payloadUsed == expected {
        frames := [Frame(header[5], payload[..payloadUsed])];
        ResetFrame();
      }
    }

    /** A byte after the magic word but before the payload; the last one brings the checks. */
    method HeaderByte(b: Byte) returns (ok: bool, frames: seq<Frame>)
      requires Valid() && MAGIC_SIZE <= headerUsed < HEADER_SIZE
      modifies this`headerUsed, this`payloadUsed, this`expected, this`errors, header, payload
      ensures Valid()
      ensures errors == Wrap32(old(errors) + (if ok then 0 else 1))
      ensures var t := Step(old(Framing()), b);
        Framing() == t.next && frames == t.frames && ok == !t.bad && t.mismatches == 0
    {
      WrapAdds(errors, 0);
      HeaderStep(Framing(), b);
      ghost var h := header[..headerUsed] + [b];
      assert h[..MAGIC_SIZE] == header[..headerUsed][..MAGIC_SIZE] == MAGIC;
      hide Get, Put, Wrap32, Wrap64, Step, HeaderOk;
      frames, ok := [], true;
      header[headerUsed] := b;
      headerUsed := headerUsed + 1;
      assert header[..headerUsed] == h;
      if headerUsed < HEADER_SIZE { return; }
      assert header[..] == h;
      ok, frames := FinishHeader();
    }

    method Byte(b: Byte) returns (ok: bool, frames: seq<Frame>)
      requires Valid()
      modifies this, header, payload
      ensures Valid()
      ensures var t := Step(old(Framing()), b);
        && Framing() == t.next && frames == t.frames && ok == !t.bad
        && dropped == Wrap64(old(dropped) + t.mismatches)
        && errors == Wrap32(old(errors) + (if t.bad then 1 else 0))
    {
      hide Step, ParserOk, Wrap64, Wrap32;
      WrapAdds(dropped, 0);
      WrapAdds(errors, 0);
      frames, ok := [], true;
      if headerUsed < MAGIC_SIZE {
        HuntByte(b);
      } else if headerUsed < HEADER_SIZE {
        ok, frames := HeaderByte(b);
      } else {
        frames := PayloadByte(b);
      }
    }

    /** Hands over each frame as soon as it is complete; a bad header ends the call. */
    method FeedData(data: Bytes) returns (ok: bool, frames: seq<Frame>)
      requires Valid()
      modifies this, header, payload
      ensures Valid()
      ensures var r := Feed(old(Framing()), data);
        && Framing() == r.next && frames == r.frames && ok == !r.bad
        && dropped == Wrap64(old(dropped) + r.mismatches)
        && errors == Wrap32(old(errors) + (if r.bad then 1 else 0))
    {
      hide Step, ParserOk, Feed, Wrap64, Wrap32;
      frames := [];
      ghost var p := Framing();
      WrapAdds(dropped, 0);
      WrapAdds(errors, 0);
      FeedNothing(p, data);
      for i := 0 to |data|
        invariant Valid()
        invariant var r := Feed(p, data[..i]);
          && Framing() == r.next && frames == r.frames && !r.bad
          && dropped == Wrap64(old(dropped) + r.mismatches) && errors == old(errors)
      {
        FeedNext(p, data, i);
        WrapAdds(old(dropped) + Feed(p, data[..i]).mismatches, Step(Framing(), data[i]).mismatches);
        var good, done := Byte(data[i]);
        frames := frames + done;
        if !good {
          FeedStops(p, data, i + 1);
          return false, frames;
        }
      }
      assert data[..|data|] == data;
      ok := true;
    }
  }

  // ---- the decoder in the browser --------------------------------------------------------

  /** Its payload buffer is allocated for each frame; an exception throws away the whole call's frames. */
  class FrameDecoder {
    const header: array<Byte>
    var headerUsed: nat
    var payload: array<Byte>
    var payloadUsed: nat
    var dropped: nat

    ghost function Framing(): Parser
      requires headerUsed <= header.Length && payloadUsed <= payload.Length
      reads this, header, payload
    {
      Parser(header[..headerUsed], payload[..payloadUsed])
    }

    ghost predicate Valid()
      reads this, header, payload
    {
      && header.Length == HEADER_SIZE && header != payload
      && headerUsed <= HEADER_SIZE && payloadUsed <= payload.Length
      && ParserOk(Framing())
      && payload.Length == if headerUsed == HEADER_SIZE then Get(header[8..12]) else 0
    }

    constructor ()
      ensures Valid() && fresh(header) && fresh(payload) && Framing() == EMPTY && dropped == 0
    {
      header, payload := new Byte[HEADER_SIZE](_ => 0), new Byte[0](_ => 0);
      headerUsed, payloadUsed, dropped := 0, 0, 0;
    }

    method Reset()
      requires header.Length == HEADER_SIZE && header != payload
      modifies this`headerUsed, this`payloadUsed, this`payload, header, payload
      ensures Valid() && Framing() == EMPTY && fresh(payload)
    {
      var buffer := payload;
      for i := 0 to header.Length { header[i] := 0; }
      for i := 0 to buffer.Length { buffer[i] := 0; }
      headerUsed, payloadUsed, payload := 0, 0, new Byte[0](_ => 0);
    }

    method HuntByte(b: Byte)
      requires Valid() && headerUsed < MAGIC_SIZE
      modifies this`headerUsed, this`dropped, header
      ensures Valid()
      ensures var t := Step(old(Framing()), b);
        Framing() == t.next && t.frames == [] && !t.bad && dropped == old(dropped) + t.mismatches
    {
      ghost var h := header[..headerUsed];
      if b == MAGIC[headerUsed] {
        header[headerUsed] := b;
        headerUsed := headerUsed + 1;
        assert header[..headerUsed] == h + [b];
        assert MAGIC[..headerUsed] == MAGIC[..headerUsed - 1] + [b];
      } else {
        dropped := dropped + 1;
        headerUsed := if b == MAGIC[0] then 1 else 0;
        if headerUsed == 1 {
          header[0] := b;
          assert header[..1] == [b] == MAGIC[..1];
        }
      }
    }

    method FieldByte(b: Byte) returns (threw: bool)
      requires Valid() && MAGIC_SIZE <= headerUsed < HEADER_SIZE
      modifies this`headerUsed, this`payloadUsed, this`payload, header, payload
      ensures header.Length == HEADER_SIZE && header != payload && (payload == old(payload) || fresh(payload))
      ensures var h := old(header[..headerUsed]) + [b];
        if |h| < HEADER_SIZE then !threw && Valid() && Framing() == Parser(h, [])
        else if !HeaderOk(h) then threw && Valid() && Framing() == EMPTY
        else !threw && headerUsed == HEADER_SIZE && payloadUsed == 0 && header[..] == h && payload.Length == Get(h[8..12])
    {
      hide Step, HeaderOk, Get, Put;
      ghost var h := header[..headerUsed];
      header[headerUsed] := b;
      headerUsed := headerUsed + 1;
      assert header[..headerUsed] == h + [b];
      assert (h + [b])[..MAGIC_SIZE] == h[..MAGIC_SIZE];
      if headerUsed != HEADER_SIZE { return false; }
      assert header[..] == h + [b];
      var good, length := CheckHeader(header);
      if !good {
        Reset();
        return true;
      }
      payload := new Byte[length](_ => 0);
      threw := false;
    }

    method HeaderByte(b: Byte) returns (threw: bool, frames: seq<Frame>)
      requires Valid() && MAGIC_SIZE <= headerUsed < HEADER_SIZE
      modifies this`headerUsed, this`payloadUsed, this`payload, header, payload
      ensures Valid() && (payload == old(payload) || fresh(payload))
      ensures var t := Step(old(Framing()), b);
        Framing() == t.next && frames == t.frames && threw == t.bad && t.mismatches == 0
    {
      ghost var h := header[..headerUsed] + [b];
      assert h[..MAGIC_SIZE] == header[..headerUsed][..MAGIC_SIZE] == MAGIC;
      frames := [];
      threw := FieldByte(b);
      if headerUsed == HEADER_SIZE {
        assert header[..headerUsed] == h && header[8..12] == h[8..12];
        if payload.Length == 0 {
          assert payload[..] == [] && header[5] == h[5];
          frames := [Frame(header[5], payload[..])];
          Reset();
        }
      }
    }

    method PayloadByte(b: Byte) returns (frames: seq<Frame>)
      requires Valid() && headerUsed == HEADER_SIZE
      modifies this`headerUsed, this`payloadUsed, this`payload, header, payload
      ensures Valid() && (payload == old(payload) || fresh(payload))
      ensures var t := Step(old(Framing()), b);
        Framing() == t.next && frames == t.frames && !t.bad && t.mismatches == 0
    {
      ghost var before := payload[..payloadUsed];
      assert header[..headerUsed][8..12] == header[8..12];
      frames := [];
      payload[payloadUsed] := b;
      payloadUsed := payloadUsed + 1;
      assert payload[..payloadUsed] == before + [b];
      if payloadUsed == payload.Length {
        assert payload[..] == payload[..payloadUsed];
        frames := [Frame(header[5], payload[..])];
        Reset();
      }
    }

    /** The frames of the chunk, or an exception and none of them. */
    method Push(chunk: Bytes) returns (threw: bool, frames: seq<Frame>)
      requires Valid()
      modifies this, header, payload
      ensures Valid() && (payload == old(payload) || fresh(payload))
      ensures var r := Feed(old(Framing()), chunk);
        && Framing() == r.next && threw == r.bad && frames == (if threw then [] else r.frames)
        && dropped == old(dropped) + r.mismatches
    {
      hide Step, ParserOk, Feed;
      threw, frames := false, [];
      ghost var p := Framing();
      FeedNothing(p, chunk);
      for i := 0 to |chunk|
        invariant Valid() && (payload == old(payload) || fresh(payload))
        invariant var r := Feed(p, chunk[..i]);
          Framing() == r.next && frames == r.frames && !r.bad && dropped == old(dropped) + r.mismatches
      {
        FeedNext(p, chunk, i);
        var done := [];
        if headerUsed < MAGIC_SIZE {
          HuntByte(chunk[i]);
        } else if headerUsed < HEADER_SIZE {
          threw, done := HeaderByte(chunk[i]);
          if threw {
            FeedStops(p, chunk, i + 1);
            return true, [];
          }
        } else {
          done := PayloadByte(chunk[i]);
        }
        frames := frames + done;
      }
      assert chunk[..|chunk|] == chunk;
    }
  }

  /** What the browser hands over: nothing of a chunk that holds a bad header. */
  function KeptFrames(p: Parser, chunks: seq<Bytes>): seq<Frame>
    requires ParserOk(p)
    decreases chunks
  {
    if chunks == [] then []
    else
      var s := Feed(p, chunks[0]);
      (if s.bad then [] else s.frames) + KeptFrames(s.next, chunks[1..])
  }

  /** No chunk completes a frame and then runs into a bad header. */
  predicate NothingBehind(p: Parser, chunks: seq<Bytes>)
    requires ParserOk(p)
    decreases chunks
  {
    chunks == [] ||
      var s := Feed(p, chunks[0]);
      (s.bad ==> s.frames == []) && NothingBehind(s.next, chunks[1..])
  }

  /** The browser hands over what the device delivers if and only if no bad header comes behind a frame in its chunk. */
  lemma {:induction false} KeptAreAll(p: Parser, chunks: seq<Bytes>)
    requires ParserOk(p)
    ensures |KeptFrames(p, chunks)| <= |FeedChunks(p, chunks).frames|
    ensures KeptFrames(p, chunks) == FeedChunks(p, chunks).frames <==> NothingBehind(p, chunks)
    ensures !FeedChunks(p, chunks).bad ==> NothingBehind(p, chunks)
    decreases chunks
  {
    if chunks != [] {
      var s := Feed(p, chunks[0]);
      KeptAreAll(s.next, chunks[1..]);
      var kept, all := KeptFrames(s.next, chunks[1..]), FeedChunks(s.next, chunks[1..]).frames;
      assert (s.frames + kept)[|s.frames|..] == kept && (s.frames + all)[|s.frames|..] == all;
      assert [] + kept == kept;
    }
  }

  /** The smallest case where they part: a good frame and then a bad header in one chunk. */
  lemma KeptLosesDelivered(f: Frame, h: Bytes)
    requires FrameOk(f) && |h| == HEADER_SIZE && h[..MAGIC_SIZE] == MAGIC && !HeaderOk(h)
    ensures FeedChunks(EMPTY, [Encode(f) + h]).frames == [f] && KeptFrames(EMPTY, [Encode(f) + h]) == []
  {
    FeedFrame(f);
    FeedConcat(EMPTY, Encode(f), h);
    FeedBadHeader(h, 0);
    assert h[..0] == [] && h[0..] == h;
    assert [Encode(f) + h][1..] == [];
  }

  lemma {:induction false} FeedBadHeader(h: Bytes, i: nat)
    requires |h| == HEADER_SIZE && h[..MAGIC_SIZE] == MAGIC && !HeaderOk(h) && i < HEADER_SIZE
    ensures ParserOk(Parser(h[..i], []))
    ensures Feed(Parser(h[..i], []), h[i..]) == Stepped(EMPTY, [], true, 0)
    decreases HEADER_SIZE - i
  {
    assert h[i..][0] == h[i] && h[i..][1..] == h[i + 1..];
    assert h[..i] + [h[i]] == h[..i + 1];
    assert i < MAGIC_SIZE ==> h[i] == h[..MAGIC_SIZE][i];
    assert if i <= MAGIC_SIZE then h[..i] == MAGIC[..i] else h[..i][..MAGIC_SIZE] == h[..MAGIC_SIZE];
    if i + 1 < HEADER_SIZE {
      FeedBadHeader(h, i + 1);
    } else {
      assert h[..i + 1] == h && h[i + 1..] == [];
    }
  }

  /** Two decoders that share nothing and stand at the same place. */
  ghost predicate Paired(c: WireDecoder, t: FrameDecoder)
    reads c, t, c.header, c.payload, t.header, t.payload
  {
    && c.Valid() && t.Valid() && c.Framing() == t.Framing()
    && c.header != t.header && c.header != t.payload && c.payload != t.header && c.payload != t.payload
  }

  method FeedBoth(c: WireDecoder, t: FrameDecoder, chunk: Bytes) returns (device: seq<Frame>, browser: seq<Frame>)
    requires Paired(c, t)
    modifies c, c.header, c.payload, t, t.header, t.payload
    ensures Paired(c, t) && (t.payload == old(t.payload) || fresh(t.payload))
    ensures var r := Feed(old(c.Framing()), chunk);
      c.Framing() == r.next && device == r.frames && browser == if r.bad then [] else r.frames
  {
    hide Feed, Step, ParserOk;
    var ok, threw;
    ok, device := c.FeedData(chunk);
    threw, browser := t.Push(chunk);
  }

  lemma ChunksUnfold(p: Parser, chunks: seq<Bytes>)
    requires ParserOk(p) && chunks != []
    ensures var s := Feed(p, chunks[0]);
      && FeedChunks(p, chunks).frames == s.frames + FeedChunks(s.next, chunks[1..]).frames
      && KeptFrames(p, chunks) == (if s.bad then [] else s.frames) + KeptFrames(s.next, chunks[1..])
  {
    hide Feed;
  }

  /** Both decoders side by side on any chunks: same framing state always, and the same frames exactly when no bad header comes behind one. */
  method SideBySide(c: WireDecoder, t: FrameDecoder, chunks: seq<Bytes>) returns (device: seq<Frame>, browser: seq<Frame>)
    requires Paired(c, t)
    modifies c, c.header, c.payload, t, t.header, t.payload
    ensures Paired(c, t) && (t.payload == old(t.payload) || fresh(t.payload))
    ensures var p := old(c.Framing());
      && device == FeedChunks(p, chunks).frames && browser == KeptFrames(p, chunks)
      && (device == browser <==> NothingBehind(p, chunks))
    decreases chunks
  {
    hide Feed, Step, ParserOk;
    ghost var p := c.Framing();
    if chunks == [] { return [], []; }
    ChunksUnfold(p, chunks);
    KeptAreAll(p, chunks);
    hide FeedChunks, KeptFrames, NothingBehind;
    var got, kept := FeedBoth(c, t, chunks[0]);
    var later, laterKept := SideBySide(c, t, chunks[1..]);
    device, browser := got + later, kept + laterKept;
  }

  // ---- the two encoders --------------------------------------------------------------------

  /** The device fills a caller's header buffer. */
  method EncodeHeader(kind: Byte, length: nat, out: array<Byte>) returns (ok: bool)
    modifies out
    ensures ok == (KindIsValid(kind) && length <= MAX_PAYLOAD && out.Length >= HEADER_SIZE)
    ensures ok ==> out[..HEADER_SIZE] == Header(kind, length) && out[HEADER_SIZE..] == old(out[HEADER_SIZE..])
    ensures !ok ==> out[..] == old(out[..])
  {
    if !KindIsValid(kind) || length > MAX_PAYLOAD || out.Length < HEADER_SIZE { return false; }
    out[0], out[1], out[2], out[3] := MAGIC[0], MAGIC[1], MAGIC[2], MAGIC[3];
    out[4], out[5], out[6], out[7] := VERSION, kind, 0, 0;
    out[8], out[9] := length / 0x100_0000 % 256, length / 0x1_0000 % 256;
    out[10], out[11] := length / 0x100 % 256, length % 256;
    FourBytes(length);
    assert out[..HEADER_SIZE] == MAGIC + [VERSION, kind, 0, 0] + out[8..12];
    ok := true;
  }

  lemma FourBytes(v: nat)
    ensures Put(v, 4) == [v / 0x100_0000 % 256, v / 0x1_0000 % 256, v / 0x100 % 256, v % 256]
  {
    assert Put(v, 4) == Put(v / 256, 3) + [v % 256];
    assert Put(v / 256, 3) == Put(v / 256 / 256, 2) + [v / 256 % 256];
    assert Put(v / 256 / 256, 2) == Put(v / 256 / 256 / 256, 1) + [v / 256 / 256 % 256];
    assert Put(v / 256 / 256 / 256, 1) == [v / 256 / 256 / 256 % 256];
    assert v / 256 / 256 == v / 0x1_0000 && v / 256 / 256 / 256 == v / 0x100_0000;
  }

  /** The browser builds the whole frame in a fresh zeroed array, or throws. */
  method EncodeFrame(f: Frame) returns (encoded: Option<Bytes>)
    requires KindIsValid(f.kind)
    ensures encoded == if |f.payload| <= MAX_PAYLOAD then Some(Encode(f)) else None
  {
    if |f.payload| > MAX_PAYLOAD { return None; }
    var frame := new Byte[HEADER_SIZE + |f.payload|](_ => 0);
    var ok := EncodeHeader(f.kind, |f.payload|, frame);
    for i := 0 to |f.payload|
      invariant frame[..HEADER_SIZE] == Header(f.kind, |f.payload|)
      invariant frame[HEADER_SIZE..HEADER_SIZE + i] == f.payload[..i]
    {
      frame[HEADER_SIZE + i] := f.payload[i];
    }
    assert f.payload[..|f.payload|] == f.payload;
    assert frame[..] == frame[..HEADER_SIZE] + frame[HEADER_SIZE..HEADER_SIZE + |f.payload|];
    encoded := Some(frame[..]);
  }
}
