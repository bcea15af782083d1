/**
 * UTF-8 as the assistant profile decodes it and as the conversation memory
 * truncates it, measured against an encoder after section 3 of RFC 3629.
 */
module Utf8 {
  import opened Common
  import opened Bytes

  predicate Scalar(c: int) { 0 <= c <= 0x10FFFF && !(0xD800 <= c <= 0xDFFF) }

  function Tail(v: nat): Byte { 0x80 + v % 64 }

  /** The reference encoder. */
  function Encode(c: int): (e: Bytes)
    requires Scalar(c)
    ensures 1 <= |e| <= 4
  {
    if c < 0x80 then [c]
    else if c < 0x800 then [0xC0 + c / 64, Tail(c)]
    else if c < 0x1_0000 then [0xE0 + c / 4096, Tail(c / 64), Tail(c)]
    else [0xF0 + c / 0x4_0000, Tail(c / 4096), Tail(c / 64), Tail(c)]
  }

  predicate AllScalar(text: seq<int>) { forall c | c in text :: Scalar(c) }

  function EncodeAll(text: seq<int>): Bytes
    requires AllScalar(text)
  {
    if text == [] then [] else Encode(text[0]) + EncodeAll(text[1..])
  }

  predicate IsTail(b: Byte) { 0x80 <= b < 0xC0 }

  /** How many bytes the first one announces; 0 for a byte that starts nothing. */
  function Announced(first: Byte): nat {
    if first < 0x80 then 1
    else if 0xC0 <= first < 0xE0 then 2
    else if 0xE0 <= first < 0xF0 then 3
    else if 0xF0 <= first < 0xF8 then 4
    else 0
  }

  function Minimum(size: nat): nat {
    if size == 2 then 0x80 else if size == 3 then 0x800 else if size == 4 then 0x1_0000 else 0
  }

  function LeadBits(first: Byte, size: nat): nat {
    if size == 2 then first % 32 else if size == 3 then first % 16 else if size == 4 then first % 8 else first
  }

  /** The value that a lead and its tails spell, shifted together six bits at a time. */
  function Gather(lead: nat, tails: Bytes): nat {
    if tails == [] then lead else Gather(lead, tails[..|tails| - 1]) * 64 + tails[|tails| - 1] % 64
  }

  /** What a decoder must answer at the start of `b`. */
  ghost predicate StartsWith(b: Bytes, c: int) { Scalar(c) && Encode(c) <= b }

  predicate Accepted(b: Bytes, size: nat)
    requires 0 < size <= |b|
  {
    && (forall k | 1 <= k < size :: IsTail(b[k]))
    && Scalar(Gather(LeadBits(b[0], size), b[1..size])) && Gather(LeadBits(b[0], size), b[1..size]) >= Minimum(size)
  }

  lemma GatherNone(lead: nat)
    ensures Gather(lead, []) == lead
  {
  }

  lemma GatherOne(lead: nat, x: Byte)
    ensures Gather(lead, [x]) == lead * 64 + x % 64
  {
    assert [x][..0] == [];
  }

  lemma GatherTwo(lead: nat, x: Byte, y: Byte)
    ensures Gather(lead, [x, y]) == lead * 4096 + x % 64 * 64 + y % 64
  {
    GatherOne(lead, x);
    assert [x, y][..1] == [x];
  }

  lemma GatherThree(lead: nat, x: Byte, y: Byte, z: Byte)
    ensures Gather(lead, [x, y, z]) == lead * 0x4_0000 + x % 64 * 4096 + y % 64 * 64 + z % 64
  {
    GatherTwo(lead, x, y);
    assert [x, y, z][..2] == [x, y];
  }

  /** Taking a value apart six bits at a time and putting it together again, by length. */
  lemma TwoBytes(x: Byte, y: Byte, c: nat)
    requires 0xC0 <= x < 0xE0 && IsTail(y)
    ensures c == x % 32 * 64 + y % 64 <==> c / 64 + 0xC0 == x && Tail(c) == y
  {
  }

  lemma ThreeBytes(x: Byte, y: Byte, z: Byte, c: nat)
    requires 0xE0 <= x < 0xF0 && IsTail(y) && IsTail(z)
    ensures c == x % 16 * 4096 + y % 64 * 64 + z % 64 <==> c / 4096 + 0xE0 == x && Tail(c / 64) == y && Tail(c) == z
  {
    SixBits(c, x % 16 * 64 + y % 64, z % 64);
    SixBits(c / 64, x % 16, y % 64);
    assert c / 64 / 64 == c / 4096;
  }

  lemma FourBytes(x: Byte, y: Byte, z: Byte, w: Byte, c: nat)
    requires 0xF0 <= x < 0xF8 && IsTail(y) && IsTail(z) && IsTail(w)
    ensures c == x % 8 * 0x4_0000 + y % 64 * 4096 + z % 64 * 64 + w % 64 <==>
      c / 0x4_0000 + 0xF0 == x && Tail(c / 4096) == y && Tail(c / 64) == z && Tail(c) == w
  {
    SixBits(c, x % 8 * 4096 + y % 64 * 64 + z % 64, w % 64);
    SixBits(c / 64, x % 8 * 64 + y % 64, z % 64);
    SixBits(c / 64 / 64, x % 8, y % 64);
    assert c / 64 / 64 == c / 4096 && c / 4096 / 64 == c / 0x4_0000;
  }

  lemma SixBits(c: nat, q: nat, t: nat)
    requires t < 64
    ensures c == q * 64 + t <==> c / 64 == q && c % 64 == t
  {
  }

  /** What the decoder accepts is the encoding of the value it reports. */
  lemma AcceptedIsEncoded(b: Bytes, size: nat)
    requires b != [] && size == Announced(b[0]) && 0 < size <= |b| && Accepted(b, size)
    ensures Encode(Gather(LeadBits(b[0], size), b[1..size])) == b[..size]
  {
    hide Gather, Tail;
    var lead, tails := LeadBits(b[0], size), b[1..size];
    var c := Gather(lead, tails);
    if size == 1 {
      GatherNone(lead);
      assert tails == [] && b[..1] == [b[0]];
    } else if size == 2 {
      GatherOne(lead, b[1]);
      assert tails == [b[1]] && b[..2] == [b[0], b[1]];
      TwoBytes(b[0], b[1], c);
    } else if size == 3 {
      GatherTwo(lead, b[1], b[2]);
      assert tails == [b[1], b[2]] && b[..3] == [b[0], b[1], b[2]];
      ThreeBytes(b[0], b[1], b[2], c);
    } else {
      GatherThree(lead, b[1], b[2], b[3]);
      assert tails == [b[1], b[2], b[3]] && b[..4] == [b[0], b[1], b[2], b[3]];
      FourBytes(b[0], b[1], b[2], b[3], c);
    }
  }

  /** The bytes of an encoding, and the value they spell. */
  lemma EncodingReads(c: int)
    requires Scalar(c)
    ensures var e := Encode(c);
      && Announced(e[0]) == |e| && (forall k | 1 <= k < |e| :: IsTail(e[k]))
      && Gather(LeadBits(e[0], |e|), e[1..]) == c >= Minimum(|e|)
  {
    hide Gather;
    var e := Encode(c);
    var lead := LeadBits(e[0], |e|);
    if c < 0x80 {
      GatherNone(lead);
      assert e[1..] == [];
    } else if c < 0x800 {
      GatherOne(lead, e[1]);
      assert e[1..] == [e[1]];
      TwoBytes(e[0], e[1], c);
    } else if c < 0x1_0000 {
      GatherTwo(lead, e[1], e[2]);
      assert e[1..] == [e[1], e[2]];
      ThreeBytes(e[0], e[1], e[2], c);
    } else {
      GatherThree(lead, e[1], e[2], e[3]);
      assert e[1..] == [e[1], e[2], e[3]];
      FourBytes(e[0], e[1], e[2], e[3], c);
    }
  }

  /** Every encoding is accepted, at its full length and with its own value. */
  lemma EncodedIsAccepted(b: Bytes, c: int)
    requires StartsWith(b, c)
    ensures b != [] && Announced(b[0]) == |Encode(c)| <= |b|
    ensures Accepted(b, |Encode(c)|) && Gather(LeadBits(b[0], |Encode(c)|), b[1..|Encode(c)|]) == c
  {
    hide Gather, Encode, Announced, LeadBits, Minimum;
    EncodingReads(c);
    var e := Encode(c);
    assert forall k | 0 <= k < |e| :: b[k] == e[k];
    assert b[1..|e|] == e[1..];
  }

  /** No encoding starts with another one. */
  lemma EncodingIsUnique(b: Bytes, c: int, d: int)
    requires StartsWith(b, c) && StartsWith(b, d)
    ensures c == d
  {
    EncodedIsAccepted(b, c);
    EncodedIsAccepted(b, d);
  }

  /** Accepts exactly the well-formed sequences, and undoes the encoder. */
  method DecodeCodepoint(bytes: Bytes, index: nat) returns (ok: bool, codepoint: int, next: nat)
    requires index < |bytes|
    ensures ok ==> StartsWith(bytes[index..], codepoint) && next == index + |Encode(codepoint)| <= |bytes|
    ensures !ok ==> next == index && forall c :: !StartsWith(bytes[index..], c)
  {
    ghost var b := bytes[index..];
    var first := bytes[index];
    var size := Announced(first);
    next := index;
    if size == 0 || index + (size - 1) >= |bytes| {
      forall c ensures !StartsWith(b, c) { if StartsWith(b, c) { EncodedIsAccepted(b, c); } }
      return false, 0, index;
    }
    codepoint := LeadBits(first, size);
    for offset := 1 to size
      invariant forall k | 1 <= k < offset :: IsTail(b[k])
      invariant codepoint == Gather(LeadBits(first, size), b[1..offset])
    {
      if !IsTail(bytes[index + offset]) {
        assert !IsTail(b[offset]);
        forall c ensures !StartsWith(b, c) { if StartsWith(b, c) { EncodedIsAccepted(b, c); } }
        return false, 0, index;
      }
      assert b[1..offset + 1][..offset - 1] == b[1..offset];
      codepoint := codepoint * 64 + bytes[index + offset] % 64;
    }
    if codepoint < Minimum(size) || codepoint > 0x10FFFF || (0xD800 <= codepoint <= 0xDFFF) {
      forall c ensures !StartsWith(b, c) { if StartsWith(b, c) { EncodedIsAccepted(b, c); } }
      return false, 0, index;
    }
    AcceptedIsEncoded(b, size);
    ok, next := true, index + size;
  }

  // ---- names -------------------------------------------------------------------------

  predicate AllowedInName(c: int) {
    if c < 0x80 then
      ('A' as int <= c <= 'Z' as int) || ('a' as int <= c <= 'z' as int) || ('0' as int <= c <= '9' as int)
      || c == ' ' as int || c == '-' as int || c == '_' as int || c == '.' as int || c == '\'' as int
    else
      (0x00C0 <= c <= 0x024F) || (0x3040 <= c <= 0x30FF) || (0x3400 <= c <= 0x4DBF) || (0x4E00 <= c <= 0x9FFF)
      || (0xAC00 <= c <= 0xD7A3) || (0xF900 <= c <= 0xFAFF) || (0x2_0000 <= c <= 0x2_FA1F)
  }

  predicate NameText(text: seq<int>) { AllScalar(text) && forall c | c in text :: AllowedInName(c) }

  /** The bytes spell a text of allowed characters. */
  ghost predicate Spelled(name: Bytes, text: seq<int>) { NameText(text) && EncodeAll(text) == name }

  lemma {:induction false} EncodeAllConcat(a: seq<int>, b: seq<int>)
    requires AllScalar(a) && AllScalar(b)
    ensures AllScalar(a + b) && EncodeAll(a + b) == EncodeAll(a) + EncodeAll(b)
  {
    if a == [] {
      assert a + b == b;
    } else {
      assert (a + b)[1..] == a[1..] + b;
      EncodeAllConcat(a[1..], b);
    }
  }

  /** If a text spells `name` and starts with what was read so far, the next character starts the rest. */
  lemma SpelledRest(name: Bytes, text: seq<int>, done: seq<int>)
    requires Spelled(name, text) && AllScalar(done) && EncodeAll(done) <= name && |EncodeAll(done)| < |name|
    ensures done <= text && |done| < |text|
    ensures StartsWith(name[|EncodeAll(done)|..], text[|done|])
  {
    hide Encode, Gather, AllowedInName;
    assert name == Encode(text[0]) + EncodeAll(text[1..]);
    if done == [] {
      assert name[0..] == name;
    } else {
      SameFirst(name, text, done);
      var n := |Encode(text[0])|;
      var rest := name[n..];
      SpelledRest(rest, text[1..], done[1..]);
      assert rest[|EncodeAll(done[1..])|..] == name[|EncodeAll(done)|..];
    }
  }

  /** Two texts that spell the same bytes start with the same character. */
  lemma SameFirst(name: Bytes, text: seq<int>, done: seq<int>)
    requires Spelled(name, text) && AllScalar(done) && done != [] && text != [] && EncodeAll(done) <= name
    ensures text[0] == done[0] && |EncodeAll(done)| == |Encode(text[0])| + |EncodeAll(done[1..])|
    ensures var rest := name[|Encode(text[0])|..]; Spelled(rest, text[1..]) && EncodeAll(done[1..]) <= rest
  {
    hide Encode, Gather, AllowedInName;
    var x, y := Encode(done[0]), EncodeAll(done[1..]);
    assert EncodeAll(done) == x + y && name == Encode(text[0]) + EncodeAll(text[1..]);
    assert x <= x + y <= name;
    EncodingIsUnique(name, text[0], done[0]);
    var rest := name[|x|..];
    assert rest == EncodeAll(text[1..]);
    assert y == (x + y)[|x|..];
  }

  /** The loop of the name check; the caller has seen to it that the name is not empty. */
  method NameIsSafe(name: Bytes) returns (ok: bool)
    requires name != []
    ensures ok <==> name[0] != ' ' as int && name[|name| - 1] != ' ' as int && exists text :: Spelled(name, text)
  {
    if name[0] == ' ' as int || name[|name| - 1] == ' ' as int { return false; }
    hide Encode, Gather, EncodeAll, StartsWith;
    var index := 0;
    ghost var done: seq<int> := [];
    EncodeAllNone();
    while index < |name|
      invariant index <= |name| && NameText(done) && EncodeAll(done) == name[..index]
    {
      var good, codepoint, next := DecodeCodepoint(name, index);
      if !good || !AllowedInName(codepoint) {
        forall text ensures !Spelled(name, text) {
          if Spelled(name, text) {
            SpelledRest(name, text, done);
            if good { EncodingIsUnique(name[index..], codepoint, text[|done|]); }
          }
        }
        return false;
      }
      NextSpelled(name, index, codepoint, done);
      done, index := done + [codepoint], next;
    }
    assert name[..index] == name;
    assert Spelled(name, done);
    ok := true;
  }

  lemma EncodeAllNone()
    ensures EncodeAll([]) == []
  {
  }

  lemma NextSpelled(name: Bytes, index: nat, c: int, done: seq<int>)
    requires index < |name| && StartsWith(name[index..], c) && AllScalar(done) && EncodeAll(done) == name[..index]
    ensures AllScalar(done + [c]) && EncodeAll(done + [c]) == name[..index + |Encode(c)|]
  {
    hide Encode;
    EncodeAllConcat(done, [c]);
    EncodeAllOne(c);
    assert name[..index + |Encode(c)|] == name[..index] + name[index..][..|Encode(c)|];
  }

  lemma EncodeAllOne(c: int)
    requires Scalar(c)
    ensures EncodeAll([c]) == Encode(c)
  {
    assert [c][1..] == [];
  }

  // ---- truncation -----------------------------------------------------------------------

  /** Past the end of the text is its terminating NUL. */
  function At(text: Bytes, i: nat): Byte { if i < |text| then text[i] else 0 }

  predicate TailAt(text: Bytes, offset: nat, k: nat) { IsTail(At(text, offset + k)) }

  /** A character whose tails are broken counts as one byte. */
  function SizeAt(text: Bytes, offset: nat): nat {
    var size := if Announced(At(text, offset)) == 0 then 1 else Announced(At(text, offset));
    if forall k | 1 <= k < size :: TailAt(text, offset, k) then size else 1
  }

  /** Where the walk from `offset` stops. */
  function Walk(text: Bytes, limit: nat, offset: nat): nat
    decreases limit - offset
  {
    var size := if Announced(At(text, offset)) == 0 then 1 else Announced(At(text, offset));
    if offset >= |text| || offset >= limit || offset + size > limit then offset
    else Walk(text, limit, offset + SizeAt(text, offset))
  }

  method TailsFollow(text: Bytes, offset: nat, size: nat) returns (valid: bool)
    ensures valid <==> forall k | 1 <= k < size :: TailAt(text, offset, k)
  {
    var k := 1;
    while k < size
      invariant 1 <= k && forall j | 1 <= j < k :: TailAt(text, offset, j)
    {
      if !IsTail(At(text, offset + k)) {
        assert !TailAt(text, offset, k);
        return false;
      }
      k := k + 1;
    }
    valid := true;
  }

  method PrefixLength(text: Bytes, limit: nat) returns (n: nat)
    requires forall i | 0 <= i < |text| :: text[i] != 0
    ensures n == Walk(text, limit, 0) && n <= limit && n <= |text|
  {
    n := 0;
    while At(text, n) != 0 && n < limit
      invariant n <= limit && n <= |text| && Walk(text, limit, 0) == Walk(text, limit, n)
      decreases limit - n
    {
      var size := if Announced(text[n]) == 0 then 1 else Announced(text[n]);
      if n + size > limit { break; }
      var valid := TailsFollow(text, n, size);
      if !valid { size := 1; }
      assert size > 1 ==> TailAt(text, n, size - 1);
      n := n + size;
    }
  }

  /** The walk over a well-formed text goes from character to character. */
  lemma StepsOver(text: seq<int>, i: nat)
    requires AllScalar(text) && i < |text|
    ensures var b := EncodeAll(text); var at := |EncodeAll(text[..i])|; var n := |Encode(text[i])|;
      && at + n == |EncodeAll(text[..i + 1])| <= |b| && Announced(At(b, at)) == n && SizeAt(b, at) == n
  {
    hide Encode, Announced;
    var b, c := EncodeAll(text), text[i];
    var front, rest := text[..i], text[i + 1..];
    assert text == front + ([c] + rest) && text[..i + 1] == front + [c];
    EncodeAllConcat(front, [c] + rest);
    EncodeAllConcat([c], rest);
    EncodeAllConcat(front, [c]);
    EncodeAllOne(c);
    SizeOf(b, |EncodeAll(front)|, c);
  }

  lemma SizeOf(b: Bytes, at: nat, c: int)
    requires at <= |b| && StartsWith(b[at..], c)
    ensures Announced(At(b, at)) == |Encode(c)| == SizeAt(b, at) && at + |Encode(c)| <= |b|
  {
    hide Encode, Announced, LeadBits, Gather;
    EncodedIsAccepted(b[at..], c);
    assert b[at] == b[at..][0];
    forall k | 1 <= k < |Encode(c)| ensures TailAt(b, at, k) { assert b[at + k] == b[at..][k]; }
  }

  /** On well-formed text the result is the longest run of whole characters within the limit. */
  lemma {:induction false} LongestBoundary(text: seq<int>, limit: nat, i: nat) returns (k: nat)
    requires AllScalar(text) && i <= |text| && |EncodeAll(text[..i])| <= limit
    ensures i <= k <= |text| && Walk(EncodeAll(text), limit, |EncodeAll(text[..i])|) == |EncodeAll(text[..k])| <= limit
    ensures k < |text| ==> |EncodeAll(text[..k + 1])| > limit
    decreases |text| - i
  {
    var b, at := EncodeAll(text), |EncodeAll(text[..i])|;
    k := i;
    if i < |text| {
      StepsOver(text, i);
      if at + |Encode(text[i])| <= limit {
        k := LongestBoundary(text, limit, i + 1);
      }
    } else {
      assert text[..i] == text;
    }
  }

  // ---- the profile and the conversation memory -------------------------------------------------

  const NAME_SIZE := 24
  const GENDERS := 3
  const MAX_TURNS := 3
  const USER_SIZE := 128
  const PET_SIZE := 192

  ghost predicate SafeName(name: Bytes) {
    && 0 < |name| < NAME_SIZE
    && name[0] != ' ' as int && name[|name| - 1] != ' ' as int && exists text :: Spelled(name, text)
  }

  class Profile {
    var name: Bytes
    var gender: int

    method IsValid() returns (ok: bool)
      ensures ok <==> 0 <= gender < GENDERS && SafeName(name)
    {
      if !(0 <= gender < GENDERS) || name == [] || |name| >= NAME_SIZE { return false; }
      ok := NameIsSafe(name);
    }

    /** The name is stored as soon as it is safe; the answer also looks at the gender that was there. */
    method SetName(wanted: Bytes) returns (ok: bool)
      modifies this`name
      ensures name == if SafeName(wanted) then wanted else old(name)
      ensures ok <==> SafeName(wanted) && 0 <= gender < GENDERS
    {
      if wanted == [] || |wanted| >= NAME_SIZE { return false; }
      var safe := NameIsSafe(wanted);
      if !safe { return false; }
      name := wanted;
      ok := IsValid();
    }
  }

  datatype Turn = Turn(user: Bytes, pet: Bytes)

  predicate NulFree(text: Bytes) { forall i | 0 <= i < |text| :: text[i] != 0 }

  /** The part of a text that a turn keeps. */
  function Kept(text: Bytes, size: nat): Bytes
    requires size > 0
  {
    var n := Walk(text, size - 1, 0);
    if n <= |text| then text[..n] else text
  }

  function LastTurns(turns: seq<Turn>): seq<Turn> {
    if |turns| <= MAX_TURNS then turns else turns[|turns| - MAX_TURNS..]
  }

  function SlotOf(start: nat, i: nat): (slot: nat)
    ensures slot < MAX_TURNS
  {
    (start + i) % MAX_TURNS
  }

  /** The `count` turns from `start` on, around the end of the array. */
  function Ring(turns: seq<Turn>, start: nat, count: nat): (r: seq<Turn>)
    requires |turns| == MAX_TURNS && count <= MAX_TURNS
    ensures |r| == count && forall i | 0 <= i < count :: r[i] == turns[SlotOf(start, i)]
  {
    if count == 0 then [] else Ring(turns, start, count - 1) + [turns[SlotOf(start, count - 1)]]
  }

  lemma RingGrows(turns: seq<Turn>, start: nat, count: nat, turn: Turn)
    requires |turns| == MAX_TURNS && start < MAX_TURNS && count < MAX_TURNS
    ensures Ring(turns[SlotOf(start, count) := turn], start, count + 1) == Ring(turns, start, count) + [turn]
  {
    hide Ring;
    var slot := SlotOf(start, count);
    forall i | 0 <= i < count ensures SlotOf(start, i) != slot {}
  }

  lemma RingTurns(turns: seq<Turn>, start: nat, turn: Turn)
    requires |turns| == MAX_TURNS && start < MAX_TURNS
    ensures Ring(turns[start := turn], SlotOf(start, 1), MAX_TURNS) == Ring(turns, start, MAX_TURNS)[1..] + [turn]
  {
    hide Ring;
    var next := SlotOf(start, 1);
    forall i | 0 <= i < MAX_TURNS - 1
      ensures SlotOf(next, i) == SlotOf(start, i + 1) != start
    {
    }
    assert SlotOf(next, MAX_TURNS - 1) == start;
  }

  /** Writing the next slot adds a turn, and once the ring is full pushes the oldest out. */
  lemma RingAdds(turns: seq<Turn>, start: nat, count: nat, turn: Turn)
    requires |turns| == MAX_TURNS && start < MAX_TURNS && count <= MAX_TURNS
    ensures count < MAX_TURNS ==>
      Ring(turns[SlotOf(start, count) := turn], start, count + 1) == LastTurns(Ring(turns, start, count) + [turn])
    ensures count == MAX_TURNS ==>
      Ring(turns[start := turn], SlotOf(start, 1), count) == LastTurns(Ring(turns, start, count) + [turn])
  {
    hide Ring;
    var r := Ring(turns, start, count);
    if count < MAX_TURNS {
      RingGrows(turns, start, count, turn);
    } else {
      RingTurns(turns, start, turn);
      assert (r + [turn])[1..] == r[1..] + [turn];
    }
  }

  class Memory {
    const turns: array<Turn>
    var start: nat
    var count: nat

    ghost predicate Valid()
      reads this
    {
      turns.Length == MAX_TURNS && start < MAX_TURNS && count <= MAX_TURNS
    }

    /** Oldest first. */
    ghost function Contents(): seq<Turn>
      requires Valid()
      reads this, turns
    {
      Ring(turns[..], start, count)
    }

    constructor ()
      ensures Valid() && fresh(turns) && count == 0
    {
      turns := new Turn[MAX_TURNS](_ => Turn([], []));
      start, count := 0, 0;
    }

    /** The newest turns are kept, each clipped at a character boundary. */
    method AddTurn(user: Bytes, pet: Bytes) returns (ok: bool)
      requires Valid() && NulFree(user) && NulFree(pet)
      modifies this, turns
      ensures Valid()
      ensures user == [] || pet == [] ==> !ok && Contents() == old(Contents())
      ensures user != [] && pet != [] ==>
        && Contents() == LastTurns(old(Contents()) + [Turn(Kept(user, USER_SIZE), Kept(pet, PET_SIZE))])
        && (ok <==> Kept(user, USER_SIZE) != [] && Kept(pet, PET_SIZE) != [])
    {
      hide Walk, Ring, LastTurns;
      if user == [] || pet == [] { return false; }
      var n := PrefixLength(user, USER_SIZE - 1);
      var m := PrefixLength(pet, PET_SIZE - 1);
      Record(Turn(user[..n], pet[..m]));
      ok := user[..n] != [] && pet[..m] != [];
    }

    /** The turn goes into the next slot; a full ring gives up its oldest. */
    method Record(turn: Turn)
      requires Valid()
      modifies this, turns
      ensures Valid() && Contents() == LastTurns(old(Contents()) + [turn])
    {
      RingAdds(turns[..], start, count, turn);
      hide Ring, LastTurns, SlotOf;
      ghost var before := turns[..];
      var slot;
      if count < MAX_TURNS {
        slot := SlotOf(start, count);
        count := count + 1;
      } else {
        slot := start;
        start := SlotOf(start, 1);
      }
      turns[slot] := turn;
      assert turns[..] == before[slot := turn];
    }
  }

  /** A non-empty text never clips to nothing, so a turn with two non-empty texts is always recorded. */
  lemma KeptIsNotEmpty(text: Bytes, size: nat)
    requires text != [] && size >= 5
    ensures Kept(text, size) != []
  {
    var next := SizeAt(text, 0);
    WalkGrows(text, size - 1, next);
  }

  lemma {:induction false} WalkGrows(text: Bytes, limit: nat, offset: nat)
    ensures Walk(text, limit, offset) >= offset
    decreases limit - offset
  {
    if offset < limit { WalkGrows(text, limit, offset + SizeAt(text, offset)); }
  }
}
