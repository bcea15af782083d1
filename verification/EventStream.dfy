/**
 * Splitting a server-sent event stream over a small carry buffer, and
 * collecting the answer text from the deltas.
 *
 * The parsing of one event into a delta is not part of this model: an event is
 * handed over as bytes.
 */
module EventStream {
  import opened Common
  import opened Bytes

  const CARRY_SIZE := 1024
  const LF: Byte := 10
  const CR: Byte := 13

  /** The length of the separator that starts at `i`, or 0. */
  function SeparatorAt(s: Bytes, i: nat): nat {
    if i + 1 < |s| && s[i] == LF && s[i + 1] == LF then 2
    else if i + 3 < |s| && s[i] == CR && s[i + 1] == LF && s[i + 2] == CR && s[i + 3] == LF then 4
    else 0
  }

  predicate NoSeparator(s: Bytes) { forall i | 0 <= i < |s| :: SeparatorAt(s, i) == 0 }

  /** The leftmost separator at or after `i`, or the end. */
  function FirstFrom(s: Bytes, i: nat): (k: nat)
    requires i <= |s|
    ensures i <= k <= |s| && (k < |s| ==> SeparatorAt(s, k) > 0)
    ensures forall j | i <= j < k :: SeparatorAt(s, j) == 0
    decreases |s| - i
  {
    if i == |s| || SeparatorAt(s, i) > 0 then i else FirstFrom(s, i + 1)
  }

  datatype Parts = Parts(events: seq<Bytes>, rest: Bytes)

  /** The leftmost split of a byte string: the events before each separator, and what follows the last. */
  function Split(s: Bytes): (p: Parts)
    ensures NoSeparator(p.rest)
    decreases |s|
  {
    var k := FirstFrom(s, 0);
    if k == |s| then Parts([], s)
    else
      var p := Split(s[k + SeparatorAt(s, k)..]);
      Parts([s[..k]] + p.events, p.rest)
  }

  predicate IsSeparator(s: Bytes) { s == [10, 10] || s == [13, 10, 13, 10] }

  /** The stream that these events, each followed by its separator, and a rest make up. */
  function Joined(events: seq<Bytes>, separators: seq<Bytes>, rest: Bytes): Bytes
    requires |events| == |separators|
  {
    if events == [] then rest else events[0] + separators[0] + Joined(events[1..], separators[1..], rest)
  }

  /** Nothing is lost by splitting but the separators: LF LF or CR LF CR LF behind each event. */
  lemma {:induction false} SplitRebuilds(s: Bytes) returns (separators: seq<Bytes>)
    ensures |separators| == |Split(s).events| && forall x | x in separators :: IsSeparator(x)
    ensures Joined(Split(s).events, separators, Split(s).rest) == s
    decreases |s|
  {
    hide FirstFrom, SeparatorAt, IsSeparator, Joined;
    var k := FirstFrom(s, 0);
    if k == |s| {
      separators := [];
      JoinedNone(s);
    } else {
      var n := k + SeparatorAt(s, k);
      SeparatorBytes(s, k);
      var later := SplitRebuilds(s[n..]);
      separators := [s[k..n]] + later;
      JoinedOne(s[..k], s[k..n], Split(s[n..]).events, later, Split(s).rest);
      assert s == s[..k] + s[k..n] + s[n..];
    }
  }

  lemma SeparatorBytes(s: Bytes, k: nat)
    requires k < |s| && SeparatorAt(s, k) > 0
    ensures k + SeparatorAt(s, k) <= |s| && IsSeparator(s[k..k + SeparatorAt(s, k)])
  {
  }

  lemma JoinedNone(rest: Bytes)
    ensures Joined([], [], rest) == rest
  {
  }

  lemma JoinedOne(event: Bytes, separator: Bytes, events: seq<Bytes>, separators: seq<Bytes>, rest: Bytes)
    requires |events| == |separators|
    ensures Joined([event] + events, [separator] + separators, rest) == event + separator + Joined(events, separators, rest)
  {
    assert ([event] + events)[1..] == events && ([separator] + separators)[1..] == separators;
  }

  /** Events without content are not processed. */
  function NonEmpty(events: seq<Bytes>): seq<Bytes> {
    if events == [] then [] else (if events[0] == [] then [] else [events[0]]) + NonEmpty(events[1..])
  }

  lemma FirstIs(s: Bytes, k: nat)
    requires k < |s| && SeparatorAt(s, k) > 0 && forall j | 0 <= j < k :: SeparatorAt(s, j) == 0
    ensures FirstFrom(s, 0) == k
  {
  }

  /** More bytes never move the leftmost complete separator, not even by completing an earlier long one. */
  lemma FirstStays(a: Bytes, b: Bytes)
    requires FirstFrom(a, 0) < |a|
    ensures var k := FirstFrom(a, 0); FirstFrom(a + b, 0) == k && SeparatorAt(a + b, k) == SeparatorAt(a, k)
    ensures var k := FirstFrom(a, 0); 0 < SeparatorAt(a, k) && k + SeparatorAt(a, k) <= |a|
  {
    var k, s := FirstFrom(a, 0), a + b;
    forall j | 0 <= j < k ensures SeparatorAt(s, j) == 0 {
      assert SeparatorAt(a, j) == 0;
      assert j + 1 == k ==> s[j + 1] == a[k] && s[j + 2] == a[k + 1];
    }
    FirstIs(s, k);
  }

  /** Splitting what came so far and carrying the rest over splits the whole. */
  lemma {:induction false} SplitAppend(a: Bytes, b: Bytes)
    ensures var p := Split(a); var q := Split(p.rest + b);
      Split(a + b) == Parts(p.events + q.events, q.rest)
    decreases |a|
  {
    hide SeparatorAt, FirstFrom;
    var k := FirstFrom(a, 0);
    if k < |a| {
      FirstStays(a, b);
      var n := k + SeparatorAt(a, k);
      assert (a + b)[n..] == a[n..] + b && (a + b)[..k] == a[..k];
      SplitAppend(a[n..], b);
    }
  }

  lemma {:induction false} NonEmptyConcat(a: seq<Bytes>, b: seq<Bytes>)
    ensures NonEmpty(a + b) == NonEmpty(a) + NonEmpty(b)
  {
    if a == [] {
      assert a + b == b;
    } else {
      assert (a + b)[1..] == a[1..] + b;
      NonEmptyConcat(a[1..], b);
    }
  }

  lemma SplitFirst(s: Bytes, k: nat, size: nat)
    requires k == FirstFrom(s, 0) < |s| && size == SeparatorAt(s, k)
    ensures 0 < size && k + size <= |s| && Split(s).rest == Split(s[k + size..]).rest
    ensures NonEmpty(Split(s).events) == (if k == 0 then [] else [s[..k]]) + NonEmpty(Split(s[k + size..]).events)
  {
    FirstStays(s, []);
    hide SeparatorAt, FirstFrom;
    NonEmptyConcat([s[..k]], Split(s[k + size..]).events);
    NonEmptyOne(s[..k]);
  }

  lemma NonEmptyOne(event: Bytes)
    ensures NonEmpty([event]) == if event == [] then [] else [event]
  {
    assert [event][1..] == [];
  }

  lemma FirstIsLast(s: Bytes)
    requires FirstFrom(s, 0) == |s|
    ensures NoSeparator(s) && Split(s) == Parts([], s)
  {
  }

  lemma NoSeparatorSplit(s: Bytes)
    requires NoSeparator(s)
    ensures Split(s) == Parts([], s)
  {
  }

  class EventBuffer {
    const carry: array<Byte>
    var carryLength: nat
    var overflow: bool
    /** The events processed so far. */
    var processed: seq<Bytes>

    ghost predicate Valid()
      reads this, carry
    {
      carry.Length == CARRY_SIZE && carryLength < CARRY_SIZE && NoSeparator(carry[..carryLength])
    }

    constructor ()
      ensures Valid() && fresh(carry) && carryLength == 0 && !overflow && processed == []
    {
      carry := new Byte[CARRY_SIZE](_ => 0);
      carryLength, overflow, processed := 0, false, [];
    }

    /** An event always fits: the carry buffer is no longer than the event buffer. */
    method ProcessEvent(event: Bytes)
      modifies this`overflow, this`processed
      ensures processed == old(processed) + (if 0 < |event| < CARRY_SIZE then [event] else [])
      ensures overflow == (old(overflow) || |event| >= CARRY_SIZE)
    {
      if event == [] { return; }
      if |event| >= CARRY_SIZE {
        overflow := true;
        return;
      }
      processed := processed + [event];
    }

    method FindSeparator() returns (found: bool, index: nat, size: nat)
      requires carry.Length == CARRY_SIZE && carryLength < CARRY_SIZE
      ensures index == FirstFrom(carry[..carryLength], 0) && found == (index < carryLength)
      ensures found ==> size == SeparatorAt(carry[..carryLength], index)
    {
      ghost var s := carry[..carryLength];
      index := 0;
      while index + 1 < carryLength
        invariant index <= carryLength
        invariant forall j | 0 <= j < index :: SeparatorAt(s, j) == 0
      {
        if carry[index] == LF && carry[index + 1] == LF {
          FirstIs(s, index);
          return true, index, 2;
        }
        if index + 3 < carryLength && carry[index] == CR && carry[index + 1] == LF
           && carry[index + 2] == CR && carry[index + 3] == LF {
          FirstIs(s, index);
          return true, index, 4;
        }
        index := index + 1;
      }
      found, index, size := false, carryLength, 0;
    }

    /** The bytes after `consumed` move to the front. */
    method MoveDown(consumed: nat)
      requires carry.Length == CARRY_SIZE && consumed <= carryLength < CARRY_SIZE
      modifies this`carryLength, carry
      ensures carryLength == old(carryLength) - consumed && carry[..carryLength] == old(carry[consumed..carryLength])
    {
      var remaining := carryLength - consumed;
      for i := 0 to remaining
        invariant carryLength == old(carryLength)
        invariant forall j | 0 <= j < i :: carry[j] == old(carry[consumed + j])
        invariant forall j | i <= j < carry.Length :: carry[j] == old(carry[j])
      {
        carry[i] := carry[consumed + i];
      }
      carryLength := remaining;
    }

    method Append(chunk: Bytes)
      requires carry.Length == CARRY_SIZE && carryLength + |chunk| < CARRY_SIZE
      modifies this`carryLength, carry
      ensures carryLength == old(carryLength) + |chunk| && carry[..carryLength] == old(carry[..carryLength]) + chunk
    {
      for i := 0 to |chunk|
        invariant carryLength == old(carryLength)
        invariant carry[..carryLength + i] == old(carry[..carryLength]) + chunk[..i]
      {
        carry[carryLength + i] := chunk[i];
      }
      carryLength := carryLength + |chunk|;
    }

    /** The first event of the carry is processed and taken out together with its separator. */
    method ProcessFirst(index: nat, size: nat)
      requires carry.Length == CARRY_SIZE && carryLength < CARRY_SIZE
      requires index == FirstFrom(carry[..carryLength], 0) < carryLength && size == SeparatorAt(carry[..carryLength], index)
      modifies this, carry
      ensures carryLength < old(carryLength) && overflow == old(overflow)
      ensures var p := Split(old(carry[..carryLength])); var q := Split(carry[..carryLength]);
        p.rest == q.rest && old(processed) + NonEmpty(p.events) == processed + NonEmpty(q.events)
    {
      ghost var s := carry[..carryLength];
      SplitFirst(s, index, size);
      hide SeparatorAt, FirstFrom, Split, NonEmpty;
      var event := carry[..index];
      ghost var tail := carry[index + size..carryLength];
      assert event == s[..index];
      assert tail == s[index + size..];
      ghost var part := if index == 0 then [] else [event];
      ghost var before, more := processed, NonEmpty(Split(tail).events);
      assert before + (part + more) == (before + part) + more;
      ProcessEvent(event);
      MoveDown(index + size);
      assert carry[..carryLength] == tail;
    }

    /** A chunk that does not fit is dropped whole; any other one leaves no complete separator behind. */
    method ProcessChunk(chunk: Bytes)
      requires Valid()
      modifies this, carry
      ensures Valid()
      ensures var fits := old(carryLength) + |chunk| < CARRY_SIZE;
        var p := Split(old(carry[..carryLength]) + chunk);
        && overflow == (old(overflow) || (chunk != [] && !fits))
        && (fits ==> processed == old(processed) + NonEmpty(p.events) && carry[..carryLength] == p.rest)
        && (!fits ==> processed == old(processed) && carry[..carryLength] == old(carry[..carryLength]))
    {
      hide SeparatorAt, FirstFrom;
      ghost var whole := carry[..carryLength] + chunk;
      if chunk == [] {
        assert whole == carry[..carryLength];
        NoSeparatorSplit(whole);
        return;
      }
      if carryLength + |chunk| >= CARRY_SIZE {
        overflow := true;
        return;
      }
      Append(chunk);
      var found, index, size := FindSeparator();
      while found
        invariant carry.Length == CARRY_SIZE && carryLength < CARRY_SIZE && overflow == old(overflow)
        invariant index == FirstFrom(carry[..carryLength], 0) && found == (index < carryLength)
        invariant found ==> size == SeparatorAt(carry[..carryLength], index)
        invariant old(processed) + NonEmpty(Split(whole).events) == processed + NonEmpty(Split(carry[..carryLength]).events)
        invariant Split(whole).rest == Split(carry[..carryLength]).rest
        decreases carryLength
      {
        hide Split, NonEmpty;
        ProcessFirst(index, size);
        found, index, size := FindSeparator();
      }
      FirstIsLast(carry[..carryLength]);
    }

    /** What follows the last separator counts as an event too. */
    method ProcessRemainder()
      requires Valid()
      modifies this, carry
      ensures Valid() && carryLength == 0 && overflow == old(overflow)
      ensures processed == old(processed) + NonEmpty([old(carry[..carryLength])])
    {
      if carryLength == 0 { return; }
      ProcessEvent(carry[..carryLength]);
      carryLength := 0;
    }
  }

  function Flatten(chunks: seq<Bytes>): Bytes {
    if chunks == [] then [] else Flatten(chunks[..|chunks| - 1]) + chunks[|chunks| - 1]
  }

  /** Everything the stream should yield: its events and, at the end, its remainder. */
  function AllEvents(s: Bytes): seq<Bytes> { NonEmpty(Split(s).events + [Split(s).rest]) }

  /** However the stream is cut, unless a chunk had to be dropped, the whole stream's events come out. */
  method ReadStream(chunks: seq<Bytes>) returns (overflow: bool, events: seq<Bytes>)
    ensures !overflow ==> events == AllEvents(Flatten(chunks))
  {
    var buffer := new EventBuffer();
    NoSeparatorSplit([]);
    for i := 0 to |chunks|
      invariant buffer.Valid() && fresh(buffer) && fresh(buffer.carry)
      invariant !buffer.overflow ==>
        && buffer.processed == NonEmpty(Split(Flatten(chunks[..i])).events)
        && buffer.carry[..buffer.carryLength] == Split(Flatten(chunks[..i])).rest
    {
      ghost var done := Flatten(chunks[..i]);
      assert chunks[..i + 1][..i] == chunks[..i];
      SplitAppend(done, chunks[i]);
      NonEmptyConcat(Split(done).events, Split(Split(done).rest + chunks[i]).events);
      NoSeparatorSplit(Split(done).rest);
      assert chunks[i] == [] ==> Split(done).rest + chunks[i] == Split(done).rest;
      buffer.ProcessChunk(chunks[i]);
    }
    assert chunks[..|chunks|] == chunks;
    ghost var whole := Split(Flatten(chunks));
    NonEmptyConcat(whole.events, [whole.rest]);
    buffer.ProcessRemainder();
    overflow, events := buffer.overflow, buffer.processed;
  }

  // ---- the answer text -----------------------------------------------------------------

  class Answer {
    /** Bytes for the text and its terminating NUL. */
    const capacity: nat
    var text: Bytes
    var overflow: bool

    predicate Valid()
      reads this
    {
      |text| < capacity
    }

    constructor (size: nat)
      requires size > 0
      ensures Valid() && capacity == size && text == [] && !overflow
    {
      capacity, text, overflow := size, [], false;
    }

    method AppendDelta(delta: Bytes)
      requires Valid()
      modifies this
      ensures Valid()
      ensures text == Clip(old(text) + delta, capacity - 1)
      ensures overflow == (old(overflow) || |old(text) + delta| > capacity - 1)
    {
      if delta == [] {
        assert text + delta == text;
        return;
      }
      var available := capacity - |text| - 1;
      if available == 0 {
        overflow := true;
        return;
      }
      var size := if |delta| < available then |delta| else available;
      if size < |delta| { overflow := true; }
      assert (text + delta)[..|text| + size] == text + delta[..size];
      text := text + delta[..size];
    }
  }

  function Clip(s: Bytes, n: nat): Bytes { if |s| <= n then s else s[..n] }

  /** The text is the longest prefix of all deltas together that fits, and the flag says if any was cut. */
  method CollectAnswer(deltas: seq<Bytes>, capacity: nat) returns (text: Bytes, overflow: bool)
    requires capacity > 0
    ensures text == Clip(Flatten(deltas), capacity - 1)
    ensures overflow <==> |Flatten(deltas)| > capacity - 1
  {
    var answer := new Answer(capacity);
    for i := 0 to |deltas|
      invariant answer.Valid() && fresh(answer) && answer.capacity == capacity
      invariant answer.text == Clip(Flatten(deltas[..i]), capacity - 1)
      invariant answer.overflow <==> |Flatten(deltas[..i])| > capacity - 1
    {
      assert deltas[..i + 1][..i] == deltas[..i];
      ghost var whole := Flatten(deltas[..i]);
      assert |whole| > capacity - 1 ==>
        Clip(Clip(whole, capacity - 1) + deltas[i], capacity - 1) == Clip(whole + deltas[i], capacity - 1);
      answer.AppendDelta(deltas[i]);
    }
    assert deltas[..|deltas|] == deltas;
    text, overflow := answer.text, answer.overflow;
  }
}
