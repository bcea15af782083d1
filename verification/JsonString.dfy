/**
 * JSON strings as the chat and speech clients write and read them: the five
 * escapes the writer uses, the six the reader knows, and both buffers' bounds.
 */
module JsonString {
  import opened Common
  import opened Bytes

  const QUOTE: Byte := 34
  const BACKSLASH: Byte := 92
  const SLASH: Byte := 47
  const LF: Byte := 10
  const CR: Byte := 13
  const TAB: Byte := 9

  predicate NulFree(text: Bytes) { forall i | 0 <= i < |text| :: text[i] != 0 }

  function EscapeByte(c: Byte): (e: Bytes)
    ensures 1 <= |e| <= 2
  {
    if c == QUOTE then [BACKSLASH, QUOTE]
    else if c == BACKSLASH then [BACKSLASH, BACKSLASH]
    else if c == LF then [BACKSLASH, 'n' as int]
    else if c == CR then [BACKSLASH, 'r' as int]
    else if c == TAB then [BACKSLASH, 't' as int]
    else [c]
  }

  /** The escapes the writer uses, as section 7 of RFC 8259 spells them, and what the reader makes of each it knows. */
  lemma EscapesAreStandard(c: Byte)
    ensures EscapeByte(34) == [92, 34] && EscapeByte(92) == [92, 92]
    ensures EscapeByte(10) == [92, 110] && EscapeByte(13) == [92, 114] && EscapeByte(9) == [92, 116]
    ensures c !in {34, 92, 10, 13, 9} ==> EscapeByte(c) == [c]
    ensures Unescaped(110) == Some(10) && Unescaped(114) == Some(13) && Unescaped(116) == Some(9)
    ensures Unescaped(34) == Some(34) && Unescaped(92) == Some(92) && Unescaped(47) == Some(47)
    ensures c !in {34, 92, 47, 110, 114, 116} ==> Unescaped(c) == None
  {
  }

  function Escape(text: Bytes): Bytes {
    if text == [] then [] else Escape(text[..|text| - 1]) + EscapeByte(text[|text| - 1])
  }

  function Quoted(text: Bytes): Bytes { [QUOTE] + Escape(text) + [QUOTE] }

  /** The byte a two-character escape stands for. */
  function Unescaped(c: Byte): Option<Byte> {
    if c == 'n' as int then Some(LF)
    else if c == 'r' as int then Some(CR)
    else if c == 't' as int then Some(TAB)
    else if c == QUOTE || c == BACKSLASH || c == SLASH then Some(c)
    else None
  }

  datatype Reading = Complete(text: Bytes, end: nat) | Malformed

  /** Past its end a C string is NUL. */
  function At(json: Bytes, i: nat): Byte { if i < |json| then json[i] else 0 }

  /** The text from `i` up to the closing quote, whose position is reported too. */
  function Read(json: Bytes, i: nat): Reading
    decreases |json| - i
  {
    if i >= |json| || json[i] == 0 then Malformed
    else if json[i] == QUOTE then Complete([], i)
    else if json[i] != BACKSLASH then Prepend(json[i], Read(json, i + 1))
    else if Unescaped(At(json, i + 1)).None? then Malformed
    else Prepend(Unescaped(At(json, i + 1)).value, Read(json, i + 2))
  }

  function Prepend(c: Byte, r: Reading): Reading {
    if r.Malformed? then r else Complete([c] + r.text, r.end)
  }

  lemma {:induction false} EscapeConcat(a: Bytes, b: Bytes)
    ensures Escape(a + b) == Escape(a) + Escape(b)
    decreases |b|
  {
    hide EscapeByte;
    if b == [] {
      assert a + b == a;
    } else {
      assert (a + b)[..|a + b| - 1] == a + b[..|b| - 1];
      EscapeConcat(a, b[..|b| - 1]);
    }
  }

  /** One written character is read back as one character. */
  lemma ReadOne(json: Bytes, i: nat, c: Byte)
    requires c != 0 && i + |EscapeByte(c)| <= |json| && json[i..i + |EscapeByte(c)|] == EscapeByte(c)
    ensures Read(json, i) == Prepend(c, Read(json, i + |EscapeByte(c)|))
  {
    var e := EscapeByte(c);
    assert json[i] == json[i..i + |e|][0] == e[0];
    if |e| == 2 { assert json[i + 1] == json[i..i + |e|][1] == e[1]; }
  }

  lemma {:induction false} ReadEscaped(json: Bytes, i: nat, text: Bytes)
    requires NulFree(text) && i + |Escape(text)| < |json|
    requires json[i..i + |Escape(text)|] == Escape(text) && json[i + |Escape(text)|] == QUOTE
    ensures Read(json, i) == Complete(text, i + |Escape(text)|)
    decreases |text|
  {
    hide EscapeByte, Escape;
    if text == [] {
      EscapeEmpty();
    } else {
      var first, rest := text[0], text[1..];
      EscapeFirst(text);
      var n := |EscapeByte(first)|;
      Inside(json, i, EscapeByte(first), Escape(rest));
      ReadOne(json, i, first);
      ReadEscaped(json, i + n, rest);
    }
  }

  lemma EscapeEmpty()
    ensures Escape([]) == []
  {
  }

  lemma EscapeFirst(text: Bytes)
    requires text != []
    ensures Escape(text) == EscapeByte(text[0]) + Escape(text[1..])
  {
    hide EscapeByte;
    assert text == [text[0]] + text[1..];
    EscapeConcat([text[0]], text[1..]);
    assert [text[0]][..0] == [];
  }

  lemma Inside(json: Bytes, i: nat, a: Bytes, b: Bytes)
    requires i + |a + b| <= |json| && json[i..i + |a + b|] == a + b
    ensures json[i..i + |a|] == a && json[i + |a|..i + |a| + |b|] == b
  {
    assert json[i..i + |a|] == json[i..i + |a + b|][..|a|];
    assert json[i + |a|..i + |a| + |b|] == json[i..i + |a + b|][|a|..];
  }

  /** Reading what was written gives the text back and stops at the quote that was written for it. */
  lemma RoundTrip(before: Bytes, text: Bytes, after: Bytes)
    requires NulFree(text)
    ensures Read(before + Quoted(text) + after, |before| + 1) == Complete(text, |before| + |Quoted(text)| - 1)
  {
    var json, i, e := before + Quoted(text) + after, |before| + 1, Escape(text);
    assert json[i..i + |e|] == e && json[i + |e|] == QUOTE;
    ReadEscaped(json, i, text);
  }

  // ---- the writer -----------------------------------------------------------------------

  /** A NUL-terminated buffer that is filled from the front. */
  class Writer {
    const out: array<Byte>
    var pos: nat

    ghost predicate Valid()
      reads this, out
    {
      pos < out.Length && out[pos] == 0
    }

    constructor (size: nat)
      requires size > 0
      ensures Valid() && fresh(out) && out.Length == size && pos == 0
    {
      out := new Byte[size](_ => 0);
      pos := 0;
    }

    /** All of `value` or nothing of it. */
    method AppendRaw(value: Bytes) returns (ok: bool)
      requires Valid()
      modifies this, out
      ensures Valid() && ok == (old(pos) + |value| < out.Length)
      ensures out[..pos] == if ok then old(out[..pos]) + value else old(out[..pos])
    {
      if pos + |value| >= out.Length { return false; }
      for i := 0 to |value|
        invariant pos == old(pos) && out[..pos + i] == old(out[..pos]) + value[..i]
      {
        out[pos + i] := value[i];
      }
      assert value[..|value|] == value;
      pos := pos + |value|;
      out[pos] := 0;
      ok := true;
    }

    /** Stops at the first character that does not fit. */
    method AppendEscapedContent(text: Bytes) returns (ok: bool)
      requires Valid()
      modifies this, out
      ensures Valid() && ok == (old(pos) + |Escape(text)| < out.Length)
      ensures out[..pos] <= old(out[..pos]) + Escape(text)
      ensures ok ==> out[..pos] == old(out[..pos]) + Escape(text)
    {
      ghost var before := out[..pos];
      for i := 0 to |text|
        invariant Valid() && out[..pos] == before + Escape(text[..i])
      {
        assert text[..i + 1][..i] == text[..i];
        EscapePrefix(text, i + 1);
        var appended := AppendRaw(EscapeByte(text[i]));
        if !appended { return false; }
      }
      assert text[..|text|] == text;
      ok := true;
    }

    lemma EscapePrefix(text: Bytes, n: nat)
      requires n <= |text|
      ensures Escape(text[..n]) <= Escape(text)
    {
      hide EscapeByte, Escape;
      assert text == text[..n] + text[n..];
      EscapeConcat(text[..n], text[n..]);
    }

    method AppendEscapedString(text: Bytes) returns (ok: bool)
      requires Valid()
      modifies this, out
      ensures Valid() && ok == (old(pos) + |Quoted(text)| < out.Length)
      ensures ok ==> out[..pos] == old(out[..pos]) + Quoted(text)
      ensures out[..pos] <= old(out[..pos]) + Quoted(text)
    {
      ghost var before := out[..pos];
      ok := AppendRaw([QUOTE]);
      if !ok { return; }
      assert out[..pos] <= before + Quoted(text);
      ok := AppendEscapedContent(text);
      assert out[..pos] <= before + Quoted(text);
      if !ok { return; }
      ok := AppendRaw([QUOTE]);
    }
  }

  // ---- the reader -------------------------------------------------------------------------

  /** Succeeds exactly when the string is complete and fits with its terminating NUL. */
  method CopyStringValue(json: Bytes, start: nat, out: array<Byte>) returns (ok: bool, length: nat)
    modifies out
    ensures ok <==> At(json, start) == QUOTE && Read(json, start + 1).Complete? && |Read(json, start + 1).text| < out.Length
    ensures ok ==> length == |Read(json, start + 1).text| < out.Length
                   && out[..length] == Read(json, start + 1).text && out[length] == 0
  {
    length := 0;
    if out.Length == 0 || At(json, start) != QUOTE { return false, 0; }
    var cursor := start + 1;
    ghost var whole := Read(json, start + 1);
    while At(json, cursor) != 0
      invariant length < out.Length
      invariant whole == Extend(out[..length], Read(json, cursor))
      decreases |json| - cursor
    {
      ghost var done := out[..length];
      if json[cursor] == QUOTE {
        out[length] := 0;
        assert out[..length] == done;
        return true, length;
      }
      ReadNext(json, cursor, done);
      hide Read, Unescaped;
      if length + 1 >= out.Length { return false, length; }
      var c := json[cursor];
      if c == BACKSLASH {
        cursor := cursor + 1;
        var plain := Unescaped(At(json, cursor));
        if plain.None? { return false, length; }
        c := plain.value;
      }
      out[length] := c;
      length, cursor := length + 1, cursor + 1;
      assert out[..length] == done + [c];
    }
    ok := false;
  }

  /** One step of the reader, with what it has read so far. */
  lemma ReadNext(json: Bytes, i: nat, done: Bytes)
    requires At(json, i) != 0 && json[i] != QUOTE
    ensures var r := Extend(done, Read(json, i));
      && (json[i] != BACKSLASH ==> r == Extend(done + [json[i]], Read(json, i + 1)))
      && (json[i] == BACKSLASH && Unescaped(At(json, i + 1)).None? ==> r.Malformed?)
      && (json[i] == BACKSLASH && Unescaped(At(json, i + 1)).Some? ==>
            r == Extend(done + [Unescaped(At(json, i + 1)).value], Read(json, i + 2)))
      && (r.Complete? ==> |r.text| >= |done| + 1)
  {
    hide Unescaped;
    var next := if json[i] == BACKSLASH then Read(json, i + 2) else Read(json, i + 1);
    var c := if json[i] != BACKSLASH then json[i]
             else if Unescaped(At(json, i + 1)).Some? then Unescaped(At(json, i + 1)).value else 0;
    if next.Complete? { assert done + ([c] + next.text) == (done + [c]) + next.text; }
  }

  function Extend(done: Bytes, r: Reading): Reading {
    if r.Malformed? then r else Complete(done + r.text, r.end)
  }

  /** Writing any NUL-free text and reading it back, with buffers just large enough. */
  method WriteThenRead(text: Bytes, size: nat, capacity: nat) returns (ok: bool, back: Bytes)
    requires NulFree(text) && |Quoted(text)| < size && |text| < capacity
    ensures ok && back == text
  {
    hide Read, Escape, EscapeByte;
    var writer := new Writer(size);
    var copy := new Byte[capacity];
    var length;
    ok := writer.AppendEscapedString(text);
    assert writer.out[..writer.pos] == Quoted(text);
    RoundTrip([], text, []);
    assert [] + Quoted(text) + [] == Quoted(text);
    ok, length := CopyStringValue(writer.out[..writer.pos], 0, copy);
    back := copy[..length];
  }
}
