/** Big-endian numbers, as headers and transcripts spell them. */
module Bytes {
  import opened Common

  type Bytes = seq<Byte>

  function Power(n: nat): (p: nat)
    ensures p > 0
  {
    if n == 0 then 1 else 256 * Power(n - 1)
  }

  /** The n-byte big-endian spelling; higher digits are cut off, as a C shift and cast would. */
  function Put(value: nat, n: nat): (b: Bytes)
    ensures |b| == n
  {
    if n == 0 then [] else Put(value / 256, n - 1) + [value % 256]
  }

  /** Shift in one byte after the other. */
  function Get(b: Bytes): nat {
    if b == [] then 0 else Get(b[..|b| - 1]) * 256 + b[|b| - 1]
  }

  lemma {:induction false} GetPut(value: nat, n: nat)
    requires value < Power(n)
    ensures Get(Put(value, n)) == value
  {
    if n > 0 {
      GetPut(value / 256, n - 1);
      assert Put(value, n)[..n - 1] == Put(value / 256, n - 1);
    }
  }

  lemma {:induction false} PutGet(b: Bytes)
    ensures Get(b) < Power(|b|) && Put(Get(b), |b|) == b
  {
    if b != [] {
      var front, last := b[..|b| - 1], b[|b| - 1];
      PutGet(front);
      assert Get(b) == Get(front) * 256 + last && Get(b) / 256 == Get(front) && Get(b) % 256 == last;
    }
  }

  lemma PutInjective(x: nat, y: nat, n: nat)
    requires x < Power(n) && y < Power(n) && Put(x, n) == Put(y, n)
    ensures x == y
  {
    GetPut(x, n);
    GetPut(y, n);
  }

  lemma Powers()
    ensures Power(1) == 256 && Power(2) == 0x1_0000 && Power(4) == U32_MAX + 1 && Power(8) == U64_MAX + 1
  {
    assert Power(2) == 256 * Power(1);
    assert Power(3) == 256 * Power(2);
    assert Power(4) == 256 * Power(3);
    assert Power(5) == 256 * Power(4);
    assert Power(6) == 256 * Power(5);
    assert Power(7) == 256 * Power(6);
    assert Power(8) == 256 * Power(7);
  }
}
