/** 32-bit words stored in byte memory, least significant byte first. */
module Words {
  import opened Common
  import opened MemoryHelpers

  function Encode(n: nat): (b: seq<byte>)
    requires n < U32_LIMIT
    ensures |b| == 4
  {
    [n % 256, n / 256 % 256, n / 0x1_0000 % 256, n / 0x100_0000]
  }

  function Decode(b: seq<byte>): nat
    requires |b| == 4
  {
    (b[0] as int) + 0x100 * (b[1] as int) + 0x1_0000 * (b[2] as int) + 0x100_0000 * (b[3] as int)
  }

  lemma DecodeEncode(n: nat)
    requires n < U32_LIMIT
    ensures Decode(Encode(n)) == n
  {
    var q := n / 256;
    var p := q / 256;
    assert n / 0x1_0000 == p && n / 0x100_0000 == p / 256;
  }

  function ReadWord(data: seq<byte>, at: nat): nat
    requires at + 4 <= |data|
  {
    Decode(data[at..at + 4])
  }

  function WriteWord(data: seq<byte>, at: nat, n: nat): (r: seq<byte>)
    requires at + 4 <= |data| && n < U32_LIMIT
    ensures |r| == |data|
    ensures forall k | 0 <= k < |data| && !(at <= k < at + 4) :: r[k] == data[k]
  {
    data[..at] + Encode(n) + data[at + 4..]
  }

  lemma ReadWritten(data: seq<byte>, at: nat, n: nat)
    requires at + 4 <= |data| && n < U32_LIMIT
    ensures ReadWord(WriteWord(data, at, n), at) == n
  {
    assert WriteWord(data, at, n)[at..at + 4] == Encode(n);
    DecodeEncode(n);
  }

  /** A word depends on its own four bytes only. */
  lemma ReadSame(data: seq<byte>, data': seq<byte>, at: nat)
    requires |data| == |data'| && at + 4 <= |data|
    requires forall k | at <= k < at + 4 :: data[k] == data'[k]
    ensures ReadWord(data, at) == ReadWord(data', at)
  {
    assert data[at..at + 4] == data'[at..at + 4];
  }

  /** `memcpy` of a word into memory. */
  method StoreWord(data: array<byte>, at: nat, n: nat)
    requires at + 4 <= data.Length && n < U32_LIMIT
    modifies data
    ensures data[..] == WriteWord(old(data[..]), at, n)
  {
    var b := Encode(n);
    forall k | 0 <= k < 4 {
      data[at + k] := b[k];
    }
  }
}
