/** pwntools' unpack(data, bits) under the default context: little-endian and unsigned. */
module Packing {
  import opened Arith
  import opened Wrappers

  newtype byte = x: int | 0 <= x < 256

  /** The unsigned little-endian value of bs; it fits in 8 * |bs| bits. */
  function LittleEndian(bs: seq<byte>): (v: nat)
    ensures v < Pow(256, |bs|)
  {
    if bs == [] then 0 else bs[0] as nat + 256 * LittleEndian(bs[1..])
  }

  /** The n-byte little-endian encoding of x modulo 256^n (pack(x, 8 * n) for x < 256^n). */
  function Pack(x: nat, n: nat): (bs: seq<byte>)
    ensures |bs| == n
  {
    if n == 0 then [] else [(x % 256) as byte] + Pack(x / 256, n - 1)
  }

  /** unpack(data, wordSize): a buffer whose length is not wordSize / 8 bytes raises. A zero
      wordSize falls back to context.word_size, which is never zero, so it raises as well
      whenever data is empty (the only way this model reaches it). */
  function Unpack(data: seq<byte>, wordSize: int): (r: Result<nat>)
    ensures r.Ok? <==> wordSize > 0 && wordSize == 8 * |data|
    ensures r.Ok? ==> r.value < Pow(256, |data|)
  {
    if wordSize > 0 && wordSize == 8 * |data| then Ok(LittleEndian(data)) else Err(ValueError)
  }

  lemma {:induction false} LittleEndianOfPack(x: nat, n: nat)
    requires x < Pow(256, n)
    ensures LittleEndian(Pack(x, n)) == x
  {
    if n > 0 {
      DivModUnique(x, 256, x / 256, x % 256);
      assert x / 256 < Pow(256, n - 1);
      LittleEndianOfPack(x / 256, n - 1);
      assert Pack(x, n)[1..] == Pack(x / 256, n - 1);
    }
  }

  lemma {:induction false} PackOfLittleEndian(bs: seq<byte>)
    ensures Pack(LittleEndian(bs), |bs|) == bs
  {
    if bs != [] {
      var v := LittleEndian(bs);
      DivModUnique(v, 256, LittleEndian(bs[1..]), bs[0] as nat);
      PackOfLittleEndian(bs[1..]);
      assert bs == [bs[0]] + bs[1..];
    }
  }

  /** Unpacking the n-byte encoding of any x that fits in 8 * n bits gives x back. */
  lemma UnpackPack(x: nat, n: nat)
    requires n > 0 && x < Pow(256, n)
    ensures Unpack(Pack(x, n), 8 * n) == Ok(x)
  {
    LittleEndianOfPack(x, n);
  }
}
