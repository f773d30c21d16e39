/** Unsigned integers as byte sequences, least significant byte first. */
module LittleEndian {

  type Byte = b: nat | b < 256

  /** 256 to the power of `size`. */
  function Power(size: nat): (p: nat)
    ensures p > 0
  {
    if size == 0 then 1 else 256 * Power(size - 1)
  }

  function Encode(v: nat, size: nat): (bytes: seq<Byte>)
    ensures |bytes| == size
  {
    if size == 0 then [] else [v % 256] + Encode(v / 256, size - 1)
  }

  function Decode(bytes: seq<Byte>): (v: nat) {
    if bytes == [] then 0 else bytes[0] + 256 * Decode(bytes[1..])
  }

  lemma {:induction false} DecodeEncode(v: nat, size: nat)
    requires v < Power(size)
    ensures Decode(Encode(v, size)) == v
    decreases size
  {
    if size == 0 {
    } else {
      assert Encode(v, size)[1..] == Encode(v / 256, size - 1);
      DecodeEncode(v / 256, size - 1);
    }
  }

  lemma {:induction false} EncodeDecode(bytes: seq<Byte>)
    ensures Decode(bytes) < Power(|bytes|) && Encode(Decode(bytes), |bytes|) == bytes
    decreases |bytes|
  {
    if bytes == [] {
    } else {
      var v, n := Decode(bytes[1..]), |bytes| - 1;
      EncodeDecode(bytes[1..]);
      LowByte(bytes[0], v);
      assert v + 1 <= Power(n);
      assert bytes == [bytes[0]] + Encode(v, n);
    }
  }

  lemma LowByte(b: Byte, v: nat)
    ensures (b + 256 * v) % 256 == b && (b + 256 * v) / 256 == v
  {
  }

  function Reverse(bytes: seq<Byte>): (r: seq<Byte>)
    ensures |r| == |bytes| && forall i :: 0 <= i < |r| ==> r[i] == bytes[|bytes| - 1 - i]
  {
    seq(|bytes|, i requires 0 <= i < |bytes| => bytes[|bytes| - 1 - i])
  }

  /** The same bytes read most significant first. */
  function DecodeBig(bytes: seq<Byte>): (v: nat) {
    Decode(Reverse(bytes))
  }

  /** `SWAP16` / `SWAP32`: the value whose bytes are those of `v` in reverse. */
  function SwapBytes(v: nat, size: nat): (w: nat) {
    Decode(Reverse(Encode(v, size)))
  }

  /** Storing a swapped value makes the big-endian reading that value. */
  lemma SwapMeansBig(v: nat, size: nat)
    requires v < Power(size)
    ensures DecodeBig(Encode(SwapBytes(v, size), size)) == v
    ensures SwapBytes(v, size) < Power(size)
  {
    EncodeDecode(Reverse(Encode(v, size)));
    assert Reverse(Reverse(Encode(v, size))) == Encode(v, size);
    DecodeEncode(v, size);
  }

  /** Swapping what is stored gives its big-endian reading. */
  lemma SwapOfStored(bytes: seq<Byte>)
    ensures SwapBytes(Decode(bytes), |bytes|) == DecodeBig(bytes)
  {
    EncodeDecode(bytes);
  }

  lemma SwapTwice(v: nat, size: nat)
    requires v < Power(size)
    ensures SwapBytes(SwapBytes(v, size), size) == v
  {
    SwapMeansBig(v, size);
    SwapOfStored(Encode(SwapBytes(v, size), size));
    DecodeEncode(SwapBytes(v, size), size);
  }
}
