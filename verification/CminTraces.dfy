/** Traces as afl-cmin stores them: `array.array` items of a fixed width, appended
    to a pack file and read back by offset and count. */
module CminTraces {

  import opened LittleEndian

  /** `tofile`: all items of a trace, one after the other. */
  function EncodeAll(trace: seq<nat>, size: nat): (bytes: seq<Byte>)
    ensures |bytes| == |trace| * size
  {
    if trace == [] then [] else Encode(trace[0], size) + EncodeAll(trace[1..], size)
  }

  /** `fromfile`: `count` items from the start of `bytes`. */
  function DecodeAll(bytes: seq<Byte>, count: nat, size: nat): (trace: seq<nat>)
    requires |bytes| >= count * size
    ensures |trace| == count
    decreases count
  {
    if count == 0 then []
    else
      assert count * size == size + (count - 1) * size;
      [Decode(bytes[..size])] + DecodeAll(bytes[size..], count - 1, size)
  }

  lemma {:induction false} DecodeAllEncodeAll(trace: seq<nat>, size: nat, rest: seq<Byte>)
    requires forall t :: t in trace ==> t < Power(size)
    ensures DecodeAll(EncodeAll(trace, size) + rest, |trace|, size) == trace
    decreases |trace|
  {
    if trace == [] {
    } else {
      hide Power, Encode, Decode, DecodeAll;
      var more := trace[1..];
      assert trace[0] in trace && forall t :: t in more ==> t in trace;
      DecodeEncode(trace[0], size);
      DecodeAllEncodeAll(more, size, rest);
      DecodeNext(Encode(trace[0], size), EncodeAll(more, size), rest, more, size);
      assert trace == [trace[0]] + more;
    }
  }

  lemma DecodeNext(head: seq<Byte>, tail: seq<Byte>, rest: seq<Byte>, more: seq<nat>, size: nat)
    requires |head| == size && |tail| == |more| * size && DecodeAll(tail + rest, |more|, size) == more
    ensures |head + tail + rest| >= (|more| + 1) * size
    ensures DecodeAll(head + tail + rest, |more| + 1, size) == [Decode(head)] + more
  {
    hide Decode, DecodeAll;
    DecodeFirst(head, tail + rest, |more| + 1, size);
    assert head + tail + rest == head + (tail + rest);
  }

  lemma DecodeFirst(head: seq<Byte>, rest: seq<Byte>, count: nat, size: nat)
    requires count > 0 && |head| == size && |rest| >= (count - 1) * size
    ensures |head + rest| >= count * size
    ensures DecodeAll(head + rest, count, size) == [Decode(head)] + DecodeAll(rest, count - 1, size)
  {
    hide Decode;
    assert count * size == size + (count - 1) * size;
    assert (head + rest)[..size] == head && (head + rest)[size..] == rest;
  }

  /** Seek and read: the items of `count` stored at byte `pos` of a pack. */
  ghost predicate Stored(pack: seq<Byte>, pos: nat, trace: seq<nat>, size: nat) {
    && pos + |trace| * size <= |pack|
    && DecodeAll(pack[pos..], |trace|, size) == trace
  }

  /** A trace appended to a pack is stored there. */
  lemma AppendedIsStored(pack: seq<Byte>, trace: seq<nat>, size: nat)
    requires forall t :: t in trace ==> t < Power(size)
    ensures Stored(pack + EncodeAll(trace, size), |pack|, trace, size)
  {
    var grown := pack + EncodeAll(trace, size);
    assert grown[|pack|..] == EncodeAll(trace, size) + [];
    DecodeAllEncodeAll(trace, size, []);
  }

  lemma {:induction false} DecodeAllIgnoresRest(bytes: seq<Byte>, more: seq<Byte>, count: nat, size: nat)
    requires |bytes| >= count * size
    ensures DecodeAll(bytes + more, count, size) == DecodeAll(bytes, count, size)
    decreases count
  {
    if count == 0 {
    } else {
      hide Decode, DecodeAll;
      assert count * size == size + (count - 1) * size;
      var head, tail := bytes[..size], bytes[size..];
      assert bytes == head + tail && bytes + more == head + (tail + more);
      DecodeFirst(head, tail, count, size);
      DecodeFirst(head, tail + more, count, size);
      DecodeAllIgnoresRest(tail, more, count - 1, size);
    }
  }

  /** What is stored stays stored while the pack grows. */
  lemma StoredStays(pack: seq<Byte>, more: seq<Byte>, pos: nat, trace: seq<nat>, size: nat)
    requires Stored(pack, pos, trace, size)
    ensures Stored(pack + more, pos, trace, size)
  {
    assert (pack + more)[pos..] == pack[pos..] + more;
    DecodeAllIgnoresRest(pack[pos..], more, |trace|, size);
  }

  // ----- type codes

  /** `detect_type_code`: item sizes of B, H, I, L, Q, the first that is wide
      enough; none if even eight bytes are not. */
  function DetectItemSize(size: nat): (r: nat)
    ensures r in {0, 1, 2, 4, 8}
    ensures r > 0 <==> size < Power(8)
    ensures r > 0 ==> size < Power(r)
    ensures forall s :: s in {1, 2, 4, 8} && size < Power(s) ==> 0 < r <= s
  {
    assert Power(1) == 0x100 && Power(2) == 0x1_0000;
    assert Power(4) == 256 * (256 * Power(2));
    assert Power(8) == 256 * (256 * (256 * (256 * Power(4))));
    if size < 0x100 then 1
    else if size < 0x1_0000 then 2
    else if size < 0x1_0000_0000 then 4
    else if size < 0x1_0000_0000_0000_0000 then 8
    else 0
  }
}
