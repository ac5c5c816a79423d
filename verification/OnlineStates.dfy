/** The online-state query of src/client.rs: one bit per queried id, most significant bit
    first, split into the online and the offline ids. */
module OnlineStates {

  datatype Answer = Answer(onlines: seq<string>, offlines: seq<string>) | IndexPanic

  /** The mask `0x01 << (7 - i % 8)`. */
  function BitValue(i: nat): bv8 {
    var k := i % 8;
    if k == 0 then 1 << 7
    else if k == 1 then 1 << 6
    else if k == 2 then 1 << 5
    else if k == 3 then 1 << 4
    else if k == 4 then 1 << 3
    else if k == 5 then 1 << 2
    else if k == 6 then 1 << 1
    else 1 << 0
  }

  /** The ids whose flag is `on`, in their order. */
  function Select(ids: seq<string>, flags: seq<bool>, on: bool): seq<string>
    requires |ids| == |flags|
  {
    if ids == [] then []
    else
      var n := |ids| - 1;
      Select(ids[..n], flags[..n], on) + if flags[n] == on then [ids[n]] else []
  }

  function Flag(states: seq<bv8>, i: nat): bool
    requires i / 8 < |states|
  {
    states[i / 8] & BitValue(i) == BitValue(i)
  }

  function Flags(states: seq<bv8>, n: nat): (r: seq<bool>)
    requires n <= 8 * |states|
    ensures |r| == n && forall i :: 0 <= i < n ==> r[i] == Flag(states, i)
  {
    seq(n, i requires 0 <= i < n => Flag(states, i))
  }

  /** The decoding loop; it stops with an index panic when the answer is too short. */
  method SplitStates(ids: seq<string>, states: seq<bv8>) returns (r: Answer)
    ensures r.IndexPanic? <==> 8 * |states| < |ids|
    ensures r.Answer? ==>
              var flags := Flags(states, |ids|);
              r == Answer(Select(ids, flags, true), Select(ids, flags, false))
  {
    var onlines, offlines := [], [];
    for i := 0 to |ids|
      invariant i <= 8 * |states|
      invariant onlines == Select(ids[..i], Flags(states, i), true)
      invariant offlines == Select(ids[..i], Flags(states, i), false)
    {
      if i / 8 >= |states| {
        return IndexPanic;
      }
      assert Flags(states, i + 1)[..i] == Flags(states, i);
      assert ids[..i + 1][..i] == ids[..i];
      if states[i / 8] & BitValue(i) == BitValue(i) {
        onlines := onlines + [ids[i]];
      } else {
        offlines := offlines + [ids[i]];
      }
    }
    assert ids[..|ids|] == ids;
    r := Answer(onlines, offlines);
  }

  // --- the packing the server uses ---

  function Bit(b: bool, value: bv8): bv8 {
    if b then value else 0
  }

  function PackByte(bits: seq<bool>): bv8
    requires |bits| == 8
  {
    Bit(bits[0], 0x80) | Bit(bits[1], 0x40) | Bit(bits[2], 0x20) | Bit(bits[3], 0x10)
    | Bit(bits[4], 0x08) | Bit(bits[5], 0x04) | Bit(bits[6], 0x02) | Bit(bits[7], 0x01)
  }

  function Padded(bits: seq<bool>): (r: seq<bool>)
    requires |bits| <= 8
    ensures |r| == 8 && r[..|bits|] == bits
  {
    bits + seq(8 - |bits|, _ => false)
  }

  function Pack(bits: seq<bool>): (r: seq<bv8>)
    ensures |r| == (|bits| + 7) / 8
  {
    if bits == [] then []
    else if |bits| <= 8 then [PackByte(Padded(bits))]
    else [PackByte(bits[..8])] + Pack(bits[8..])
  }

  lemma PackedBit(bits: seq<bool>, k: nat)
    requires |bits| == 8 && k < 8
    ensures PackByte(bits) & BitValue(k) == BitValue(k) <==> bits[k]
  {
  }

  lemma {:induction false} UnpackBit(bits: seq<bool>, more: seq<bv8>, i: nat)
    requires i < |bits|
    ensures i / 8 < |Pack(bits) + more|
    ensures Flag(Pack(bits) + more, i) == bits[i]
    decreases |bits|
  {
    var p := Pack(bits) + more;
    if |bits| <= 8 {
      assert p[0] == PackByte(Padded(bits));
      PackedBit(Padded(bits), i);
      assert Padded(bits)[..|bits|][i] == Padded(bits)[i];
    } else if i < 8 {
      assert p[0] == PackByte(bits[..8]);
      PackedBit(bits[..8], i);
    } else {
      UnpackBit(bits[8..], more, i - 8);
      assert p[1..] == Pack(bits[8..]) + more;
      FlagShift(p, i);
    }
  }

  lemma FlagShift(p: seq<bv8>, i: nat)
    requires p != [] && 8 <= i && i / 8 < |p|
    ensures (i - 8) / 8 < |p[1..]| && Flag(p, i) == Flag(p[1..], i - 8)
  {
  }

  /** Decoding a packed bit vector, in as many bytes or more, splits the ids by their bits in
      order. */
  lemma {:induction false} PackedSplit(ids: seq<string>, bits: seq<bool>, more: seq<bv8>)
    requires |ids| == |bits|
    ensures |ids| <= 8 * |Pack(bits) + more|
    ensures Flags(Pack(bits) + more, |ids|) == bits
  {
    forall i | 0 <= i < |bits| ensures Flag(Pack(bits) + more, i) == bits[i] {
      UnpackBit(bits, more, i);
    }
  }

  /** Every id lands in exactly one of the two outputs, as often as it was asked for. */
  lemma {:induction false} SelectPartitions(ids: seq<string>, flags: seq<bool>)
    requires |ids| == |flags|
    ensures multiset(Select(ids, flags, true)) + multiset(Select(ids, flags, false)) == multiset(ids)
    ensures |Select(ids, flags, true)| + |Select(ids, flags, false)| == |ids|
  {
    if ids != [] {
      var n := |ids| - 1;
      SelectPartitions(ids[..n], flags[..n]);
      assert ids == ids[..n] + [ids[n]];
      SelectLast(ids, flags, true);
      SelectLast(ids, flags, false);
    }
  }

  lemma {:induction false} SelectLast(ids: seq<string>, flags: seq<bool>, on: bool)
    requires |ids| == |flags| && ids != []
    ensures var n := |ids| - 1;
            var before := Select(ids[..n], flags[..n], on);
            && (flags[n] == on ==> Select(ids, flags, on) == before + [ids[n]])
            && (flags[n] != on ==> Select(ids, flags, on) == before)
  {
  }
}
