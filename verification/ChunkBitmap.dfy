// The bitmap of received chunks, and the set of chunk indices that it stands for.
module ChunkBitmap {
  import opened Words

  predicate Bit(b: bv8, k: nat)
    requires k < 8
  {
    b & ((1 as bv8) << k) != 0
  }

  function SetBit(b: bv8, k: nat): bv8
    requires k < 8
  {
    b | ((1 as bv8) << k)
  }

  lemma SetBitSets(b: bv8, k: nat, j: nat)
    requires k < 8 && j < 8
    ensures Bit(SetBit(b, k), j) <==> j == k || Bit(b, j)
  {
    SingleBits(b, k, j);
  }

  lemma SingleBits(b: bv8, k: nat, j: nat)
    requires k < 8 && j < 8
    ensures (b | ((1 as bv8) << k)) & ((1 as bv8) << j) != 0 <==> j == k || b & ((1 as bv8) << j) != 0
  {
    var p, q: bv8 := (1 as bv8) << k, (1 as bv8) << j;
    assert q in {1, 2, 4, 8, 16, 32, 64, 128} && p in {1, 2, 4, 8, 16, 32, 64, 128};
  }

  // Bit i & 7 of byte i >> 3
  predicate IsReceived(bits: seq<bv8>, i: nat)
    requires i < 8 * |bits|
  {
    Bit(bits[i / 8], i % 8)
  }

  ghost function Received(bits: seq<bv8>): set<nat> {
    set i: nat | i < 8 * |bits| && IsReceived(bits, i)
  }

  lemma {:induction false} FlaggedIsReceived(bits: seq<bv8>, i: nat)
    requires i < 8 * |bits|
    ensures Received(bits[i / 8 := SetBit(bits[i / 8], i % 8)]) == Received(bits) + {i}
  {
    var after := bits[i / 8 := SetBit(bits[i / 8], i % 8)];
    forall j: nat | j < 8 * |bits|
      ensures IsReceived(after, j) <==> IsReceived(bits, j) || j == i
    {
      if j / 8 == i / 8 {
        SetBitSets(bits[i / 8], i % 8, j % 8);
      }
    }
  }

  lemma AllZero(bits: seq<bv8>)
    requires forall k :: 0 <= k < |bits| ==> bits[k] == 0
    ensures Received(bits) == {}
  {
  }

  lemma AllOnes(bits: seq<bv8>)
    requires forall k :: 0 <= k < |bits| ==> bits[k] == 0xFF
    ensures forall i: nat :: i < 8 * |bits| ==> i in Received(bits)
  {
    forall i: nat | i < 8 * |bits|
      ensures IsReceived(bits, i)
    {
      EveryBit(i % 8);
    }
  }

  lemma EveryBit(k: nat)
    requires k < 8
    ensures Bit(0xFF, k)
  {
    assert (1 as bv8) << k in {1, 2, 4, 8, 16, 32, 64, 128};
  }
}
