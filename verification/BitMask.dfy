/** The byte array that serves as a bit set while link ids are handed out. */
module BitMask {

  predicate IsSet(mask: seq<bv8>, bit: nat)
    requires bit / 8 < |mask|
  {
    mask[bit / 8] & ((1 as bv8) << (bit % 8)) != 0
  }

  /** The set of bits a mask holds. */
  ghost function Bits(mask: seq<bv8>): (s: set<nat>)
    ensures forall b: nat :: b in s <==> b / 8 < |mask| && IsSet(mask, b)
  {
    var s := set b: nat | 0 <= b < 8 * |mask| && IsSet(mask, b);
    assert forall b: nat :: b / 8 < |mask| <==> b < 8 * |mask|;
    s
  }

  lemma OrOneBit(x: bv8, a: nat, b: nat)
    requires a < 8 && b < 8
    ensures (x | ((1 as bv8) << a)) & ((1 as bv8) << b) != 0
            <==> a == b || x & ((1 as bv8) << b) != 0
  {
    ShiftedOne(a);
    ShiftedOne(b);
  }

  lemma ShiftedOne(k: nat)
    requires k < 8
    ensures (1 as bv8) << k == [1, 2, 4, 8, 16, 32, 64, 128][k]
  {
    if k == 0 {} else if k == 1 {} else if k == 2 {} else if k == 3 {}
    else if k == 4 {} else if k == 5 {} else if k == 6 {} else {}
  }

  method BitSet(mask: array<bv8>, bit: nat)
    requires bit / 8 < mask.Length
    modifies mask
    ensures Bits(mask[..]) == old(Bits(mask[..])) + {bit}
  {
    mask[bit / 8] := mask[bit / 8] | ((1 as bv8) << (bit % 8));
    forall b: nat | b / 8 < mask.Length
      ensures IsSet(mask[..], b) <==> b == bit || old(IsSet(mask[..], b))
    {
      if b / 8 == bit / 8 {
        OrOneBit(old(mask[bit / 8]), bit % 8, b % 8);
        assert b == bit <==> b % 8 == bit % 8;
      }
    }
  }

  method BitIsSet(mask: array<bv8>, bit: nat) returns (r: bool)
    requires bit / 8 < mask.Length
    ensures r <==> bit in Bits(mask[..])
  {
    r := mask[bit / 8] & ((1 as bv8) << (bit % 8)) != 0;
  }

  /** The memset that opens each bucket: the first n bytes are cleared, the rest keep whatever they held. */
  method ClearBytes(mask: array<bv8>, n: nat)
    requires n <= mask.Length
    modifies mask
    ensures Bits(mask[..]) == set b | b in old(Bits(mask[..])) && b >= 8 * n
  {
    for i := 0 to n
      invariant forall k :: 0 <= k < i ==> mask[k] == 0
      invariant forall k :: i <= k < mask.Length ==> mask[k] == old(mask[k])
    {
      mask[i] := 0;
    }
    forall b: nat | b / 8 < mask.Length
      ensures IsSet(mask[..], b) <==> b >= 8 * n && old(IsSet(mask[..], b))
    {
      assert b / 8 < n <==> b < 8 * n;
      if b / 8 < n { assert mask[..][b / 8] == 0; }
    }
  }
}
