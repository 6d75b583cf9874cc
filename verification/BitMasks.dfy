/** Null masks: bit sets, and the bytes they travel in. */
module BitMasks {

  const MASKS: seq<bv8> := [0x01, 0x02, 0x04, 0x08, 0x10, 0x20, 0x40, 0x80]

  predicate BitOf(b: bv8, j: nat)
    requires j < 8
  {
    b & MASKS[j] != 0
  }

  /** `BitSet.length`: one more than the highest bit. */
  function Length(bits: set<nat>): (n: nat)
    ensures forall i | i in bits :: i < n
    ensures n > 0 ==> n - 1 in bits
  {
    if bits == {} then 0
    else
      MaxExists(bits);
      var m :| m in bits && forall i | i in bits :: i <= m;
      m + 1
  }

  lemma {:induction false} MaxExists(bits: set<nat>)
    requires bits != {}
    ensures exists m :: m in bits && forall i | i in bits :: i <= m
    decreases bits
  {
    var x :| x in bits;
    var rest := bits - {x};
    if rest == {} {
      assert bits == {x};
    } else {
      MaxExists(rest);
      var m :| m in rest && forall i | i in rest :: i <= m;
      var top := if x > m then x else m;
      assert bits == rest + {x};
      assert forall i | i in bits :: i in rest || i == x;
      assert top in bits && forall i | i in bits :: i <= top;
    }
  }

  /** The bits set in a sequence of bytes. */
  function Unpack(bytes: seq<bv8>): set<nat> {
    set i: nat | i < |bytes| * 8 && BitOf(bytes[i / 8], i % 8)
  }

  /** The bytes that hold exactly these bits: one more byte than the length asks for. */
  ghost predicate Packs(bytes: seq<bv8>, bits: set<nat>) {
    && |bytes| == 1 + Length(bits) / 8
    && forall k, j: nat | 0 <= k < |bytes| && j < 8 :: BitOf(bytes[k], j) <==> k * 8 + j in bits
  }

  lemma SetBit(b: bv8, i: nat, j: nat)
    requires i < 8 && j < 8
    ensures BitOf(b | MASKS[i], j) <==> i == j || BitOf(b, j)
  {
    var m, n := MASKS[i], MASKS[j];
    assert i == j ==> (b | m) & n != 0;
    if i != j {
      assert m & n == 0 by { DistinctMasks(i, j); }
      assert (b | m) & n == (b & n) | (m & n);
    }
  }

  lemma DistinctMasks(i: nat, j: nat)
    requires i < 8 && j < 8 && i != j
    ensures MASKS[i] & MASKS[j] == 0
  {
  }

  /** The bytes of a mask are determined by its bits. */
  lemma BitsDetermineByte(a: bv8, b: bv8)
    requires forall j: nat | j < 8 :: BitOf(a, j) <==> BitOf(b, j)
    ensures a == b
  {
    assert BitOf(a, 0) <==> BitOf(b, 0);
    assert BitOf(a, 1) <==> BitOf(b, 1);
    assert BitOf(a, 2) <==> BitOf(b, 2);
    assert BitOf(a, 3) <==> BitOf(b, 3);
    assert BitOf(a, 4) <==> BitOf(b, 4);
    assert BitOf(a, 5) <==> BitOf(b, 5);
    assert BitOf(a, 6) <==> BitOf(b, 6);
    assert BitOf(a, 7) <==> BitOf(b, 7);
  }

  /** Reading the packed bytes back gives the bits, and only one sequence of bytes packs them. */
  lemma UnpackPacked(bytes: seq<bv8>, bits: set<nat>)
    requires Packs(bytes, bits)
    ensures Unpack(bytes) == bits
    ensures forall other | Packs(other, bits) :: other == bytes
  {
    forall i: nat ensures i in Unpack(bytes) <==> i in bits {
      if i < |bytes| * 8 {
        assert i / 8 * 8 + i % 8 == i;
        assert BitOf(bytes[i / 8], i % 8) <==> i / 8 * 8 + i % 8 in bits;
      }
    }
    forall other | Packs(other, bits) ensures other == bytes {
      forall k | 0 <= k < |bytes| ensures other[k] == bytes[k] {
        BitsDetermineByte(other[k], bytes[k]);
      }
    }
  }

  method ToBinary(bits: set<nat>) returns (nulls: array<bv8>)
    ensures fresh(nulls) && Packs(nulls[..], bits)
  {
    var length := Length(bits);
    nulls := new bv8[1 + length / 8](_ => 0);
    for i := 0 to length
      invariant forall k, j: nat | 0 <= k < nulls.Length && j < 8 ::
                  BitOf(nulls[k], j) <==> k * 8 + j < i && k * 8 + j in bits
    {
      ghost var before := nulls[..];
      if i in bits {
        nulls[i / 8] := nulls[i / 8] | MASKS[i % 8];
      }
      forall k, j: nat | 0 <= k < nulls.Length && j < 8
        ensures BitOf(nulls[k], j) <==> k * 8 + j < i + 1 && k * 8 + j in bits
      {
        SetBit(before[i / 8], i % 8, j);
        assert k * 8 + j == i <==> k == i / 8 && j == i % 8;
        assert BitOf(before[k], j) <==> k * 8 + j < i && k * 8 + j in bits;
      }
    }
  }

  method ToBitset(nulls: seq<bv8>) returns (bitset: set<nat>)
    ensures bitset == Unpack(nulls)
  {
    bitset := {};
    for i := 0 to |nulls| * 8
      invariant forall k: nat :: k in bitset <==> k < i && BitOf(nulls[k / 8], k % 8)
    {
      bitset := if nulls[i / 8] & MASKS[i % 8] != 0 then bitset + {i} else bitset - {i};
    }
  }
}
