/** Bitmaps packed eight to a byte, as kernel/pmm.cpp and kernel/fs.cpp both keep them. */
module Bitmap {

  /** 1 << k. */
  function Mask(k: nat): bv8
    requires k < 8
  {
    if k == 0 then 0x01 else if k == 1 then 0x02 else if k == 2 then 0x04 else if k == 3 then 0x08
    else if k == 4 then 0x10 else if k == 5 then 0x20 else if k == 6 then 0x40 else 0x80
  }

  predicate BitOf(b: bv8, k: nat)
    requires k < 8
  {
    b & Mask(k) != 0
  }

  /** Setting or clearing one bit of a byte leaves the other seven alone. */
  lemma {:induction false} OneBit(b: bv8, k: nat, j: nat)
    requires k < 8 && j < 8
    ensures BitOf(b | Mask(k), j) <==> j == k || BitOf(b, j)
    ensures BitOf(b & !Mask(k), j) <==> j != k && BitOf(b, j)
  {
    assert Mask(k) & Mask(j) == if j == k then Mask(k) else 0;
  }

  predicate Test(bytes: seq<bv8>, i: nat)
    requires i < 8 * |bytes|
  {
    BitOf(bytes[i / 8], i % 8)
  }

  function Set(bytes: seq<bv8>, i: nat): seq<bv8>
    requires i < 8 * |bytes|
  {
    bytes[i / 8 := bytes[i / 8] | Mask(i % 8)]
  }

  function Clear(bytes: seq<bv8>, i: nat): seq<bv8>
    requires i < 8 * |bytes|
  {
    bytes[i / 8 := bytes[i / 8] & !Mask(i % 8)]
  }

  lemma {:induction false} OtherByte(bytes: seq<bv8>, i: nat, j: nat)
    requires i < 8 * |bytes| && j < 8 * |bytes| && j / 8 != i / 8
    ensures Test(Set(bytes, i), j) <==> Test(bytes, j)
    ensures Test(Clear(bytes, i), j) <==> Test(bytes, j)
  {
    assert Set(bytes, i)[j / 8] == bytes[j / 8] && Clear(bytes, i)[j / 8] == bytes[j / 8];
  }

  lemma {:induction false} SetInByte(bytes: seq<bv8>, i: nat, j: nat)
    requires i < 8 * |bytes| && j < 8 * |bytes| && j / 8 == i / 8
    ensures Test(Set(bytes, i), j) <==> j % 8 == i % 8 || Test(bytes, j)
  {
    assert Set(bytes, i)[j / 8] == bytes[i / 8] | Mask(i % 8);
    OneBit(bytes[i / 8], i % 8, j % 8);
  }

  lemma {:induction false} ClearInByte(bytes: seq<bv8>, i: nat, j: nat)
    requires i < 8 * |bytes| && j < 8 * |bytes| && j / 8 == i / 8
    ensures Test(Clear(bytes, i), j) <==> j % 8 != i % 8 && Test(bytes, j)
  {
    assert Clear(bytes, i)[j / 8] == bytes[i / 8] & !Mask(i % 8);
    OneBit(bytes[i / 8], i % 8, j % 8);
  }

  lemma {:induction false} SetTest(bytes: seq<bv8>, i: nat, j: nat)
    requires i < 8 * |bytes| && j < 8 * |bytes|
    ensures Test(Set(bytes, i), j) <==> j == i || Test(bytes, j)
    ensures Test(Clear(bytes, i), j) <==> j != i && Test(bytes, j)
  {
    if j / 8 == i / 8 {
      SetInByte(bytes, i, j);
      ClearInByte(bytes, i, j);
    } else {
      OtherByte(bytes, i, j);
    }
  }

  /** The set of indices whose bit is on. */
  function Ones(bytes: seq<bv8>): set<nat> {
    set i | 0 <= i < 8 * |bytes| && Test(bytes, i)
  }

  lemma {:induction false} SetOnes(bytes: seq<bv8>, i: nat)
    requires i < 8 * |bytes|
    ensures Ones(Set(bytes, i)) == Ones(bytes) + {i}
    ensures Ones(Clear(bytes, i)) == Ones(bytes) - {i}
  {
    forall j: nat | j < 8 * |bytes|
      ensures j in Ones(Set(bytes, i)) <==> j in Ones(bytes) + {i}
      ensures j in Ones(Clear(bytes, i)) <==> j in Ones(bytes) - {i}
    {
      SetTest(bytes, i, j);
    }
  }
}
