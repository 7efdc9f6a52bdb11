/** Bytes, and numbers in them with the low byte first. */
module Bytes {

  type Byte = x: int | 0 <= x < 256

  /** The little-endian number in n bytes from an offset on. */
  function Le(data: seq<Byte>, at: nat, n: nat): nat
    requires at + n <= |data|
    decreases |data| - at
  {
    if n == 0 then 0 else data[at] + 256 * Le(data, at + 1, n - 1)
  }

  /** A number in n bytes. */
  function LeBytes(v: nat, n: nat): (r: seq<Byte>)
    ensures |r| == n
  {
    if n == 0 then [] else [v % 256] + LeBytes(v / 256, n - 1)
  }

  function Pow256(n: nat): nat {
    if n == 0 then 1 else 256 * Pow256(n - 1)
  }

  /** Reading undoes writing for every number that fits. */
  lemma {:induction false} LeRound(data: seq<Byte>, at: nat, v: nat, n: nat)
    requires at + n <= |data| && data[at..at + n] == LeBytes(v, n) && v < Pow256(n)
    ensures Le(data, at, n) == v
    decreases n
  {
    if n > 0 {
      assert data[at] == data[at..at + n][0] == v % 256;
      assert data[at + 1..at + n] == data[at..at + n][1..] == LeBytes(v / 256, n - 1);
      LeRound(data, at + 1, v / 256, n - 1);
    }
  }

  function Zeros(n: nat): (r: seq<Byte>)
    ensures |r| == n && forall i | 0 <= i < n :: r[i] == 0
  {
    seq(n, _ => 0)
  }

  lemma {:induction false} Le2(data: seq<Byte>, at: nat)
    requires at + 2 <= |data|
    ensures Le(data, at, 2) == data[at] as int + data[at + 1] as int * 0x100
  {
    assert Le(data, at + 1, 1) == data[at + 1];
  }

  lemma {:induction false} Le4(data: seq<Byte>, at: nat)
    requires at + 4 <= |data|
    ensures Le(data, at, 4) == data[at] as int + data[at + 1] as int * 0x100
                               + (data[at + 2] as int + data[at + 3] as int * 0x100) * 0x1_0000
  {
    Le2(data, at + 2);
    assert Le(data, at + 1, 3) == data[at + 1] + 0x100 * Le(data, at + 2, 2);
  }

  lemma {:induction false} SliceOfSlice(data: seq<Byte>, at: nat, n: nat, k: nat, m: nat)
    requires at + n <= |data| && k + m <= n
    ensures data[at + k..at + k + m] == data[at..at + n][k..k + m]
  {
    var a, b := data[at + k..at + k + m], data[at..at + n][k..k + m];
    assert |a| == |b| == m;
    assert forall i | 0 <= i < m :: a[i] == b[i];
  }
}
