/** AEAD nonces: a little-endian byte counter, incremented in place and wrapping around. */
module Nonce {
  import opened Bytes

  /** The number of distinct nonces of `size` bytes. */
  function Period(size: nat): (n: nat)
    ensures n > 0
  {
    if size == 0 then 1 else 256 * Period(size - 1)
  }

  /** The number a nonce stands for, least significant byte first. */
  function Value(b: seq<byte>): nat {
    if b == [] then 0 else b[0] + 256 * Value(b[1..])
  }

  /** The carry rule: a 255 becomes 0 and carries, anything else grows by one and stops. */
  function Successor(b: seq<byte>): (s: seq<byte>)
    ensures |s| == |b|
  {
    if b == [] then []
    else if b[0] == 255 then [0] + Successor(b[1..])
    else [b[0] + 1] + b[1..]
  }

  /** The nonce of seal number i: all zeros, incremented i times. */
  function Nth(size: nat, i: nat): (b: seq<byte>)
    ensures |b| == size
  {
    if i == 0 then seq(size, _ => 0) else Successor(Nth(size, i - 1))
  }

  lemma {:induction false} ValueInRange(b: seq<byte>)
    ensures Value(b) < Period(|b|)
  {
    if b == [] {
    } else {
      ValueInRange(b[1..]);
    }
  }

  /** Incrementing adds one to the number, modulo the period. */
  lemma {:induction false} SuccessorValue(b: seq<byte>)
    ensures Value(Successor(b)) == if Value(b) + 1 == Period(|b|) then 0 else Value(b) + 1
  {
    if b == [] {
    } else {
      SuccessorValue(b[1..]);
      ValueInRange(b[1..]);
      assert Successor(b)[1..] == if b[0] == 255 then Successor(b[1..]) else b[1..];
    }
  }

  lemma {:induction false} ZeroValue(size: nat)
    ensures Value(seq(size, _ => 0)) == 0
  {
    if size == 0 {
    } else {
      ZeroValue(size - 1);
      assert seq<byte>(size, _ => 0)[1..] == seq(size - 1, _ => 0);
    }
  }

  lemma LowByte(a: byte, high: seq<byte>)
    requires 0 < a
    ensures Successor([a - 1] + high) == [a] + high && Value([a] + high) > 0
  {
    assert ([a - 1] + high)[1..] == ([a] + high)[1..] == high;
  }

  /** The first nonces of 12 bytes: the first byte counts. */
  lemma FirstOf12()
    ensures Nth(12, 0) == [0] + [0, 0, 0, 0, 0, 0, 0, 0, 0, 0, 0]
    ensures Nth(12, 1) == [1] + [0, 0, 0, 0, 0, 0, 0, 0, 0, 0, 0]
    ensures Nth(12, 2) == [2] + [0, 0, 0, 0, 0, 0, 0, 0, 0, 0, 0]
    ensures Nth(12, 3) == [3] + [0, 0, 0, 0, 0, 0, 0, 0, 0, 0, 0]
    ensures Value(Nth(12, 0)) == 0 && Value(Nth(12, 2)) > 0
  {
    var high: seq<byte> := [0, 0, 0, 0, 0, 0, 0, 0, 0, 0, 0];
    ZeroValue(12);
    assert Nth(12, 0) == seq(12, _ => 0) == [0] + high;
    LowByte(1, high);
    LowByte(2, high);
    LowByte(3, high);
    assert Nth(12, 1) == Successor(Nth(12, 0));
    assert Nth(12, 2) == Successor(Nth(12, 1));
    assert Nth(12, 3) == Successor(Nth(12, 2));
  }

  lemma NextResidue(i: nat, m: nat)
    requires m > 0
    ensures (i + 1) % m == if i % m + 1 == m then 0 else i % m + 1
  {
    var q, r := i / m, i % m;
    assert i + 1 == q * m + (r + 1);
    if r + 1 == m {
      assert i + 1 == (q + 1) * m + 0;
      Residue(i + 1, q + 1, m, 0);
    } else {
      Residue(i + 1, q, m, r + 1);
    }
  }

  lemma Residue(i: nat, a: nat, m: nat, r: nat)
    requires m > 0 && r < m && i == a * m + r
    ensures i % m == r
  {
    var k := i / m - a;
    assert k * m == (i / m) * m - a * m;
    assert k >= 1 ==> k * m >= m;
    assert k <= -1 ==> k * m + m <= 0;
  }

  /** The nonce of seal number i stands for the number i, modulo the period. */
  lemma {:induction false} ValueOfNth(size: nat, i: nat)
    ensures Value(Nth(size, i)) == i % Period(size)
  {
    if i == 0 {
      ZeroValue(size);
      Residue(0, 0, Period(size), 0);
    } else {
      ValueOfNth(size, i - 1);
      SuccessorValue(Nth(size, i - 1));
      NextResidue(i - 1, Period(size));
    }
  }

  lemma {:induction false} ValueIsInjective(a: seq<byte>, b: seq<byte>)
    requires |a| == |b| && Value(a) == Value(b)
    ensures a == b
  {
    if a == [] {
    } else {
      ValueIsInjective(a[1..], b[1..]);
      assert a == [a[0]] + a[1..] && b == [b[0]] + b[1..];
    }
  }

  /** Two seals get the same nonce exactly when their numbers agree modulo the period: within one
      period no nonce is used twice, and after one period the first nonce is used again. */
  lemma Distinct(size: nat, i: nat, j: nat)
    ensures Nth(size, i) == Nth(size, j) <==> i % Period(size) == j % Period(size)
  {
    ValueOfNth(size, i);
    ValueOfNth(size, j);
    if i % Period(size) == j % Period(size) {
      ValueIsInjective(Nth(size, i), Nth(size, j));
    }
  }

  lemma {:induction false} CarryStopsAt(b: seq<byte>, r: seq<byte>, i: nat)
    requires |r| == |b| && i <= |b|
    requires forall k :: 0 <= k < i ==> b[k] == 255 && r[k] == 0
    requires i < |b| ==> b[i] < 255 && r[i] == b[i] + 1
    requires forall k :: i < k < |b| ==> r[k] == b[k]
    ensures r == Successor(b)
  {
    if b == [] {
    } else if i == 0 {
      assert r[1..] == b[1..];
    } else {
      CarryStopsAt(b[1..], r[1..], i - 1);
      assert r == [r[0]] + r[1..];
    }
  }

  /** `increment`: the loop over the bytes computes the successor in place. */
  method Increment(b: array<byte>)
    modifies b
    ensures b[..] == Successor(old(b[..]))
  {
    var i := 0;
    while i < b.Length
      invariant 0 <= i <= b.Length
      invariant forall k :: 0 <= k < i ==> old(b[k]) == 255 && b[k] == 0
      invariant forall k :: i <= k < b.Length ==> b[k] == old(b[k])
    {
      if b[i] == 255 {
        b[i] := 0;
      } else {
        b[i] := b[i] + 1;
        CarryStopsAt(old(b[..]), b[..], i);
        return;
      }
      i := i + 1;
    }
    CarryStopsAt(old(b[..]), b[..], i);
  }

  /** `isZero`. */
  method IsZero(b: array<byte>) returns (z: bool)
    ensures z <==> Value(b[..]) == 0
  {
    z := true;
    var k := 0;
    while k < b.Length
      invariant 0 <= k <= b.Length
      invariant z && (Value(b[..]) == 0 <==> Value(b[k..]) == 0)
    {
      assert b[k..][1..] == b[k + 1..];
      if b[k] != 0 {
        return false;
      }
      k := k + 1;
    }
  }
}
