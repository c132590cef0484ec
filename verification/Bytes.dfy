/** Bytes, lower case, big-endian 16-bit numbers and flattening, shared by every wire format in the project. */
module Bytes {
  type byte = x: int | 0 <= x < 256

  datatype Option<+T> = None | Some(value: T)

  function B(b: bool): nat { if b then 1 else 0 }

  function Min(a: int, b: int): int { if a < b then a else b }

  /** The lower case of a US-ASCII letter; every other character code stays. */
  function LowerCode(code: int): int {
    if 65 <= code <= 90 then code + 32 else code
  }

  /** binary.BigEndian.PutUint16(_, uint16(n)): the conversion keeps the low 16 bits. */
  function BigEndian16(n: nat): seq<byte> {
    [n / 256 % 256, n % 256]
  }

  /** binary.BigEndian.Uint16. */
  function Uint16(b: seq<byte>): nat
    requires |b| == 2
  {
    256 * (b[0] as int) + b[1]
  }

  /** The more significant byte comes first. */
  lemma BigEndianBytes(hi: byte, lo: byte)
    ensures Uint16([hi, lo]) == 256 * (hi as int) + lo && BigEndian16(256 * (hi as int) + lo) == [hi, lo]
  {
    assert (256 * (hi as int) + lo) / 256 == hi && (256 * (hi as int) + lo) % 256 == lo;
  }

  lemma Uint16RoundTrip(n: nat)
    requires n < 0x1_0000
    ensures Uint16(BigEndian16(n)) == n
  {}

  lemma BigEndian16OfUint16(b: seq<byte>)
    requires |b| == 2
    ensures BigEndian16(Uint16(b)) == b
  {
    var hi: int, lo: int := b[0], b[1];
    assert (256 * hi + lo) / 256 == hi && (256 * hi + lo) % 256 == lo;
  }

  ghost function Flatten<T>(parts: seq<seq<T>>): seq<T> {
    if parts == [] then [] else parts[0] + Flatten(parts[1..])
  }

  lemma {:induction false} FlattenAppend<T>(a: seq<seq<T>>, b: seq<seq<T>>)
    ensures Flatten(a + b) == Flatten(a) + Flatten(b)
  {
    if a == [] {
      assert a + b == b;
    } else {
      assert (a + b)[1..] == a[1..] + b;
      FlattenAppend(a[1..], b);
    }
  }

  lemma FlattenSnoc<T>(a: seq<seq<T>>, x: seq<T>)
    ensures Flatten(a + [x]) == Flatten(a) + x
  {
    FlattenAppend(a, [x]);
    assert [x][1..] == [];
    assert Flatten([x]) == x + Flatten<T>([]);
  }

  /** Taking n elements off the front of `all` leaves `rest`. */
  ghost predicate Leaves<T>(all: seq<T>, n: nat, rest: seq<T>) {
    n <= |all| && all == all[..n] + rest
  }

  lemma LeavesNothingTaken<T>(before: seq<T>, all: seq<T>)
    ensures Leaves(all, 0, all) && before + all[..0] == before
  {}

  lemma LeavesTheRest<T>(head: seq<T>, rest: seq<T>)
    ensures Leaves(head + rest, |head|, rest) && (head + rest)[..|head|] == head
  {}

  lemma LeavesDropped<T>(all: seq<T>, n: nat)
    requires n <= |all|
    ensures Leaves(all, n, all[n..])
  {}

  lemma LeavesAll<T>(all: seq<T>, n: nat)
    requires Leaves(all, n, [])
    ensures n == |all| && all[..n] == all
  {}

  /** Taking twice is taking once, and what was taken adds up in order. */
  lemma LeavesTwice<T>(before: seq<T>, all: seq<T>, m: nat, mid: seq<T>, n: nat, rest: seq<T>)
    requires Leaves(all, m, mid) && Leaves(mid, n, rest)
    ensures Leaves(all, m + n, rest)
    ensures (before + all[..m]) + mid[..n] == before + all[..m + n]
  {
    assert all == all[..m] + (mid[..n] + rest);
    assert all[..m + n] == all[..m] + mid[..n];
  }

  lemma Regroup(a: seq<byte>, b: seq<byte>, c: seq<byte>)
    ensures (a + b) + c == a + (b + c)
  {}

  /** Appending what was taken from p after its first n bytes. */
  lemma PassedOn(before: seq<byte>, p: seq<byte>, n: nat, m: nat)
    requires n + m <= |p|
    ensures before + p[..n] + p[n..][..m] == before + p[..n + m]
  {
    assert p[..n] + p[n..][..m] == p[..n + m];
  }
}
