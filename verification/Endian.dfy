/** Big-endian loads and stores, through the machine's own byte order. */
module Endian {
  import opened Core

  type Bytes = seq<u8>

  function Pow256(n: nat): nat {
    if n == 0 then 1 else 0x100 * Pow256(n - 1)
  }

  /** The value of bytes, most significant first. */
  function FromBig(p: Bytes): nat {
    if p == [] then 0 else 0x100 * FromBig(p[..|p| - 1]) + p[|p| - 1]
  }

  /** The value of bytes, least significant first: what a copy into an integer gives on a little-endian machine. */
  function FromLittle(p: Bytes): nat {
    if p == [] then 0 else p[0] + 0x100 * FromLittle(p[1..])
  }

  function ToBig(v: nat, n: nat): (p: Bytes)
    ensures |p| == n
  {
    if n == 0 then [] else ToBig(v / 0x100, n - 1) + [v % 0x100]
  }

  function ToLittle(v: nat, n: nat): (p: Bytes)
    ensures |p| == n
  {
    if n == 0 then [] else [v % 0x100] + ToLittle(v / 0x100, n - 1)
  }

  /** The integer whose n bytes are those of v in the opposite order. */
  function ByteSwap(v: nat, n: nat): nat {
    FromBig(ToLittle(v, n))
  }

  function LoadBe(little: bool, p: Bytes): nat {
    if little then ByteSwap(FromLittle(p), |p|) else FromBig(p)
  }

  function StoreBe(little: bool, v: nat, n: nat): (p: Bytes)
    ensures |p| == n
  {
    if little then ToLittle(ByteSwap(v, n), n) else ToBig(v, n)
  }

  /** A 48-bit load from a 16-bit and a 32-bit one. */
  function LoadBe48(little: bool, p: Bytes): nat
    requires |p| == 6
  {
    0x1_0000_0000 * LoadBe(little, p[..2]) + LoadBe(little, p[2..])
  }

  function StoreBe48(little: bool, v: nat): (p: Bytes)
    ensures |p| == 6
  {
    StoreBe(little, v / 0x1_0000_0000 % 0x1_0000, 2) + StoreBe(little, v % 0x1_0000_0000, 4)
  }

  function Reverse(p: Bytes): (r: Bytes)
    ensures |r| == |p|
  {
    if p == [] then [] else Reverse(p[1..]) + [p[0]]
  }

  lemma {:induction false} ReverseSnoc(p: Bytes, x: u8)
    ensures Reverse(p + [x]) == [x] + Reverse(p)
  {
    if p == [] {
      assert [x][1..] == [];
    } else {
      ReverseSnoc(p[1..], x);
      assert (p + [x])[1..] == p[1..] + [x];
    }
  }

  lemma {:induction false} ReverseTwice(p: Bytes)
    ensures Reverse(Reverse(p)) == p
  {
    if p != [] {
      ReverseTwice(p[1..]);
      ReverseSnoc(Reverse(p[1..]), p[0]);
    }
  }

  lemma {:induction false} LittleIsReversed(p: Bytes)
    ensures FromLittle(p) == FromBig(Reverse(p))
  {
    if p != [] {
      LittleIsReversed(p[1..]);
      assert (Reverse(p[1..]) + [p[0]])[..|p| - 1] == Reverse(p[1..]);
    }
  }

  lemma {:induction false} ToLittleIsReversed(v: nat, n: nat)
    ensures ToLittle(v, n) == Reverse(ToBig(v, n))
  {
    if n > 0 {
      ToLittleIsReversed(v / 0x100, n - 1);
      ReverseSnoc(ToBig(v / 0x100, n - 1), v % 0x100);
    }
  }

  lemma {:induction false} BytesBack(p: Bytes)
    ensures ToBig(FromBig(p), |p|) == p && FromBig(p) < Pow256(|p|)
  {
    if p != [] {
      BytesBack(p[..|p| - 1]);
    }
  }

  lemma {:induction false} ValueBack(v: nat, n: nat)
    requires v < Pow256(n)
    ensures FromBig(ToBig(v, n)) == v
  {
    if n > 0 {
      ValueBack(v / 0x100, n - 1);
    }
  }

  /** Whatever the machine's byte order, a load reads the big-endian value and a store writes its bytes. */
  lemma OrderIrrelevant(little: bool, p: Bytes, v: nat, n: nat)
    requires v < Pow256(n)
    ensures LoadBe(little, p) == FromBig(p) < Pow256(|p|)
    ensures StoreBe(little, v, n) == ToBig(v, n)
  {
    LittleIsReversed(p);
    ToLittleIsReversed(FromLittle(p), |p|);
    BytesBack(Reverse(p));
    ReverseTwice(p);
    BytesBack(p);
    var q := Reverse(ToBig(v, n));
    ToLittleIsReversed(v, n);
    ToLittleIsReversed(FromBig(q), n);
    BytesBack(q);
    ReverseTwice(ToBig(v, n));
  }

  /** Stores and loads undo each other, even between machines of different byte order. */
  lemma StoreLoad(w: bool, r: bool, p: Bytes, v: nat, n: nat)
    requires v < Pow256(n)
    ensures LoadBe(r, StoreBe(w, v, n)) == v
    ensures StoreBe(w, LoadBe(r, p), |p|) == p
  {
    hide LoadBe, StoreBe, Pow256;
    BytesBack(p);
    OrderIrrelevant(w, p, v, n);
    OrderIrrelevant(r, ToBig(v, n), v, n);
    OrderIrrelevant(r, p, v, n);
    OrderIrrelevant(w, p, FromBig(p), |p|);
    ValueBack(v, n);
  }

  lemma {:induction false} FromBigConcat(a: Bytes, b: Bytes)
    ensures FromBig(a + b) == FromBig(a) * Pow256(|b|) + FromBig(b)
  {
    if b == [] {
      assert a + b == a;
    } else {
      var c := b[..|b| - 1];
      FromBigConcat(a, c);
      assert (a + b)[..|a + b| - 1] == a + c;
      assert FromBig(a) * Pow256(|b|) == 0x100 * (FromBig(a) * Pow256(|c|));
    }
  }

  lemma Widths()
    ensures Pow256(1) == 0x100 && Pow256(2) == 0x1_0000 && Pow256(4) == 0x1_0000_0000 && Pow256(6) == 0x1_0000_0000_0000
  {
    assert Pow256(2) == 0x100 * Pow256(1) && Pow256(3) == 0x100 * Pow256(2) && Pow256(4) == 0x100 * Pow256(3);
    assert Pow256(5) == 0x100 * Pow256(4) && Pow256(6) == 0x100 * Pow256(5);
  }

  /** The two-part 48-bit load is the big-endian value of all six bytes, and the two-part store its bytes. */
  lemma Load48(w: bool, r: bool, p: Bytes, v: nat)
    requires |p| == 6 && v < 0x1_0000_0000_0000
    ensures LoadBe48(r, p) == FromBig(p) < 0x1_0000_0000_0000
    ensures LoadBe48(r, StoreBe48(w, v)) == v
  {
    hide LoadBe, StoreBe, FromBig, Pow256;
    Widths();
    OrderIrrelevant(r, p[..2], 0, 2);
    OrderIrrelevant(r, p[2..], 0, 4);
    FromBigConcat(p[..2], p[2..]);
    assert p[..2] + p[2..] == p;
    BytesBack(p);
    var hi, lo := v / 0x1_0000_0000 % 0x1_0000, v % 0x1_0000_0000;
    StoreLoad(w, r, [], hi, 2);
    StoreLoad(w, r, [], lo, 4);
    var q := StoreBe48(w, v);
    assert q[..2] == StoreBe(w, hi, 2) && q[2..] == StoreBe(w, lo, 4);
  }
}
