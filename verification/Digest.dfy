/** The 64-bit digest of the replay journal: one feed a field, each feed a bijective mix. */
module Digests {
  import opened Core
  import opened Endian

  type Word = bv64

  const SEED: Word := 0x243f_6a88_85a3_08d3

  // The six stages of the finaliser, each with the stage that undoes it: the factors are odd, so they have inverses
  // modulo 2 to the 64, and a right shift by k is undone by adding in the shifts by multiples of k.

  function Offset(z: Word): Word { z + 0x9e37_79b9_7f4a_7c15 }

  function Shift30(x: Word): Word { x ^ (x >> 30) }

  function Scale1(x: Word): Word { x * 0xbf58_476d_1ce4_e5b9 }

  function Shift27(x: Word): Word { x ^ (x >> 27) }

  function Scale2(x: Word): Word { x * 0x94d0_49bb_1331_11eb }

  function Shift31(x: Word): Word { x ^ (x >> 31) }

  function Unoffset(z: Word): Word { z - 0x9e37_79b9_7f4a_7c15 }

  function Unshift30(x: Word): Word { x ^ (x >> 30) ^ (x >> 60) }

  function Unscale1(x: Word): Word { x * 0x96de_1b17_3f11_9089 }

  function Unshift27(x: Word): Word { x ^ (x >> 27) ^ (x >> 54) }

  function Unscale2(x: Word): Word { x * 0x3196_42b2_d24d_8ec3 }

  function Unshift31(x: Word): Word { x ^ (x >> 31) ^ (x >> 62) }

  /** The finaliser of splitmix64. */
  function Mix64(z: Word): Word {
    Shift31(Scale2(Shift27(Scale1(Shift30(Offset(z))))))
  }

  function Unmix64(m: Word): Word {
    Unoffset(Unshift30(Unscale1(Unshift27(Unscale2(Unshift31(m))))))
  }

  lemma OffsetUndone(x: Word)
    ensures Unoffset(Offset(x)) == x && Offset(Unoffset(x)) == x
  {
  }

  lemma Shift30UndoneRaw(x: Word)
    ensures Unshift30(x ^ (x >> 30)) == x
  {
  }

  lemma Shift30Undone(x: Word)
    ensures Unshift30(Shift30(x)) == x
  {
    hide Unshift30;
    Shift30UndoneRaw(x);
  }

  lemma Shift30RedoneRaw(x: Word)
    ensures Shift30(x ^ (x >> 30) ^ (x >> 60)) == x
  {
  }

  lemma Shift30Redone(x: Word)
    ensures Shift30(Unshift30(x)) == x
  {
    hide Shift30;
    Shift30RedoneRaw(x);
  }

  lemma Shift27UndoneRaw(x: Word)
    ensures Unshift27(x ^ (x >> 27)) == x
  {
  }

  lemma Shift27Undone(x: Word)
    ensures Unshift27(Shift27(x)) == x
  {
    hide Unshift27;
    Shift27UndoneRaw(x);
  }

  lemma Shift27RedoneRaw(x: Word)
    ensures Shift27(x ^ (x >> 27) ^ (x >> 54)) == x
  {
  }

  lemma Shift27Redone(x: Word)
    ensures Shift27(Unshift27(x)) == x
  {
    hide Shift27;
    Shift27RedoneRaw(x);
  }

  lemma Shift31UndoneRaw(x: Word)
    ensures Unshift31(x ^ (x >> 31)) == x
  {
  }

  lemma Shift31Undone(x: Word)
    ensures Unshift31(Shift31(x)) == x
  {
    hide Unshift31;
    Shift31UndoneRaw(x);
  }

  lemma Shift31RedoneRaw(x: Word)
    ensures Shift31(x ^ (x >> 31) ^ (x >> 62)) == x
  {
  }

  lemma Shift31Redone(x: Word)
    ensures Shift31(Unshift31(x)) == x
  {
    hide Shift31;
    Shift31RedoneRaw(x);
  }

  lemma Scale1UndoneRaw(x: Word)
    ensures Unscale1(x * 0xbf58_476d_1ce4_e5b9) == x
  {
  }

  lemma Scale1Undone(x: Word)
    ensures Unscale1(Scale1(x)) == x
  {
    hide Unscale1;
    Scale1UndoneRaw(x);
  }

  lemma Scale1RedoneRaw(x: Word)
    ensures Scale1(x * 0x96de_1b17_3f11_9089) == x
  {
  }

  lemma Scale1Redone(x: Word)
    ensures Scale1(Unscale1(x)) == x
  {
    hide Scale1;
    Scale1RedoneRaw(x);
  }

  lemma Scale2UndoneRaw(x: Word)
    ensures Unscale2(x * 0x94d0_49bb_1331_11eb) == x
  {
  }

  lemma Scale2Undone(x: Word)
    ensures Unscale2(Scale2(x)) == x
  {
    hide Unscale2;
    Scale2UndoneRaw(x);
  }

  lemma Scale2RedoneRaw(x: Word)
    ensures Scale2(x * 0x3196_42b2_d24d_8ec3) == x
  {
  }

  lemma Scale2Redone(x: Word)
    ensures Scale2(Unscale2(x)) == x
  {
    hide Scale2;
    Scale2RedoneRaw(x);
  }

  /** Mix64 is a bijection on 64-bit words. */
  lemma MixBijective(z: Word)
    ensures Unmix64(Mix64(z)) == z && Mix64(Unmix64(z)) == z
  {
    hide Offset, Shift30, Scale1, Shift27, Scale2, Shift31, Unoffset, Unshift30, Unscale1, Unshift27, Unscale2,
         Unshift31;
    OffsetUndone(z);
    Shift30Undone(Offset(z));
    Scale1Undone(Shift30(Offset(z)));
    Shift27Undone(Scale1(Shift30(Offset(z))));
    Scale2Undone(Shift27(Scale1(Shift30(Offset(z)))));
    Shift31Undone(Scale2(Shift27(Scale1(Shift30(Offset(z))))));
    Shift31Redone(z);
    Scale2Redone(Unshift31(z));
    Shift27Redone(Unscale2(Unshift31(z)));
    Scale1Redone(Unshift27(Unscale2(Unshift31(z))));
    Shift30Redone(Unscale1(Unshift27(Unscale2(Unshift31(z)))));
    OffsetUndone(Unshift30(Unscale1(Unshift27(Unscale2(Unshift31(z))))));
  }

  /** Two values in numbers: the first output of the generator that the finaliser comes from, and one feed. */
  lemma InNumbers()
    ensures Mix64(0) == 0xe220_a839_7b1d_cdaf
    ensures FeedOne(0x243f_6a88_85a3_08d3, 1) == 0xf337_0f0c_d5fe_aa21
    ensures FeedAll(SEED, []) == 0x243f_6a88_85a3_08d3
  {
  }

  // Feeding

  function Blend(h: Word, x: Word): Word {
    h ^ x
  }

  function FeedOne(h: Word, x: Word): Word {
    Mix64(Blend(h, Mix64(x)))
  }

  function FeedAll(h: Word, xs: seq<Word>): Word {
    if xs == [] then h else FeedOne(FeedAll(h, xs[..|xs| - 1]), xs[|xs| - 1])
  }

  lemma MixInjective(a: Word, b: Word)
    ensures Mix64(a) == Mix64(b) ==> a == b
  {
    hide Mix64, Unmix64;
    MixBijective(a);
    MixBijective(b);
  }

  lemma BlendInjective(g: Word, h: Word, a: Word, b: Word)
    ensures Blend(h, a) == Blend(h, b) ==> a == b
    ensures Blend(g, a) == Blend(h, a) ==> g == h
  {
  }

  /** One feed keeps different states apart, and from one state keeps different words apart. */
  lemma FeedInjective(g: Word, h: Word, x: Word, y: Word)
    ensures FeedOne(g, x) == FeedOne(h, x) ==> g == h
    ensures FeedOne(h, x) == FeedOne(h, y) ==> x == y
  {
    hide Mix64, Blend;
    MixInjective(Blend(g, Mix64(x)), Blend(h, Mix64(x)));
    MixInjective(Blend(h, Mix64(x)), Blend(h, Mix64(y)));
    MixInjective(x, y);
    BlendInjective(g, h, Mix64(x), Mix64(x));
    BlendInjective(h, h, Mix64(x), Mix64(y));
  }

  /** Two feeds of the same length that differ in exactly one position always end in different digests. */
  lemma {:induction false} OneFieldShows(h: Word, xs: seq<Word>, ys: seq<Word>, k: nat)
    requires |xs| == |ys| && k < |xs| && xs[k] != ys[k]
    requires forall i :: 0 <= i < |xs| && i != k ==> xs[i] == ys[i]
    ensures FeedAll(h, xs) != FeedAll(h, ys)
  {
    hide FeedOne;
    var n := |xs| - 1;
    if k == n {
      assert xs[..n] == ys[..n];
      FeedInjective(h, FeedAll(h, xs[..n]), xs[n], ys[n]);
    } else {
      OneFieldShows(h, xs[..n], ys[..n], k);
      FeedInjective(FeedAll(h, xs[..n]), FeedAll(h, ys[..n]), xs[n], ys[n]);
    }
  }

  lemma {:induction false} FeedConcat(h: Word, xs: seq<Word>, ys: seq<Word>)
    ensures FeedAll(h, xs + ys) == FeedAll(FeedAll(h, xs), ys)
  {
    hide FeedOne;
    if ys == [] {
      assert xs + ys == xs;
    } else {
      var n := |ys| - 1;
      FeedConcat(h, xs, ys[..n]);
      assert (xs + ys)[..|xs + ys| - 1] == xs + ys[..n];
    }
  }

  /** The byte with these bits, four at a time. */
  function Octet(x: u8): bv8 {
    Nibbles((x / 0x10) as bv4, (x % 0x10) as bv4)
  }

  function Nibbles(a: bv4, b: bv4): bv8 {
    (a as bv8 << 4) | b as bv8
  }

  function Word8(a: bv8, b: bv8, c: bv8, d: bv8, e: bv8, f: bv8, g: bv8, h: bv8): Word {
    (a as Word << 56) | (b as Word << 48) | (c as Word << 40) | (d as Word << 32) |
    (e as Word << 24) | (f as Word << 16) | (g as Word << 8) | h as Word
  }

  /** Conversion of a counter to the 64-bit word that is fed: the word with the counter's low eight bytes. */
  function WordOf(n: nat): Word {
    var p := ToBig(n, 8);
    Word8(Octet(p[0]), Octet(p[1]), Octet(p[2]), Octet(p[3]), Octet(p[4]), Octet(p[5]), Octet(p[6]), Octet(p[7]))
  }

  lemma OctetInjective(x: u8, y: u8)
    requires Octet(x) == Octet(y)
    ensures x == y
  {
    hide Nibbles;
    NibblesInjective((x / 0x10) as bv4, (x % 0x10) as bv4, (y / 0x10) as bv4, (y % 0x10) as bv4);
    NibbleBack(x / 0x10);
    NibbleBack(x % 0x10);
    NibbleBack(y / 0x10);
    NibbleBack(y % 0x10);
  }

  lemma NibbleBack(x: nat)
    requires x < 0x10
    ensures (x as bv4) as nat == x
  {
  }

  lemma NibblesInjective(a: bv4, b: bv4, c: bv4, d: bv4)
    requires Nibbles(a, b) == Nibbles(c, d)
    ensures a == c && b == d
  {
  }

  lemma Word8Injective(a: bv8, b: bv8, c: bv8, d: bv8, e: bv8, f: bv8, g: bv8, h: bv8,
                       a': bv8, b': bv8, c': bv8, d': bv8, e': bv8, f': bv8, g': bv8, h': bv8)
    requires Word8(a, b, c, d, e, f, g, h) == Word8(a', b', c', d', e', f', g', h')
    ensures a == a' && b == b' && c == c' && d == d' && e == e' && f == f' && g == g' && h == h'
  {
  }

  /** Counters that fit 64 bits are fed as different words if they differ. */
  lemma WordInjective(m: u64, n: u64)
    requires WordOf(m) == WordOf(n)
    ensures m == n
  {
    hide ToBig, Word8, Octet, Pow256, FromBig;
    var p, q := ToBig(m, 8), ToBig(n, 8);
    Word8Injective(Octet(p[0]), Octet(p[1]), Octet(p[2]), Octet(p[3]), Octet(p[4]), Octet(p[5]), Octet(p[6]),
        Octet(p[7]), Octet(q[0]), Octet(q[1]), Octet(q[2]), Octet(q[3]), Octet(q[4]), Octet(q[5]), Octet(q[6]),
        Octet(q[7]));
    forall i | 0 <= i < 8 ensures p[i] == q[i] {
      OctetInjective(p[i], q[i]);
    }
    assert p == q;
    EightBytes();
    ValueBack(m, 8);
    ValueBack(n, 8);
  }

  lemma EightBytes()
    ensures Pow256(8) == 0x1_0000_0000_0000_0000
  {
    Widths();
    assert Pow256(7) == 0x100 * Pow256(6) && Pow256(8) == 0x100 * Pow256(7);
  }

  class Digest {
    var h: Word

    constructor ()
      ensures h == FeedAll(SEED, [])
    {
      h := SEED;
    }

    method Feed(x: Word)
      modifies this
      ensures h == FeedOne(old(h), x)
    {
      h := Mix64(Blend(h, Mix64(x)));
    }

    /** The length first, then the bytes. */
    method FeedBytes(p: seq<u8>)
      modifies this
      ensures h == FeedAll(old(h), [WordOf(|p|)] + Widened(p))
    {
      hide FeedOne, WordOf;
      ghost var head := [WordOf(|p|)];
      assert head[..0] == [];
      Feed(WordOf(|p|));
      assert head + Widened([]) == head;
      for i := 0 to |p|
        invariant h == FeedAll(old(h), head + Widened(p[..i]))
      {
        ghost var fed := head + Widened(p[..i]);
        assert head + Widened(p[..i + 1]) == fed + [WordOf(p[i])];
        assert (fed + [WordOf(p[i])])[..|fed|] == fed;
        Feed(WordOf(p[i]));
      }
      assert p[..|p|] == p;
    }

    method Reset()
      modifies this
      ensures h == FeedAll(SEED, [])
    {
      h := SEED;
    }
  }

  function Widened(p: seq<u8>): (xs: seq<Word>)
    ensures |xs| == |p| && forall i :: 0 <= i < |p| ==> xs[i] == WordOf(p[i])
  {
    seq(|p|, i requires 0 <= i < |p| => WordOf(p[i]))
  }
}
