/** MurmurHash3 in its x64, 128-bit variant (lib/MurmurHash3.c): 64-bit words with wrap-around,
    a loop over 16-byte blocks, a fall-through tail and a finalization. Every stage is shown to be
    a permutation of the 128-bit state, which says where two hashes can never meet. */
module Murmur {
  import opened Arithmetic
  import opened Bits

  const W64: nat := 0x1_0000_0000_0000_0000
  type Word = w: nat | w < W64
  type Word32 = w: nat | w < 0x1_0000_0000
  type Byte = b: nat | b < 0x100

  /** The two running words h1 and h2. */
  datatype State = State(h1: Word, h2: Word)

  // ----- Word operators and what undoes them -----

  function Add(a: Word, b: Word): Word { (a + b) % W64 }

  function Sub(a: Word, b: Word): Word { (a - b) % W64 }

  function Mul(a: Word, b: Word): Word { a * b % W64 }

  function Xor64(a: Word, b: Word): Word {
    Pow2Values();
    XorBound(a, b, 64);
    Xor(a, b)
  }

  /** (x << r) | (x >> (64 - r)) on 64 bits. */
  function Rotl64(x: Word, r: nat): Word
    requires 0 < r < 64
  {
    RotlIsSwap(x, r);
    Or(x * Pow2(r) % W64, Shr(x, 64 - r))
  }

  /** A rotation exchanges the high r bits of a word with its low 64 - r bits. */
  lemma RotlIsSwap(x: Word, r: nat)
    requires 0 < r < 64
    ensures Or(x * Pow2(r) % W64, Shr(x, 64 - r)) == Swapped(x, Pow2(r), Pow2(64 - r)) < W64
    ensures Pow2(r) * Pow2(64 - r) == W64
  {
    var p, q := Pow2(r), Pow2(64 - r);
    Pow2Adds(r, 64 - r);
    Pow2Values();
    SplitWord(x, p, q);
    ShrIsDiv(x, 64 - r);
    DisjointBitsAdd(x % q, x / q, r);
  }

  function Swapped(x: nat, p: nat, q: nat): nat
    requires q > 0
  {
    x % q * p + x / q
  }

  lemma SplitWord(x: Word, p: nat, q: nat)
    requires p * q == W64
    ensures p > 0 && q > 0 && x / q < p
    ensures x * p % W64 == x % q * p
    ensures Swapped(x, p, q) < W64
  {
    var u, v := x / q, x % q;
    assert x == q * u + v;
    if u >= p {
      MulLe(q, p, u);
      assert false;
    }
    MulStep(p, v, q);
    calc {
      x * p;
      (q * u + v) * p;
      p * q * u + v * p;
      W64 * u + v * p;
    }
    DivUnique(x * p, W64, u, v * p);
  }

  lemma MulLe(q: nat, x: nat, y: nat)
    requires x <= y
    ensures q * x <= q * y
  {
  }

  lemma RotateBack(x: Word, r: nat)
    requires 0 < r < 64
    ensures Rotl64(Rotl64(x, r), 64 - r) == x
  {
    RotlIsSwap(x, r);
    RotlIsSwap(Rotl64(x, r), 64 - r);
    SwapTwice(x, Pow2(r), Pow2(64 - r));
  }

  lemma SwapTwice(x: Word, p: nat, q: nat)
    requires p * q == W64
    ensures p > 0 && q > 0 && Swapped(Swapped(x, p, q), q, p) == x
  {
    SplitWord(x, p, q);
    DivUnique(Swapped(x, p, q), p, x % q, x / q);
  }

  lemma AddSub(a: Word, b: Word)
    ensures Sub(Add(a, b), b) == a && Add(Sub(a, b), b) == a
  {
    hide Add, Sub;
    AddWraps(a, b);
    SubWraps(a, b);
    SubWraps(Add(a, b), b);
    AddWraps(Sub(a, b), b);
  }

  lemma AddWraps(a: Word, b: Word)
    ensures Add(a, b) == if a + b < W64 then a + b else a + b - W64
  {
  }

  lemma SubWraps(a: Word, b: Word)
    ensures Sub(a, b) == if a >= b then a - b else a - b + W64
  {
  }

  /** Multipliers that are inverse modulo 2^64 undo each other. */
  lemma MulBack(k: Word, c: Word, d: Word)
    requires c * d % W64 == 1
    ensures Mul(Mul(k, c), d) == k
  {
    var q, a, t := k * c / W64, k * c % W64, c * d / W64;
    assert k * c == W64 * q + a && c * d == W64 * t + 1;
    calc {
      a * d;
      (k * c - W64 * q) * d;
      k * (c * d) - W64 * q * d;
      k * (W64 * t + 1) - W64 * q * d;
      W64 * (k * t - q * d) + k;
    }
    DivUnique(a * d, W64, k * t - q * d, k);
  }

  function XorShift(k: Word): Word {
    Shr33(k);
    Xor64(k, Shr(k, 33))
  }

  lemma Shr33(k: Word)
    ensures Shr(k, 33) == k / 0x2_0000_0000
  {
    ShrIsDiv(k, 33);
    Pow2Values();
  }

  /** Because 33 is more than half of 64, k ^= k >> 33 undoes itself. */
  lemma XorShiftTwice(k: Word)
    ensures XorShift(XorShift(k)) == k
  {
    Shr33(k);
    var s := Shr(k, 33);
    Shr33(s);
    XorShiftsDown(k, s, 33);
    ZeroIsUnit(s);
    assert Shr(XorShift(k), 33) == s;
    XorTwice(k, s);
  }

  // ----- The scalar mixers and their inverses -----

  function Fmix(k: Word): Word {
    var k := XorShift(k);
    var k := Mul(k, 0xff51afd7ed558ccd);
    var k := XorShift(k);
    var k := Mul(k, 0xc4ceb9fe1a85ec53);
    XorShift(k)
  }

  /** The inverse of Fmix: its multipliers are the inverses modulo 2^64 of those of Fmix. */
  function Unfmix(k: Word): Word {
    var k := XorShift(k);
    var k := Mul(k, 0x9cb4b2f8129337db);
    var k := XorShift(k);
    var k := Mul(k, 0x4f74430c22a54005);
    XorShift(k)
  }

  /** fmix is a permutation of the 64-bit words. */
  lemma FmixIsPermutation(k: Word)
    ensures Unfmix(Fmix(k)) == k
    ensures Fmix(Unfmix(k)) == k
  {
    FmixForward(k);
    FmixBackward(k);
  }

  lemma FmixForward(k: Word)
    ensures Unfmix(Fmix(k)) == k
  {
    hide XorShift, Mul;
    var a := XorShift(k);
    var b := Mul(a, 0xff51afd7ed558ccd);
    var c := XorShift(b);
    var d := Mul(c, 0xc4ceb9fe1a85ec53);
    XorShiftTwice(d);
    MulBack(c, 0xc4ceb9fe1a85ec53, 0x9cb4b2f8129337db);
    XorShiftTwice(b);
    MulBack(a, 0xff51afd7ed558ccd, 0x4f74430c22a54005);
    XorShiftTwice(k);
  }

  lemma FmixBackward(k: Word)
    ensures Fmix(Unfmix(k)) == k
  {
    hide XorShift, Mul;
    var a := XorShift(k);
    var b := Mul(a, 0x9cb4b2f8129337db);
    var c := XorShift(b);
    var d := Mul(c, 0x4f74430c22a54005);
    XorShiftTwice(d);
    MulBack(c, 0x4f74430c22a54005, 0xff51afd7ed558ccd);
    XorShiftTwice(b);
    MulBack(a, 0x9cb4b2f8129337db, 0xc4ceb9fe1a85ec53);
    XorShiftTwice(k);
  }

  const C1: Word := 0x87c37b91114253d5
  const C2: Word := 0x4cf5ad432745937f

  /** What a block's first and second word go through before they meet the state. */
  function MixK1(k: Word): Word { Mul(Rotl64(Mul(k, C1), 31), C2) }

  function MixK2(k: Word): Word { Mul(Rotl64(Mul(k, C2), 33), C1) }

  function UnmixK1(k: Word): Word { Mul(Rotl64(Mul(k, 0xa81e14edd9de2c7f), 33), 0xa98409e882ce4d7d) }

  function UnmixK2(k: Word): Word { Mul(Rotl64(Mul(k, 0xa98409e882ce4d7d), 31), 0xa81e14edd9de2c7f) }

  lemma MixKInjective(k: Word)
    ensures UnmixK1(MixK1(k)) == k
    ensures UnmixK2(MixK2(k)) == k
  {
    MulBack(Rotl64(Mul(k, C1), 31), C2, 0xa81e14edd9de2c7f);
    RotateBack(Mul(k, C1), 31);
    MulBack(k, C1, 0xa98409e882ce4d7d);
    MulBack(Rotl64(Mul(k, C2), 33), C1, 0xa98409e882ce4d7d);
    RotateBack(Mul(k, C2), 33);
    MulBack(k, C2, 0xa81e14edd9de2c7f);
  }

  lemma MixKOfZero()
    ensures MixK1(0) == 0 && MixK2(0) == 0
  {
    hide Rotl64;
    RotateZero(31);
    RotateZero(33);
    assert Mul(0, C1) == 0 && Mul(0, C2) == 0;
  }

  lemma RotateZero(r: nat)
    requires 0 < r < 64
    ensures Rotl64(0, r) == 0
  {
    RotlIsSwap(0, r);
    DivUnique(0, Pow2(64 - r), 0, 0);
    assert 0 * Pow2(r) == 0;
  }

  // ----- One 16-byte block -----

  /** h = (rotl(x, r) + other) * 5 + c, the half of a block step that stirs one word. */
  function Stir(x: Word, r: nat, other: Word, c: Word): Word
    requires 0 < r < 64
  {
    Add(Mul(Add(Rotl64(x, r), other), 5), c)
  }

  function Unstir(h: Word, r: nat, other: Word, c: Word): Word
    requires 0 < r < 64
  {
    Rotl64(Sub(Mul(Sub(h, c), 0xcccccccccccccccd), other), 64 - r)
  }

  lemma StirIsPermutation(x: Word, r: nat, other: Word, c: Word)
    requires 0 < r < 64
    ensures Unstir(Stir(x, r, other, c), r, other, c) == x
    ensures Stir(Unstir(x, r, other, c), r, other, c) == x
  {
    AddSub(Mul(Add(Rotl64(x, r), other), 5), c);
    MulBack(Add(Rotl64(x, r), other), 5, 0xcccccccccccccccd);
    AddSub(Rotl64(x, r), other);
    RotateBack(x, r);
    var y := Mul(Sub(x, c), 0xcccccccccccccccd);
    RotateBack(Sub(y, other), 64 - r);
    AddSub(y, other);
    MulBack(Sub(x, c), 0xcccccccccccccccd, 5);
    AddSub(x, c);
  }

  function Block(s: State, k1: Word, k2: Word): State {
    var h1 := Stir(Xor64(s.h1, MixK1(k1)), 27, s.h2, 0x52dce729);
    var h2 := Stir(Xor64(s.h2, MixK2(k2)), 31, h1, 0x38495ab5);
    State(h1, h2)
  }

  /** The state before a block, from the state after it and the block's two words. */
  function Unblock(s: State, k1: Word, k2: Word): State {
    var h2 := Xor64(Unstir(s.h2, 31, s.h1, 0x38495ab5), MixK2(k2));
    var h1 := Xor64(Unstir(s.h1, 27, h2, 0x52dce729), MixK1(k1));
    State(h1, h2)
  }

  /** For every block, mixing it in is a permutation of the state. */
  lemma BlockIsPermutation(s: State, k1: Word, k2: Word)
    ensures Unblock(Block(s, k1, k2), k1, k2) == s
    ensures Block(Unblock(s, k1, k2), k1, k2) == s
  {
    var t := Block(s, k1, k2);
    StirIsPermutation(Xor64(s.h1, MixK1(k1)), 27, s.h2, 0x52dce729);
    StirIsPermutation(Xor64(s.h2, MixK2(k2)), 31, t.h1, 0x38495ab5);
    XorTwice(s.h1, MixK1(k1));
    XorTwice(s.h2, MixK2(k2));
    var u := Unblock(s, k1, k2);
    XorTwice(Unstir(s.h2, 31, s.h1, 0x38495ab5), MixK2(k2));
    XorTwice(Unstir(s.h1, 27, u.h2, 0x52dce729), MixK1(k1));
    StirIsPermutation(s.h2, 31, s.h1, 0x38495ab5);
    StirIsPermutation(s.h1, 27, u.h2, 0x52dce729);
  }

  /** From one state, only equal blocks have equal outcomes. */
  lemma BlockInjectiveInWords(s: State, k1: Word, k2: Word, l1: Word, l2: Word)
    ensures Block(s, k1, k2) == Block(s, l1, l2) <==> k1 == l1 && k2 == l2
  {
    if Block(s, k1, k2) == Block(s, l1, l2) {
      var t := Block(s, k1, k2);
      StirIsPermutation(Xor64(s.h1, MixK1(k1)), 27, s.h2, 0x52dce729);
      StirIsPermutation(Xor64(s.h1, MixK1(l1)), 27, s.h2, 0x52dce729);
      StirIsPermutation(Xor64(s.h2, MixK2(k2)), 31, t.h1, 0x38495ab5);
      StirIsPermutation(Xor64(s.h2, MixK2(l2)), 31, t.h1, 0x38495ab5);
      MixedInEqually(s.h1, k1, l1, s.h2, k2, l2);
    }
  }

  lemma MixedInEqually(h1: Word, k1: Word, l1: Word, h2: Word, k2: Word, l2: Word)
    requires Xor64(h1, MixK1(k1)) == Xor64(h1, MixK1(l1))
    requires Xor64(h2, MixK2(k2)) == Xor64(h2, MixK2(l2))
    ensures k1 == l1 && k2 == l2
  {
    XorCancel(h1, MixK1(k1), MixK1(l1));
    XorCancel(h2, MixK2(k2), MixK2(l2));
    MixKInjective(k1);
    MixKInjective(l1);
    MixKInjective(k2);
    MixKInjective(l2);
  }

  // ----- Finalization -----

  function Finish(s: State, len: Word): State {
    var h1, h2 := Xor64(s.h1, len), Xor64(s.h2, len);
    var h1 := Add(h1, h2);
    var h2 := Add(h2, h1);
    var h1, h2 := Fmix(h1), Fmix(h2);
    var h1 := Add(h1, h2);
    var h2 := Add(h2, h1);
    State(h1, h2)
  }

  function Unfinish(s: State, len: Word): State {
    var h2 := Sub(s.h2, s.h1);
    var h1 := Sub(s.h1, h2);
    var h1, h2 := Unfmix(h1), Unfmix(h2);
    var h2 := Sub(h2, h1);
    var h1 := Sub(h1, h2);
    State(Xor64(h1, len), Xor64(h2, len))
  }

  /** For every message length, the finalization is a permutation of the state. */
  lemma FinishIsPermutation(s: State, len: Word)
    ensures Unfinish(Finish(s, len), len) == s
    ensures Finish(Unfinish(s, len), len) == s
  {
    FinishForward(s, len);
    FinishBackward(s, len);
  }

  lemma FinishForward(s: State, len: Word)
    ensures Unfinish(Finish(s, len), len) == s
  {
    var a1, a2 := Xor64(s.h1, len), Xor64(s.h2, len);
    var b1 := Add(a1, a2);
    var b2 := Add(a2, b1);
    var c1, c2 := Fmix(b1), Fmix(b2);
    AddSub(c2, Add(c1, c2));
    AddSub(c1, c2);
    FmixIsPermutation(b1);
    FmixIsPermutation(b2);
    AddSub(a2, b1);
    AddSub(a1, a2);
    XorTwice(s.h1, len);
    XorTwice(s.h2, len);
  }

  lemma FinishBackward(s: State, len: Word)
    ensures Finish(Unfinish(s, len), len) == s
  {
    var d2 := Sub(s.h2, s.h1);
    var d1 := Sub(s.h1, d2);
    var e1, e2 := Unfmix(d1), Unfmix(d2);
    var f2 := Sub(e2, e1);
    var f1 := Sub(e1, f2);
    XorTwice(f1, len);
    XorTwice(f2, len);
    AddSub(e1, f2);
    AddSub(e2, e1);
    FmixIsPermutation(d1);
    FmixIsPermutation(d2);
    AddSub(s.h1, d2);
    AddSub(s.h2, s.h1);
  }

  // ----- Bytes and words -----

  /** The value of a run of bytes with the least significant byte first. */
  function LittleEndian(b: seq<Byte>): (w: nat)
    ensures w < Pow2(8 * |b|)
  {
    if b == [] then 0 else
      assert Pow2(8 * |b|) == 256 * Pow2(8 * |b[1..]|) by {
        Pow2Adds(8, 8 * |b[1..]|);
        Pow2Values();
      }
      b[0] + 256 * LittleEndian(b[1..])
  }

  lemma {:induction false} LittleEndianInjective(a: seq<Byte>, b: seq<Byte>)
    requires |a| == |b|
    requires LittleEndian(a) == LittleEndian(b)
    ensures a == b
  {
    if a != [] {
      LittleEndianInjective(a[1..], b[1..]);
      assert a == [a[0]] + a[1..] && b == [b[0]] + b[1..];
    }
  }

  /** getblock: a 64-bit load on a little-endian machine. */
  function Load(b: seq<Byte>): Word
    requires |b| == 8
  {
    Pow2Values();
    LittleEndian(b)
  }

  /** A tail of fewer than 16 bytes, filled up with zero bytes. */
  function Pad(t: seq<Byte>): (p: seq<Byte>)
    requires |t| <= 16
    ensures |p| == 16
  {
    t + seq(16 - |t|, _ => 0)
  }

  // ----- The whole message -----

  /** Mixes the zero-padded tail's two words into the state, which is not stirred further. */
  function Tail(s: State, t: seq<Byte>): State
    requires |t| < 16
  {
    var p := Pad(t);
    State(Xor64(s.h1, MixK1(Load(p[..8]))), Xor64(s.h2, MixK2(Load(p[8..]))))
  }

  /** The state after all blocks and the tail of a message. */
  function Absorb(s: State, m: seq<Byte>): State
    decreases |m|
  {
    if |m| < 16 then Tail(s, m) else Absorb(Block(s, Load(m[..8]), Load(m[8..16])), m[16..])
  }

  /** The C length parameter is an int, so no longer message can be hashed. */
  function Hash(m: seq<Byte>, seed: Word32): State
    requires |m| < 0x8000_0000
  {
    Finish(Absorb(State(seed, seed), m), |m|)
  }

  lemma TailInjectiveInState(s: State, t: State, m: seq<Byte>)
    requires |m| < 16
    requires Tail(s, m) == Tail(t, m)
    ensures s == t
  {
    hide MixK1, MixK2, LittleEndian, Xor, Pad;
    var p := Pad(m);
    var m1, m2 := MixK1(Load(p[..8])), MixK2(Load(p[8..]));
    XorTwice(s.h1, m1);
    XorTwice(t.h1, m1);
    XorTwice(s.h2, m2);
    XorTwice(t.h2, m2);
  }

  lemma TailInjectiveInBytes(s: State, a: seq<Byte>, b: seq<Byte>)
    requires |a| == |b| < 16
    requires Tail(s, a) == Tail(s, b)
    ensures a == b
  {
    hide MixK1, MixK2, LittleEndian, Xor;
    var p, q := Pad(a), Pad(b);
    MixedInEqually(s.h1, Load(p[..8]), Load(q[..8]), s.h2, Load(p[8..]), Load(q[8..]));
    LittleEndianInjective(p[..8], q[..8]);
    LittleEndianInjective(p[8..], q[8..]);
    assert p == p[..8] + p[8..] && q == q[..8] + q[8..];
    assert a == p[..|a|] && b == q[..|a|];
  }

  /** Absorbing any fixed message, however long, never merges two states. */
  lemma {:induction false} AbsorbInjectiveInState(s: State, t: State, m: seq<Byte>)
    requires Absorb(s, m) == Absorb(t, m)
    ensures s == t
    decreases |m|
  {
    hide Block, Unblock, LittleEndian, Tail;
    if |m| < 16 {
      TailInjectiveInState(s, t, m);
    } else {
      var k1, k2 := Load(m[..8]), Load(m[8..16]);
      AbsorbInjectiveInState(Block(s, k1, k2), Block(t, k1, k2), m[16..]);
      BlockIsPermutation(s, k1, k2);
      BlockIsPermutation(t, k1, k2);
    }
  }

  /** a and b agree everywhere outside the 16-byte window number i, counted from the front. For
      i == |a| / 16 the window is the tail. */
  ghost predicate AgreeOutsideWindow(a: seq<Byte>, b: seq<Byte>, i: nat) {
    |a| == |b| && forall j :: 0 <= j < |a| && !(16 * i <= j < 16 * i + 16) ==> a[j] == b[j]
  }

  lemma {:induction false} AbsorbSeparatesWindow(s: State, a: seq<Byte>, b: seq<Byte>, i: nat)
    requires AgreeOutsideWindow(a, b, i)
    requires Absorb(s, a) == Absorb(s, b)
    ensures a == b
    decreases |a|
  {
    hide Block, Unblock, LittleEndian, Tail;
    if |a| < 16 {
      TailInjectiveInBytes(s, a, b);
    } else {
      var k1, k2, l1, l2 := Load(a[..8]), Load(a[8..16]), Load(b[..8]), Load(b[8..16]);
      if i == 0 {
        assert a[16..] == b[16..];
        AbsorbInjectiveInState(Block(s, k1, k2), Block(s, l1, l2), a[16..]);
        BlockInjectiveInWords(s, k1, k2, l1, l2);
        LittleEndianInjective(a[..8], b[..8]);
        LittleEndianInjective(a[8..16], b[8..16]);
      } else {
        assert a[..8] == b[..8] && a[8..16] == b[8..16];
        AbsorbSeparatesWindow(Block(s, k1, k2), a[16..], b[16..], i - 1);
      }
      assert a == a[..8] + a[8..16] + a[16..];
      assert b == b[..8] + b[8..16] + b[16..];
    }
  }

  /** Two messages that differ, but only inside one block or only inside the tail, have different
      128-bit hashes. The messages may have any length. */
  lemma HashSeparatesWindow(a: seq<Byte>, b: seq<Byte>, i: nat, seed: Word32)
    requires AgreeOutsideWindow(a, b, i)
    requires |a| < 0x8000_0000
    ensures Hash(a, seed) == Hash(b, seed) <==> a == b
  {
    hide Finish, Unfinish, Absorb;
    if Hash(a, seed) == Hash(b, seed) {
      FinishIsPermutation(Absorb(State(seed, seed), a), |a|);
      FinishIsPermutation(Absorb(State(seed, seed), b), |a|);
      AbsorbSeparatesWindow(State(seed, seed), a, b, i);
    }
  }

  /** On keys of one length of at most 16 bytes the hash is injective. The decimal socket numbers
      that the server uses as keys are that short. */
  lemma HashInjectiveOnShortKeys(a: seq<Byte>, b: seq<Byte>, seed: Word32)
    requires |a| == |b| <= 16
    ensures Hash(a, seed) == Hash(b, seed) <==> a == b
  {
    hide Hash;
    HashSeparatesWindow(a, b, 0, seed);
  }

  /** One message never has the same hash under two seeds. */
  lemma HashSeparatesSeeds(m: seq<Byte>, seed: Word32, other: Word32)
    requires |m| < 0x8000_0000
    ensures Hash(m, seed) == Hash(m, other) <==> seed == other
  {
    hide Finish, Unfinish, Absorb;
    if Hash(m, seed) == Hash(m, other) {
      FinishIsPermutation(Absorb(State(seed, seed), m), |m|);
      FinishIsPermutation(Absorb(State(other, other), m), |m|);
      AbsorbInjectiveInState(State(seed, seed), State(other, other), m);
    }
  }

  // ----- The length -----

  function Zeros(n: nat): seq<Byte> { seq(n, _ => 0) }

  /** Zero bytes after the message that open no new block are not absorbed. */
  lemma {:induction false} ZerosAreUnseen(s: State, m: seq<Byte>, n: nat)
    requires |m| / 16 == (|m| + n) / 16
    ensures Absorb(s, m + Zeros(n)) == Absorb(s, m)
    decreases |m|
  {
    hide Block, LittleEndian, Xor64, MixK1, MixK2;
    var z := m + Zeros(n);
    if |m| < 16 {
      assert Pad(z) == Pad(m);
    } else {
      assert z[..8] == m[..8] && z[8..16] == m[8..16] && z[16..] == m[16..] + Zeros(n);
      ZerosAreUnseen(Block(s, Load(m[..8]), Load(m[8..16])), m[16..], n);
    }
  }

  /** The finalization tells any two lengths apart. */
  lemma LengthIsSeen(s: State, len: Word, other: Word)
    ensures Finish(s, len) == Finish(s, other) <==> len == other
  {
    hide Unfinish;
    if Finish(s, len) == Finish(s, other) {
      LengthFirst(s, len);
      LengthFirst(s, other);
      FinishIsPermutation(State(Xor64(s.h1, len), Xor64(s.h2, len)), 0);
      FinishIsPermutation(State(Xor64(s.h1, other), Xor64(s.h2, other)), 0);
      XorCancel(s.h1, len, other);
    }
  }

  lemma LengthFirst(s: State, len: Word)
    ensures Finish(State(Xor64(s.h1, len), Xor64(s.h2, len)), 0) == Finish(s, len)
  {
    hide Fmix, Xor;
    ZeroIsUnit(Xor64(s.h1, len));
    ZeroIsUnit(Xor64(s.h2, len));
  }

  /** Messages that are padded alike are told apart by their length: zero bytes that stay within the last
      block change the hash, although they change nothing that is absorbed. */
  lemma PaddingIsSeen(m: seq<Byte>, n: nat, seed: Word32)
    requires |m| / 16 == (|m| + n) / 16 && |m| + n < 0x8000_0000
    ensures Hash(m + Zeros(n), seed) == Hash(m, seed) <==> n == 0
  {
    hide Absorb, Finish;
    ZerosAreUnseen(State(seed, seed), m, n);
    LengthIsSeen(Absorb(State(seed, seed), m), |m| + n, |m|);
    assert n == 0 ==> m + Zeros(n) == m;
  }

  // ----- The algorithm as it runs -----

  /** (uint64_t)b << places, for the places that the tail switch uses. */
  function ShiftByte(b: Byte, places: nat): Word
    requires places <= 56
  {
    ByteFits(b, places);
    b * Pow2(places)
  }

  lemma ByteFits(b: Byte, places: nat)
    requires places <= 56
    ensures b * Pow2(places) < Pow2(places + 8) <= W64
  {
    Pow2Adds(places, 8);
    Pow2Adds(places + 8, 56 - places);
    Pow2Values();
    MulStep(Pow2(places), b, 256);
    MulLe(Pow2(places + 8), 1, Pow2(56 - places));
  }

  /** The value of the bytes of a word from position i up, in their places. */
  function FromByte(w: seq<Byte>, i: nat): nat
    requires i <= |w| == 8
  {
    LittleEndian(w[i..]) * Pow2(8 * i)
  }

  lemma FromByteStep(w: seq<Byte>, i: nat)
    requires |w| == 8 && i < 8
    ensures FromByte(w, i) == FromByte(w, i + 1) + w[i] * Pow2(8 * i)
  {
    hide Pow2;
    var high, p := LittleEndian(w[i + 1..]), Pow2(8 * i);
    Pow2Values();
    assert w[i..][1..] == w[i + 1..];
    Pow2Adds(8 * i, 8);
    Horner(high, w[i], p);
  }

  lemma Horner(h: nat, b: nat, p: nat)
    ensures h * (p * 256) + b * p == (b + 256 * h) * p
  {
  }

  lemma XorByte(high: nat, b: Byte, places: nat, k: Word)
    requires places <= 56
    requires k == high * Pow2(places + 8)
    ensures Xor64(k, ShiftByte(b, places)) == k + b * Pow2(places)
  {
    hide Xor, Pow2;
    ByteFits(b, places);
    DisjointBitsAdd(high, b * Pow2(places), places + 8);
  }

  /** One case of the switch: xoring in the byte below those already collected. */
  lemma TailCase(w: seq<Byte>, i: nat, k: Word)
    requires |w| == 8 && i < 8
    requires k == FromByte(w, i + 1)
    ensures Xor64(k, ShiftByte(w[i], 8 * i)) == FromByte(w, i)
    ensures w[i] == 0 ==> k == FromByte(w, i)
  {
    hide Xor64, ShiftByte, LittleEndian, Pow2;
    FromByteStep(w, i);
    XorByte(LittleEndian(w[i + 1..]), w[i], 8 * i, k);
  }

  /** The fall-through switch: each case xors in one more byte, from the last byte down. The cases
      15 to 9 collect k2 and mix it in, the cases 8 to 1 collect k1 and mix it in. */
  method MixTail(s: State, t: seq<Byte>) returns (r: State)
    requires |t| < 16
    ensures r == Tail(s, t)
  {
    hide Mul, Rotl64, FromByte, Xor64, ShiftByte, LittleEndian, Load;
    var n := |t|;
    var h1: Word, h2: Word := s.h1, s.h2;
    var k1: Word, k2: Word := 0, 0;
    ghost var p := Pad(t);
    ghost var w1, w2 := p[..8], p[8..];

    EmptyWord(w2);
    TailCase(w2, 7, k2);
    TailCase(w2, 6, k2);
    if n >= 15 { k2 := Xor64(k2, ShiftByte(t[14], 48)); }
    TailCase(w2, 5, k2);
    if n >= 14 { k2 := Xor64(k2, ShiftByte(t[13], 40)); }
    TailCase(w2, 4, k2);
    if n >= 13 { k2 := Xor64(k2, ShiftByte(t[12], 32)); }
    TailCase(w2, 3, k2);
    if n >= 12 { k2 := Xor64(k2, ShiftByte(t[11], 24)); }
    TailCase(w2, 2, k2);
    if n >= 11 { k2 := Xor64(k2, ShiftByte(t[10], 16)); }
    TailCase(w2, 1, k2);
    if n >= 10 { k2 := Xor64(k2, ShiftByte(t[9], 8)); }
    TailCase(w2, 0, k2);
    if n >= 9 { k2 := Xor64(k2, ShiftByte(t[8], 0)); }
    WholeWord(w2, k2);
    if n >= 9 {
      k2 := Mul(k2, C2);
      k2 := Rotl64(k2, 33);
      k2 := Mul(k2, C1);
      h2 := Xor64(h2, k2);
    } else {
      NothingMixedIn(h2);
    }

    EmptyWord(w1);
    TailCase(w1, 7, k1);
    if n >= 8 { k1 := Xor64(k1, ShiftByte(t[7], 56)); }
    TailCase(w1, 6, k1);
    if n >= 7 { k1 := Xor64(k1, ShiftByte(t[6], 48)); }
    TailCase(w1, 5, k1);
    if n >= 6 { k1 := Xor64(k1, ShiftByte(t[5], 40)); }
    TailCase(w1, 4, k1);
    if n >= 5 { k1 := Xor64(k1, ShiftByte(t[4], 32)); }
    TailCase(w1, 3, k1);
    if n >= 4 { k1 := Xor64(k1, ShiftByte(t[3], 24)); }
    TailCase(w1, 2, k1);
    if n >= 3 { k1 := Xor64(k1, ShiftByte(t[2], 16)); }
    TailCase(w1, 1, k1);
    if n >= 2 { k1 := Xor64(k1, ShiftByte(t[1], 8)); }
    TailCase(w1, 0, k1);
    if n >= 1 { k1 := Xor64(k1, ShiftByte(t[0], 0)); }
    WholeWord(w1, k1);
    if n >= 1 {
      k1 := Mul(k1, C1);
      k1 := Rotl64(k1, 31);
      k1 := Mul(k1, C2);
      h1 := Xor64(h1, k1);
    } else {
      NothingMixedIn(h1);
    }
    r := State(h1, h2);
  }

  lemma EmptyWord(w: seq<Byte>)
    requires |w| == 8
    ensures FromByte(w, 8) == 0
  {
    assert w[8..] == [];
  }

  lemma WholeWord(w: seq<Byte>, k: Word)
    requires |w| == 8
    requires k == FromByte(w, 0)
    ensures k == Load(w)
  {
    assert w[0..] == w;
  }

  lemma NothingMixedIn(h: Word)
    ensures Xor64(h, MixK1(0)) == h && Xor64(h, MixK2(0)) == h
  {
    hide MixK1, MixK2;
    MixKOfZero();
    ZeroIsUnit(h);
  }

  /** The whole function, block loop first. */
  method MurmurHash3(key: seq<Byte>, seed: Word32) returns (out: State)
    requires |key| < 0x8000_0000
    ensures out == Hash(key, seed)
  {
    hide Mul, Rotl64, LittleEndian, Xor64, Add, Tail, Fmix;
    var nblocks := |key| / 16;
    var h1: Word, h2: Word := seed, seed;
    for i := 0 to nblocks
      invariant Absorb(State(h1, h2), key[16 * i..]) == Absorb(State(seed, seed), key)
    {
      ghost var rest := key[16 * i..];
      ghost var s := State(h1, h2);
      var k1 := Load(key[16 * i..16 * i + 8]);
      var k2 := Load(key[16 * i + 8..16 * i + 16]);
      assert key[16 * i..16 * i + 8] == rest[..8] && key[16 * i + 8..16 * i + 16] == rest[8..16];
      assert key[16 * (i + 1)..] == rest[16..];

      k1 := Mul(k1, C1);
      k1 := Rotl64(k1, 31);
      k1 := Mul(k1, C2);
      h1 := Xor64(h1, k1);

      h1 := Rotl64(h1, 27);
      h1 := Add(h1, h2);
      h1 := Add(Mul(h1, 5), 0x52dce729);

      k2 := Mul(k2, C2);
      k2 := Rotl64(k2, 33);
      k2 := Mul(k2, C1);
      h2 := Xor64(h2, k2);

      h2 := Rotl64(h2, 31);
      h2 := Add(h2, h1);
      h2 := Add(Mul(h2, 5), 0x38495ab5);
      assert State(h1, h2) == Block(s, Load(rest[..8]), Load(rest[8..16]));
    }
    var mixed := MixTail(State(h1, h2), key[nblocks * 16..]);
    h1, h2 := mixed.h1, mixed.h2;

    h1 := Xor64(h1, |key|);
    h2 := Xor64(h2, |key|);

    h1 := Add(h1, h2);
    h2 := Add(h2, h1);

    h1 := Fmix(h1);
    h2 := Fmix(h2);

    h1 := Add(h1, h2);
    h2 := Add(h2, h1);
    out := State(h1, h2);
  }
}
