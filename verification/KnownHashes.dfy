/** Published values of MurmurHash3_x64_128 with seed 0. They fix every constant, the order of the words
    and of the bytes, the length that is mixed in, and the order of the stages. */
module KnownHashes {
  import opened Bits
  import opened Murmur
  import SocketKeys

  // ----- The exclusive-or of two written-out words -----

  /** A 64-bit word, most significant byte first. The machine's bytes are used for nothing else: their
      operators are kept in functions of their own. */
  datatype Word8 = Octets(a: bv8, b: bv8, c: bv8, d: bv8, e: bv8, f: bv8, g: bv8, h: bv8)

  function Value(x: bv8): nat { x as nat }

  function Half(x: bv8): bv8 { x >> 1 }

  function Odd(x: bv8): bool { x & 1 == 1 }

  function XorBv(x: bv8, y: bv8): bv8 { x ^ y }

  function Join(x: nat, v: nat): nat { x * 0x100 + v }

  function Number(w: Word8): nat {
    Value(w.a) * 0x100_0000_0000_0000 + Value(w.b) * 0x1_0000_0000_0000
    + Value(w.c) * 0x100_0000_0000 + Value(w.d) * 0x1_0000_0000
    + Value(w.e) * 0x100_0000 + Value(w.f) * 0x1_0000 + Value(w.g) * 0x100 + Value(w.h)
  }

  lemma NumberIsJoined(w: Word8)
    ensures var x := Join(Join(Join(Value(w.a), Value(w.b)), Value(w.c)), Value(w.d));
            Number(w) == Join(Join(Join(Join(x, Value(w.e)), Value(w.f)), Value(w.g)), Value(w.h))
  {
  }

  function Xored(v: Word8, w: Word8): Word8 {
    Octets(XorBv(v.a, w.a), XorBv(v.b, w.b), XorBv(v.c, w.c), XorBv(v.d, w.d),
           XorBv(v.e, w.e), XorBv(v.f, w.f), XorBv(v.g, w.g), XorBv(v.h, w.h))
  }

  lemma HalfIs(x: bv8)
    ensures Value(Half(x)) == Value(x) / 2
    ensures Value(x) < 0x100
  {
  }

  lemma OddIs(x: bv8)
    ensures Value(x) % 2 == if Odd(x) then 1 else 0
  {
    assert (x & 1) as nat == x as nat % 2;
  }

  lemma XorBitByBit(x: bv8, y: bv8)
    ensures Half(XorBv(x, y)) == XorBv(Half(x), Half(y))
    ensures Odd(XorBv(x, y)) <==> Odd(x) != Odd(y)
  {
  }

  lemma ZeroBits(x: bv8, y: bv8)
    requires Value(x) == Value(y) == 0
    ensures Value(XorBv(x, y)) == 0
  {
    assert x == 0 && y == 0;
  }

  lemma {:induction false} XorOfBits(x: bv8, y: bv8, n: nat)
    requires Value(x) < Pow2(n) && Value(y) < Pow2(n)
    ensures Xor(Value(x), Value(y)) == Value(XorBv(x, y))
    decreases n
  {
    hide Xor, Value, Half, Odd, XorBv;
    if n == 0 {
      ZeroIsUnit(0);
      ZeroBits(x, y);
    } else {
      HalfIs(x);
      HalfIs(y);
      XorOfBits(Half(x), Half(y), n - 1);
      XorOneBit(x, y);
    }
  }

  lemma XorOneBit(x: bv8, y: bv8)
    requires Xor(Value(Half(x)), Value(Half(y))) == Value(XorBv(Half(x), Half(y)))
    ensures Xor(Value(x), Value(y)) == Value(XorBv(x, y))
  {
    hide Xor, Value, Half, Odd, XorBv;
    HalfIs(x);
    HalfIs(y);
    HalfIs(XorBv(x, y));
    OddIs(x);
    OddIs(y);
    OddIs(XorBv(x, y));
    XorBitByBit(x, y);
    XorDigits(Value(x), Value(y));
    SameDigits(Xor(Value(x), Value(y)), Value(XorBv(x, y)));
  }

  lemma XorJoined(x: nat, y: nat, b: bv8, c: bv8)
    ensures Xor(Join(x, Value(b)), Join(y, Value(c))) == Join(Xor(x, y), Value(XorBv(b, c)))
    ensures Xor(Value(b), Value(c)) == Value(XorBv(b, c))
  {
    hide Xor, Pow2, Value, XorBv;
    Pow2Values();
    HalfIs(b);
    HalfIs(c);
    XorOfBits(b, c, 8);
    XorSplits(x, Value(b), y, Value(c), 8);
  }

  lemma XorOctets(v: Word8, w: Word8)
    ensures Xor(Number(v), Number(w)) == Number(Xored(v, w))
  {
    hide Xor, Join, Value, XorBv, Number;
    NumberIsJoined(v);
    NumberIsJoined(w);
    NumberIsJoined(Xored(v, w));
    XorJoined(0, 0, v.a, w.a);
    var x, y := Value(v.a), Value(w.a);
    XorJoined(x, y, v.b, w.b);
    x, y := Join(x, Value(v.b)), Join(y, Value(w.b));
    XorJoined(x, y, v.c, w.c);
    x, y := Join(x, Value(v.c)), Join(y, Value(w.c));
    XorJoined(x, y, v.d, w.d);
    x, y := Join(x, Value(v.d)), Join(y, Value(w.d));
    XorJoined(x, y, v.e, w.e);
    x, y := Join(x, Value(v.e)), Join(y, Value(w.e));
    XorJoined(x, y, v.f, w.f);
    x, y := Join(x, Value(v.f)), Join(y, Value(w.f));
    XorJoined(x, y, v.g, w.g);
    x, y := Join(x, Value(v.g)), Join(y, Value(w.g));
    XorJoined(x, y, v.h, w.h);
  }

  // ----- The stages with all intermediate words written out -----

  lemma MulIs(a: Word, b: Word, c: Word)
    requires a * b % 0x1_0000_0000_0000_0000 == c
    ensures Mul(a, b) == c
  {
  }

  lemma Rotl27(x: Word)
    ensures Rotl64(x, 27) == x % 0x20_0000_0000 * 0x800_0000 + x / 0x20_0000_0000
  {
    RotlIsSwap(x, 27);
    Pow2Values();
    Pow2Adds(5, 32);
    Pow2Adds(3, 24);
  }

  lemma Rotl31(x: Word)
    ensures Rotl64(x, 31) == x % 0x2_0000_0000 * 0x8000_0000 + x / 0x2_0000_0000
  {
    RotlIsSwap(x, 31);
    Pow2Values();
  }

  lemma Rotl33(x: Word)
    ensures Rotl64(x, 33) == x % 0x8000_0000 * 0x2_0000_0000 + x / 0x8000_0000
  {
    RotlIsSwap(x, 33);
    Pow2Values();
  }

  lemma MixK1Is(k: Word, l: Word, m: Word, n: Word)
    requires k * 0x87c37b91114253d5 % 0x1_0000_0000_0000_0000 == l
    requires l % 0x2_0000_0000 * 0x8000_0000 + l / 0x2_0000_0000 == m
    requires m * 0x4cf5ad432745937f % 0x1_0000_0000_0000_0000 == n
    ensures MixK1(k) == n
  {
    hide Mul, Rotl64;
    MulIs(k, 0x87c37b91114253d5, l);
    Rotl31(l);
    MulIs(m, 0x4cf5ad432745937f, n);
  }

  lemma MixK2Is(k: Word, l: Word, m: Word, n: Word)
    requires k * 0x4cf5ad432745937f % 0x1_0000_0000_0000_0000 == l
    requires l % 0x8000_0000 * 0x2_0000_0000 + l / 0x8000_0000 == m
    requires m * 0x87c37b91114253d5 % 0x1_0000_0000_0000_0000 == n
    ensures MixK2(k) == n
  {
    hide Mul, Rotl64;
    MulIs(k, 0x4cf5ad432745937f, l);
    Rotl33(l);
    MulIs(m, 0x87c37b91114253d5, n);
  }

  lemma XorIs(v: Word8, w: Word8, a: Word, b: Word, x: Word)
    requires Number(v) == a && Number(w) == b && Number(Xored(v, w)) == x
    ensures Xor64(a, b) == x
  {
    hide Xor, Number, Xored;
    XorOctets(v, w);
  }

  lemma ShiftIs(v: Word8, w: Word8, k: Word, x: Word)
    requires Number(v) == k && Number(w) == k / 0x2_0000_0000 && Number(Xored(v, w)) == x
    ensures XorShift(k) == x
  {
    hide Xor, Number, Xored;
    XorOctets(v, w);
    Shr33(k);
  }

  lemma FmixIs(k: Word, x: Word, l: Word, y: Word, m: Word, z: Word)
    requires XorShift(k) == x && Mul(x, 0xff51afd7ed558ccd) == l
    requires XorShift(l) == y && Mul(y, 0xc4ceb9fe1a85ec53) == m
    requires XorShift(m) == z
    ensures Fmix(k) == z
  {
    hide Mul, XorShift;
  }

  lemma StirIs(x: Word, r: nat, l: Word, other: Word, c: Word, z: Word)
    requires 0 < r < 64 && Rotl64(x, r) == l
    requires ((l + other) % 0x1_0000_0000_0000_0000 * 5 + c) % 0x1_0000_0000_0000_0000 == z
    ensures Stir(x, r, other, c) == z
  {
    hide Rotl64;
    SumOfRemainder((l + other) % 0x1_0000_0000_0000_0000 * 5, c);
  }

  lemma SumOfRemainder(a: nat, c: nat)
    ensures (a % 0x1_0000_0000_0000_0000 + c) % 0x1_0000_0000_0000_0000 == (a + c) % 0x1_0000_0000_0000_0000
  {
  }

  /** The two halves of a block: l is the rotation of x. */
  lemma Stir27Is(x: Word, l: Word, other: Word, z: Word)
    requires x % 0x20_0000_0000 * 0x800_0000 + x / 0x20_0000_0000 == l
    requires ((l + other) % 0x1_0000_0000_0000_0000 * 5 + 0x52dce729) % 0x1_0000_0000_0000_0000 == z
    ensures Stir(x, 27, other, 0x52dce729) == z
  {
    hide Rotl64, Stir;
    Rotl27(x);
    StirIs(x, 27, l, other, 0x52dce729, z);
  }

  lemma Stir31Is(x: Word, l: Word, other: Word, z: Word)
    requires x % 0x2_0000_0000 * 0x8000_0000 + x / 0x2_0000_0000 == l
    requires ((l + other) % 0x1_0000_0000_0000_0000 * 5 + 0x38495ab5) % 0x1_0000_0000_0000_0000 == z
    ensures Stir(x, 31, other, 0x38495ab5) == z
  {
    hide Rotl64, Stir;
    Rotl31(x);
    StirIs(x, 31, l, other, 0x38495ab5, z);
  }

  lemma Lowest(b: seq<Byte>, i: nat)
    requires i < |b|
    ensures LittleEndian(b[i..]) == b[i] + 0x100 * LittleEndian(b[i + 1..])
  {
    assert b[i..][1..] == b[i + 1..];
  }

  /** The order of the bytes of a word. */
  lemma LoadIs(b: seq<Byte>)
    requires |b| == 8
    ensures Load(b) == b[7] as nat * 0x100_0000_0000_0000 + b[6] as nat * 0x1_0000_0000_0000
                       + b[5] as nat * 0x100_0000_0000 + b[4] as nat * 0x1_0000_0000
                       + b[3] as nat * 0x100_0000 + b[2] as nat * 0x1_0000 + b[1] as nat * 0x100 + b[0] as nat
  {
    hide LittleEndian;
    assert b[0..] == b;
    forall i: nat | i < 8 ensures LittleEndian(b[i..]) == b[i] + 0x100 * LittleEndian(b[i + 1..]) {
      Lowest(b, i);
    }
    NoBytes(b[8..]);
  }

  lemma NoBytes(b: seq<Byte>)
    requires b == []
    ensures LittleEndian(b) == 0
  {
  }

  lemma AbsorbIs(s: State, b: seq<Byte>, rest: seq<Byte>)
    requires |b| == 16
    ensures Absorb(s, b + rest) == Absorb(Block(s, Load(b[..8]), Load(b[8..])), rest)
  {
    hide Block, Tail, LittleEndian;
    var m := b + rest;
    assert m[..8] == b[..8] && m[8..16] == b[8..] && m[16..] == rest;
  }

  lemma AbsorbEnds(s: State, m: seq<Byte>)
    requires |m| < 16
    ensures Absorb(s, m) == Tail(s, m)
  {
    hide Block, Tail;
  }

  // ----- Two published hashes -----

  /** hello */
  const HELLO: seq<Byte> := [0x68, 0x65, 0x6c, 0x6c, 0x6f]

  /** The quick brown fox jumps over the lazy dog */
  const FOX0: seq<Byte> := [
    0x54, 0x68, 0x65, 0x20, 0x71, 0x75, 0x69, 0x63, 0x6b, 0x20, 0x62, 0x72, 0x6f, 0x77, 0x6e, 0x20
  ]
  const FOX1: seq<Byte> := [
    0x66, 0x6f, 0x78, 0x20, 0x6a, 0x75, 0x6d, 0x70, 0x73, 0x20, 0x6f, 0x76, 0x65, 0x72, 0x20, 0x74
  ]
  const FOX2: seq<Byte> := [
    0x68, 0x65, 0x20, 0x6c, 0x61, 0x7a, 0x79, 0x20, 0x64, 0x6f, 0x67
  ]

  lemma HelloTail1()
    ensures MixK1(0x6f6c6c6568) == 0x8c3f01c9e77511c7
  {
    hide MixK1;
    MixK1Is(0x6f6c6c6568, 0x17680b7267e11788, 0x33f08bc40bb405b9, 0x8c3f01c9e77511c7);
  }

  lemma HelloFmix1()
    ensures Fmix(0x8c3f01c9e77511c7) == 0x3c92befc3acd18eb
  {
    hide XorShift, Mul, Fmix;
    ShiftIs(Octets(0x8c, 0x3f, 0x01, 0xc9, 0xe7, 0x75, 0x11, 0xc7),
            Octets(0x00, 0x00, 0x00, 0x00, 0x46, 0x1f, 0x80, 0xe4),
            0x8c3f01c9e77511c7, 0x8c3f01c9a16a9123);
    ShiftIs(Octets(0x38, 0x9a, 0xc4, 0xe1, 0x21, 0x54, 0x5d, 0x07),
            Octets(0x00, 0x00, 0x00, 0x00, 0x1c, 0x4d, 0x62, 0x70),
            0x389ac4e121545d07, 0x389ac4e13d193f77);
    ShiftIs(Octets(0x3c, 0x92, 0xbe, 0xfc, 0x24, 0x84, 0x47, 0x95),
            Octets(0x00, 0x00, 0x00, 0x00, 0x1e, 0x49, 0x5f, 0x7e),
            0x3c92befc24844795, 0x3c92befc3acd18eb);
    MulIs(0x8c3f01c9a16a9123, 0xff51afd7ed558ccd, 0x389ac4e121545d07);
    MulIs(0x389ac4e13d193f77, 0xc4ceb9fe1a85ec53, 0x3c92befc24844795);
    FmixIs(0x8c3f01c9e77511c7, 0x8c3f01c9a16a9123, 0x389ac4e121545d07, 0x389ac4e13d193f77,
           0x3c92befc24844795, 0x3c92befc3acd18eb);
  }

  lemma HelloFmix2()
    ensures Fmix(0x8c3f01c9e77511cc) == 0x8f45e8b706f08217
  {
    hide XorShift, Mul, Fmix;
    ShiftIs(Octets(0x8c, 0x3f, 0x01, 0xc9, 0xe7, 0x75, 0x11, 0xcc),
            Octets(0x00, 0x00, 0x00, 0x00, 0x46, 0x1f, 0x80, 0xe4),
            0x8c3f01c9e77511cc, 0x8c3f01c9a16a9128);
    ShiftIs(Octets(0x35, 0x33, 0x34, 0x18, 0xc4, 0x00, 0x1d, 0x08),
            Octets(0x00, 0x00, 0x00, 0x00, 0x1a, 0x99, 0x9a, 0x0c),
            0x35333418c4001d08, 0x35333418de998704);
    ShiftIs(Octets(0x8f, 0x45, 0xe8, 0xb7, 0x41, 0x52, 0x76, 0x4c),
            Octets(0x00, 0x00, 0x00, 0x00, 0x47, 0xa2, 0xf4, 0x5b),
            0x8f45e8b74152764c, 0x8f45e8b706f08217);
    MulIs(0x8c3f01c9a16a9128, 0xff51afd7ed558ccd, 0x35333418c4001d08);
    MulIs(0x35333418de998704, 0xc4ceb9fe1a85ec53, 0x8f45e8b74152764c);
    FmixIs(0x8c3f01c9e77511cc, 0x8c3f01c9a16a9128, 0x35333418c4001d08, 0x35333418de998704,
           0x8f45e8b74152764c, 0x8f45e8b706f08217);
  }

  lemma HelloFinish()
    ensures Finish(State(0x8c3f01c9e77511c7, 0), 5) ==
            State(0xcbd8a7b341bd9b02, 0x5b1e906a48ae1d19)
  {
    hide Xor64, Fmix;
    XorIs(Octets(0x8c, 0x3f, 0x01, 0xc9, 0xe7, 0x75, 0x11, 0xc7),
          Octets(0x00, 0x00, 0x00, 0x00, 0x00, 0x00, 0x00, 0x05),
          0x8c3f01c9e77511c7, 0x5, 0x8c3f01c9e77511c2);
    XorIs(Octets(0x00, 0x00, 0x00, 0x00, 0x00, 0x00, 0x00, 0x00),
          Octets(0x00, 0x00, 0x00, 0x00, 0x00, 0x00, 0x00, 0x05),
          0, 0x5, 0x5);
    HelloFmix1();
    HelloFmix2();
  }

  lemma HelloTail()
    ensures Tail(State(0, 0), HELLO) ==
            State(0x8c3f01c9e77511c7, 0)
  {
    hide Xor64, MixK1, MixK2, LittleEndian;
    var p := Pad(HELLO);
    LoadIs(p[..8]);
    LoadIs(p[8..]);
    HelloTail1();
    MixKOfZero();
    XorIs(Octets(0x00, 0x00, 0x00, 0x00, 0x00, 0x00, 0x00, 0x00),
          Octets(0x8c, 0x3f, 0x01, 0xc9, 0xe7, 0x75, 0x11, 0xc7),
          0, 0x8c3f01c9e77511c7, 0x8c3f01c9e77511c7);
    XorIs(Octets(0x00, 0x00, 0x00, 0x00, 0x00, 0x00, 0x00, 0x00),
          Octets(0x00, 0x00, 0x00, 0x00, 0x00, 0x00, 0x00, 0x00),
          0, 0, 0);
  }

  lemma HelloHash()
    ensures Hash(HELLO, 0) == State(0xcbd8a7b341bd9b02, 0x5b1e906a48ae1d19)
  {
    hide Block, Tail, Finish, Load, Absorb;
    AbsorbEnds(State(0, 0), HELLO);
    HelloTail();
    HelloFinish();
  }

  /** In a table of the default size this key belongs to slot 25. */
  lemma HelloSlot()
    ensures SocketKeys.SlotWord(HELLO) % 128 == 25
  {
    hide Hash;
    HelloHash();
  }

  lemma FoxWord0()
    ensures MixK1(0x6369757120656854) == 0xede938f35bfbb35d
  {
    hide MixK1;
    MixK1Is(0x6369757120656854, 0x88afee474edb09e4, 0xa76d84f24457f723, 0xede938f35bfbb35d);
  }

  lemma FoxWord1()
    ensures MixK2(0x206e776f7262206b) == 0x9b19a81a60aa0b18
  {
    hide MixK2;
    MixK2Is(0x206e776f7262206b, 0xbad6d15c21228615, 0x42450c2b75ada2b8, 0x9b19a81a60aa0b18);
  }

  lemma FoxBlock0()
    ensures Block(State(0, 0), 0x6369757120656854, 0x206e776f7262206b) ==
            State(0x65f54070009580c, 0x1185bfe0bc383732)
  {
    hide Xor64, Rotl64, MixK1, MixK2, Stir;
    FoxWord0();
    FoxWord1();
    XorIs(Octets(0x00, 0x00, 0x00, 0x00, 0x00, 0x00, 0x00, 0x00),
          Octets(0xed, 0xe9, 0x38, 0xf3, 0x5b, 0xfb, 0xb3, 0x5d),
          0, 0xede938f35bfbb35d, 0xede938f35bfbb35d);
    XorIs(Octets(0x00, 0x00, 0x00, 0x00, 0x00, 0x00, 0x00, 0x00),
          Octets(0x9b, 0x19, 0xa8, 0x1a, 0x60, 0xaa, 0x0b, 0x18),
          0, 0x9b19a81a60aa0b18, 0x9b19a81a60aa0b18);
    Stir27Is(0xede938f35bfbb35d, 0x9adfdd9aef6f49c7, 0, 0x65f54070009580c);
    Stir31Is(0x9b19a81a60aa0b18, 0x3055058c4d8cd40d, 0x65f54070009580c, 0x1185bfe0bc383732);
  }

  lemma FoxWord2()
    ensures MixK1(0x706d756a20786f66) == 0x82e320fa65aeeb7a
  {
    hide MixK1;
    MixK1Is(0x706d756a20786f66, 0x4017930c8e9ec1de, 0x474f60ef200bc986, 0x82e320fa65aeeb7a);
  }

  lemma FoxWord3()
    ensures MixK2(0x74207265766f2073) == 0x3480582491edf347
  {
    hide MixK2;
    MixK2Is(0x74207265766f2073, 0xd23f1255d4c2220d, 0xa984441ba47e24ab, 0x3480582491edf347);
  }

  lemma FoxBlock1()
    ensures Block(State(0x65f54070009580c, 0x1185bfe0bc383732), 0x706d756a20786f66, 0x74207265766f2073) ==
            State(0xef7ef36e84b36d66, 0x20112c4dac59411d)
  {
    hide Xor64, Rotl64, MixK1, MixK2, Stir;
    FoxWord2();
    FoxWord3();
    XorIs(Octets(0x06, 0x5f, 0x54, 0x07, 0x00, 0x09, 0x58, 0x0c),
          Octets(0x82, 0xe3, 0x20, 0xfa, 0x65, 0xae, 0xeb, 0x7a),
          0x65f54070009580c, 0x82e320fa65aeeb7a, 0x84bc74fd65a7b376);
    XorIs(Octets(0x11, 0x85, 0xbf, 0xe0, 0xbc, 0x38, 0x37, 0x32),
          Octets(0x34, 0x80, 0x58, 0x24, 0x91, 0xed, 0xf3, 0x47),
          0x1185bfe0bc383732, 0x3480582491edf347, 0x2505e7c42dd5c475);
    Stir27Is(0x84bc74fd65a7b376, 0xeb2d3d9bb425e3a7, 0x1185bfe0bc383732, 0xef7ef36e84b36d66);
    Stir31Is(0x2505e7c42dd5c475, 0x16eae23a9282f3e2, 0xef7ef36e84b36d66, 0x20112c4dac59411d);
  }

  lemma FoxTail1()
    ensures MixK1(0x20797a616c206568) == 0xbe2cc08576171173
  {
    hide MixK1;
    MixK1Is(0x20797a616c206568, 0x5256d81b84a51788, 0xc2528bc4292b6c0d, 0xbe2cc08576171173);
  }

  lemma FoxTail2()
    ensures MixK2(0x676f64) == 0x307f8a9bc938d855
  {
    hide MixK2;
    MixK2Is(0x676f64, 0x4c1c9940da3aae9c, 0xb4755d3898393281, 0x307f8a9bc938d855);
  }

  lemma FoxFmix1()
    ensures Fmix(0x61c0dac2580615a1) == 0x4c543c4db373a391
  {
    hide XorShift, Mul, Fmix;
    ShiftIs(Octets(0x61, 0xc0, 0xda, 0xc2, 0x58, 0x06, 0x15, 0xa1),
            Octets(0x00, 0x00, 0x00, 0x00, 0x30, 0xe0, 0x6d, 0x61),
            0x61c0dac2580615a1, 0x61c0dac268e678c0);
    ShiftIs(Octets(0x77, 0x96, 0x5a, 0x9b, 0xe2, 0x57, 0xb1, 0xc0),
            Octets(0x00, 0x00, 0x00, 0x00, 0x3b, 0xcb, 0x2d, 0x4d),
            0x77965a9be257b1c0, 0x77965a9bd99c9c8d);
    ShiftIs(Octets(0x4c, 0x54, 0x3c, 0x4d, 0x95, 0x59, 0xbd, 0xb7),
            Octets(0x00, 0x00, 0x00, 0x00, 0x26, 0x2a, 0x1e, 0x26),
            0x4c543c4d9559bdb7, 0x4c543c4db373a391);
    MulIs(0x61c0dac268e678c0, 0xff51afd7ed558ccd, 0x77965a9be257b1c0);
    MulIs(0x77965a9bd99c9c8d, 0xc4ceb9fe1a85ec53, 0x4c543c4d9559bdb7);
    FmixIs(0x61c0dac2580615a1, 0x61c0dac268e678c0, 0x77965a9be257b1c0, 0x77965a9bd99c9c8d,
           0x4c543c4d9559bdb7, 0x4c543c4db373a391);
  }

  lemma FoxFmix2()
    ensures Fmix(0x722f8198bd67af04) == 0x96f7802e089377db
  {
    hide XorShift, Mul, Fmix;
    ShiftIs(Octets(0x72, 0x2f, 0x81, 0x98, 0xbd, 0x67, 0xaf, 0x04),
            Octets(0x00, 0x00, 0x00, 0x00, 0x39, 0x17, 0xc0, 0xcc),
            0x722f8198bd67af04, 0x722f819884706fc8);
    ShiftIs(Octets(0x52, 0x49, 0xd9, 0x58, 0xd0, 0x92, 0xe3, 0x28),
            Octets(0x00, 0x00, 0x00, 0x00, 0x29, 0x24, 0xec, 0xac),
            0x5249d958d092e328, 0x5249d958f9b60f84);
    ShiftIs(Octets(0x96, 0xf7, 0x80, 0x2e, 0x43, 0xe8, 0xb7, 0xcc),
            Octets(0x00, 0x00, 0x00, 0x00, 0x4b, 0x7b, 0xc0, 0x17),
            0x96f7802e43e8b7cc, 0x96f7802e089377db);
    MulIs(0x722f819884706fc8, 0xff51afd7ed558ccd, 0x5249d958d092e328);
    MulIs(0x5249d958f9b60f84, 0xc4ceb9fe1a85ec53, 0x96f7802e43e8b7cc);
    FmixIs(0x722f8198bd67af04, 0x722f819884706fc8, 0x5249d958d092e328, 0x5249d958f9b60f84,
           0x96f7802e43e8b7cc, 0x96f7802e089377db);
  }

  lemma FoxFinish()
    ensures Finish(State(0x515233ebf2a47c15, 0x106ea6d665619948), 43) ==
            State(0xe34bbc7bbc071b6c, 0x7a433ca9c49a9347)
  {
    hide Xor64, Fmix;
    XorIs(Octets(0x51, 0x52, 0x33, 0xeb, 0xf2, 0xa4, 0x7c, 0x15),
          Octets(0x00, 0x00, 0x00, 0x00, 0x00, 0x00, 0x00, 0x2b),
          0x515233ebf2a47c15, 0x2b, 0x515233ebf2a47c3e);
    XorIs(Octets(0x10, 0x6e, 0xa6, 0xd6, 0x65, 0x61, 0x99, 0x48),
          Octets(0x00, 0x00, 0x00, 0x00, 0x00, 0x00, 0x00, 0x2b),
          0x106ea6d665619948, 0x2b, 0x106ea6d665619963);
    FoxFmix1();
    FoxFmix2();
  }

  lemma FoxTail()
    ensures Tail(State(0xef7ef36e84b36d66, 0x20112c4dac59411d), FOX2) ==
            State(0x515233ebf2a47c15, 0x106ea6d665619948)
  {
    hide Xor64, MixK1, MixK2, LittleEndian;
    var p := Pad(FOX2);
    LoadIs(p[..8]);
    LoadIs(p[8..]);
    FoxTail1();
    FoxTail2();
    XorIs(Octets(0xef, 0x7e, 0xf3, 0x6e, 0x84, 0xb3, 0x6d, 0x66),
          Octets(0xbe, 0x2c, 0xc0, 0x85, 0x76, 0x17, 0x11, 0x73),
          0xef7ef36e84b36d66, 0xbe2cc08576171173, 0x515233ebf2a47c15);
    XorIs(Octets(0x20, 0x11, 0x2c, 0x4d, 0xac, 0x59, 0x41, 0x1d),
          Octets(0x30, 0x7f, 0x8a, 0x9b, 0xc9, 0x38, 0xd8, 0x55),
          0x20112c4dac59411d, 0x307f8a9bc938d855, 0x106ea6d665619948);
  }

  lemma FoxWords0()
    ensures Load(FOX0[..8]) == 0x6369757120656854
    ensures Load(FOX0[8..]) == 0x206e776f7262206b
  {
    hide LittleEndian;
    LoadIs(FOX0[..8]);
    LoadIs(FOX0[8..]);
  }

  lemma FoxWords1()
    ensures Load(FOX1[..8]) == 0x706d756a20786f66
    ensures Load(FOX1[8..]) == 0x74207265766f2073
  {
    hide LittleEndian;
    LoadIs(FOX1[..8]);
    LoadIs(FOX1[8..]);
  }

  lemma FoxHash()
    ensures Hash(FOX0 + FOX1 + FOX2, 0) == State(0xe34bbc7bbc071b6c, 0x7a433ca9c49a9347)
  {
    hide Block, Tail, Finish, Load, Absorb;
    FoxWords0();
    AbsorbIs(State(0, 0), FOX0, FOX1 + FOX2);
    FoxBlock0();
    FoxWords1();
    AbsorbIs(State(0x65f54070009580c, 0x1185bfe0bc383732), FOX1, FOX2);
    FoxBlock1();
    assert FOX0 + FOX1 + FOX2 == FOX0 + (FOX1 + FOX2);
    AbsorbEnds(State(0xef7ef36e84b36d66, 0x20112c4dac59411d), FOX2);
    FoxTail();
    FoxFinish();
  }
}
