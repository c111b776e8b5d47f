/** The keys of the server's map, as the hash function sees them. */
module SocketKeys {
  import Decimal
  import opened Murmur

  /** The bytes of a printed number. */
  function KeyBytes(n: nat): seq<Byte> {
    var s := Decimal.Print(n);
    seq(|s|, i requires 0 <= i < |s| => s[i] as int % 0x100)
  }

  /** What the map takes modulo its size: the second word, under seed 0. */
  function SlotWord(key: seq<Byte>): Word
    requires |key| < 0x8000_0000
  {
    Hash(key, 0).h2
  }

  lemma KeyBytesInjective(m: nat, n: nat)
    requires KeyBytes(m) == KeyBytes(n)
    ensures m == n
  {
    hide Decimal.PrintNat, Decimal.ReadDigits;
    var s, t := Decimal.Print(m), Decimal.Print(n);
    Decimal.PrintNatReads(m);
    Decimal.PrintNatReads(n);
    assert |s| == |KeyBytes(m)| && |t| == |KeyBytes(n)|;
    forall i | 0 <= i < |s| ensures s[i] == t[i] {
      assert Decimal.IsDigit(s[i]) && Decimal.IsDigit(t[i]);
      assert KeyBytes(m)[i] == s[i] as int && KeyBytes(n)[i] == t[i] as int;
    }
    assert s == t;
    Decimal.PrintIsInjective(m, n);
  }

  /** Sockets with equally many digits never share a 128-bit hash. */
  lemma SocketHashesDiffer(m: nat, n: nat, seed: Word32)
    requires m <= 9999999 && n <= 9999999 && |KeyBytes(m)| == |KeyBytes(n)|
    ensures |KeyBytes(m)| <= 7
    ensures Hash(KeyBytes(m), seed) == Hash(KeyBytes(n), seed) <==> m == n
  {
    hide Hash;
    Decimal.KeyFits(m);
    HashInjectiveOnShortKeys(KeyBytes(m), KeyBytes(n), seed);
    if KeyBytes(m) == KeyBytes(n) {
      KeyBytesInjective(m, n);
    }
  }
}
