/** Printing a socket number with sprintf("%d") and reading it back with atoi
    (serverLTE/client_object.c). */
module Decimal {
  function Digit(d: nat): char
    requires d < 10
  {
    "0123456789"[d]
  }

  predicate IsDigit(c: char) { '0' <= c <= '9' }

  function DigitValue(c: char): nat
    requires IsDigit(c)
  {
    c as int - '0' as int
  }

  function PrintNat(n: nat): string {
    (if n < 10 then "" else PrintNat(n / 10)) + [Digit(n % 10)]
  }

  /** sprintf(key, "%d", n) */
  function Print(n: int): string {
    if n < 0 then "-" + PrintNat(-n) else PrintNat(n)
  }

  /** Reads digits until the first character that is none. */
  function ReadDigits(s: string, acc: nat): nat {
    if s == "" || !IsDigit(s[0]) then acc else ReadDigits(s[1..], 10 * acc + DigitValue(s[0]))
  }

  /** atoi: white space, then at most one sign, then digits. */
  function Atoi(s: string): int {
    if s == "" then 0
    else if s[0] in " \t\n\r" || s[0] == 11 as char || s[0] == 12 as char then Atoi(s[1..])
    else if s[0] == '-' then var m: int := ReadDigits(s[1..], 0); -m
    else if s[0] == '+' then ReadDigits(s[1..], 0)
    else ReadDigits(s, 0)
  }

  ghost predicate AllDigits(s: string) {
    forall i :: 0 <= i < |s| ==> IsDigit(s[i])
  }

  lemma {:induction false} ReadDigitsAppend(s: string, c: char, acc: nat)
    requires AllDigits(s) && IsDigit(c)
    ensures ReadDigits(s + [c], acc) == 10 * ReadDigits(s, acc) + DigitValue(c)
  {
    if s != "" {
      assert (s + [c])[1..] == s[1..] + [c];
      ReadDigitsAppend(s[1..], c, 10 * acc + DigitValue(s[0]));
    }
  }

  lemma DigitReads(d: nat)
    requires d < 10
    ensures IsDigit(Digit(d)) && DigitValue(Digit(d)) == d
  {
  }

  lemma {:induction false} PrintNatReads(n: nat)
    ensures AllDigits(PrintNat(n)) && PrintNat(n) != ""
    ensures ReadDigits(PrintNat(n), 0) == n
  {
    hide Digit, DigitValue, IsDigit;
    DigitReads(n % 10);
    if n >= 10 {
      PrintNatReads(n / 10);
      ReadDigitsAppend(PrintNat(n / 10), Digit(n % 10), 0);
    } else {
      ReadDigitsAppend("", Digit(n), 0);
      assert PrintNat(n) == "" + [Digit(n)];
    }
  }

  /** Reading undoes printing, for every int, so that no two sockets have the same key. */
  lemma AtoiUndoesPrint(n: int)
    ensures Atoi(Print(n)) == n
  {
    var m := if n < 0 then -n else n;
    PrintNatReads(m);
    if n < 0 {
      assert Print(n)[1..] == PrintNat(m);
    } else {
      assert IsDigit(Print(n)[0]);
    }
  }

  lemma PrintIsInjective(m: int, n: int)
    ensures Print(m) == Print(n) <==> m == n
  {
    AtoiUndoesPrint(m);
    AtoiUndoesPrint(n);
  }

  /** A key as the server makes it: digits without a leading zero. */
  ghost predicate Canonical(s: string) {
    AllDigits(s) && s != "" && (s[0] == '0' ==> s == "0")
  }

  lemma {:induction false} PrintNatUndoesReading(s: string)
    requires Canonical(s)
    ensures PrintNat(ReadDigits(s, 0)) == s
    ensures s[0] != '0' ==> ReadDigits(s, 0) > 0
  {
    hide ReadDigits, PrintNat;
    var k := |s| - 1;
    var m, d := ReadDigits(s[..k], 0), DigitValue(s[k]);
    assert s == s[..k] + [s[k]];
    ReadDigitsAppend(s[..k], s[k], 0);
    PrintedDigits(m, d);
    assert Digit(d) == s[k];
    if k == 0 {
      NoDigits();
    } else {
      PrintNatUndoesReading(s[..k]);
    }
  }

  lemma PrintedDigits(m: nat, d: nat)
    requires d < 10
    ensures PrintNat(10 * m + d) == (if m == 0 then "" else PrintNat(m)) + [Digit(d)]
  {
    assert (10 * m + d) / 10 == m && (10 * m + d) % 10 == d;
  }

  lemma NoDigits()
    ensures ReadDigits("", 0) == 0
  {
  }

  /** Printing undoes reading exactly on the keys without a sign, blanks or leading zeros. */
  lemma PrintUndoesAtoi(s: string)
    ensures Canonical(s) <==> Atoi(s) >= 0 && Print(Atoi(s)) == s
  {
    if Canonical(s) {
      assert IsDigit(s[0]);
      PrintNatUndoesReading(s);
    } else if Atoi(s) >= 0 && Print(Atoi(s)) == s {
      PrintNatReads(Atoi(s));
      LeadingDigit(Atoi(s));
      assert false;
    }
  }

  lemma {:induction false} LeadingDigit(n: nat)
    ensures PrintNat(n) != "" && (n > 0 ==> PrintNat(n)[0] != '0')
  {
    if n >= 10 {
      LeadingDigit(n / 10);
    }
  }

  function Pow10(k: nat): (p: nat)
    ensures p >= 1
  {
    if k == 0 then 1 else 10 * Pow10(k - 1)
  }

  lemma {:induction false} PrintLength(n: nat, k: nat)
    requires k >= 1
    ensures |PrintNat(n)| <= k <==> n < Pow10(k)
  {
    if n >= 10 {
      if k == 1 {
        PrintNatReads(n / 10);
      } else {
        PrintLength(n / 10, k - 1);
      }
    }
  }

  /** The seven characters that char key[8] has room for are enough exactly up to 9999999. */
  lemma KeyFits(n: nat)
    ensures |Print(n)| <= 7 <==> n <= 9999999
  {
    PrintLength(n, 7);
    assert Pow10(4) == 10000;
    assert Pow10(7) == 10000000;
  }
}
