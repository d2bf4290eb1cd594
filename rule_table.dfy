/**
 * The rule table of an elementary cellular automaton: a rule number written
 * as binary digits, most significant first, padded to eight characters
 * (`parseRule`), and the lookup of a three-cell neighbourhood in that table
 * (`executeRules`).
 */
module RuleTable {

  /** A cell state: 0 is dead, 1 is alive. */
  type Bit = b: int | 0 <= b <= 1

  /** The character a binary digit is written with. */
  function Digit(b: Bit): char {
    if b == 1 then '1' else '0'
  }

  /** The value of a binary digit character, as `parseInt(c, 10)` reads '0' and '1'. */
  function DigitValue(c: char): Bit {
    if c == '1' then 1 else 0
  }

  predicate IsBinary(s: string) {
    forall i :: 0 <= i < |s| ==> s[i] == '0' || s[i] == '1'
  }

  /** A rule table the lookup can index: at least eight binary digits. */
  predicate IsTable(s: string) {
    |s| >= 8 && IsBinary(s)
  }

  function Pow2(k: nat): (p: nat)
    ensures p >= 1
  {
    if k == 0 then 1 else 2 * Pow2(k - 1)
  }

  /** Bit number `j` of `v`, counting from the least significant bit. */
  function BitOf(v: nat, j: nat): Bit {
    if j == 0 then v % 2 else BitOf(v / 2, j - 1)
  }

  /**
   * `n` in base 2 without leading zeros, as `Number.prototype.toString(2)`
   * writes it ("0" for zero).
   */
  function ToBinary(n: nat): (s: string)
    ensures |s| >= 1 && IsBinary(s)
    ensures s[0] == '0' ==> n == 0
    decreases n
  {
    if n < 2 then [Digit(n)] else ToBinary(n / 2) + [Digit(n % 2)]
  }

  /** The value of a string of binary digits, most significant first (`parseInt(s, 2)`). */
  function FromBinary(s: string): nat {
    if s == [] then 0 else 2 * FromBinary(s[..|s| - 1]) + DigitValue(s[|s| - 1])
  }

  /**
   * `parseRule`: the rule number in binary, left-padded with zeros to eight
   * characters. `'00000000'.substr(k)` is empty once `k` reaches 8, so a
   * rule above 255 keeps all of its digits.
   */
  function ParseRule(rule: nat): (table: string)
    ensures IsTable(table)
  {
    var binary := ToBinary(rule);
    "00000000"[(if |binary| < 8 then |binary| else 8)..] + binary
  }

  /**
   * `executeRules`: the neighbourhood (a, b, c) is read as the base-2 number
   * "abc" and the table is indexed at 7 minus that number.
   */
  function ExecuteRules(table: string, a: Bit, b: Bit, c: Bit): Bit
    requires IsTable(table)
  {
    NeighbourhoodValue(a, b, c);
    DigitValue(table[7 - FromBinary([Digit(a), Digit(b), Digit(c)])])
  }

  /** The three-digit string "abc" reads as 4a + 2b + c. */
  lemma NeighbourhoodValue(a: Bit, b: Bit, c: Bit)
    ensures FromBinary([Digit(a), Digit(b), Digit(c)]) == 4 * a + 2 * b + c
  {
    var s := [Digit(a), Digit(b), Digit(c)];
    assert s[..2] == [Digit(a), Digit(b)];
    assert s[..2][..1] == [Digit(a)];
    assert s[..2][..1][..0] == [];
    assert FromBinary([Digit(a)]) == a;
    assert FromBinary([Digit(a), Digit(b)]) == 2 * a + b;
  }

  /** toString(2) and parseInt(_, 2) are inverse. */
  lemma {:induction false} ToBinaryValue(n: nat)
    ensures FromBinary(ToBinary(n)) == n
    decreases n
  {
    if n >= 2 {
      var s := ToBinary(n);
      assert s[..|s| - 1] == ToBinary(n / 2);
      ToBinaryValue(n / 2);
    } else {
      assert ToBinary(n)[..0] == [];
    }
  }

  /** The binary form of `n` fits in `k` digits exactly when `n < 2^k`. */
  lemma {:induction false} ToBinaryLength(n: nat, k: nat)
    requires k >= 1
    ensures |ToBinary(n)| <= k <==> n < Pow2(k)
    decreases n
  {
    if n >= 2 {
      if k == 1 {
        assert |ToBinary(n)| == |ToBinary(n / 2)| + 1;
      } else {
        ToBinaryLength(n / 2, k - 1);
      }
    } else {
      assert Pow2(k) >= 2 by { assert Pow2(k) == 2 * Pow2(k - 1); }
    }
  }

  lemma {:induction false} ZerosValue(z: string)
    requires forall i :: 0 <= i < |z| ==> z[i] == '0'
    ensures FromBinary(z) == 0
  {
    if z != [] {
      ZerosValue(z[..|z| - 1]);
    }
  }

  /** Leading zeros do not change the value. */
  lemma {:induction false} PadValue(z: string, s: string)
    requires forall i :: 0 <= i < |z| ==> z[i] == '0'
    ensures FromBinary(z + s) == FromBinary(s)
    decreases |s|
  {
    if s == [] {
      assert z + s == z;
      ZerosValue(z);
    } else {
      assert (z + s)[..|z + s| - 1] == z + s[..|s| - 1];
      PadValue(z, s[..|s| - 1]);
    }
  }

  /**
   * Every rule number parses to a binary table of at least eight digits
   * whose value is the rule; the table has exactly eight digits precisely
   * for the rules 0..255.
   */
  lemma ParseRuleRoundTrip(rule: nat)
    ensures IsTable(ParseRule(rule))
    ensures FromBinary(ParseRule(rule)) == rule
    ensures |ParseRule(rule)| == 8 <==> rule <= 255
  {
    var binary := ToBinary(rule);
    var pad := "00000000"[(if |binary| < 8 then |binary| else 8)..];
    assert ParseRule(rule) == pad + binary;
    ToBinaryValue(rule);
    PadValue(pad, binary);
    ToBinaryLength(rule, 8);
    assert Pow2(8) == 256;
  }

  /** A binary string of length n has a value below 2^n. */
  lemma {:induction false} FromBinaryBound(s: string)
    ensures FromBinary(s) < Pow2(|s|)
  {
    if s != [] {
      FromBinaryBound(s[..|s| - 1]);
    }
  }

  /** Two binary strings of one length with one value are the same string. */
  lemma {:induction false} FromBinaryInjective(s: string, t: string)
    requires IsBinary(s) && IsBinary(t) && |s| == |t|
    requires FromBinary(s) == FromBinary(t)
    ensures s == t
  {
    if s != [] {
      var n := |s|;
      assert DigitValue(s[n - 1]) == DigitValue(t[n - 1]);
      FromBinaryInjective(s[..n - 1], t[..n - 1]);
      assert s == s[..n - 1] + [s[n - 1]];
      assert t == t[..n - 1] + [t[n - 1]];
    }
  }

  /** Every eight-digit binary table is the parsed form of exactly its own value. */
  lemma ParseRuleOnto(table: string)
    requires |table| == 8 && IsBinary(table)
    ensures FromBinary(table) <= 255
    ensures ParseRule(FromBinary(table)) == table
  {
    FromBinaryBound(table);
    assert Pow2(8) == 256;
    ParseRuleRoundTrip(FromBinary(table));
    FromBinaryInjective(ParseRule(FromBinary(table)), table);
  }

  /** Appending a digit doubles the value and adds the digit: halving undoes it. */
  lemma Halve(x: nat, d: Bit)
    ensures (2 * x + d) / 2 == x && (2 * x + d) % 2 == d
  {
  }

  /** Bit j of a binary string's value is its j-th digit from the right. */
  lemma {:induction false} BinaryBit(s: string, j: nat)
    requires IsBinary(s) && j < |s|
    ensures BitOf(FromBinary(s), j) == DigitValue(s[|s| - 1 - j])
  {
    var init := s[..|s| - 1];
    var d := DigitValue(s[|s| - 1]);
    assert FromBinary(s) == 2 * FromBinary(init) + d;
    Halve(FromBinary(init), d);
    if j > 0 {
      BinaryBit(init, j - 1);
      assert init[|init| - 1 - (j - 1)] == s[|s| - 1 - j];
    }
  }

  /**
   * The standard Wolfram numbering: for a rule 0..255, the lookup of the
   * neighbourhood (a, b, c) in the parsed table is bit number 4a + 2b + c
   * of the rule.
   */
  lemma ExecuteRulesWolfram(rule: nat, a: Bit, b: Bit, c: Bit)
    requires rule <= 255
    ensures IsTable(ParseRule(rule))
    ensures ExecuteRules(ParseRule(rule), a, b, c) == BitOf(rule, 4 * a + 2 * b + c)
  {
    var table, j := ParseRule(rule), 4 * a + 2 * b + c;
    ParseRuleRoundTrip(rule);
    NeighbourhoodValue(a, b, c);
    BinaryBit(table, j);
    assert ExecuteRules(table, a, b, c) == DigitValue(table[7 - j]);
  }
}
