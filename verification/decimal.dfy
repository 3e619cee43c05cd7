/** Decimal spelling of unsigned integers, as std::to_string writes a
    std::size_t: the object keys under which finalized ranges are stored. */
module Decimal {

  predicate IsDigit(c: char) {
    '0' <= c <= '9'
  }

  function DigitValue(c: char): (d: nat)
    requires IsDigit(c)
    ensures d < 10
  {
    c as int - '0' as int
  }

  function DigitChar(d: nat): (c: char)
    requires d < 10
    ensures IsDigit(c) && DigitValue(c) == d
  {
    ('0' as int + d) as char
  }

  /** The decimal spelling of n: digits only, most significant first, and no
      leading zero except in "0" itself. */
  function Spell(n: nat): (s: string)
    ensures |s| > 0
    ensures forall i :: 0 <= i < |s| ==> IsDigit(s[i])
    ensures s[0] == '0' ==> n == 0
    decreases n
  {
    if n < 10 then [DigitChar(n)] else Spell(n / 10) + [DigitChar(n % 10)]
  }

  /** The value of a string of digits, read most significant first. */
  function Read(s: string): nat
    requires forall i :: 0 <= i < |s| ==> IsDigit(s[i])
  {
    if s == [] then 0
    else Read(s[..|s| - 1]) * 10 + DigitValue(s[|s| - 1])
  }

  /** Reading back a spelling gives the number spelt. */
  lemma {:induction false} ReadSpell(n: nat)
    ensures Read(Spell(n)) == n
    decreases n
  {
    var s := Spell(n);
    if n < 10 {
      assert s[..0] == [];
    } else {
      ReadSpell(n / 10);
      assert s[..|s| - 1] == Spell(n / 10);
    }
  }

  /** Distinct numbers are stored under distinct keys. */
  lemma SpellInjective(a: nat, b: nat)
    ensures Spell(a) == Spell(b) ==> a == b
  {
    ReadSpell(a);
    ReadSpell(b);
  }
}
