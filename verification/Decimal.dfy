/**
 Decimal text: 64-bit parsing and formatting, and zero padding.
 */
module Decimal {
  import opened Names

  const INT64_MAX := 0x7FFF_FFFF_FFFF_FFFF

  predicate IsDigit(c: char)
  {
    '0' <= c <= '9'
  }

  predicate IsDigits(s: string)
  {
    s != [] && forall i | 0 <= i < |s| :: IsDigit(s[i])
  }

  function DigitValue(c: char): (v: nat)
    requires IsDigit(c)
    ensures v < 10
  {
    c as int - '0' as int
  }

  function DigitChar(v: nat): (c: char)
    requires v < 10
    ensures IsDigit(c) && DigitValue(c) == v
  {
    '0' + v as char
  }

  /** The ten digits and what they stand for. */
  lemma DigitsAre(c: char)
    ensures IsDigit(c) <==> c in "0123456789"
    ensures forall v | 0 <= v < 10 :: IsDigit("0123456789"[v]) && DigitValue("0123456789"[v]) == v
  {
    if IsDigit(c) {
      assert c == "0123456789"[DigitValue(c)];
    }
  }

  // The number a run of digits spells.
  function Value(s: string): nat
    requires forall i | 0 <= i < |s| :: IsDigit(s[i])
  {
    if s == [] then 0 else 10 * Value(s[..|s| - 1]) + DigitValue(s[|s| - 1])
  }

  function Format(n: nat): (s: string)
    ensures IsDigits(s)
    ensures Value(s) == n
  {
    if n < 10 then [DigitChar(n)]
    else
      var s := Format(n / 10) + [DigitChar(n % 10)];
      assert s[..|s| - 1] == Format(n / 10);
      s
  }

  // A signed 64-bit number: one optional sign, then digits only.
  function ParseInt(s: string): (r: Option<int>)
  {
    var signed := s != [] && (s[0] == '+' || s[0] == '-');
    var digits := if signed then s[1..] else s;
    if !IsDigits(digits) then None
    else
      var magnitude: int := Value(digits);
      var v := if signed && s[0] == '-' then -magnitude else magnitude;
      if -INT64_MAX - 1 <= v <= INT64_MAX then Some(v) else None
  }

  /** What was formatted parses back. */
  lemma ParseFormat(n: nat)
    requires n <= INT64_MAX
    ensures ParseInt(Format(n)) == Some(n)
  {
    assert IsDigit(Format(n)[0]);
  }

  // Left-pad with zeros to at least five characters.
  function Pad(s: string): (r: string)
    decreases 5 - |s|
  {
    if |s| >= 5 then s else Pad("0" + s)
  }

  lemma {:induction false} ValueOfZeroPrefix(s: string)
    requires forall i | 0 <= i < |s| :: IsDigit(s[i])
    ensures forall i | 0 <= i < |"0" + s| :: IsDigit(("0" + s)[i])
    ensures Value("0" + s) == Value(s)
    decreases |s|
  {
    var z := "0" + s;
    if s == [] {
      assert z == "0" && z[..0] == [];
    } else {
      assert z[..|z| - 1] == "0" + s[..|s| - 1];
      ValueOfZeroPrefix(s[..|s| - 1]);
    }
  }

  lemma {:induction false} PadKeepsValue(s: string)
    requires IsDigits(s)
    ensures IsDigits(Pad(s)) && Value(Pad(s)) == Value(s)
    decreases 5 - |s|
  {
    if |s| < 5 {
      ValueOfZeroPrefix(s);
      PadKeepsValue("0" + s);
    }
  }
}
