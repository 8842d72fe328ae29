/**
 * Base-10 rendering of natural numbers (JavaScript's String(n) for the
 * non-negative integers the cursors carry) and a strict base-10 parser for
 * the text a cursor decodes to.
 */
module Decimal {
  import opened Wrappers

  predicate IsDigit(c: char)
  {
    '0' <= c <= '9'
  }

  function DigitChar(d: int): (c: char)
    requires 0 <= d < 10
    ensures IsDigit(c) && c as int - '0' as int == d
  {
    ('0' as int + d) as char
  }

  /** The shortest decimal spelling of n, without sign or leading zeros. */
  function Show(n: nat): (r: string)
    ensures |r| >= 1
  {
    if n < 10 then [DigitChar(n)] else Show(n / 10) + [DigitChar(n % 10)]
  }

  /** The spelling is made of digits only and has no leading zero. */
  lemma {:induction false} ShowDigits(n: nat)
    ensures forall k :: 0 <= k < |Show(n)| ==> IsDigit(Show(n)[k])
    ensures |Show(n)| > 1 ==> Show(n)[0] != '0'
  {
    if n >= 10 {
      ShowDigits(n / 10);
      assert Show(n)[0] == Show(n / 10)[0];
    }
  }

  /** The value of a string of digits, most significant first. */
  function DigitsValue(s: string): (v: nat)
    requires forall k :: 0 <= k < |s| ==> IsDigit(s[k])
  {
    if s == [] then 0
    else assert IsDigit(s[|s| - 1]); DigitsValue(s[..|s| - 1]) * 10 + (s[|s| - 1] as int - '0' as int)
  }

  /**
   * The number a non-empty string of digits spells; None for the empty
   * string and for any string holding something other than a digit.
   */
  function Parse(s: string): (r: Option<nat>)
    ensures r.Some? <==> |s| > 0 && forall k :: 0 <= k < |s| ==> IsDigit(s[k])
  {
    if |s| > 0 && forall k :: 0 <= k < |s| ==> IsDigit(s[k]) then Some(DigitsValue(s)) else None
  }

  lemma {:induction false} DigitsValueShow(n: nat)
    ensures (forall k :: 0 <= k < |Show(n)| ==> IsDigit(Show(n)[k])) && DigitsValue(Show(n)) == n
  {
    ShowDigits(n);
    if n >= 10 {
      var s := Show(n);
      assert s[..|s| - 1] == Show(n / 10);
      DigitsValueShow(n / 10);
    }
  }

  /** Parsing gives back the number that was rendered. */
  lemma ParseShow(n: nat)
    ensures Parse(Show(n)) == Some(n)
  {
    ShowDigits(n);
    DigitsValueShow(n);
  }

  /** No leading zero: a single digit, or a first digit other than '0'. */
  predicate Canonical(s: string)
  {
    |s| == 1 || (|s| > 1 && s[0] != '0')
  }

  /** A digit string without a leading zero is the spelling of the number it parses to. */
  lemma {:induction false} ParseCanonical(s: string)
    requires Parse(s).Some? && Canonical(s)
    ensures s == Show(Parse(s).value)
    decreases |s|
  {
    var d := s[|s| - 1] as int - '0' as int;
    if |s| == 1 {
      assert s[..0] == [];
      assert DigitsValue(s) == d;
      assert s == [DigitChar(d)];
    } else {
      var init := s[..|s| - 1];
      assert init[0] == s[0];
      assert Parse(init).Some?;
      ParseCanonical(init);
      var v := DigitsValue(init);
      assert v != 0;
      var n := v * 10 + d;
      assert n / 10 == v && n % 10 == d;
      assert s == init + [DigitChar(d)];
    }
  }

  /**
   * The canonical spellings and the numbers correspond one to one: s parses
   * to n without a leading zero exactly when s is the spelling of n.
   */
  lemma ParseIffShow(s: string, n: nat)
    ensures Parse(s) == Some(n) && Canonical(s) <==> s == Show(n)
  {
    if Parse(s) == Some(n) && Canonical(s) {
      ParseCanonical(s);
    }
    if s == Show(n) {
      ParseShow(n);
      ShowDigits(n);
    }
  }
}
