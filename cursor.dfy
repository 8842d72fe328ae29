/**
 * Pagination cursors (toCursor / fromCursor and the parseInt that follows
 * fromCursor in friendsConnection): a cursor is the base64 of the ASCII text
 * "cursor" followed by the decimal position; reading one back decodes the
 * base64, drops the first six characters without looking at them, and parses
 * what is left as a base-10 number.
 */
module Cursor {
  import opened Wrappers
  import Base64
  import Decimal

  const Prefix: string := "cursor"

  predicate IsAscii(s: string)
  {
    forall k :: 0 <= k < |s| ==> s[k] as int < 128
  }

  /** The bytes of an ASCII string; UTF-8 and ASCII agree on these. */
  function AsciiBytes(s: string): (b: seq<Base64.Byte>)
    requires IsAscii(s)
    ensures |b| == |s| && forall k :: 0 <= k < |s| ==> b[k] == s[k] as int
  {
    seq(|s|, k requires 0 <= k < |s| => s[k] as int)
  }

  /** The text of a byte string made only of ASCII bytes; None if any byte is 128 or above. */
  function AsciiText(b: seq<Base64.Byte>): (r: Option<string>)
    ensures r.Some? ==> IsAscii(r.value) && AsciiBytes(r.value) == b
    ensures r.None? <==> exists k :: 0 <= k < |b| && b[k] >= 128
  {
    if forall k :: 0 <= k < |b| ==> b[k] < 128 then
      var t := seq(|b|, k requires 0 <= k < |b| => b[k] as char);
      assert AsciiBytes(t) == b;
      Some(t)
    else None
  }

  lemma AsciiTextOfBytes(s: string)
    requires IsAscii(s)
    ensures AsciiText(AsciiBytes(s)) == Some(s)
  {
    var t := AsciiText(AsciiBytes(s)).value;
    assert |t| == |s|;
    assert forall k :: 0 <= k < |s| ==> t[k] as int == s[k] as int;
    assert t == s;
  }

  /** JavaScript's str.slice(6): everything after the sixth character, or "" when there is no more. */
  function DropPrefix(t: string): (r: string)
    ensures |t| >= |Prefix| ==> r == t[|Prefix|..]
    ensures |t| <= |Prefix| ==> r == []
  {
    if |t| <= |Prefix| then [] else t[|Prefix|..]
  }

  /** The text a cursor encodes: "cursor" followed by the position in decimal. */
  function CursorText(n: nat): (t: string)
  {
    Prefix + Decimal.Show(n)
  }

  /** Any ASCII text followed by a decimal spelling is ASCII. */
  lemma AsciiBeforeNumber(p: string, n: nat)
    requires IsAscii(p)
    ensures IsAscii(p + Decimal.Show(n))
  {
    var s := p + Decimal.Show(n);
    Decimal.ShowDigits(n);
    forall k | 0 <= k < |s| ensures s[k] as int < 128 {
      if k >= |p| { assert s[k] == Decimal.Show(n)[k - |p|]; }
    }
  }

  /** toCursor: the base64 of the cursor text's bytes. */
  function ToCursor(n: nat): (c: string)
  {
    AsciiBeforeNumber(Prefix, n);
    Base64.Encode(AsciiBytes(CursorText(n)))
  }

  /**
   * fromCursor: the text after the first six characters of the decoded
   * cursor; None when the cursor is not well-formed base64 or does not
   * decode to ASCII text.
   */
  function FromCursor(c: string): (r: Option<string>)
  {
    match Base64.Decode(c)
    case None => None
    case Some(b) =>
      match AsciiText(b)
      case None => None
      case Some(t) => Some(DropPrefix(t))
  }

  /** The offset a cursor names: fromCursor followed by a base-10 parse. */
  function Offset(c: string): (r: Option<nat>)
  {
    match FromCursor(c)
    case None => None
    case Some(t) => Decimal.Parse(t)
  }

  /**
   * Whatever six ASCII characters stand before the number, reading the
   * cursor back gives the number: the prefix is dropped, never compared.
   */
  lemma OffsetIgnoresPrefix(p: string, n: nat)
    requires |p| == |Prefix| && IsAscii(p)
    ensures IsAscii(p + Decimal.Show(n))
    ensures FromCursor(Base64.Encode(AsciiBytes(p + Decimal.Show(n)))) == Some(Decimal.Show(n))
    ensures Offset(Base64.Encode(AsciiBytes(p + Decimal.Show(n)))) == Some(n)
  {
    var s := p + Decimal.Show(n);
    AsciiBeforeNumber(p, n);
    Base64.DecodeEncode(AsciiBytes(s));
    AsciiTextOfBytes(s);
    assert s[|Prefix|..] == Decimal.Show(n);
    Decimal.ParseShow(n);
  }

  /** Round trip: the cursor for position n reads back as n. */
  lemma OffsetOfCursor(n: nat)
    ensures FromCursor(ToCursor(n)) == Some(Decimal.Show(n))
    ensures Offset(ToCursor(n)) == Some(n)
  {
    OffsetIgnoresPrefix(Prefix, n);
  }

  /** Distinct positions get distinct cursors. */
  lemma CursorInjective(m: nat, n: nat)
    ensures ToCursor(m) == ToCursor(n) <==> m == n
  {
    OffsetOfCursor(m);
    OffsetOfCursor(n);
  }
}
