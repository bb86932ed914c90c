/**
 * Text handling used by the bookstore program: ASCII case folding (SQLite's
 * LOWER and, restricted to ASCII, Python's str.lower), the yes/no
 * confirmation test, and a simplified model of Python's int() on a string.
 */
module Text {
  import opened Wrappers

  predicate IsUpper(c: char) { 'A' <= c <= 'Z' }

  /** Folds one ASCII upper-case letter to lower case; every other character is kept. */
  function LowerChar(c: char): (r: char)
    ensures !IsUpper(r)
    ensures !IsUpper(c) ==> r == c
    ensures IsUpper(c) ==> 'a' <= r <= 'z' && r as int - c as int == 'a' as int - 'A' as int
  {
    if IsUpper(c) then (c as int - 'A' as int + 'a' as int) as char else c
  }

  /** ASCII lower-casing of a whole string. */
  function Lower(s: string): (r: string)
    ensures |r| == |s|
    ensures forall i :: 0 <= i < |s| ==> r[i] == LowerChar(s[i])
  {
    if s == [] then [] else [LowerChar(s[0])] + Lower(s[1..])
  }

  /** Lower-casing twice is lower-casing once. */
  lemma LowerIdempotent(s: string)
    ensures Lower(Lower(s)) == Lower(s)
  {
    assert forall i :: 0 <= i < |s| ==> Lower(Lower(s))[i] == Lower(s)[i];
  }

  /** A string without upper-case letters is its own lower-case form. */
  lemma LowerKeepsLowerCase(s: string)
    requires forall i :: 0 <= i < |s| ==> !IsUpper(s[i])
    ensures Lower(s) == s
  {
  }

  /** The lower-cased answer is "yes" exactly for the eight spellings of "yes" in any letter case. */
  lemma {:induction false} LowerIsYes(answer: string)
    ensures Lower(answer) == "yes" <==>
      |answer| == 3 &&
      (answer[0] == 'y' || answer[0] == 'Y') &&
      (answer[1] == 'e' || answer[1] == 'E') &&
      (answer[2] == 's' || answer[2] == 'S')
  {
    var l := Lower(answer);
    if |answer| == 3 {
      assert l == [l[0], l[1], l[2]];
      assert "yes" == ['y', 'e', 's'];
    } else {
      assert |l| != |"yes"|;
    }
  }

  /**
   * The confirmation rule shared by confirm_update and confirm_deletion:
   * the user's answer, lower-cased, is exactly "yes", which holds for the
   * eight spellings of "yes" in any letter case and for nothing else.
   */
  predicate Confirmed(answer: string): (r: bool)
    ensures r <==>
      |answer| == 3 &&
      (answer[0] == 'y' || answer[0] == 'Y') &&
      (answer[1] == 'e' || answer[1] == 'E') &&
      (answer[2] == 's' || answer[2] == 'S')
  {
    LowerIsYes(answer);
    Lower(answer) == "yes"
  }

  predicate IsDigit(c: char) { '0' <= c <= '9' }

  predicate AllDigits(s: string) { forall i :: 0 <= i < |s| ==> IsDigit(s[i]) }

  function DigitValue(c: char): (d: nat)
    requires IsDigit(c)
    ensures d < 10
  {
    c as int - '0' as int
  }

  function DigitChar(d: nat): (c: char)
    requires d < 10
    ensures IsDigit(c) && DigitValue(c) == d
  {
    (d + '0' as int) as char
  }

  /** The value of a string of decimal digits, most significant digit first. */
  function DigitsValue(s: string): nat
    requires AllDigits(s)
    decreases |s|
  {
    if s == [] then 0 else DigitsValue(s[..|s| - 1]) * 10 + DigitValue(s[|s| - 1])
  }

  /** One or more decimal digits, read as a natural number; anything else fails. */
  function ParseNat(s: string): (r: Option<nat>)
    ensures r.Some? <==> s != [] && AllDigits(s)
  {
    if s != [] && AllDigits(s) then Some(DigitsValue(s)) else None
  }

  /** The spellings the model of int() accepts: an optional sign, then one or more decimal digits. */
  predicate IsSignedDecimal(s: string) {
    (s != [] && AllDigits(s)) ||
    (|s| > 1 && (s[0] == '+' || s[0] == '-') && AllDigits(s[1..]))
  }

  /**
   * Python's int() on user input, simplified: an optional '+' or '-' followed
   * by one or more ASCII decimal digits. Every other string is a ValueError,
   * here None.
   */
  function ParseInt(s: string): (r: Option<int>)
    ensures r.Some? <==> IsSignedDecimal(s)
    ensures s == [] ==> r.None?
    ensures r.Some? ==> forall i :: 0 < i < |s| ==> IsDigit(s[i])
    ensures r.Some? && r.value < 0 ==> s[0] == '-'
  {
    if s != [] && s[0] == '-' then
      match ParseNat(s[1..])
      case Some(n) => Some(0 - n as int)
      case None => None
    else if s != [] && s[0] == '+' then
      match ParseNat(s[1..])
      case Some(n) => Some(n)
      case None => None
    else
      match ParseNat(s)
      case Some(n) => Some(n)
      case None => None
  }

  /** Decimal rendering of a natural number, without leading zeros. */
  function ShowNat(n: nat): (r: string)
    ensures r != [] && AllDigits(r)
  {
    if n < 10 then [DigitChar(n)] else ShowNat(n / 10) + [DigitChar(n % 10)]
  }

  /** Decimal rendering of an integer, as Python's str() writes it. */
  function Show(n: int): (r: string)
    ensures r != []
  {
    if n < 0 then "-" + ShowNat(-n) else ShowNat(n)
  }

  lemma {:induction false} DigitsValueShowNat(n: nat)
    ensures DigitsValue(ShowNat(n)) == n
  {
    if n >= 10 {
      DigitsValueShowNat(n / 10);
      var s := ShowNat(n);
      assert s[..|s| - 1] == ShowNat(n / 10);
    }
  }

  /** Every integer written in decimal parses back to itself. */
  lemma ParseShow(n: int)
    ensures ParseInt(Show(n)) == Some(n)
  {
    if n < 0 {
      DigitsValueShowNat(-n);
      assert Show(n)[1..] == ShowNat(-n);
    } else {
      DigitsValueShowNat(n);
      assert IsDigit(Show(n)[0]);
    }
  }

  /** A single decimal digit parses to its value. */
  lemma ParseSingleDigit(c: char)
    requires IsDigit(c)
    ensures ParseInt([c]) == Some(DigitValue(c))
  {
    assert [c][..0] == [];
    assert AllDigits([c]);
    assert DigitsValue([c]) == DigitsValue([]) * 10 + DigitValue(c);
  }

  /** A leading '+' changes nothing: int("+" + d) == int(d). */
  lemma ParsePlus(d: string)
    requires d != [] && AllDigits(d)
    ensures ParseInt("+" + d) == ParseInt(d)
  {
    assert ("+" + d)[1..] == d;
  }

  /** A leading '-' negates: int("-" + d) == -int(d), so "-0" is 0. */
  lemma ParseMinus(d: string)
    requires d != [] && AllDigits(d)
    ensures ParseInt(d).Some? && ParseInt("-" + d) == Some(-ParseInt(d).value)
  {
    assert ("-" + d)[1..] == d;
  }

  lemma {:induction false} DigitsValueLeadingZero(d: string)
    requires AllDigits(d)
    ensures AllDigits("0" + d) && DigitsValue("0" + d) == DigitsValue(d)
  {
    var z := "0" + d;
    assert AllDigits(z) by {
      forall i | 0 <= i < |z| ensures IsDigit(z[i]) {
        if i > 0 { assert z[i] == d[i - 1]; }
      }
    }
    if d == [] {
      assert z[..0] == [];
    } else {
      var p := d[..|d| - 1];
      assert z[..|z| - 1] == "0" + p;
      DigitsValueLeadingZero(p);
    }
  }

  /** Leading zeros change nothing: int("0" + d) == int(d), so "007" is 7. */
  lemma ParseLeadingZero(d: string)
    requires d != [] && AllDigits(d)
    ensures ParseInt("0" + d) == ParseInt(d)
  {
    DigitsValueLeadingZero(d);
  }

  /** Lower-casing the input (as search_book does before int()) does not change what it parses to. */
  lemma ParseIntIgnoresCase(s: string)
    ensures ParseInt(Lower(s)) == ParseInt(s)
  {
    var l := Lower(s);
    assert forall i :: 0 <= i < |s| ==> (IsDigit(l[i]) <==> IsDigit(s[i]));
    assert forall i :: 0 <= i < |s| ==> (l[i] == '-' <==> s[i] == '-') && (l[i] == '+' <==> s[i] == '+');
    if s != [] {
      assert l[1..] == Lower(s[1..]);
      DigitsUnchangedByLower(s[1..]);
      DigitsUnchangedByLower(s);
    }
  }

  lemma DigitsUnchangedByLower(s: string)
    ensures AllDigits(s) ==> Lower(s) == s
  {
    if AllDigits(s) {
      assert forall i :: 0 <= i < |s| ==> Lower(s)[i] == s[i];
    }
  }
}
