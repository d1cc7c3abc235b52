/** The string handling the product service relies on: decimal rendering of
    naturals (template-literal interpolation), ASCII case folding and the
    case-insensitive substring test behind a `contains` filter. */
module Text {

  predicate IsDigit(c: char) {
    '0' <= c <= '9'
  }

  predicate AllDigits(s: string) {
    forall i :: 0 <= i < |s| ==> IsDigit(s[i])
  }

  /** A decimal numeral as JavaScript prints a non-negative integer:
      at least one digit, and no leading zero unless it is the numeral "0". */
  predicate Canonical(s: string) {
    s != [] && AllDigits(s) && (s[0] == '0' ==> |s| == 1)
  }

  function DigitChar(d: nat): (c: char)
    requires d < 10
    ensures IsDigit(c)
  {
    (48 + d) as char
  }

  function DigitValue(c: char): (d: nat)
    requires IsDigit(c)
    ensures d < 10
  {
    c as int - 48
  }

  /** The decimal numeral of `n`, as `${n}` renders it. */
  function NatToString(n: nat): (s: string)
    ensures Canonical(s)
    ensures s[0] == '0' <==> n == 0
    decreases n
  {
    if n < 10 then [DigitChar(n)] else NatToString(n / 10) + [DigitChar(n % 10)]
  }

  /** The value of a string of decimal digits (the empty string reads as 0). */
  function ParseNat(s: string): nat
    requires AllDigits(s)
  {
    if s == [] then 0 else ParseNat(s[..|s| - 1]) * 10 + DigitValue(s[|s| - 1])
  }

  /** Reading a rendered numeral back gives the number that was rendered. */
  lemma {:induction false} ParseNatToString(n: nat)
    ensures ParseNat(NatToString(n)) == n
  {
    var s := NatToString(n);
    if n < 10 {
      assert s[..|s| - 1] == [];
    } else {
      assert s[..|s| - 1] == NatToString(n / 10);
      ParseNatToString(n / 10);
    }
  }

  /** A numeral without a leading zero denotes a positive number. */
  lemma {:induction false} ParseNatPositive(s: string)
    requires s != [] && AllDigits(s) && s[0] != '0'
    ensures ParseNat(s) >= 1
  {
    if |s| > 1 {
      ParseNatPositive(s[..|s| - 1]);
    }
  }

  /** Every canonical numeral is the rendering of the number it denotes, so
      rendering is a bijection between naturals and canonical numerals. */
  lemma {:induction false} NatToStringOfParseNat(s: string)
    requires Canonical(s)
    ensures NatToString(ParseNat(s)) == s
  {
    var init, d := s[..|s| - 1], DigitValue(s[|s| - 1]);
    if |s| == 1 {
      assert init == [];
      assert ParseNat(s) == d;
    } else {
      var v := ParseNat(init);
      ParseNatPositive(init);
      NatToStringOfParseNat(init);
      assert ParseNat(s) == v * 10 + d;
      assert (v * 10 + d) / 10 == v && (v * 10 + d) % 10 == d;
      assert s == init + [s[|s| - 1]];
    }
  }

  /** The length of the run of digits at the start of `s`. */
  function LeadingDigits(s: string): (n: nat)
    ensures n <= |s| && AllDigits(s[..n])
    ensures n < |s| ==> !IsDigit(s[n])
  {
    if s != [] && IsDigit(s[0]) then
      var n := 1 + LeadingDigits(s[1..]);
      assert forall i :: 0 < i < n ==> s[..n][i] == s[1..][..n - 1][i - 1];
      n
    else 0
  }

  /** The run of digits ends where a numeral is followed by a non-digit. */
  lemma {:induction false} LeadingDigitsOfNumeral(d: string, t: string)
    requires AllDigits(d) && t != [] && !IsDigit(t[0])
    ensures LeadingDigits(d + t) == |d|
  {
    if d != [] {
      assert (d + t)[1..] == d[1..] + t;
      LeadingDigitsOfNumeral(d[1..], t);
    } else {
      assert d + t == t;
    }
  }

  /** ASCII lower-casing of one character; every other character is kept. */
  function LowerChar(c: char): char {
    if 'A' <= c <= 'Z' then (c as int + 32) as char else c
  }

  function Lower(s: string): (r: string)
    ensures |r| == |s|
  {
    seq(|s|, i requires 0 <= i < |s| => LowerChar(s[i]))
  }

  /** `k` occurs in `s` starting at position `i`. */
  ghost predicate OccursAt(k: string, s: string, i: nat) {
    i + |k| <= |s| && s[i..i + |k|] == k
  }

  /** Whether `k` is a substring of `s`, scanning `s` from the left. */
  predicate Contains(s: string, k: string)
    decreases |s|
  {
    k <= s || (s != [] && Contains(s[1..], k))
  }

  /** The scan agrees with the definition of a substring by its position. */
  lemma {:induction false} ContainsIff(s: string, k: string)
    ensures Contains(s, k) <==> exists i: nat :: OccursAt(k, s, i)
    decreases |s|
  {
    if k <= s {
      assert OccursAt(k, s, 0);
    } else if s != [] {
      ContainsIff(s[1..], k);
      if Contains(s, k) {
        var i: nat :| OccursAt(k, s[1..], i);
        assert s[1..][i..i + |k|] == s[i + 1..i + 1 + |k|];
        assert OccursAt(k, s, i + 1);
      }
      if exists i: nat :: OccursAt(k, s, i) {
        var i: nat :| OccursAt(k, s, i);
        assert i != 0;
        assert s[1..][i - 1..i - 1 + |k|] == s[i..i + |k|];
        assert OccursAt(k, s[1..], i - 1);
      }
    }
  }

  /** `s` contains `k` when ASCII letters are compared without regard to case
      (a `contains` filter in `insensitive` mode). */
  predicate ContainsIgnoringCase(s: string, k: string)
    ensures ContainsIgnoringCase(s, k) <==> exists i: nat :: OccursAt(Lower(k), Lower(s), i)
  {
    ContainsIff(Lower(s), Lower(k));
    Contains(Lower(s), Lower(k))
  }

  /** An exact occurrence is also an occurrence when case is ignored. */
  lemma ExactMatchIgnoringCase(s: string, k: string)
    requires Contains(s, k)
    ensures ContainsIgnoringCase(s, k)
  {
    ContainsIff(s, k);
    var i: nat :| OccursAt(k, s, i);
    assert Lower(s)[i..i + |k|] == Lower(k);
    assert OccursAt(Lower(k), Lower(s), i);
    ContainsIff(Lower(s), Lower(k));
  }

  /** Folding the keyword's case first does not change what it matches. */
  lemma CaseOfKeywordIrrelevant(s: string, k: string)
    ensures ContainsIgnoringCase(s, Lower(k)) == ContainsIgnoringCase(s, k)
  {
    assert Lower(Lower(k)) == Lower(k);
  }

  /** "shirt" matches both "Red Shirt" and "SHIRTS", but not "T-Shir". */
  lemma ShirtExample()
    ensures ContainsIgnoringCase("Red Shirt", "shirt")
    ensures ContainsIgnoringCase("SHIRTS", "shirt")
    ensures !ContainsIgnoringCase("T-Shir", "shirt")
  {
    assert Lower("shirt") == "shirt";
    assert ContainsIgnoringCase("Red Shirt", "shirt") by {
      assert Lower("Red Shirt") == "red shirt";
      assert OccursAt("shirt", "red shirt", 4);
      ContainsIff("red shirt", "shirt");
    }
    assert ContainsIgnoringCase("SHIRTS", "shirt") by {
      assert Lower("SHIRTS") == "shirts";
      assert "shirt" <= "shirts";
    }
    assert !ContainsIgnoringCase("T-Shir", "shirt") by {
      assert Lower("T-Shir") == "t-shir";
      assert !Contains("shir", "shirt");
      assert "-shir"[0] != "shirt"[0] && "t-shir"[0] != "shirt"[0];
    }
  }
}
