/** The text of the label that reports how many photos are selected in sharing mode. */
module LabelText {

  const Suffix: string := " photos selected"

  predicate IsDigit(ch: char)
  {
    '0' <= ch <= '9'
  }

  function DigitChar(d: nat): (ch: char)
    requires d < 10
    ensures IsDigit(ch) && ch as int - '0' as int == d
  {
    ('0' as int + d) as char
  }

  /** Decimal rendering of a count, as Swift's string interpolation of an `Int` writes it. */
  function DecimalString(n: nat): (s: string)
    ensures |s| >= 1
    ensures forall i :: 0 <= i < |s| ==> IsDigit(s[i])
    ensures |s| > 1 ==> s[0] != '0'
    decreases n
  {
    if n < 10 then [DigitChar(n)] else DecimalString(n / 10) + [DigitChar(n % 10)]
  }

  /** Reads a string of decimal digits back as a number (the reference reading of a count). */
  function ParseDecimal(s: string): (n: nat)
    requires forall i :: 0 <= i < |s| ==> IsDigit(s[i])
  {
    if s == [] then 0
    else
      assert IsDigit(s[|s| - 1]);
      ParseDecimal(s[..|s| - 1]) * 10 + (s[|s| - 1] as int - '0' as int)
  }

  lemma {:induction false} ParseDecimalString(n: nat)
    ensures ParseDecimal(DecimalString(n)) == n
    decreases n
  {
    if n >= 10 {
      var s := DecimalString(n);
      assert s[..|s| - 1] == DecimalString(n / 10);
      ParseDecimalString(n / 10);
    }
  }

  /** `updateSharedPhotoCountLabel`: "<count> photos selected" while sharing, empty otherwise. */
  function ShareLabelText(sharing: bool, count: nat): (text: string)
    ensures text == "" <==> !sharing
    ensures sharing ==> |text| > |Suffix| && text[|text| - |Suffix|..] == Suffix
  {
    if sharing then DecimalString(count) + Suffix else ""
  }

  /** While sharing, the label is the count's digits followed by the suffix, and the count can be read back from it. */
  lemma ShareLabelReadsBack(count: nat)
    ensures |ShareLabelText(true, count)| > |Suffix|
    ensures ShareLabelText(true, count)[|ShareLabelText(true, count)| - |Suffix|..] == Suffix
    ensures var digits := ShareLabelText(true, count)[..|ShareLabelText(true, count)| - |Suffix|];
      (forall i :: 0 <= i < |digits| ==> IsDigit(digits[i])) && ParseDecimal(digits) == count
  {
    var t := ShareLabelText(true, count);
    var d := DecimalString(count);
    assert t[..|t| - |Suffix|] == d;
    assert t[|t| - |Suffix|..] == Suffix;
    ParseDecimalString(count);
  }

  /** While sharing, different counts give different labels; outside sharing the label is empty. */
  lemma ShareLabelDistinguishesCounts(m: nat, n: nat)
    ensures ShareLabelText(false, m) == ""
    ensures ShareLabelText(true, m) == ShareLabelText(true, n) <==> m == n
  {
    if ShareLabelText(true, m) == ShareLabelText(true, n) {
      ShareLabelReadsBack(m);
      ShareLabelReadsBack(n);
    }
  }
}
