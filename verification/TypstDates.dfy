/** Calendar dates in caller data: `parse_date` of `src/typst_value.rs`. */
module TypstDates {
  import opened Wrappers
  import opened Numerals
  import opened Texts
  import opened TypstValues

  const I32_MAX := 0x7FFF_FFFF
  const U8_MAX := 255

  function ParseDate(text: string): Option<TypstValue> {
    var parts := Split(text, '-');
    if |parts| != 3 then None
    else
      match (ParseUnsigned(parts[0], I32_MAX), ParseUnsigned(parts[1], U8_MAX), ParseUnsigned(parts[2], U8_MAX))
      case (Some(year), Some(month), Some(day)) =>
        if InDateRange(month, day) then Some(Date(year, month, day)) else None
      case _ => None
  }

  function Zeros(k: nat): (s: string)
    ensures |s| == k && forall c :: c in s ==> c == '0'
  {
    if k == 0 then "" else Zeros(k - 1) + "0"
  }

  lemma {:induction false} LeadingZeros(k: nat, s: string)
    ensures Value(Zeros(k) + s, 10) == Value(s, 10)
    decreases k + |s|
  {
    var t := Zeros(k) + s;
    if s != "" {
      assert t[..|t| - 1] == Zeros(k) + s[..|s| - 1];
      LeadingZeros(k, s[..|s| - 1]);
    } else if k > 0 {
      assert t == Zeros(k) && t[..|t| - 1] == Zeros(k - 1) + "";
      LeadingZeros(k - 1, "");
    }
  }

  function Padded(k: nat, n: nat): string {
    Zeros(k) + Decimal(n)
  }

  lemma PaddedNumberIsParsed(k: nat, n: nat, max: nat)
    requires n <= max
    ensures ParseUnsigned(Padded(k, n), max) == Some(n) && Lacks(Padded(k, n), '-')
  {
    ValueOfNumeral(n, 10);
    LeadingZeros(k, Decimal(n));
    var text := Padded(k, n);
    forall c | c in text ensures IsDigit(c, 10) && c != '-' && c != '+' {
      assert c in Zeros(k) || c in Decimal(n);
    }
    assert text[0] in text;
  }

  /** Every date in range is accepted in the documented form, with any zero padding. The
      day is only held to 31, whatever the month. */
  lemma DateTextIsParsed(year: nat, month: nat, day: nat, y: nat, m: nat, d: nat)
    requires year <= I32_MAX && 1 <= month <= 12 && 1 <= day <= 31
    ensures (ParseDate(Padded(y, year) + "-" + (Padded(m, month) + "-" + Padded(d, day)))
             == Some(Date(year, month, day)))
  {
    var a, b, c := Padded(y, year), Padded(m, month), Padded(d, day);
    PaddedNumberIsParsed(y, year, I32_MAX);
    PaddedNumberIsParsed(m, month, U8_MAX);
    PaddedNumberIsParsed(d, day, U8_MAX);
    SplitFirst(a, b + "-" + c, '-');
    SplitFirst(b, c, '-');
    SplitFirst(c, "", '-');
  }

  /** What is accepted is exactly three dash-free numbers in range; so a date taken from
      caller data always has a literal, and never a negative year. */
  lemma ParsedDateIsExact(text: string, v: TypstValue)
    ensures ParseDate(text) == Some(v) ==>
              v.Date? && ToSource(v).Ok? && 0 <= v.year <= I32_MAX
    ensures ParseDate(text).Some? <==>
            exists a: string, b: string, c: string ::
              && text == a + "-" + (b + "-" + c)
              && DateParts(a, b, c)
  {
    JoinOfSplit(text, '-');
    var parts := Split(text, '-');
    if ParseDate(text).Some? {
      assert parts[0] in parts && parts[1] in parts && parts[2] in parts;
      assert parts[1..] == [parts[1], parts[2]] && parts[2..] == [parts[2]];
      assert Join(parts[1..], '-') == parts[1] + "-" + parts[2];
      assert DateParts(parts[0], parts[1], parts[2]);
    }
    forall a: string, b: string, c: string | text == a + "-" + (b + "-" + c) && DateParts(a, b, c)
      ensures ParseDate(text).Some?
    {
      SplitFirst(a, b + "-" + c, '-');
      SplitFirst(b, c, '-');
      SplitFirst(c, "", '-');
    }
  }

  predicate DateParts(a: string, b: string, c: string) {
    && Lacks(a, '-') && Lacks(b, '-') && Lacks(c, '-')
    && ParseUnsigned(a, I32_MAX).Some?
    && ParseUnsigned(b, U8_MAX).Some? && 1 <= ParseUnsigned(b, U8_MAX).value <= 12
    && ParseUnsigned(c, U8_MAX).Some? && 1 <= ParseUnsigned(c, U8_MAX).value <= 31
  }
}
