/** The tenure label of App.tsx: a whole-month count rendered as years and months
    (`memberYearsText`, and the same code again inside `calculateAwards`). */
module Tenure {
  import opened Types
  import opened Text

  /** The label for a tenure of zero months. */
  const UnderAMonth := "1개월 미만"

  /** The label for a whole-month count: `{years}년` when there are whole years,
      `{months}개월` when there are leftover months, a space between the two when
      both appear, and `1개월 미만` for zero. */
  function TenureLabel(totalMonths: nat): (s: string)
    ensures s != []
  {
    if totalMonths == 0 then UnderAMonth else Segments(totalMonths / 12, totalMonths % 12)
  }

  /** The year and month parts of a label, each shown only when nonzero. */
  function Segments(years: nat, months: nat): string {
    if years > 0 && months > 0 then NatToString(years) + ("년 " + (NatToString(months) + "개월"))
    else if years > 0 then NatToString(years) + "년"
    else if months > 0 then NatToString(months) + "개월"
    else ""
  }

  /** `memberYearsText`: `"0"` while no join date is entered or when it does not
      parse (`elapsed` is None, the NaN of JavaScript), otherwise the tenure label
      of the elapsed whole months. */
  function MemberYearsText(joinDate: string, elapsed: Option<nat>): (text: string)
    ensures text == "0" <==> joinDate == "" || elapsed == None
    ensures joinDate != "" && elapsed.Some? ==> text == TenureLabel(elapsed.value) && ParseLabel(text) == elapsed
  {
    if joinDate == "" then "0"
    else if elapsed == None then "0"
    else
      LabelRoundTrip(elapsed.value);
      TenureLabel(elapsed.value)
  }

  /** Reads a label back into the month count it denotes: `1개월 미만`, or a number
      followed by `년`, by `개월`, or by `년 ` and a second number followed by `개월`.
      Only the labels TenureLabel writes are read: numbers carry no leading zero, and
      a months number lies between 1 and 11. */
  function ParseLabel(s: string): Option<nat> {
    if s == UnderAMonth then Some(0)
    else if s == [] || !IsDigit(s[0]) || s[0] == '0' then None
    else
      var r := ScanDigits(0, s);
      AfterNumber(r.0, r.1)
  }

  /** What may follow the first number n of a label. */
  function AfterNumber(n: nat, rest: string): Option<nat> {
    if rest == "년" then Some(12 * n)
    else if rest == "개월" then (if n < 12 then Some(n) else None)
    else if |rest| > 2 && rest[0] == '년' && rest[1] == ' ' then
      var months := ReadMonths(rest[2..]);
      if months.Some? then Some(12 * n + months.value) else None
    else None
  }

  /** A number from 1 to 11 without a leading zero, followed by `개월` and nothing else. */
  function ReadMonths(s: string): Option<nat> {
    if s == [] || !IsDigit(s[0]) || s[0] == '0' then None
    else
      var r := ScanDigits(0, s);
      if r.1 == "개월" && r.0 < 12 then Some(r.0) else None
  }

  /** A label that starts with a number is read by what follows that number. The
      last-character condition keeps `d + t` apart from `1개월 미만`, which also starts
      with a digit and ends in `만`, whereas every other label ends in `년` or `월`. */
  lemma ParseNumberThen(d: string, t: string)
    requires d != [] && AllDigits(d) && d[0] != '0' && t != [] && !IsDigit(t[0])
    requires t[|t| - 1] != UnderAMonth[|UnderAMonth| - 1]
    ensures ParseLabel(d + t) == AfterNumber(AppendDigits(0, d), t)
  {
    var s := d + t;
    assert s[0] == d[0] && s[|s| - 1] == t[|t| - 1];
    ScanDigitsThen(0, d, t);
  }

  lemma ReadMonthsOf(m: string)
    requires m != [] && AllDigits(m) && m[0] != '0' && AppendDigits(0, m) < 12
    ensures ReadMonths(m + "개월") == Some(AppendDigits(0, m))
  {
    assert (m + "개월")[0] == m[0];
    ScanDigitsThen(0, m, "개월");
  }

  lemma AfterYearsAndMonths(n: nat, m: string)
    requires m != [] && AllDigits(m) && m[0] != '0' && AppendDigits(0, m) < 12
    ensures AfterNumber(n, "년 " + (m + "개월")) == Some(12 * n + AppendDigits(0, m))
  {
    var rest := "년 " + (m + "개월");
    assert rest[0] == '년' && rest[1] == ' ' && rest[2..] == m + "개월";
    ReadMonthsOf(m);
  }

  lemma RoundTripYearsAndMonths(years: nat, months: nat)
    requires years > 0 && 0 < months < 12
    ensures ParseLabel(Segments(years, months)) == Some(12 * years + months)
  {
    AppendDigitsOfNatToString(years);
    AppendDigitsOfNatToString(months);
    ParseYearsAndMonths(NatToString(years), NatToString(months));
  }

  lemma ParseYearsAndMonths(y: string, m: string)
    requires y != [] && AllDigits(y) && y[0] != '0'
    requires m != [] && AllDigits(m) && m[0] != '0' && AppendDigits(0, m) < 12
    ensures ParseLabel(y + ("년 " + (m + "개월"))) == Some(12 * AppendDigits(0, y) + AppendDigits(0, m))
  {
    var rest := "년 " + (m + "개월");
    YearsAndMonthsRest(m);
    ParseNumberThen(y, rest);
    AfterYearsAndMonths(AppendDigits(0, y), m);
  }

  lemma YearsAndMonthsRest(m: string)
    ensures var rest := "년 " + (m + "개월");
      rest != [] && !IsDigit(rest[0]) && rest[|rest| - 1] != UnderAMonth[|UnderAMonth| - 1]
  {
    var rest := "년 " + (m + "개월");
    assert rest[|rest| - 1] == '월';
  }

  lemma RoundTripYears(years: nat)
    requires years > 0
    ensures ParseLabel(Segments(years, 0)) == Some(12 * years)
  {
    ParseNumberThen(NatToString(years), "년");
    AppendDigitsOfNatToString(years);
  }

  lemma RoundTripMonths(months: nat)
    requires 0 < months < 12
    ensures ParseLabel(Segments(0, months)) == Some(months)
  {
    AppendDigitsOfNatToString(months);
    ParseNumberThen(NatToString(months), "개월");
  }

  /** The year and month parts read back as the month count they stand for. */
  lemma SegmentsRoundTrip(years: nat, months: nat)
    requires (years > 0 || months > 0) && months < 12
    ensures ParseLabel(Segments(years, months)) == Some(12 * years + months)
  {
    if years > 0 && months > 0 {
      RoundTripYearsAndMonths(years, months);
    } else if years > 0 {
      RoundTripYears(years);
    } else {
      RoundTripMonths(months);
    }
  }

  /** The label determines the month count: reading it back gives the count it was made from.
      In particular no two counts share a label, and no label is the `"0"` of a missing date. */
  lemma LabelRoundTrip(totalMonths: nat)
    ensures ParseLabel(TenureLabel(totalMonths)) == Some(totalMonths)
    ensures TenureLabel(totalMonths) != "0"
  {
    if totalMonths > 0 {
      var years, months := totalMonths / 12, totalMonths % 12;
      SegmentsRoundTrip(years, months);
      assert 12 * years + months == totalMonths;
    }
    var s := TenureLabel(totalMonths);
    assert !IsDigit(s[|s| - 1]);
  }

  /** Whatever ReadMonths accepts is the rendering of a months number from 1 to 11 and `개월`. */
  lemma ReadMonthsOnly(s: string, m: nat)
    requires ReadMonths(s) == Some(m)
    ensures 0 < m < 12 && s == NatToString(m) + "개월"
  {
    ScanDigitsRun(0, s);
    var d := DigitRun(s);
    assert d[0] == s[0];
    NatToStringOfDigits(d);
    assert s == d + s[|d|..];
  }

  lemma AfterNumberOnlyLabels(n: nat, rest: string, t: nat)
    requires n >= 1 && AfterNumber(n, rest) == Some(t)
    ensures TenureLabel(t) == NatToString(n) + rest
  {
    if rest == "년" {
      assert t / 12 == n && t % 12 == 0;
    } else if rest == "개월" {
      assert t / 12 == 0 && t % 12 == n;
    } else {
      var m := ReadMonths(rest[2..]).value;
      ReadMonthsOnly(rest[2..], m);
      assert t / 12 == n && t % 12 == m;
      assert rest == "년 " + rest[2..];
    }
  }

  /** ParseLabel reads nothing but labels: whatever it reads as a month count is
      exactly the label TenureLabel writes for that count. With LabelRoundTrip, the
      labels and the month counts correspond one to one. */
  lemma OnlyLabelsRead(s: string, totalMonths: nat)
    requires ParseLabel(s) == Some(totalMonths)
    ensures s == TenureLabel(totalMonths)
  {
    if s != UnderAMonth {
      ParsedNumber(s);
      var d := DigitRun(s);
      NatToStringOfDigits(d);
      LeadingDigitValue(d);
      AfterNumberOnlyLabels(AppendDigits(0, d), s[|d|..], totalMonths);
    }
  }

  /** A label other than `1개월 미만` is read as its leading number and what follows it. */
  lemma ParsedNumber(s: string)
    requires s != UnderAMonth && ParseLabel(s).Some?
    ensures var d := DigitRun(s);
      d != [] && d[0] != '0' && s == d + s[|d|..] && ParseLabel(s) == AfterNumber(AppendDigits(0, d), s[|d|..])
  {
    ScanDigitsRun(0, s);
    var d := DigitRun(s);
    assert d[0] == s[0];
    assert s == d + s[|d|..];
  }

  /** Strings that look like labels but are not the one written for their count are refused. */
  lemma NonLabelsRefused()
    ensures ParseLabel("0년 14개월") == None
    ensures ParseLabel("1년 02개월") == None
    ensures ParseLabel("14개월") == None
  {
  }

  lemma SegmentsParts(years: nat, months: nat)
    ensures var s := Segments(years, months);
      ('년' in s <==> years > 0) && ('월' in s <==> months > 0) && (' ' in s <==> years > 0 && months > 0)
  {
    var y, m := NatToString(years), NatToString(months);
    assert forall c :: c in y ==> IsDigit(c);
    assert forall c :: c in m ==> IsDigit(c);
    assert '년' in "년" && '년' in "년 " && ' ' in "년 " && '월' in "개월";
    assert '월' !in "년" && '월' !in "년 " && ' ' !in "년" && ' ' !in "개월" && '년' !in "개월";
  }

  lemma BothNumbers(years: nat, months: nat)
    requires years > 0 && months > 0
    ensures var y, tail := NatToString(years) + "년", NatToString(months) + "개월";
      var s := Segments(years, months);
      StartsWith(s, y) && |tail| <= |s| && s[|s| - |tail|..] == tail
  {
    var y, m := NatToString(years), NatToString(months);
    var s := y + ("년 " + (m + "개월"));
    assert s == (y + "년") + (" " + (m + "개월"));
    assert s == (y + "년 ") + (m + "개월");
  }

  lemma SegmentsNumbers(years: nat, months: nat)
    ensures var s := Segments(years, months);
      (years > 0 ==> StartsWith(s, NatToString(years) + "년")) &&
      (months > 0 ==> var tail := NatToString(months) + "개월"; |tail| <= |s| && s[|s| - |tail|..] == tail)
  {
    if years > 0 && months > 0 {
      BothNumbers(years, months);
    }
  }

  /** Which parts a nonzero label shows: `{years}년` with years the whole years of the
      count exactly when there is one, `{months}개월` with months the months left over
      exactly when there are some, and the separating space exactly when both. */
  lemma LabelParts(totalMonths: nat)
    requires totalMonths > 0
    ensures var s, years, months := TenureLabel(totalMonths), totalMonths / 12, totalMonths % 12;
      ('년' in s <==> years > 0) &&
      ('월' in s <==> months > 0) &&
      (' ' in s <==> years > 0 && months > 0)
    ensures var s, years, months := TenureLabel(totalMonths), totalMonths / 12, totalMonths % 12;
      (years > 0 ==> StartsWith(s, NatToString(years) + "년")) &&
      (months > 0 ==> var tail := NatToString(months) + "개월"; |tail| <= |s| && s[|s| - |tail|..] == tail)
  {
    SegmentsParts(totalMonths / 12, totalMonths % 12);
    SegmentsNumbers(totalMonths / 12, totalMonths % 12);
  }

  /** The worked examples: 0, 14 and 24 months. */
  lemma LabelExamples()
    ensures TenureLabel(0) == "1개월 미만"
    ensures TenureLabel(14) == "1년 2개월"
    ensures TenureLabel(24) == "2년"
  {
    assert NatToString(1) == "1" && NatToString(2) == "2";
  }
}
