/**
 The passport section of `get_passport_report`: the first row for the
 destination country is classified as a canned category, the home-country
 sentinel (an integer below -1), or a number of visa-free days.
 */
module Passport {
  import opened Results
  import opened Numerals

  datatype PassportRow = PassportRow(destination: string, req: string)

  /** The `ValueError` raised by `int(req)` for a requirement that is neither a category nor an integer. */
  datatype ReportError = MalformedVisaRequirement(req: string)

  const PassportHeader: string := "Passport information:\n"

  /** The source's `response_map`, misspellings included. */
  const ResponseMap: map<string, string> := map[
    "visa free" := "This country has wisa-free travel\n",
    "visa on arrival" := "This country grants wisas on arrival (basically wisa-free)\n",
    "e-visa" := "This country accepts an e-wisa.\n",
    "visa required" := "A wisa is required to visit this country.\n",
    "covid ban" := "This country has covid restriction on people incoming from the U.S.\n",
    "no admission" := "This country is not accepting visitors.\n"
  ]

  /** The three readings of a requirement value, kept apart instead of one numeric range check. */
  datatype Requirement = Category(sentence: string) | HomeCountry | FreeDays(days: int)

  function Classify(req: string): (r: Result<Requirement, ReportError>)
    ensures (r.Success? && r.value.Category?) <==> req in ResponseMap
    ensures r.Success? && r.value.Category? ==> r.value.sentence == ResponseMap[req]
    ensures r.Failure? <==> req !in ResponseMap && ParseInt(req).None?
    ensures r.Failure? ==> r.error == MalformedVisaRequirement(req)
    ensures (r.Success? && r.value.HomeCountry?) <==> req !in ResponseMap && ParseInt(req).Some? && ParseInt(req).value < -1
    ensures r.Success? && r.value.FreeDays? ==> ParseInt(req) == Some(r.value.days) && r.value.days >= -1
  {
    if req in ResponseMap then Success(Category(ResponseMap[req]))
    else match ParseInt(req)
      case None => Failure(MalformedVisaRequirement(req))
      case Some(n) => if n < -1 then Success(HomeCountry) else Success(FreeDays(n))
  }

  /** `k` is the row `visa["req"].values[0]` reads: the first row for the country. */
  predicate FirstRowFor(table: seq<PassportRow>, country: string, k: int) {
    && 0 <= k < |table|
    && table[k].destination == country
    && forall j :: 0 <= j < k ==> table[j].destination != country
  }

  function FirstMatch(table: seq<PassportRow>, country: string): (k: int)
    ensures k < 0 <==> forall i :: 0 <= i < |table| ==> table[i].destination != country
    ensures k >= 0 ==> FirstRowFor(table, country, k)
  {
    if |table| == 0 then -1
    else if table[0].destination == country then 0
    else
      var k := FirstMatch(table[1..], country);
      assert forall i :: 1 <= i < |table| ==> table[i] == table[1..][i - 1];
      if k < 0 then -1 else k + 1
  }

  function PassportFailure(country: string): string {
    "Failed to get passport data on " + country + ".\n"
  }

  function FreeDaysSentence(req: string): string {
    "You get " + req + " wisa free days.\n"
  }

  /**
   `get_passport_report(report, country, df)`: the failure sentence when there
   is no row, the header and a sentence for a category or a day count (echoing
   the requirement text as written), the empty text for the home country, and
   an error when the requirement is neither a category nor an integer.
   */
  function PassportSection(country: string, table: seq<PassportRow>): (r: Result<string, ReportError>)
    ensures (forall i :: 0 <= i < |table| ==> table[i].destination != country) ==> r == Success(PassportFailure(country))
    ensures forall k :: FirstRowFor(table, country, k) ==>
      var req := table[k].req;
      && (req in ResponseMap ==> r == Success(PassportHeader + ResponseMap[req]))
      && (req !in ResponseMap && ParseInt(req).None? ==> r == Failure(MalformedVisaRequirement(req)))
      && (req !in ResponseMap && ParseInt(req).Some? && ParseInt(req).value < -1 ==> r == Success(""))
      && (req !in ResponseMap && ParseInt(req).Some? && ParseInt(req).value >= -1 ==>
            r == Success(PassportHeader + FreeDaysSentence(req)))
  {
    var k := FirstMatch(table, country);
    if k < 0 then Success(PassportFailure(country))
    else
      assert forall j :: FirstRowFor(table, country, j) ==> j == k;
      var req := table[k].req;
      match Classify(req)
      case Failure(e) => Failure(e)
      case Success(Category(sentence)) => Success(PassportHeader + sentence)
      case Success(HomeCountry) => Success("")
      case Success(FreeDays(_)) => Success(PassportHeader + FreeDaysSentence(req))
  }

  /** No rendered integer is mistaken for a category: every key of the map starts with a letter. */
  lemma IntegerIsNoCategory(n: int)
    ensures IntToString(n) !in ResponseMap
  {
    var s := IntToString(n);
    assert forall key :: key in ResponseMap ==> 'a' <= key[0] <= 'z';
  }

  /**
   For a requirement written as an integer `n`, the section is empty exactly
   when `n < -1` and otherwise reports `n` free days.
   */
  lemma NumericRequirement(country: string, n: int)
    requires DigitCount(IntToString(n)) <= MaxStrDigits
    ensures var section := PassportSection(country, [PassportRow(country, IntToString(n))]);
      && (n < -1 ==> section == Success(""))
      && (n >= -1 ==> section == Success(PassportHeader + FreeDaysSentence(IntToString(n))))
  {
    IntegerIsNoCategory(n);
    IntRoundTrip(n);
    assert FirstRowFor([PassportRow(country, IntToString(n))], country, 0);
  }

  /** The empty section (the home country) is never confused with any other outcome. */
  lemma EmptyOnlyForHomeCountry(country: string, table: seq<PassportRow>)
    ensures PassportSection(country, table) == Success("") <==>
      exists k :: FirstRowFor(table, country, k) && Classify(table[k].req) == Success(HomeCountry)
  {
    var k := FirstMatch(table, country);
    if k >= 0 {
      var req := table[k].req;
      assert Classify(req) == Success(HomeCountry) ==> PassportSection(country, table) == Success("");
    }
  }

  /** A requirement below -1 marks the home country: the section is dropped. */
  lemma ExampleHomeCountry(country: string)
    ensures PassportSection(country, [PassportRow(country, "-5")]) == Success("")
  {
    assert IntToString(-5) == "-5";
    assert DigitCount("-5") == DigitCount("5") == 1 by {
      assert "-5"[1..] == "5" && "5"[1..] == "";
    }
    NumericRequirement(country, -5);
  }

  /** Zero free days is reported, not dropped. */
  lemma ExampleZeroDays(country: string)
    ensures PassportSection(country, [PassportRow(country, "0")]) == Success(PassportHeader + FreeDaysSentence("0"))
  {
    assert IntToString(0) == "0";
    NumericRequirement(country, 0);
  }

  /** A requirement of more than `MaxStrDigits` digits makes `int(req)` raise. */
  lemma LongNumberIsMalformed(country: string, req: string)
    requires AllDigits(req) && |req| > MaxStrDigits
    ensures PassportSection(country, [PassportRow(country, req)]) == Failure(MalformedVisaRequirement(req))
  {
    assert FirstRowFor([PassportRow(country, req)], country, 0);
    assert req !in ResponseMap by {
      assert IsDigit(req[0]);
    }
    TooManyDigitsRejected(req);
  }

  lemma ExampleCategory(country: string)
    ensures PassportSection(country, [PassportRow(country, "visa required")])
      == Success(PassportHeader + "A wisa is required to visit this country.\n")
  {
    assert FirstRowFor([PassportRow(country, "visa required")], country, 0);
  }

  /**
   A requirement that starts with anything but whitespace, a sign or a digit
   (a category word, say) is never read as an integer.
   */
  lemma WordIsNoInteger(req: string)
    requires |req| > 0 && !IsSpace(req[0]) && !IsDigit(req[0]) && req[0] != '-' && req[0] != '+'
    ensures ParseInt(req) == None
  {
  }

  lemma ExampleMalformed(country: string)
    ensures PassportSection(country, [PassportRow(country, "abc")]) == Failure(MalformedVisaRequirement("abc"))
  {
    assert FirstRowFor([PassportRow(country, "abc")], country, 0);
    assert "abc" !in ResponseMap;
    WordIsNoInteger("abc");
  }
}
