/**
 The text of the holiday section of `get_holiday_report`: the failure sentence
 when the country has no rows, the "None" sentence when nothing is near, and
 otherwise a header followed by one numbered line per grouped holiday.
 */
module HolidayText {
  import opened Numerals
  import opened Holidays
  import opened Text

  const WithinTitle: string := "Within the next " + NatToString(WindowWeeks) + " weeks:"
  const WithinHeader: string := WithinTitle + "\n"
  const NoneTitle: string := "Holidays: None within the next " + NatToString(WindowWeeks) + " weeks"
  const NoneNearby: string := NoneTitle + "\n"

  /** The section when the table has no row for the country; the only place the name is capitalized. */
  function HolidayFailure(displayName: string): string {
    "Failed to get holiday data on " + displayName + ".\n"
  }

  function StartPhrase(daysUntil: int): string {
    if daysUntil == 0 then " starts today!" else " starts in " + IntToString(daysUntil) + " days"
  }

  function DurationPhrase(duration: nat): string {
    if duration > 1 then ". It will last for " + NatToString(duration) + " days!" else ""
  }

  /** The line for one holiday, numbered `count`. */
  function Line(count: nat, h: Nearby): string {
    NatToString(count) + ". [" + h.kind + "] " + h.name + StartPhrase(h.daysUntil) + DurationPhrase(h.duration) + "\n"
  }

  function RenderNearby(acc: seq<Nearby>): string {
    if |acc| == 0 then NoneNearby else WithinHeader + Concat(Numbered(acc, 1, Line))
  }

  /**
   `get_holiday_report(report, country, df)`, with the capitalization passed in:
   the failure sentence exactly when the table has no row for the country, the
   "None" sentence exactly when there are rows but none is kept.
   */
  function HolidaySection(country: string, capitalize: string -> string, table: seq<HolidayRow>): (r: string)
    ensures r == HolidayFailure(capitalize(country))
        <==> forall i :: 0 <= i < |table| ==> table[i].country != country
    ensures r == NoneNearby <==> |RowsFor(table, country)| > 0 && |Kept(RowsFor(table, country))| == 0
  {
    var rows := RowsFor(table, country);
    if |rows| == 0 then
      FailureIsNotNone(capitalize(country));
      HolidayFailure(capitalize(country))
    else
      var acc := NearbyHolidays(rows);
      NoneExactlyWhenEmpty(acc);
      RenderedIsNoFailure(acc, capitalize(country));
      RenderNearby(acc)
  }

  /** The failure sentence is never the "None" sentence. */
  lemma FailureIsNotNone(displayName: string)
    ensures HolidayFailure(displayName) != NoneNearby
  {
    assert HolidayFailure(displayName)[0] == 'F' != NoneNearby[0];
  }

  /** A rendered grouping is never the failure sentence. */
  lemma RenderedIsNoFailure(acc: seq<Nearby>, displayName: string)
    ensures RenderNearby(acc) != HolidayFailure(displayName)
  {
    assert HolidayFailure(displayName)[0] == 'F';
    if |acc| == 0 {
      assert RenderNearby(acc)[0] == 'H';
    } else {
      assert RenderNearby(acc)[0] == 'W';
    }
  }

  // ---------------------------------------------------------------------------
  // Line shape
  // ---------------------------------------------------------------------------

  /** A line says "starts today!" exactly for a holiday zero days away. */
  lemma StartsTodayExactlyAtZero(daysUntil: int)
    ensures StartPhrase(daysUntil) == " starts today!" <==> daysUntil == 0
  {
    if daysUntil != 0 {
      assert StartPhrase(daysUntil)[8] == 'i';
    }
  }

  /** A line gives the duration exactly for a holiday lasting more than one day. */
  lemma DurationShownExactlyWhenLonger(count: nat, h: Nearby)
    ensures EndsWith(Line(count, h), ". It will last for " + NatToString(h.duration) + " days!\n") <==> h.duration > 1
  {
    var line := Line(count, h);
    var suffix := ". It will last for " + NatToString(h.duration) + " days!\n";
    var head := NatToString(count) + ". [" + h.kind + "] " + h.name;
    if h.duration > 1 {
      assert line == head + StartPhrase(h.daysUntil) + suffix;
    } else {
      assert line == head + StartPhrase(h.daysUntil) + "\n";
      assert suffix[|suffix| - 2] == '!';
      if h.daysUntil == 0 {
        assert line[|line| - 3] == 'y';
        assert suffix[|suffix| - 3] == 's';
      } else {
        assert line[|line| - 2] == 's';
      }
    }
  }

  lemma NumeralsHaveNoBreak(n: nat, i: int)
    ensures NoLineBreak(NatToString(n)) && NoLineBreak(IntToString(i))
  {
    var s := NatToString(n);
    assert forall k :: 0 <= k < |s| ==> s[k] != '\n';
    var t := IntToString(i);
    assert forall k :: 1 <= k < |t| ==> t[k] != '\n' by {
      if i < 0 {
        var d := NatToString(-i);
        assert forall k :: 0 <= k < |d| ==> d[k] != '\n';
        assert forall k :: 1 <= k < |t| ==> t[k] == d[k - 1];
      } else {
        assert forall k :: 0 <= k < |t| ==> IsDigit(t[k]);
      }
    }
  }

  /** Each line is one line of text when the name and type carry no line break. */
  lemma LineHasOneBreak(count: nat, h: Nearby)
    requires NoLineBreak(h.name) && NoLineBreak(h.kind)
    ensures LineBreaks(Line(count, h)) == 1
  {
    NumeralsHaveNoBreak(count, h.daysUntil);
    NumeralsHaveNoBreak(h.duration, 0);
    var body := NatToString(count) + ". [" + h.kind + "] " + h.name + StartPhrase(h.daysUntil) + DurationPhrase(h.duration);
    assert NoLineBreak(StartPhrase(h.daysUntil));
    assert NoLineBreak(DurationPhrase(h.duration));
    assert NoLineBreak(body);
    OneBreak(body);
    assert Line(count, h) == body + "\n";
  }

  /** The numbered lines hold one line break per entry. */
  lemma {:induction false} NumberedLinesBreaks(acc: seq<Nearby>, count: nat)
    requires forall i :: 0 <= i < |acc| ==> NoLineBreak(acc[i].name) && NoLineBreak(acc[i].kind)
    ensures LineBreaks(Concat(Numbered(acc, count, Line))) == |acc|
    decreases |acc|
  {
    if |acc| > 0 {
      var lines := Numbered(acc, count, Line);
      assert lines[1..] == Numbered(acc[1..], count + 1, Line);
      NumberedLinesBreaks(acc[1..], count + 1);
      LineHasOneBreak(count, acc[0]);
      BreaksAppend(lines[0], Concat(lines[1..]));
    }
  }

  // ---------------------------------------------------------------------------
  // The section
  // ---------------------------------------------------------------------------

  /** The "None" sentence appears exactly when nothing was grouped. */
  lemma NoneExactlyWhenEmpty(acc: seq<Nearby>)
    ensures RenderNearby(acc) == NoneNearby <==> |acc| == 0
  {
    if |acc| > 0 {
      assert RenderNearby(acc)[0] == 'W';
    }
  }

  lemma TitleHasNoBreak(prefix: string, suffix: string)
    requires NoLineBreak(prefix) && NoLineBreak(suffix)
    ensures NoLineBreak(prefix + NatToString(WindowWeeks) + suffix)
  {
    NumeralsHaveNoBreak(WindowWeeks, 0);
  }

  lemma HeadersAreOneLine()
    ensures LineBreaks(WithinHeader) == 1 && LineBreaks(NoneNearby) == 1
  {
    TitleHasNoBreak("Within the next ", " weeks:");
    OneBreak(WithinTitle);
    TitleHasNoBreak("Holidays: None within the next ", " weeks");
    OneBreak(NoneTitle);
  }

  /** The rendered section has the header line plus one line per entry. */
  lemma RenderedLineCount(acc: seq<Nearby>)
    requires forall i :: 0 <= i < |acc| ==> NoLineBreak(acc[i].name) && NoLineBreak(acc[i].kind)
    ensures LineBreaks(RenderNearby(acc)) == |acc| + 1
  {
    HeadersAreOneLine();
    if |acc| > 0 {
      NumberedLinesBreaks(acc, 1);
      BreaksAppend(WithinHeader, Concat(Numbered(acc, 1, Line)));
    }
  }

  /**
   The section for a country with kept rows: a header and, for the `i`-th
   grouped holiday, line `i + 1`; there are as many lines as distinct names
   among the kept rows.
   */
  lemma SectionListsGrouping(country: string, capitalize: string -> string, table: seq<HolidayRow>)
    requires |RowsFor(table, country)| > 0
    ensures var rows := RowsFor(table, country);
      var acc := NearbyHolidays(rows);
      && (|acc| > 0 ==> HolidaySection(country, capitalize, table) == WithinHeader + Concat(Numbered(acc, 1, Line)))
      && |Numbered(acc, 1, Line)| == |acc| == |set k | 0 <= k < |Kept(rows)| :: Kept(rows)[k].name|
      && (forall i :: 0 <= i < |acc| ==> Numbered(acc, 1, Line)[i] == Line(1 + i, acc[i]))
  {
    var rows := RowsFor(table, country);
    var acc := NearbyHolidays(rows);
    assert HolidaySection(country, capitalize, table) == RenderNearby(acc);
    NumberedAt(acc, 1, Line);
    assert Describes(acc, Kept(rows));
    DescribesCountsDistinctNames(acc, Kept(rows));
  }

  lemma CanadaDayEntryLine()
    ensures Line(1, Nearby("Canada Day", "public", 10, 1)) == "1. [public] Canada Day starts in 10 days\n"
  {
    assert Line(1, Nearby("Canada Day", "public", 10, 1))
        == "1" + ". [" + "public" + "] " + "Canada Day" + " starts in 10 days" + "" + "\n" by {
      assert NatToString(1) == "1";
      assert StartPhrase(10) == " starts in 10 days" by {
        assert IntToString(10) == "10";
      }
    }
    CanadaDayText();
  }

  /** The pieces of the example line, joined, spell the line exactly as the user reads it. */
  lemma CanadaDayText()
    ensures "1" + ". [" + "public" + "] " + "Canada Day" + " starts in 10 days" + "" + "\n"
         == "1. [public] Canada Day starts in 10 days\n"
  {
  }

  lemma CanadaDayRendered()
    ensures RenderNearby([Nearby("Canada Day", "public", 10, 1)])
         == "Within the next 4 weeks:\n" + "1. [public] Canada Day starts in 10 days\n"
  {
    var e := Nearby("Canada Day", "public", 10, 1);
    assert Concat(Numbered([e], 1, Line)) == Line(1, e) by {
      assert Numbered([e], 1, Line) == [Line(1, e)];
    }
    assert WithinHeader == "Within the next 4 weeks:\n" by {
      assert NatToString(4) == "4";
    }
    CanadaDayEntryLine();
  }

  /** A single public holiday ten days out. */
  lemma CanadaDayLine(capitalize: string -> string)
    ensures HolidaySection("canada", capitalize, [HolidayRow("canada", "Canada Day", "public", 10)])
         == "Within the next 4 weeks:\n" + "1. [public] Canada Day starts in 10 days\n"
  {
    var table := [HolidayRow("canada", "Canada Day", "public", 10)];
    assert RowsFor(table, "canada") == table;
    assert NearbyHolidays(table) == [Nearby("Canada Day", "public", 10, 1)];
    CanadaDayRendered();
  }
}
