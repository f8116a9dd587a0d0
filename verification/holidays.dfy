/**
 The holiday proximity scan of `get_holiday_report`: a country's holiday rows
 are walked in table order, rows already past are skipped, the walk stops at the
 first row more than four weeks out, and the rows in between are grouped by
 name into an insertion-ordered map (a Python dict in the source, an
 association list here).
 */
module Holidays {

  /**
   One row of the holiday table. `offset` is the row's date moved into the
   current year minus today, in days; the table is meant to be sorted by date,
   so offsets are meant to ascend.
   */
  datatype HolidayRow = HolidayRow(country: string, name: string, kind: string, offset: int)

  /** One value of the `nearby` dict: `[type, days until, duration]` under its holiday name. */
  datatype Nearby = Nearby(name: string, kind: string, daysUntil: int, duration: nat)

  const WindowWeeks: nat := 4
  const WindowDays: nat := WindowWeeks * 7

  predicate InWindow(r: HolidayRow) {
    0 <= r.offset <= WindowDays
  }

  /** A row that ends the scan: its date is more than `WindowDays` days ahead. */
  predicate PastWindow(r: HolidayRow) {
    r.offset > WindowDays
  }

  /** The table lookup `df.loc[df["Country"] == country]`: matching rows, in table order. */
  function RowsFor(table: seq<HolidayRow>, country: string): (rows: seq<HolidayRow>)
    ensures forall i :: 0 <= i < |rows| ==> rows[i].country == country
    ensures forall i :: 0 <= i < |table| && table[i].country == country ==> table[i] in rows
    ensures |rows| == 0 <==> forall i :: 0 <= i < |table| ==> table[i].country != country
  {
    if |table| == 0 then []
    else
      var rest := RowsFor(table[1..], country);
      assert forall i :: 1 <= i < |table| ==> table[i] == table[1..][i - 1];
      if table[0].country == country then [table[0]] + rest else rest
  }

  /** The lookup distributes over a split of the table: table order is kept across the split. */
  lemma {:induction false} RowsForAppend(a: seq<HolidayRow>, b: seq<HolidayRow>, country: string)
    ensures RowsFor(a + b, country) == RowsFor(a, country) + RowsFor(b, country)
    decreases |a|
  {
    if |a| > 0 {
      assert (a + b)[1..] == a[1..] + b;
      RowsForAppend(a[1..], b, country);
    } else {
      assert a + b == b;
    }
  }

  /**
   A single row is kept, once, exactly when it names the country. With
   `RowsForAppend` this fixes the lookup as the order- and count-preserving filter.
   */
  lemma RowsForSingle(r: HolidayRow, country: string)
    ensures RowsFor([r], country) == if r.country == country then [r] else []
  {
    assert [r][1..] == [];
  }

  // ---------------------------------------------------------------------------
  // The scan, as the source performs it
  // ---------------------------------------------------------------------------

  /** The holiday names of an accumulator, in insertion order. */
  function Keys(acc: seq<Nearby>): seq<string> {
    seq(|acc|, i requires 0 <= i < |acc| => acc[i].name)
  }

  /** Position of `name` in the accumulator, or -1: the dict's `holiday in nearby`. */
  function IndexOf(acc: seq<Nearby>, name: string): (k: int)
    ensures -1 <= k < |acc|
    ensures k >= 0 ==> acc[k].name == name
    ensures k < 0 <==> name !in Keys(acc)
  {
    if |acc| == 0 then -1
    else if acc[0].name == name then
      assert Keys(acc)[0] == name;
      0
    else
      var k := IndexOf(acc[1..], name);
      assert Keys(acc) == [acc[0].name] + Keys(acc[1..]);
      if k < 0 then -1 else k + 1
  }

  /**
   Adds one in-window row: a name already present gets one more day of
   duration, a new name is appended with the row's type and offset.
   */
  function Record(acc: seq<Nearby>, r: HolidayRow): seq<Nearby> {
    var k := IndexOf(acc, r.name);
    if k >= 0 then acc[k := acc[k].(duration := acc[k].duration + 1)]
    else acc + [Nearby(r.name, r.kind, r.offset, 1)]
  }

  /** The `for` loop of the source over the remaining rows, with its `continue` and `break`. */
  function ScanFrom(acc: seq<Nearby>, rows: seq<HolidayRow>): seq<Nearby>
    decreases |rows|
  {
    if |rows| == 0 then acc
    else if rows[0].offset < 0 then ScanFrom(acc, rows[1..])
    else if PastWindow(rows[0]) then acc
    else ScanFrom(Record(acc, rows[0]), rows[1..])
  }

  // ---------------------------------------------------------------------------
  // The reference description of what the scan keeps
  // ---------------------------------------------------------------------------

  /** How many rows the scan looks at before it stops: up to the first row past the window. */
  function Cut(rows: seq<HolidayRow>): (k: nat)
    ensures k <= |rows|
    ensures forall i :: 0 <= i < k ==> !PastWindow(rows[i])
    ensures k < |rows| ==> PastWindow(rows[k])
  {
    if |rows| == 0 || PastWindow(rows[0]) then 0
    else 1 + Cut(rows[1..])
  }

  /** The rows of `s` that fall inside the window, in order. */
  function InWindowRows(s: seq<HolidayRow>): (w: seq<HolidayRow>)
    ensures forall i :: 0 <= i < |w| ==> InWindow(w[i])
    ensures forall i :: 0 <= i < |s| && InWindow(s[i]) ==> s[i] in w
    ensures forall r :: r in w ==> r in s
  {
    if |s| == 0 then []
    else
      assert forall i :: 1 <= i < |s| ==> s[i] == s[1..][i - 1];
      (if InWindow(s[0]) then [s[0]] else []) + InWindowRows(s[1..])
  }

  /** The rows that contribute to the report: in-window rows before the first row past the window. */
  function Kept(rows: seq<HolidayRow>): seq<HolidayRow> {
    InWindowRows(rows[..Cut(rows)])
  }

  /** The holiday names of a row sequence, one per row, in row order. */
  function Names(p: seq<HolidayRow>): seq<string> {
    seq(|p|, i requires 0 <= i < |p| => p[i].name)
  }

  /** The position of the first occurrence of `n` in `s`. */
  function FirstIndex(s: seq<string>, n: string): (k: nat)
    requires n in s
    ensures k < |s| && s[k] == n
    ensures forall j :: 0 <= j < k ==> s[j] != n
  {
    if s[0] == n then 0 else 1 + FirstIndex(s[1..], n)
  }

  predicate DistinctNames(acc: seq<Nearby>) {
    forall i, j :: 0 <= i < j < |acc| ==> acc[i].name != acc[j].name
  }

  /**
   The entry `e` agrees with the rows `p`: its type and days-until come from the
   first row named `e.name`, and its duration counts all rows of that name.
   */
  predicate EntryFor(e: Nearby, p: seq<HolidayRow>)
    requires e.name in Names(p)
  {
    var f := FirstIndex(Names(p), e.name);
    && e.kind == p[f].kind
    && e.daysUntil == p[f].offset
    && e.duration == multiset(Names(p))[e.name]
  }

  /** Every entry's name occurs among the rows. */
  predicate NamesFromRows(acc: seq<Nearby>, p: seq<HolidayRow>) {
    forall i :: 0 <= i < |acc| ==> acc[i].name in Names(p)
  }

  /** Every row's name has an entry. */
  predicate CoversRows(acc: seq<Nearby>, p: seq<HolidayRow>) {
    forall k :: 0 <= k < |p| ==> p[k].name in Keys(acc)
  }

  predicate AgreesWithRows(acc: seq<Nearby>, p: seq<HolidayRow>)
    requires NamesFromRows(acc, p)
  {
    forall i :: 0 <= i < |acc| ==> EntryFor(acc[i], p)
  }

  /** Entries appear in the order in which their names first appear among the rows. */
  predicate InFirstSeenOrder(acc: seq<Nearby>, p: seq<HolidayRow>)
    requires NamesFromRows(acc, p)
  {
    forall i, j :: 0 <= i < j < |acc| ==>
      FirstIndex(Names(p), acc[i].name) < FirstIndex(Names(p), acc[j].name)
  }

  /**
   `acc` is the grouping of the rows `p` by name: one entry per distinct name,
   each agreeing with `p`, in the order of the names' first appearance.
   */
  predicate Describes(acc: seq<Nearby>, p: seq<HolidayRow>) {
    && DistinctNames(acc)
    && NamesFromRows(acc, p)
    && CoversRows(acc, p)
    && AgreesWithRows(acc, p)
    && InFirstSeenOrder(acc, p)
  }

  // ---------------------------------------------------------------------------
  // The scan computes the reference grouping
  // ---------------------------------------------------------------------------

  lemma NamesAppend(p: seq<HolidayRow>, r: HolidayRow)
    ensures Names(p + [r]) == Names(p) + [r.name]
  {
  }

  lemma FirstIndexAppend(s: seq<string>, x: string, n: string)
    requires n in s
    ensures FirstIndex(s + [x], n) == FirstIndex(s, n)
  {
    var a := FirstIndex(s + [x], n);
    var b := FirstIndex(s, n);
    assert (s + [x])[b] == n;
    assert s[a] == n;
  }

  lemma FirstIndexNew(s: seq<string>, n: string)
    requires n !in s
    ensures FirstIndex(s + [n], n) == |s|
  {
  }

  /** Recording a row changes the key list only by appending a new name. */
  lemma RecordKeys(acc: seq<Nearby>, r: HolidayRow)
    ensures IndexOf(acc, r.name) >= 0 ==> Keys(Record(acc, r)) == Keys(acc)
    ensures IndexOf(acc, r.name) < 0 ==> Keys(Record(acc, r)) == Keys(acc) + [r.name]
  {
  }

  lemma RecordDistinct(acc: seq<Nearby>, r: HolidayRow)
    requires DistinctNames(acc)
    ensures DistinctNames(Record(acc, r))
  {
    if IndexOf(acc, r.name) < 0 {
      assert forall i :: 0 <= i < |acc| ==> Keys(acc)[i] == acc[i].name;
    }
  }

  lemma RecordNamesFromRows(acc: seq<Nearby>, p: seq<HolidayRow>, r: HolidayRow)
    requires NamesFromRows(acc, p)
    ensures NamesFromRows(Record(acc, r), p + [r])
  {
    RecordKeys(acc, r);
    NamesAppend(p, r);
    var acc' := Record(acc, r);
    forall i | 0 <= i < |acc'|
      ensures acc'[i].name in Names(p + [r])
    {
      assert Keys(acc')[i] == acc'[i].name;
      if i < |acc| {
        assert acc'[i].name == acc[i].name;
      }
    }
  }

  lemma RecordCoversRows(acc: seq<Nearby>, p: seq<HolidayRow>, r: HolidayRow)
    requires CoversRows(acc, p)
    ensures CoversRows(Record(acc, r), p + [r])
  {
    RecordKeys(acc, r);
    var p' := p + [r];
    forall k | 0 <= k < |p'|
      ensures p'[k].name in Keys(Record(acc, r))
    {
      if k < |p| {
        assert p'[k] == p[k];
      }
    }
  }

  /** A row whose name has no entry yet does not occur among the rows already grouped. */
  lemma NewNameIsNew(acc: seq<Nearby>, p: seq<HolidayRow>, r: HolidayRow)
    requires CoversRows(acc, p) && IndexOf(acc, r.name) < 0
    ensures r.name !in Names(p)
  {
  }

  lemma {:induction false} RecordAgrees(acc: seq<Nearby>, p: seq<HolidayRow>, r: HolidayRow)
    requires DistinctNames(acc) && NamesFromRows(acc, p) && CoversRows(acc, p)
    requires AgreesWithRows(acc, p)
    ensures NamesFromRows(Record(acc, r), p + [r])
    ensures AgreesWithRows(Record(acc, r), p + [r])
  {
    RecordNamesFromRows(acc, p, r);
    var acc' := Record(acc, r);
    var p' := p + [r];
    var k := IndexOf(acc, r.name);
    NamesAppend(p, r);
    assert multiset(Names(p')) == multiset(Names(p)) + multiset{r.name};
    forall i | 0 <= i < |acc'|
      ensures EntryFor(acc'[i], p')
    {
      if i < |acc| {
        FirstIndexAppend(Names(p), r.name, acc[i].name);
        assert EntryFor(acc[i], p);
        if i != k {
          assert acc[i].name != r.name;
        }
      } else {
        NewNameIsNew(acc, p, r);
        FirstIndexNew(Names(p), r.name);
      }
    }
  }

  lemma {:induction false} RecordOrdered(acc: seq<Nearby>, p: seq<HolidayRow>, r: HolidayRow)
    requires NamesFromRows(acc, p) && CoversRows(acc, p)
    requires InFirstSeenOrder(acc, p)
    ensures NamesFromRows(Record(acc, r), p + [r])
    ensures InFirstSeenOrder(Record(acc, r), p + [r])
  {
    RecordNamesFromRows(acc, p, r);
    var acc' := Record(acc, r);
    var p' := p + [r];
    NamesAppend(p, r);
    forall i | 0 <= i < |acc|
      ensures FirstIndex(Names(p'), acc'[i].name) == FirstIndex(Names(p), acc[i].name)
    {
      FirstIndexAppend(Names(p), r.name, acc[i].name);
    }
    if IndexOf(acc, r.name) < 0 {
      NewNameIsNew(acc, p, r);
      FirstIndexNew(Names(p), r.name);
    }
  }

  lemma RecordDescribes(acc: seq<Nearby>, p: seq<HolidayRow>, r: HolidayRow)
    requires Describes(acc, p)
    ensures Describes(Record(acc, r), p + [r])
  {
    RecordDistinct(acc, r);
    RecordCoversRows(acc, p, r);
    RecordAgrees(acc, p, r);
    RecordOrdered(acc, p, r);
  }

  /** One step of `Kept`, following the three branches of the loop body. */
  lemma KeptStep(rows: seq<HolidayRow>)
    requires |rows| > 0
    ensures PastWindow(rows[0]) ==> Kept(rows) == []
    ensures rows[0].offset < 0 ==> Kept(rows) == Kept(rows[1..])
    ensures InWindow(rows[0]) ==> Kept(rows) == [rows[0]] + Kept(rows[1..])
  {
    if !PastWindow(rows[0]) {
      assert rows[..Cut(rows)] == [rows[0]] + rows[1..][..Cut(rows[1..])];
      assert ([rows[0]] + rows[1..][..Cut(rows[1..])])[1..] == rows[1..][..Cut(rows[1..])];
    }
  }

  lemma {:induction false} ScanDescribes(acc: seq<Nearby>, p: seq<HolidayRow>, rows: seq<HolidayRow>)
    requires Describes(acc, p)
    ensures Describes(ScanFrom(acc, rows), p + Kept(rows))
    decreases |rows|
  {
    if |rows| == 0 {
      assert p + Kept(rows) == p;
    } else if rows[0].offset < 0 {
      assert p + Kept(rows) == p + Kept(rows[1..]) by {
        KeptStep(rows);
      }
      ScanDescribes(acc, p, rows[1..]);
    } else if PastWindow(rows[0]) {
      assert p + Kept(rows) == p by {
        KeptStep(rows);
      }
    } else {
      var acc' := Record(acc, rows[0]);
      var p' := p + [rows[0]];
      assert ScanFrom(acc, rows) == ScanFrom(acc', rows[1..]);
      assert p + Kept(rows) == p' + Kept(rows[1..]) by {
        KeptStep(rows);
      }
      RecordDescribes(acc, p, rows[0]);
      ScanDescribes(acc', p', rows[1..]);
    }
  }

  /** The grouping has one entry per distinct name of the rows it describes. */
  lemma DescribesEmpty(acc: seq<Nearby>, p: seq<HolidayRow>)
    requires Describes(acc, p)
    ensures |acc| == 0 <==> |p| == 0
  {
    if |p| > 0 {
      assert p[0].name in Keys(acc);
    }
    if |acc| > 0 {
      assert acc[0].name in Names(p);
    }
  }

  /** Every entry takes its days-until from one of the rows, so it lies in the window when they all do. */
  lemma DescribesWithinWindow(acc: seq<Nearby>, p: seq<HolidayRow>)
    requires Describes(acc, p)
    requires forall k :: 0 <= k < |p| ==> InWindow(p[k])
    ensures forall i :: 0 <= i < |acc| ==> 0 <= acc[i].daysUntil <= WindowDays
  {
    forall i | 0 <= i < |acc|
      ensures 0 <= acc[i].daysUntil <= WindowDays
    {
      assert EntryFor(acc[i], p);
      assert InWindow(p[FirstIndex(Names(p), acc[i].name)]);
    }
  }

  /** The grouping the scan builds from scratch describes the kept rows. */
  lemma ScanDescribesKept(rows: seq<HolidayRow>)
    ensures Describes(ScanFrom([], rows), Kept(rows))
  {
    ScanDescribes([], [], rows);
    assert [] + Kept(rows) == Kept(rows);
  }

  /**
   The `nearby` dict built by `get_holiday_report`: the grouping, by name, of the
   kept rows, every entry between 0 and `WindowDays` days away.
   */
  function NearbyHolidays(rows: seq<HolidayRow>): (acc: seq<Nearby>)
    ensures Describes(acc, Kept(rows))
    ensures forall i :: 0 <= i < |acc| ==> 0 <= acc[i].daysUntil <= WindowDays
    ensures |acc| == 0 <==> |Kept(rows)| == 0
  {
    ScanDescribesKept(rows);
    DescribesEmpty(ScanFrom([], rows), Kept(rows));
    DescribesWithinWindow(ScanFrom([], rows), Kept(rows));
    ScanFrom([], rows)
  }

  // ---------------------------------------------------------------------------
  // Early exit and skipping
  // ---------------------------------------------------------------------------

  /** Nothing after the first row beyond the window is looked at, in-window or not. */
  lemma {:induction false} ScanStopsAtPastWindow(acc: seq<Nearby>, rows: seq<HolidayRow>, r: HolidayRow, tail: seq<HolidayRow>)
    requires PastWindow(r)
    ensures ScanFrom(acc, rows + [r] + tail) == ScanFrom(acc, rows)
    decreases |rows|
  {
    var all := rows + [r] + tail;
    if |rows| == 0 {
      assert all[0] == r;
    } else {
      assert all[0] == rows[0];
      assert all[1..] == rows[1..] + [r] + tail;
      if rows[0].offset < 0 {
        ScanStopsAtPastWindow(acc, rows[1..], r, tail);
      } else if !PastWindow(rows[0]) {
        ScanStopsAtPastWindow(Record(acc, rows[0]), rows[1..], r, tail);
      }
    }
  }

  lemma NearbyStopsAtPastWindow(rows: seq<HolidayRow>, r: HolidayRow, tail: seq<HolidayRow>)
    requires PastWindow(r)
    ensures NearbyHolidays(rows + [r] + tail) == NearbyHolidays(rows)
  {
    ScanStopsAtPastWindow([], rows, r, tail);
  }

  /** A row already in the past is skipped without ending the scan, wherever it stands. */
  lemma {:induction false} ScanSkipsPastDate(acc: seq<Nearby>, before: seq<HolidayRow>, r: HolidayRow, after: seq<HolidayRow>)
    requires r.offset < 0
    ensures ScanFrom(acc, before + [r] + after) == ScanFrom(acc, before + after)
    decreases |before|
  {
    var with := before + [r] + after;
    var without := before + after;
    if |before| == 0 {
      assert with[0] == r && with[1..] == without;
    } else {
      assert with[0] == before[0] && without[0] == before[0];
      assert with[1..] == before[1..] + [r] + after;
      assert without[1..] == before[1..] + after;
      if before[0].offset < 0 {
        ScanSkipsPastDate(acc, before[1..], r, after);
      } else if !PastWindow(before[0]) {
        ScanSkipsPastDate(Record(acc, before[0]), before[1..], r, after);
      }
    }
  }

  lemma NearbySkipsPastDate(before: seq<HolidayRow>, r: HolidayRow, after: seq<HolidayRow>)
    requires r.offset < 0
    ensures NearbyHolidays(before + [r] + after) == NearbyHolidays(before + after)
  {
    ScanSkipsPastDate([], before, r, after);
  }

  // ---------------------------------------------------------------------------
  // The early exit is sound exactly for date-sorted rows
  // ---------------------------------------------------------------------------

  predicate SortedByOffset(rows: seq<HolidayRow>) {
    forall i, j :: 0 <= i < j < |rows| ==> rows[i].offset <= rows[j].offset
  }

  lemma {:induction false} InWindowRowsAppend(a: seq<HolidayRow>, b: seq<HolidayRow>)
    ensures InWindowRows(a + b) == InWindowRows(a) + InWindowRows(b)
    decreases |a|
  {
    if |a| == 0 {
      assert a + b == b;
    } else {
      assert (a + b)[0] == a[0];
      assert (a + b)[1..] == a[1..] + b;
      InWindowRowsAppend(a[1..], b);
    }
  }

  lemma {:induction false} InWindowRowsNone(s: seq<HolidayRow>)
    requires forall i :: 0 <= i < |s| ==> PastWindow(s[i])
    ensures InWindowRows(s) == []
    decreases |s|
  {
    if |s| > 0 {
      InWindowRowsNone(s[1..]);
    }
  }

  lemma SortedStaysPast(rows: seq<HolidayRow>, k: nat)
    requires SortedByOffset(rows) && k < |rows| && PastWindow(rows[k])
    ensures forall i :: 0 <= i < |rows[k..]| ==> PastWindow(rows[k..][i])
  {
    forall i | k <= i < |rows|
      ensures PastWindow(rows[i])
    {
      assert rows[k].offset <= rows[i].offset;
    }
  }

  /**
   When the rows ascend by date, stopping early loses nothing: the kept rows are
   all the in-window rows.
   */
  lemma SortedKeepsWholeWindow(rows: seq<HolidayRow>)
    requires SortedByOffset(rows)
    ensures Kept(rows) == InWindowRows(rows)
  {
    var k := Cut(rows);
    var tail := rows[k..];
    assert rows == rows[..k] + tail;
    if k < |rows| {
      SortedStaysPast(rows, k);
    }
    InWindowRowsAppend(rows[..k], tail);
    InWindowRowsNone(tail);
    assert InWindowRows(rows[..k]) + [] == InWindowRows(rows[..k]);
  }

  /** Unsorted rows: a holiday five days out is lost behind one thirty days out. */
  lemma UnsortedRowsCanBeMissed()
    ensures var rows := [HolidayRow("x", "Late", "public", 30), HolidayRow("x", "Soon", "public", 5)];
      Kept(rows) == [] && InWindowRows(rows) == [rows[1]] && NearbyHolidays(rows) == []
  {
    var rows := [HolidayRow("x", "Late", "public", 30), HolidayRow("x", "Soon", "public", 5)];
    assert rows[1..][1..] == [];
  }

  // ---------------------------------------------------------------------------
  // One entry per distinct name
  // ---------------------------------------------------------------------------

  function NameSet(acc: seq<Nearby>): set<string> {
    set i | 0 <= i < |acc| :: acc[i].name
  }

  lemma {:induction false} DistinctNamesCount(acc: seq<Nearby>)
    requires DistinctNames(acc)
    ensures |NameSet(acc)| == |acc|
    decreases |acc|
  {
    if |acc| > 0 {
      var rest := acc[1..];
      DistinctNamesCount(rest);
      assert NameSet(acc) == {acc[0].name} + NameSet(rest) by {
        forall n | n in NameSet(acc)
          ensures n in {acc[0].name} + NameSet(rest)
        {
          var i :| 0 <= i < |acc| && acc[i].name == n;
          if i > 0 {
            assert rest[i - 1].name == n;
          }
        }
      }
      assert acc[0].name !in NameSet(rest);
    }
  }

  /** The grouping has exactly as many entries as the rows have distinct names. */
  lemma DescribesCountsDistinctNames(acc: seq<Nearby>, p: seq<HolidayRow>)
    requires Describes(acc, p)
    ensures |acc| == |set k | 0 <= k < |p| :: p[k].name|
  {
    DistinctNamesCount(acc);
    var rowNames := set k | 0 <= k < |p| :: p[k].name;
    forall n | n in NameSet(acc)
      ensures n in rowNames
    {
      var i :| 0 <= i < |acc| && acc[i].name == n;
      var f := FirstIndex(Names(p), n);
      assert p[f].name == n;
    }
    forall n | n in rowNames
      ensures n in NameSet(acc)
    {
      var k :| 0 <= k < |p| && p[k].name == n;
      assert p[k].name in Keys(acc);
      var i :| 0 <= i < |acc| && Keys(acc)[i] == n;
      assert acc[i].name == n;
    }
    assert NameSet(acc) == rowNames;
  }

  // ---------------------------------------------------------------------------
  // Worked cases
  // ---------------------------------------------------------------------------

  /** Three days of one holiday at offsets 5, 6 and 7 become one entry lasting three days. */
  lemma ThreeDayHoliday()
    ensures NearbyHolidays([HolidayRow("x", "Fest", "public", 5), HolidayRow("x", "Fest", "public", 6),
                            HolidayRow("x", "Fest", "public", 7)])
         == [Nearby("Fest", "public", 5, 3)]
  {
  }

  /** Grouping is by name, not by adjacency: a repeated name further down still extends its entry. */
  lemma GroupingIsByName()
    ensures NearbyHolidays([HolidayRow("x", "A", "public", 1), HolidayRow("x", "B", "local", 2),
                            HolidayRow("x", "A", "public", 3)])
         == [Nearby("A", "public", 1, 2), Nearby("B", "local", 2, 1)]
  {
  }
}
