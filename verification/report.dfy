/**
 The report assembled by `lambda_handler`: a header naming the capitalized
 country, the four sections in fixed order each followed by a line break, and
 the footer. The population and covid sections are not modelled; they come in
 as functions of the normalized country name, as do case folding and
 capitalization.
 */
module TravelReport {
  import opened Results
  import opened Holidays
  import opened HolidayText
  import opened Passport

  const Footer: string := "\n*nan represents unavailable data"

  function ReportHeader(displayName: string): string {
    "Travel Report on " + displayName + ":\n\n"
  }

  /** The external collaborators of the composer, passed in instead of called. */
  datatype Collaborators = Collaborators(
    lower: string -> string,
    capitalize: string -> string,
    population: string -> string,
    covid: string -> string)

  /** The tables the report reads, already loaded. */
  datatype Tables = Tables(holidays: seq<HolidayRow>, passports: seq<PassportRow>)

  /**
   `r` reads back as the report layout: the header, then the holiday,
   passport, population and covid sections each followed by a line break,
   then the footer.
   */
  predicate LaidOut(r: string, header: string, holiday: string, passport: string, population: string, covid: string, footer: string) {
    var a := |header|;
    var b := a + |holiday|;
    var c := b + 1 + |passport|;
    var d := c + 1 + |population|;
    var e := d + 1 + |covid|;
    && |r| == e + 1 + |footer|
    && r[..a] == header
    && r[a..b] == holiday && r[b] == '\n'
    && r[b + 1..c] == passport && r[c] == '\n'
    && r[c + 1..d] == population && r[d] == '\n'
    && r[d + 1..e] == covid && r[e] == '\n'
    && r[e + 1..] == footer
  }

  /** The text after the holiday section, read back piece by piece. */
  predicate TailLaidOut(t: string, passport: string, population: string, covid: string, footer: string) {
    var c := 1 + |passport|;
    var d := c + 1 + |population|;
    var e := d + 1 + |covid|;
    && |t| == e + 1 + |footer|
    && t[0] == '\n'
    && t[1..c] == passport && t[c] == '\n'
    && t[c + 1..d] == population && t[d] == '\n'
    && t[d + 1..e] == covid && t[e] == '\n'
    && t[e + 1..] == footer
  }

  /** The fixed-order concatenation: header, the four sections each followed by a line break, footer. */
  function Assemble(header: string, holiday: string, passport: string, population: string, covid: string): (r: string)
    ensures LaidOut(r, header, holiday, passport, population, covid, Footer)
  {
    header + (holiday + AfterHoliday(passport, population, covid))
  }

  /** Everything the report holds after the holiday section. */
  function AfterHoliday(passport: string, population: string, covid: string): (t: string)
    ensures TailLaidOut(t, passport, population, covid, Footer)
  {
    "\n" + (passport + ("\n" + (population + ("\n" + (covid + ("\n" + Footer))))))
  }

  /** The layout leaves no freedom: two texts laid out from the same pieces are equal. */
  lemma LayoutIsUnique(r: string, r': string, header: string, holiday: string,
                       passport: string, population: string, covid: string, footer: string)
    requires LaidOut(r, header, holiday, passport, population, covid, footer)
    requires LaidOut(r', header, holiday, passport, population, covid, footer)
    ensures r == r'
  {
    var a := |header|;
    var b := a + |holiday|;
    var c := b + 1 + |passport|;
    var d := c + 1 + |population|;
    var e := d + 1 + |covid|;
    forall i | 0 <= i < |r|
      ensures r[i] == r'[i]
    {
      if i < a {
        assert r[i] == r[..a][i] && r'[i] == r'[..a][i];
      } else if i < b {
        assert r[i] == r[a..b][i - a] && r'[i] == r'[a..b][i - a];
      } else if i == b || i == c || i == d || i == e {
      } else if i < c {
        assert r[i] == r[b + 1..c][i - b - 1] && r'[i] == r'[b + 1..c][i - b - 1];
      } else if i < d {
        assert r[i] == r[c + 1..d][i - c - 1] && r'[i] == r'[c + 1..d][i - c - 1];
      } else if i < e {
        assert r[i] == r[d + 1..e][i - d - 1] && r'[i] == r'[d + 1..e][i - d - 1];
      } else {
        assert r[i] == r[e + 1..][i - e - 1] && r'[i] == r'[e + 1..][i - e - 1];
      }
    }
  }

  /**
   `s` and `s'` agree everywhere except on a slice starting at `at`, `n`
   characters long in `s` and `n'` characters long in `s'`.
   */
  predicate AgreeOutside(s: string, s': string, at: nat, n: nat, n': nat)
  {
    && at + n <= |s| && at + n' <= |s'|
    && s[..at] == s'[..at]
    && s[at + n..] == s'[at + n'..]
  }

  /**
   The report from its sections: an error from the passport section is not
   caught in the source, so it ends the whole request; otherwise the sections
   are laid out in their fixed order.
   */
  function Compose(header: string, holiday: string, passport: Result<string, ReportError>,
                   population: string, covid: string): (r: Result<string, ReportError>)
    ensures r.Failure? <==> passport.Failure?
    ensures r.Failure? ==> r.error == passport.error
    ensures r.Success? ==> LaidOut(r.value, header, holiday, passport.value, population, covid, Footer)
  {
    match passport
    case Failure(e) => Failure(e)
    case Success(p) => Success(Assemble(header, holiday, p, population, covid))
  }

  /**
   `lambda_handler`'s report for the requested country: the country is
   lower-cased once, the header and the holiday failure sentence show it
   capitalized, and the sections are computed from the tables.
   */
  function ComposeReport(requested: string, env: Collaborators, tables: Tables): (r: Result<string, ReportError>)
    ensures var country := env.lower(requested);
      var passport := PassportSection(country, tables.passports);
      && (r.Failure? <==> passport.Failure?)
      && (r.Failure? ==> r.error == passport.error)
      && (r.Success? ==> LaidOut(r.value, ReportHeader(env.capitalize(country)),
            HolidaySection(country, env.capitalize, tables.holidays), passport.value,
            env.population(country), env.covid(country), Footer))
  {
    var country := env.lower(requested);
    Compose(ReportHeader(env.capitalize(country)), HolidaySection(country, env.capitalize, tables.holidays),
            PassportSection(country, tables.passports), env.population(country), env.covid(country))
  }

  /** What precedes the holiday section is the header, and what follows it is `AfterHoliday`. */
  lemma AroundHoliday(header: string, h: string, p: string, pop: string, cov: string)
    ensures var r := Assemble(header, h, p, pop, cov);
      && |header| + |h| <= |r|
      && r[..|header|] == header
      && r[|header| + |h|..] == AfterHoliday(p, pop, cov)
  {
    var rest := AfterHoliday(p, pop, cov);
    assert (header + (h + rest))[|header| + |h|..] == rest;
  }

  /**
   A section never disturbs the others: two reports that differ only in the
   holiday section succeed or fail together and agree on everything before and
   after it.
   */
  lemma OnlyHolidaySectionDiffers(header: string, h: string, h': string, p: Result<string, ReportError>, pop: string, cov: string)
    ensures var r := Compose(header, h, p, pop, cov);
      var r' := Compose(header, h', p, pop, cov);
      && r.Success? == r'.Success?
      && (r.Success? ==>
            AgreeOutside(r.value, r'.value, |header|, |h|, |h'|))
  {
    if p.Success? {
      AroundHoliday(header, h, p.value, pop, cov);
      AroundHoliday(header, h', p.value, pop, cov);
    }
  }

  /** Changing the holiday table changes only the holiday section of the report. */
  lemma HolidayTableOnlyChangesHolidaySection(requested: string, env: Collaborators, tables: Tables, other: seq<HolidayRow>)
    ensures var r := ComposeReport(requested, env, tables);
      var r' := ComposeReport(requested, env, tables.(holidays := other));
      var country := env.lower(requested);
      var a := |ReportHeader(env.capitalize(country))|;
      var h := HolidaySection(country, env.capitalize, tables.holidays);
      var h' := HolidaySection(country, env.capitalize, other);
      && r.Success? == r'.Success?
      && (r.Success? ==>
            AgreeOutside(r.value, r'.value, a, |h|, |h'|))
  {
    var country := env.lower(requested);
    OnlyHolidaySectionDiffers(ReportHeader(env.capitalize(country)), HolidaySection(country, env.capitalize, tables.holidays),
      HolidaySection(country, env.capitalize, other), PassportSection(country, tables.passports),
      env.population(country), env.covid(country));
  }

  /** Everything the report holds after the passport section. */
  function AfterPassport(population: string, covid: string): (t: string)
    ensures forall passport :: AfterHoliday(passport, population, covid) == "\n" + (passport + t)
  {
    "\n" + (population + ("\n" + (covid + ("\n" + Footer))))
  }

  /** What precedes the passport section is the header, the holiday section and a line break. */
  lemma AroundPassport(header: string, h: string, p: string, pop: string, cov: string)
    ensures var r := Assemble(header, h, p, pop, cov);
      var b := |header| + |h| + 1;
      && b + |p| <= |r|
      && r[..b] == header + h + "\n"
      && r[b + |p|..] == AfterPassport(pop, cov)
  {
    var tail := AfterPassport(pop, cov);
    var r := header + (h + ("\n" + (p + tail)));
    assert Assemble(header, h, p, pop, cov) == r;
    var b := |header| + |h| + 1;
    assert r == (header + h + "\n") + (p + tail);
    assert r[b + |p|..] == tail;
  }

  /** `s` is `before`, then `n` characters, then `after`. */
  predicate Framed(s: string, before: string, n: nat, after: string)
  {
    && |s| == |before| + n + |after|
    && s[..|before|] == before
    && s[|before| + n..] == after
  }

  /**
   Whatever the passport table holds, the passport section sits in the same
   frame: the header, the holiday section and a line break before it, the
   population, covid and footer lines after it.
   */
  lemma PassportSectionFramed(requested: string, env: Collaborators, tables: Tables)
    ensures var country := env.lower(requested);
      var r := ComposeReport(requested, env, tables);
      var p := PassportSection(country, tables.passports);
      var before := ReportHeader(env.capitalize(country)) + HolidaySection(country, env.capitalize, tables.holidays) + "\n";
      r.Success? ==> Framed(r.value, before, |p.value|, AfterPassport(env.population(country), env.covid(country)))
  {
    var country := env.lower(requested);
    ComposeFramed(ReportHeader(env.capitalize(country)), HolidaySection(country, env.capitalize, tables.holidays),
      PassportSection(country, tables.passports), env.population(country), env.covid(country));
  }

  /** The passport section of a composed report sits between the holiday section and the population line. */
  lemma ComposeFramed(header: string, h: string, p: Result<string, ReportError>, pop: string, cov: string)
    ensures var r := Compose(header, h, p, pop, cov);
      r.Success? ==> Framed(r.value, header + h + "\n", |p.value|, AfterPassport(pop, cov))
  {
    if p.Success? {
      AroundPassport(header, h, p.value, pop, cov);
    }
  }

  /**
   Changing the passport table changes whether the report succeeds exactly as
   it changes the passport section, and nothing outside the passport section:
   both reports hold it in the same frame.
   */
  lemma PassportTableOnlyChangesPassportSection(requested: string, env: Collaborators, tables: Tables, other: seq<PassportRow>)
    ensures var r := ComposeReport(requested, env, tables);
      var r' := ComposeReport(requested, env, tables.(passports := other));
      var country := env.lower(requested);
      var p := PassportSection(country, tables.passports);
      var p' := PassportSection(country, other);
      var before := ReportHeader(env.capitalize(country)) + HolidaySection(country, env.capitalize, tables.holidays) + "\n";
      var after := AfterPassport(env.population(country), env.covid(country));
      && (r.Success? <==> p.Success?) && (r'.Success? <==> p'.Success?)
      && (r.Success? ==> Framed(r.value, before, |p.value|, after))
      && (r'.Success? ==> Framed(r'.value, before, |p'.value|, after))
  {
    PassportSectionFramed(requested, env, tables);
    PassportSectionFramed(requested, env, tables.(passports := other));
  }
}
