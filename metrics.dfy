/**
 * The per-company metrics of scripts/metrics.py over a cleaned layoffs
 * table: efficiency, instability, severity and the per-location fragility
 * index. Each filters the rows, adds per-row columns, groups by a key
 * (rows with a null key drop out of `groupby`), aggregates each group and
 * sorts the groups by score, highest first.
 */
module Metrics {
  import opened Wrappers
  import opened Tables
  import opened Clean

  /** One row of the cleaned table, reduced to the columns the metrics read. */
  datatype Event = Event(
    company: Option<string>,
    location: Option<string>,
    totalLaidOff: Option<real>,
    percentageLaidOff: Option<real>,
    fundsRaisedClean: Option<real>)

  /** The rows of a cleaned table, in order. */
  function Events(f: Frame): (rows: seq<Event>)
    requires f.Complete()
    ensures |rows| == f.Rows()
    ensures forall i :: 0 <= i < |rows| ==>
      rows[i] == Event(f.company[i], f.location[i], f.totalLaidOff[i],
        NumericValue(f.percentageLaidOff[i]), f.fundsRaisedClean[i])
  {
    seq(f.Rows(), i requires 0 <= i < f.Rows() =>
      Event(f.company[i], f.location[i], f.totalLaidOff[i],
        NumericValue(f.percentageLaidOff[i]), f.fundsRaisedClean[i]))
  }

  /**
   * After cleaning every row has a location, so dropping rows without one
   * drops nothing: a row is usable for the fragility index exactly when it
   * names a company and has a percentage.
   */
  lemma CleanedRowsHaveLocations(f: Frame)
    requires f.Rectangular() && Cleaned(f).error.None?
    ensures Cleaned(f).frame.Complete()
    ensures forall e :: e in Events(Cleaned(f).frame) ==>
      e.location.Some? && (Placed(e) <==> e.company.Some? && e.percentageLaidOff.Some?)
  {
    CleanedShape(f);
    var rows := Events(Cleaned(f).frame);
    forall e | e in rows
      ensures e.location.Some?
    {
      var i :| 0 <= i < |rows| && rows[i] == e;
      CleanedPlaces(f, i);
    }
  }

  // ---- efficiency ----

  /** The mask of `calculate_layoff_efficiency`: all three figures present and percentage and funding positive. */
  predicate EfficiencyQualifies(e: Event)
  {
    && e.totalLaidOff.Some? && e.percentageLaidOff.Some? && e.fundsRaisedClean.Some?
    && e.percentageLaidOff.value > 0.0 && e.fundsRaisedClean.value > 0.0
  }

  /** A row of `df_eff`: the row's figures and the two columns added to it. */
  datatype ScoredEvent = ScoredEvent(
    company: Option<string>,
    totalLaidOff: real,
    percentageLaidOff: real,
    fundsRaisedClean: real,
    layoffsPerMillion: real,
    score: real)

  /** `layoffs_per_million` and `layoff_efficiency_score` of one qualifying row. */
  function ScoreEfficiency(e: Event): (r: ScoredEvent)
    requires EfficiencyQualifies(e)
    ensures r.company == e.company
    ensures r.totalLaidOff == e.totalLaidOff.value && r.percentageLaidOff == e.percentageLaidOff.value
    ensures r.fundsRaisedClean == e.fundsRaisedClean.value
    ensures r.layoffsPerMillion * r.fundsRaisedClean == r.totalLaidOff * 1000000.0
    ensures r.score * r.percentageLaidOff == r.layoffsPerMillion
  {
    var total, pct, funds := e.totalLaidOff.value, e.percentageLaidOff.value, e.fundsRaisedClean.value;
    var perMillion := total / (funds / 1000000.0);
    ScoredEvent(e.company, total, pct, funds, perMillion, perMillion / pct)
  }

  /** `df_eff`: the qualifying rows, in order, with their scores. */
  function EfficiencyRows(rows: seq<Event>): (r: seq<ScoredEvent>)
    ensures forall x :: x in r <==> exists e :: e in rows && EfficiencyQualifies(e) && x == ScoreEfficiency(e)
  {
    FilterMap(rows, EfficiencyQualifies, ScoreEfficiency)
  }
  /** `df_eff` keeps each qualifying row once for each time it occurs, in order, and no other row. */
  lemma EfficiencyRowsSnoc(rows: seq<Event>, e: Event)
    ensures EfficiencyRows([]) == []
    ensures EfficiencyRows(rows + [e]) ==
      EfficiencyRows(rows) + (if EfficiencyQualifies(e) then [ScoreEfficiency(e)] else [])
  {
    FilterMapSnoc(rows, e, EfficiencyQualifies, ScoreEfficiency);
  }


  /** One row of the efficiency result: a company's totals and means. */
  datatype CompanyEfficiency = CompanyEfficiency(
    company: string,
    totalLaidOff: real,
    percentageLaidOff: real,
    fundsRaisedClean: real,
    layoffsPerMillion: real,
    score: real)

  function ScoredCompany(x: ScoredEvent): Option<string> { x.company }
  function ScoredTotal(x: ScoredEvent): real { x.totalLaidOff }
  function ScoredPercentage(x: ScoredEvent): real { x.percentageLaidOff }
  function ScoredFunds(x: ScoredEvent): real { x.fundsRaisedClean }
  function ScoredPerMillion(x: ScoredEvent): real { x.layoffsPerMillion }
  function ScoredScore(x: ScoredEvent): real { x.score }

  /** The `agg` of one company's group: sums of total and funds, means of the rest. */
  function SummariseEfficiency(company: string, g: seq<ScoredEvent>): CompanyEfficiency
    requires |g| > 0
  {
    CompanyEfficiency(company, Sum(g, ScoredTotal), Mean(g, ScoredPercentage), Sum(g, ScoredFunds),
      Mean(g, ScoredPerMillion), Mean(g, ScoredScore))
  }

  function EfficiencyCompany(o: CompanyEfficiency): string { o.company }
  function EfficiencyScore(o: CompanyEfficiency): real { o.score }

  /** `calculate_layoff_efficiency(df)`. */
  function Efficiency(rows: seq<Event>): seq<CompanyEfficiency>
  {
    SortDesc(Aggregate(EfficiencyRows(rows), ScoredCompany, SummariseEfficiency), EfficiencyScore)
  }

  /** A company has a group of scored rows exactly when it has a qualifying row. */
  lemma EfficiencyGroupIff(rows: seq<Event>, k: string)
    ensures |Group(EfficiencyRows(rows), ScoredCompany, k)| > 0 <==>
      exists e :: e in rows && EfficiencyQualifies(e) && e.company == Some(k)
  {
    var scored := EfficiencyRows(rows);
    GroupNonEmpty(scored, ScoredCompany, k);
    if exists e :: e in rows && EfficiencyQualifies(e) && e.company == Some(k) {
      var e :| e in rows && EfficiencyQualifies(e) && e.company == Some(k);
      assert ScoreEfficiency(e) in scored;
    }
  }

  /** A company has a row in the efficiency table exactly when it has a qualifying row. */
  lemma EfficiencyCompanies(rows: seq<Event>, k: string)
    ensures (exists o :: o in Efficiency(rows) && o.company == k) <==>
      exists e :: e in rows && EfficiencyQualifies(e) && e.company == Some(k)
  {
    EfficiencyKey(rows, k);
    EfficiencyGroupIff(rows, k);
    SameEfficiencyCompany(Efficiency(rows), k);
  }

  /** The efficiency table has a row for exactly the companies with a group of scored rows. */
  lemma EfficiencyKey(rows: seq<Event>, k: string)
    ensures (exists o :: o in Efficiency(rows) && EfficiencyCompany(o) == k) <==>
      |Group(EfficiencyRows(rows), ScoredCompany, k)| > 0
  {
    AggregateSorted(EfficiencyRows(rows), ScoredCompany, SummariseEfficiency, EfficiencyCompany, EfficiencyScore);
  }

  /**
   * Reads the key accessor `EfficiencyCompany`, which the generic table lemmas speak of, as
   * the field `company`. A lemma of its own so that the spec lemma's proof does
   * not carry the sorted table's facts while making the switch.
   */
  lemma SameEfficiencyCompany(out: seq<CompanyEfficiency>, k: string)
    ensures (exists o :: o in out && o.company == k) <==> (exists o :: o in out && EfficiencyCompany(o) == k)
  {
  }

  /** The efficiency table is empty exactly when no qualifying row names a company. */
  lemma EfficiencyEmpty(rows: seq<Event>)
    ensures |Efficiency(rows)| == 0 <==> forall e :: e in rows && EfficiencyQualifies(e) ==> e.company.None?
  {
    var out := Efficiency(rows);
    if |out| > 0 {
      EfficiencyCompanies(rows, out[0].company);
      assert out[0] in out;
    }
    if exists e :: e in rows && EfficiencyQualifies(e) && e.company.Some? {
      var e :| e in rows && EfficiencyQualifies(e) && e.company.Some?;
      EfficiencyCompanies(rows, e.company.value);
    }
  }

  /**
   * Each row of the efficiency table sums its company's qualifying totals
   * and funds and averages their percentages and the two per-row scores.
   */
  lemma EfficiencySummaries(rows: seq<Event>)
    ensures forall o :: o in Efficiency(rows) ==>
      var g := Group(EfficiencyRows(rows), ScoredCompany, o.company);
      && |g| > 0
      && o.totalLaidOff == Sum(g, ScoredTotal) && o.fundsRaisedClean == Sum(g, ScoredFunds)
      && o.percentageLaidOff == Mean(g, ScoredPercentage)
      && o.layoffsPerMillion == Mean(g, ScoredPerMillion)
      && o.score == Mean(g, ScoredScore)
  {
    var scored := EfficiencyRows(rows);
    AggregateSorted(scored, ScoredCompany, SummariseEfficiency, EfficiencyCompany, EfficiencyScore);
  }

  /**
   * The efficiency table has a row for company `k` exactly when `k` has a
   * qualifying row, and no company twice; each row sums the company's
   * qualifying totals and funds and averages their percentages and the two
   * per-row scores; rows come by non-increasing mean score. With no
   * qualifying row the table is empty.
   */
  lemma EfficiencySpec(rows: seq<Event>, k: string)
    ensures var out := Efficiency(rows);
      && NonIncreasing(out, EfficiencyScore)
      && DistinctBy(out, EfficiencyCompany)
      && ((exists o :: o in out && o.company == k) <==>
            exists e :: e in rows && EfficiencyQualifies(e) && e.company == Some(k))
      && (|out| == 0 <==> forall e :: e in rows && EfficiencyQualifies(e) ==> e.company.None?)
    ensures forall o :: o in Efficiency(rows) ==>
      var g := Group(EfficiencyRows(rows), ScoredCompany, o.company);
      && |g| > 0
      && o.totalLaidOff == Sum(g, ScoredTotal) && o.fundsRaisedClean == Sum(g, ScoredFunds)
      && o.percentageLaidOff == Mean(g, ScoredPercentage)
      && o.layoffsPerMillion == Mean(g, ScoredPerMillion)
      && o.score == Mean(g, ScoredScore)
  {
    var out := Efficiency(rows);
    assert NonIncreasing(out, EfficiencyScore) && DistinctBy(out, EfficiencyCompany) by {
      AggregateSorted(EfficiencyRows(rows), ScoredCompany, SummariseEfficiency, EfficiencyCompany, EfficiencyScore);
    }
    EfficiencyCompanies(rows, k);
    EfficiencyEmpty(rows);
    EfficiencySummaries(rows);
  }

  /** The worked example: 100 laid off, 5,000,000 raised, 10 percent give 20 per million and a score of 2. */
  lemma EfficiencyExample()
    ensures var x := ScoreEfficiency(Event(Some("Acme"), None, Some(100.0), Some(10.0), Some(5000000.0)));
      x.layoffsPerMillion == 20.0 && x.score == 2.0
  {
  }

  // ---- instability ----

  /** A row of `df[['company', 'quarter']]`. */
  datatype Sighting = Sighting(company: Option<string>, quarter: Option<Quarter>)

  function Sightings(company: seq<Option<string>>, quarter: seq<Option<Quarter>>): (r: seq<Sighting>)
    requires |company| == |quarter|
    ensures |r| == |company|
    ensures forall i :: 0 <= i < |r| ==> r[i] == Sighting(company[i], quarter[i])
  {
    seq(|company|, i requires 0 <= i < |company| => Sighting(company[i], quarter[i]))
  }

  /** `dropna(subset=['company', 'quarter'])` keeps the rows where both are present. */
  predicate Known(p: Sighting)
  {
    p.company.Some? && p.quarter.Some?
  }

  function SightingCompany(p: Sighting): Option<string> { p.company }

  /** One row of the instability result. */
  datatype CompanyInstability = CompanyInstability(company: string, score: nat)

  /** `.size()` of one company's group. */
  function CountRows(company: string, g: seq<Sighting>): CompanyInstability
  {
    CompanyInstability(company, |g|)
  }

  function InstabilityCompany(o: CompanyInstability): string { o.company }
  function InstabilityScore(o: CompanyInstability): real { o.score as real }

  /** The aggregation of `calculate_layoff_instability` once the quarter column is written. */
  function Instability(pairs: seq<Sighting>): seq<CompanyInstability>
  {
    SortDesc(Aggregate(Dedup(Filter(pairs, Known)), SightingCompany, CountRows), InstabilityScore)
  }

  /** The quarters in which `company` laid people off, each once, in order of first appearance. */
  function QuartersOf(pairs: seq<Sighting>, company: string): (qs: seq<Quarter>)
    ensures Distinct(qs)
    ensures forall q :: q in qs <==> Sighting(Some(company), Some(q)) in pairs
  {
    if pairs == [] then []
    else
      var init := pairs[..|pairs| - 1];
      var last := pairs[|pairs| - 1];
      assert pairs == init + [last];
      var qs := QuartersOf(init, company);
      if last.company == Some(company) && last.quarter.Some? && last.quarter.value !in qs then qs + [last.quarter.value]
      else qs
  }

  /** A company's row count after `drop_duplicates` is its number of distinct quarters. */
  lemma {:induction false} CountIsQuarters(pairs: seq<Sighting>, company: string)
    ensures |Group(Dedup(Filter(pairs, Known)), SightingCompany, company)| == |QuartersOf(pairs, company)|
  {
    if pairs != [] {
      var init := pairs[..|pairs| - 1];
      var x := pairs[|pairs| - 1];
      assert pairs == init + [x];
      CountIsQuarters(init, company);
      CountStep(init, x, company);
    }
  }

  /** Appending one row keeps a company's row count after `drop_duplicates` equal to its number of quarters. */
  lemma CountStep(init: seq<Sighting>, x: Sighting, company: string)
    requires |Group(Dedup(Filter(init, Known)), SightingCompany, company)| == |QuartersOf(init, company)|
    ensures |Group(Dedup(Filter(init + [x], Known)), SightingCompany, company)| == |QuartersOf(init + [x], company)|
  {
    var pairs := init + [x];
    assert pairs[..|pairs| - 1] == init;
    var fi := Filter(init, Known);
    var di := Dedup(fi);
    var qi := QuartersOf(init, company);
    FilterSnoc(init, x, Known);
    if !Known(x) {
      assert Filter(pairs, Known) == fi;
      assert QuartersOf(pairs, company) == qi;
    } else {
      KnownStep(init, x, company);
    }
  }

  /** The step of `CountStep` for a row that has both a company and a quarter. */
  lemma KnownStep(init: seq<Sighting>, x: Sighting, company: string)
    requires Known(x)
    requires |Group(Dedup(Filter(init, Known)), SightingCompany, company)| == |QuartersOf(init, company)|
    ensures |Group(Dedup(Filter(init + [x], Known)), SightingCompany, company)| == |QuartersOf(init + [x], company)|
  {
    var pairs := init + [x];
    assert pairs[..|pairs| - 1] == init;
    var fi := Filter(init, Known);
    var di := Dedup(fi);
    var qi := QuartersOf(init, company);
    var matches := x.company == Some(company);
    FilterSnoc(init, x, Known);
    assert Filter(pairs, Known) == fi + [x];
    DedupSnoc(fi, x);
    assert x in fi <==> x in init;
    if x in init {
      assert Dedup(Filter(pairs, Known)) == di;
      assert matches ==> x.quarter.value in qi;
      assert QuartersOf(pairs, company) == qi;
    } else {
      GroupSnoc(di, x, SightingCompany, company);
      assert Dedup(Filter(pairs, Known)) == di + [x];
      if matches {
        assert x.quarter.value !in qi;
        assert QuartersOf(pairs, company) == qi + [x.quarter.value];
      } else {
        assert QuartersOf(pairs, company) == qi;
      }
    }
  }

  /** A company has no more distinct quarters than rows. */
  lemma {:induction false} QuartersAtMostRows(pairs: seq<Sighting>, company: string)
    ensures |QuartersOf(pairs, company)| <= |Group(pairs, SightingCompany, company)|
  {
    if pairs != [] {
      QuartersAtMostRows(pairs[..|pairs| - 1], company);
    }
  }

  /** A company has a group after `dropna` and `drop_duplicates` exactly when it was seen in some quarter. */
  lemma SeenIffSighted(pairs: seq<Sighting>, company: string)
    ensures |Group(Dedup(Filter(pairs, Known)), SightingCompany, company)| > 0 <==>
      exists q :: Sighting(Some(company), Some(q)) in pairs
  {
    var d := Dedup(Filter(pairs, Known));
    DedupSpec(Filter(pairs, Known));
    GroupNonEmpty(d, SightingCompany, company);
    if exists q :: Sighting(Some(company), Some(q)) in pairs {
      var q :| Sighting(Some(company), Some(q)) in pairs;
      assert Sighting(Some(company), Some(q)) in d;
    }
  }

  /** A company has a row in the instability table exactly when it was seen in some quarter. */
  lemma InstabilityCompanies(pairs: seq<Sighting>, k: string)
    ensures (exists o :: o in Instability(pairs) && o.company == k) <==>
      exists q :: Sighting(Some(k), Some(q)) in pairs
  {
    InstabilityKey(pairs, k);
    SeenIffSighted(pairs, k);
    SameInstabilityCompany(Instability(pairs), k);
  }

  /** The instability table has a row for exactly the companies with a group of distinct sightings. */
  lemma InstabilityKey(pairs: seq<Sighting>, k: string)
    ensures (exists o :: o in Instability(pairs) && InstabilityCompany(o) == k) <==>
      |Group(Dedup(Filter(pairs, Known)), SightingCompany, k)| > 0
  {
    AggregateSorted(Dedup(Filter(pairs, Known)), SightingCompany, CountRows, InstabilityCompany, InstabilityScore);
  }

  /**
   * Reads the key accessor `InstabilityCompany`, which the generic table lemmas speak of, as
   * the field `company`. A lemma of its own so that the spec lemma's proof does
   * not carry the sorted table's facts while making the switch.
   */
  lemma SameInstabilityCompany(out: seq<CompanyInstability>, k: string)
    ensures (exists o :: o in out && o.company == k) <==> (exists o :: o in out && InstabilityCompany(o) == k)
  {
  }

  /** The instability table is empty exactly when no row has both a company and a quarter. */
  lemma InstabilityEmpty(pairs: seq<Sighting>)
    ensures |Instability(pairs)| == 0 <==> forall p :: p in pairs ==> !Known(p)
  {
    var out := Instability(pairs);
    if |out| > 0 {
      var k := out[0].company;
      InstabilityCompanies(pairs, k);
      assert out[0] in out;
      var q :| Sighting(Some(k), Some(q)) in pairs;
      assert Known(Sighting(Some(k), Some(q)));
    }
    if exists p :: p in pairs && Known(p) {
      var p :| p in pairs && Known(p);
      var k := p.company.value;
      InstabilityCompanies(pairs, k);
      assert p == Sighting(Some(k), Some(p.quarter.value));
    }
  }

  /**
   * The instability table has a row for company `k` exactly when `k` was
   * seen in some quarter, no company twice, and its rows come by
   * non-increasing score. With no row that has both a company and a quarter
   * the table is empty.
   */
  lemma InstabilitySpec(pairs: seq<Sighting>, k: string)
    ensures var out := Instability(pairs);
      && NonIncreasing(out, InstabilityScore)
      && DistinctBy(out, InstabilityCompany)
      && ((exists o :: o in out && o.company == k) <==> exists q :: Sighting(Some(k), Some(q)) in pairs)
      && (|out| == 0 <==> forall p :: p in pairs ==> !Known(p))
  {
    var out := Instability(pairs);
    assert NonIncreasing(out, InstabilityScore) && DistinctBy(out, InstabilityCompany) by {
      AggregateSorted(Dedup(Filter(pairs, Known)), SightingCompany, CountRows, InstabilityCompany, InstabilityScore);
    }
    InstabilityCompanies(pairs, k);
    InstabilityEmpty(pairs);
  }

  /**
   * A company's instability score is the number of distinct quarters among
   * its rows: at least one, and at most its number of rows.
   */
  lemma InstabilityScores(pairs: seq<Sighting>)
    ensures forall o :: o in Instability(pairs) ==>
      && o.score == |QuartersOf(pairs, o.company)|
      && 1 <= o.score <= |Group(pairs, SightingCompany, o.company)|
  {
    var d := Dedup(Filter(pairs, Known));
    var out := Instability(pairs);
    AggregateSorted(d, SightingCompany, CountRows, InstabilityCompany, InstabilityScore);
    forall o | o in out
      ensures o.score == |QuartersOf(pairs, o.company)|
      ensures 1 <= o.score <= |Group(pairs, SightingCompany, o.company)|
    {
      CountIsQuarters(pairs, o.company);
      QuartersAtMostRows(pairs, o.company);
    }
  }

  /**
   * `calculate_layoff_instability(df)`: overwrites the caller's `quarter`
   * column with the quarter of each row's date, leaves every other column
   * alone, and returns the instability table of the new column.
   */
  method CalculateLayoffInstability(df: LayoffTable) returns (out: seq<CompanyInstability>)
    requires df.Valid()
    modifies df
    ensures df.Columns() == old(df.Columns()).(quarter := Map(old(df.date), QuarterOf))
    ensures |df.quarter| == |df.company|
    ensures out == Instability(Sightings(df.company, df.quarter))
  {
    df.quarter := Map(df.date, QuarterOf);
    out := Instability(Sightings(df.company, df.quarter));
  }

  /** Rows of a single company give a one-row table holding its number of distinct quarters. */
  lemma InstabilityOfOneCompany(pairs: seq<Sighting>, company: string)
    requires forall p :: p in pairs ==> p.company == Some(company)
    requires exists p :: p in pairs && Known(p)
    ensures Instability(pairs) == [CompanyInstability(company, |QuartersOf(pairs, company)|)]
  {
    var out := Instability(pairs);
    assert |out| > 0 && DistinctBy(out, InstabilityCompany) by {
      InstabilitySpec(pairs, company);
    }
    forall i | 0 <= i < |out|
      ensures InstabilityCompany(out[i]) == company
    {
      InstabilityCompanies(pairs, out[i].company);
      assert out[i] in out;
      var q :| Sighting(Some(out[i].company), Some(q)) in pairs;
    }
    OneKeyOneRow(out, InstabilityCompany, company);
    assert out[0].score == |QuartersOf(pairs, company)| by {
      InstabilityScores(pairs);
      assert out[0] in out;
    }
  }

  /** Layoffs on 2023-01-15, 2023-02-20 and 2023-04-01 fall in two quarters. */
  lemma InstabilityExample()
    ensures var dates := [Some(Date(2023, 1, 15)), Some(Date(2023, 2, 20)), Some(Date(2023, 4, 1))];
      var pairs := Sightings([Some("Acme"), Some("Acme"), Some("Acme")], Map(dates, QuarterOf));
      Instability(pairs) == [CompanyInstability("Acme", 2)]
  {
    var dates := [Some(Date(2023, 1, 15)), Some(Date(2023, 2, 20)), Some(Date(2023, 4, 1))];
    var pairs := Sightings([Some("Acme"), Some("Acme"), Some("Acme")], Map(dates, QuarterOf));
    var a := Sighting(Some("Acme"), Some(Quarter(2023, 1)));
    var b := Sighting(Some("Acme"), Some(Quarter(2023, 2)));
    assert pairs == [a, a, b];
    var q1, q2 := Quarter(2023, 1), Quarter(2023, 2);
    assert QuartersOf(pairs, "Acme") == [q1, q2] by {
      assert [a][..0] == [];
      assert QuartersOf([a], "Acme") == [q1];
      assert [a, a][..1] == [a];
      assert QuartersOf([a, a], "Acme") == [q1];
      assert [a, a, b][..2] == [a, a];
    }
    assert a in pairs;
    InstabilityOfOneCompany(pairs, "Acme");
  }

  // ---- severity ----

  /** The mask of `calculate_layoff_severity`: percentage and total both present. */
  predicate SeverityQualifies(e: Event)
  {
    e.percentageLaidOff.Some? && e.totalLaidOff.Some?
  }

  /** A row of `df_filtered` with its `layoff_severity_index`. */
  datatype RatedEvent = RatedEvent(company: Option<string>, index: real)

  /**
   * `percentage_laid_off * log(total_laid_off + 1)` of one qualifying row,
   * with the natural logarithm passed in as `ln`.
   */
  function RateSeverity(ln: real -> real, e: Event): (r: RatedEvent)
    requires SeverityQualifies(e)
    ensures r.company == e.company
    ensures e.percentageLaidOff.value == 0.0 ==> r.index == 0.0
    ensures ln(1.0) == 0.0 && e.totalLaidOff.value == 0.0 ==> r.index == 0.0
    ensures e.percentageLaidOff.value >= 0.0 && ln(e.totalLaidOff.value + 1.0) >= 0.0 ==> r.index >= 0.0
  {
    RatedEvent(e.company, e.percentageLaidOff.value * ln(e.totalLaidOff.value + 1.0))
  }

  /** `df_filtered`: the qualifying rows, in order, with their severity index. */
  function SeverityRows(ln: real -> real, rows: seq<Event>): (r: seq<RatedEvent>)
    ensures forall x :: x in r <==> exists e :: e in rows && SeverityQualifies(e) && x == RateSeverity(ln, e)
  {
    FilterMap(rows, SeverityQualifies, e requires SeverityQualifies(e) => RateSeverity(ln, e))
  }
  /** `df_filtered` keeps each qualifying row once for each time it occurs, in order, and no other row. */
  lemma SeverityRowsSnoc(ln: real -> real, rows: seq<Event>, e: Event)
    ensures SeverityRows(ln, []) == []
    ensures SeverityRows(ln, rows + [e]) ==
      SeverityRows(ln, rows) + (if SeverityQualifies(e) then [RateSeverity(ln, e)] else [])
  {
    FilterMapSnoc(rows, e, SeverityQualifies, e requires SeverityQualifies(e) => RateSeverity(ln, e));
  }


  /** One row of the severity result: a company and its mean severity index. */
  datatype CompanySeverity = CompanySeverity(company: string, index: real)

  function RatedCompany(x: RatedEvent): Option<string> { x.company }
  function RatedIndex(x: RatedEvent): real { x.index }

  /** `['layoff_severity_index'].mean()` of one company's group. */
  function SummariseSeverity(company: string, g: seq<RatedEvent>): CompanySeverity
    requires |g| > 0
  {
    CompanySeverity(company, Mean(g, RatedIndex))
  }

  function SeverityCompany(o: CompanySeverity): string { o.company }
  function SeverityIndex(o: CompanySeverity): real { o.index }

  /** `calculate_layoff_severity(df)`, with `np.log` passed in as `ln`. */
  function Severity(ln: real -> real, rows: seq<Event>): seq<CompanySeverity>
  {
    SortDesc(Aggregate(SeverityRows(ln, rows), RatedCompany, SummariseSeverity), SeverityIndex)
  }

  /** A company has a group of rated rows exactly when it has a qualifying row. */
  lemma SeverityGroupIff(ln: real -> real, rows: seq<Event>, k: string)
    ensures |Group(SeverityRows(ln, rows), RatedCompany, k)| > 0 <==>
      exists e :: e in rows && SeverityQualifies(e) && e.company == Some(k)
  {
    var rated := SeverityRows(ln, rows);
    GroupNonEmpty(rated, RatedCompany, k);
    if exists e :: e in rows && SeverityQualifies(e) && e.company == Some(k) {
      var e :| e in rows && SeverityQualifies(e) && e.company == Some(k);
      assert RateSeverity(ln, e) in rated;
    }
  }

  /** A company has a row in the severity table exactly when it has a qualifying row. */
  lemma SeverityCompanies(ln: real -> real, rows: seq<Event>, k: string)
    ensures (exists o :: o in Severity(ln, rows) && o.company == k) <==>
      exists e :: e in rows && SeverityQualifies(e) && e.company == Some(k)
  {
    SeverityKey(ln, rows, k);
    SeverityGroupIff(ln, rows, k);
    SameSeverityCompany(Severity(ln, rows), k);
  }

  /** The severity table has a row for exactly the companies with a group of rated rows. */
  lemma SeverityKey(ln: real -> real, rows: seq<Event>, k: string)
    ensures (exists o :: o in Severity(ln, rows) && SeverityCompany(o) == k) <==>
      |Group(SeverityRows(ln, rows), RatedCompany, k)| > 0
  {
    AggregateSorted(SeverityRows(ln, rows), RatedCompany, SummariseSeverity, SeverityCompany, SeverityIndex);
  }

  /**
   * Reads the key accessor `SeverityCompany`, which the generic table lemmas speak of, as
   * the field `company`. A lemma of its own so that the spec lemma's proof does
   * not carry the sorted table's facts while making the switch.
   */
  lemma SameSeverityCompany(out: seq<CompanySeverity>, k: string)
    ensures (exists o :: o in out && o.company == k) <==> (exists o :: o in out && SeverityCompany(o) == k)
  {
  }

  /** The severity table is empty exactly when no qualifying row names a company. */
  lemma SeverityEmpty(ln: real -> real, rows: seq<Event>)
    ensures |Severity(ln, rows)| == 0 <==> forall e :: e in rows && SeverityQualifies(e) ==> e.company.None?
  {
    var out := Severity(ln, rows);
    if |out| > 0 {
      SeverityCompanies(ln, rows, out[0].company);
      assert out[0] in out;
    }
    if exists e :: e in rows && SeverityQualifies(e) && e.company.Some? {
      var e :| e in rows && SeverityQualifies(e) && e.company.Some?;
      SeverityCompanies(ln, rows, e.company.value);
    }
  }

  /**
   * The severity table has a row for company `k` exactly when `k` has a row
   * with both a percentage and a total, and no company twice; each row holds
   * the mean severity index of the company's qualifying rows; rows come by
   * non-increasing index. With no qualifying row the table is empty.
   */
  lemma SeveritySpec(ln: real -> real, rows: seq<Event>, k: string)
    ensures var out := Severity(ln, rows);
      && NonIncreasing(out, SeverityIndex)
      && DistinctBy(out, SeverityCompany)
      && ((exists o :: o in out && o.company == k) <==>
            exists e :: e in rows && SeverityQualifies(e) && e.company == Some(k))
      && (|out| == 0 <==> forall e :: e in rows && SeverityQualifies(e) ==> e.company.None?)
    ensures forall o :: o in Severity(ln, rows) ==>
      var g := Group(SeverityRows(ln, rows), RatedCompany, o.company);
      |g| > 0 && o.index == Mean(g, RatedIndex)
  {
    var out := Severity(ln, rows);
    assert NonIncreasing(out, SeverityIndex) && DistinctBy(out, SeverityCompany) by {
      AggregateSorted(SeverityRows(ln, rows), RatedCompany, SummariseSeverity, SeverityCompany, SeverityIndex);
    }
    SeverityCompanies(ln, rows, k);
    SeverityEmpty(ln, rows);
    forall o | o in Severity(ln, rows)
      ensures var g := Group(SeverityRows(ln, rows), RatedCompany, o.company);
        |g| > 0 && o.index == Mean(g, RatedIndex)
    {
      SeverityOfCompany(ln, rows, o);
    }
  }

  /** Every row of a company's severity group comes from one of its qualifying rows. */
  lemma RatedFrom(ln: real -> real, rows: seq<Event>, company: string, x: RatedEvent)
    requires x in Group(SeverityRows(ln, rows), RatedCompany, company)
    ensures exists e :: e in rows && SeverityQualifies(e) && e.company == Some(company) && x == RateSeverity(ln, e)
  {
  }

  /** A company's severity is the mean index of its group of rated rows. */
  lemma SeverityOfCompany(ln: real -> real, rows: seq<Event>, o: CompanySeverity)
    requires o in Severity(ln, rows)
    ensures var g := Group(SeverityRows(ln, rows), RatedCompany, o.company);
      |g| > 0 && o.index == Mean(g, RatedIndex)
  {
    AggregateSorted(SeverityRows(ln, rows), RatedCompany, SummariseSeverity, SeverityCompany, SeverityIndex);
  }

  /**
   * A company whose every qualifying row reports zero laid off has a
   * severity of zero, since log(0 + 1) is zero.
   */
  lemma SeverityOfNoLayoffs(ln: real -> real, rows: seq<Event>, company: string)
    requires ln(1.0) == 0.0
    requires forall e :: e in rows && SeverityQualifies(e) && e.company == Some(company) ==> e.totalLaidOff.value == 0.0
    ensures forall o :: o in Severity(ln, rows) && o.company == company ==> o.index == 0.0
  {
    var g := Group(SeverityRows(ln, rows), RatedCompany, company);
    forall i | 0 <= i < |g|
      ensures RatedIndex(g[i]) == 0.0
    {
      assert g[i] in g;
      RatedFrom(ln, rows, company, g[i]);
    }
    SumOfZeros(g, RatedIndex);
    forall o | o in Severity(ln, rows) && o.company == company
      ensures o.index == 0.0
    {
      SeverityOfCompany(ln, rows, o);
      var n := |g| as real;
      assert o.index == Sum(g, RatedIndex) / n;
      assert 0.0 / n == 0.0;
    }
  }

  /**
   * Where the logarithm is non-negative from 1 on, and every qualifying row
   * has a non-negative percentage and total, every company's severity is
   * non-negative.
   */
  lemma SeverityNonNegative(ln: real -> real, rows: seq<Event>)
    requires forall x :: x >= 1.0 ==> ln(x) >= 0.0
    requires forall e :: e in rows && SeverityQualifies(e) ==>
      e.percentageLaidOff.value >= 0.0 && e.totalLaidOff.value >= 0.0
    ensures forall o :: o in Severity(ln, rows) ==> o.index >= 0.0
  {
    forall o | o in Severity(ln, rows)
      ensures o.index >= 0.0
    {
      var g := Group(SeverityRows(ln, rows), RatedCompany, o.company);
      forall i | 0 <= i < |g|
        ensures RatedIndex(g[i]) >= 0.0
      {
        assert g[i] in g;
        RatedFrom(ln, rows, o.company, g[i]);
        var e :| e in rows && SeverityQualifies(e) && e.company == Some(o.company) && g[i] == RateSeverity(ln, e);
        assert ln(e.totalLaidOff.value + 1.0) >= 0.0;
      }
      SeverityOfCompany(ln, rows, o);
      MeanNonNegative(g, RatedIndex);
    }
  }

  // ---- fragility ----

  /** `dropna()` on location, company and percentage keeps the rows where all three are present. */
  predicate Placed(e: Event)
  {
    e.location.Some? && e.company.Some? && e.percentageLaidOff.Some?
  }

  /** A row of `df[['location', 'company', 'percentage_laid_off']].dropna()`. */
  datatype Placement = Placement(location: string, company: string, pct: real)

  function PlacementOf(e: Event): (p: Placement)
    requires Placed(e)
    ensures Some(p.location) == e.location && Some(p.company) == e.company && Some(p.pct) == e.percentageLaidOff
  {
    Placement(e.location.value, e.company.value, e.percentageLaidOff.value)
  }

  function Placements(rows: seq<Event>): (r: seq<Placement>)
    ensures forall p :: p in r <==> exists e :: e in rows && Placed(e) && p == PlacementOf(e)
  {
    FilterMap(rows, Placed, PlacementOf)
  }
  /** `dropna()` keeps each usable row once for each time it occurs, in order, and no other row. */
  lemma PlacementsSnoc(rows: seq<Event>, e: Event)
    ensures Placements([]) == []
    ensures Placements(rows + [e]) == Placements(rows) + (if Placed(e) then [PlacementOf(e)] else [])
  {
    FilterMapSnoc(rows, e, Placed, PlacementOf);
  }


  /** The key of `groupby(['location', 'company'])`. */
  datatype Site = Site(location: string, company: string)

  function PlacementSite(p: Placement): Option<Site> { Some(Site(p.location, p.company)) }
  function PlacementLocation(p: Placement): Option<string> { Some(p.location) }
  function PlacementCompany(p: Placement): string { p.company }
  function PlacementPct(p: Placement): real { p.pct }

  /** One row of the first `groupby(...).mean()`: a company's mean percentage at one location. */
  datatype CompanyMean = CompanyMean(location: string, company: string, meanPct: real)

  function AverageSite(site: Site, g: seq<Placement>): CompanyMean
    requires |g| > 0
  {
    CompanyMean(site.location, site.company, Mean(g, PlacementPct))
  }

  function MeanSite(m: CompanyMean): Site { Site(m.location, m.company) }
  function MeanLocation(m: CompanyMean): Option<string> { Some(m.location) }
  function MeanCompany(m: CompanyMean): string { m.company }
  function MeanPct(m: CompanyMean): real { m.meanPct }

  /** `.groupby(['location', 'company']).mean().reset_index()`. */
  function CompanyMeans(rows: seq<Event>): seq<CompanyMean>
  {
    Aggregate(Placements(rows), PlacementSite, AverageSite)
  }

  /** One row of the fragility result. */
  datatype LocationFragility = LocationFragility(location: string, numCompanies: nat, avgPct: real, index: real)

  /**
   * The second `agg` of one location's group: `nunique` of the companies,
   * the mean of their mean percentages, and `fragility_index` as their product.
   */
  function SummariseLocation(location: string, g: seq<CompanyMean>): LocationFragility
    requires |g| > 0
  {
    var n := |Dedup(Map(g, MeanCompany))|;
    var avg := Mean(g, MeanPct);
    LocationFragility(location, n, avg, n as real * avg)
  }

  function FragilityLocation(o: LocationFragility): string { o.location }
  function FragilityIndex(o: LocationFragility): real { o.index }

  /** `calculate_fragility_index(df)`. */
  function Fragility(rows: seq<Event>): seq<LocationFragility>
  {
    SortDesc(Aggregate(CompanyMeans(rows), MeanLocation, SummariseLocation), FragilityIndex)
  }

  /**
   * The distinct companies with a usable row at `location`, read straight
   * off the rows rather than off the per-company means.
   */
  function CompaniesAt(rows: seq<Event>, location: string): (cs: seq<string>)
    ensures Distinct(cs)
    ensures forall c :: c in cs <==> exists p :: p in Placements(rows) && p.location == location && p.company == c
  {
    var atLocation := Group(Placements(rows), PlacementLocation, location);
    var names := Map(atLocation, PlacementCompany);
    DedupSpec(names);
    assert forall c :: c in names <==> exists p :: p in atLocation && p.company == c by {
      forall c | c in names ensures exists p :: p in atLocation && p.company == c {
        var i :| 0 <= i < |names| && names[i] == c;
        assert atLocation[i] in atLocation;
      }
      forall p | p in atLocation ensures p.company in names {
        var i :| 0 <= i < |atLocation| && atLocation[i] == p;
        assert names[i] == p.company;
      }
    }
    Dedup(names)
  }

  /** Each per-company mean comes from a usable row at its location and company. */
  lemma MeansArePlaced(rows: seq<Event>)
    ensures forall m :: m in CompanyMeans(rows) ==>
      exists p :: p in Placements(rows) && p.location == m.location && p.company == m.company
  {
    var placements := Placements(rows);
    var means := CompanyMeans(rows);
    assert forall m :: m in means ==> |Group(placements, PlacementSite, MeanSite(m))| > 0 by {
      AggregateRows(placements, PlacementSite, AverageSite, MeanSite);
    }
    forall m | m in means
      ensures exists p :: p in placements && p.location == m.location && p.company == m.company
    {
      GroupNonEmpty(placements, PlacementSite, MeanSite(m));
    }
  }

  /** Every usable row has the per-company mean of its location and company. */
  lemma PlacedHaveMeans(rows: seq<Event>)
    ensures forall p :: p in Placements(rows) ==>
      exists m :: m in CompanyMeans(rows) && m.location == p.location && m.company == p.company
  {
    var placements := Placements(rows);
    var means := CompanyMeans(rows);
    assert forall site :: |Group(placements, PlacementSite, site)| > 0 ==>
      AverageSite(site, Group(placements, PlacementSite, site)) in means by {
      AggregateRows(placements, PlacementSite, AverageSite, MeanSite);
    }
    forall p | p in placements
      ensures exists m :: m in means && m.location == p.location && m.company == p.company
    {
      var site := Site(p.location, p.company);
      GroupNonEmpty(placements, PlacementSite, site);
      assert AverageSite(site, Group(placements, PlacementSite, site)) in means;
    }
  }

  /**
   * Each per-company mean belongs to one (location, company) pair seen in
   * the usable rows and averages that pair's percentages; every such pair
   * has exactly one.
   */
  lemma CompanyMeansSpec(rows: seq<Event>)
    ensures var means := CompanyMeans(rows);
      && DistinctBy(means, MeanSite)
      && (forall m :: m in means ==>
            var g := Group(Placements(rows), PlacementSite, MeanSite(m));
            |g| > 0 && m.meanPct == Mean(g, PlacementPct))
      && (forall m :: m in means ==>
            exists p :: p in Placements(rows) && p.location == m.location && p.company == m.company)
      && (forall p :: p in Placements(rows) ==>
            exists m :: m in means && m.location == p.location && m.company == p.company)
  {
    AggregateRows(Placements(rows), PlacementSite, AverageSite, MeanSite);
    MeansArePlaced(rows);
    PlacedHaveMeans(rows);
  }

  /** A location has per-company means exactly when some usable row is there. */
  lemma LocationSeenIffPlaced(rows: seq<Event>, k: string)
    ensures |Group(CompanyMeans(rows), MeanLocation, k)| > 0 <==> exists e :: e in rows && Placed(e) && e.location == Some(k)
  {
    var placements := Placements(rows);
    var means := CompanyMeans(rows);
    GroupNonEmpty(means, MeanLocation, k);
    if exists e :: e in rows && Placed(e) && e.location == Some(k) {
      var e :| e in rows && Placed(e) && e.location == Some(k);
      var p := PlacementOf(e);
      assert p in placements;
      assert exists m :: m in means && m.location == p.location && m.company == p.company by {
        PlacedHaveMeans(rows);
      }
      var m :| m in means && m.location == p.location && m.company == p.company;
      assert MeanLocation(m) == Some(k);
    }
    if |Group(means, MeanLocation, k)| > 0 {
      var m :| m in means && MeanLocation(m) == Some(k);
      assert exists p :: p in placements && p.location == m.location && p.company == m.company by {
        MeansArePlaced(rows);
      }
      var p :| p in placements && p.location == m.location && p.company == m.company;
      var e :| e in rows && Placed(e) && p == PlacementOf(e);
    }
  }

  /** A location has a row in the fragility table exactly when it has a usable row. */
  lemma FragilityLocations(rows: seq<Event>, k: string)
    ensures (exists o :: o in Fragility(rows) && o.location == k) <==>
      exists e :: e in rows && Placed(e) && e.location == Some(k)
  {
    FragilityKey(rows, k);
    LocationSeenIffPlaced(rows, k);
    SameLocation(Fragility(rows), k);
  }

  /** The fragility table has a row for exactly the locations with per-company means. */
  lemma FragilityKey(rows: seq<Event>, k: string)
    ensures (exists o :: o in Fragility(rows) && FragilityLocation(o) == k) <==>
      |Group(CompanyMeans(rows), MeanLocation, k)| > 0
  {
    AggregateSorted(CompanyMeans(rows), MeanLocation, SummariseLocation, FragilityLocation, FragilityIndex);
  }

  /**
   * Reads the key accessor `FragilityLocation`, which the generic table lemmas speak of, as
   * the field `location`. A lemma of its own so that the spec lemma's proof does
   * not carry the sorted table's facts while making the switch.
   */
  lemma SameLocation(out: seq<LocationFragility>, k: string)
    ensures (exists o :: o in out && o.location == k) <==> (exists o :: o in out && FragilityLocation(o) == k)
  {
  }

  /** The fragility table is empty exactly when no row is usable. */
  lemma FragilityEmpty(rows: seq<Event>)
    ensures |Fragility(rows)| == 0 <==> forall e :: e in rows ==> !Placed(e)
  {
    var out := Fragility(rows);
    if |out| > 0 {
      var k := out[0].location;
      FragilityLocations(rows, k);
      assert out[0] in out;
    }
    if exists e :: e in rows && Placed(e) {
      var e :| e in rows && Placed(e);
      FragilityLocations(rows, e.location.value);
    }
  }

  /**
   * The fragility table has a row for location `k` exactly when `k` has a
   * usable row, no location twice, and its rows come by non-increasing
   * index. With no usable row the table is empty.
   */
  lemma FragilitySpec(rows: seq<Event>, k: string)
    ensures var out := Fragility(rows);
      && NonIncreasing(out, FragilityIndex)
      && DistinctBy(out, FragilityLocation)
      && ((exists o :: o in out && o.location == k) <==> exists e :: e in rows && Placed(e) && e.location == Some(k))
      && (|out| == 0 <==> forall e :: e in rows ==> !Placed(e))
  {
    var out := Fragility(rows);
    assert NonIncreasing(out, FragilityIndex) && DistinctBy(out, FragilityLocation) by {
      AggregateSorted(CompanyMeans(rows), MeanLocation, SummariseLocation, FragilityLocation, FragilityIndex);
    }
    FragilityLocations(rows, k);
    FragilityEmpty(rows);
  }

  /** The per-company means at one location name different companies. */
  lemma MeanCompaniesDistinct(rows: seq<Event>, location: string)
    ensures Distinct(Map(Group(CompanyMeans(rows), MeanLocation, location), MeanCompany))
  {
    var means := CompanyMeans(rows);
    var g := Group(means, MeanLocation, location);
    var names := Map(g, MeanCompany);
    assert DistinctBy(means, MeanSite) by {
      AggregateRows(Placements(rows), PlacementSite, AverageSite, MeanSite);
    }
    GroupKeepsDistinct(means, MeanLocation, location, MeanSite);
    forall i, j | 0 <= i < j < |names|
      ensures names[i] != names[j]
    {
      assert g[i] in g && g[j] in g;
      assert MeanSite(g[i]) != MeanSite(g[j]);
    }
  }

  /** The companies of the per-company means at one location are those with a usable row there. */
  lemma MeanCompaniesAre(rows: seq<Event>, location: string)
    ensures forall c :: c in Map(Group(CompanyMeans(rows), MeanLocation, location), MeanCompany) <==>
      c in CompaniesAt(rows, location)
  {
    var placements := Placements(rows);
    var means := CompanyMeans(rows);
    var g := Group(means, MeanLocation, location);
    var names := Map(g, MeanCompany);
    var cs := CompaniesAt(rows, location);
    MapMembers(g, MeanCompany);
    forall c | c in names
      ensures c in cs
    {
      var m :| m in g && MeanCompany(m) == c;
      assert exists p :: p in placements && p.location == m.location && p.company == m.company by {
        MeansArePlaced(rows);
      }
    }
    forall c | c in cs
      ensures c in names
    {
      var p :| p in placements && p.location == location && p.company == c;
      assert exists m :: m in means && m.location == p.location && m.company == p.company by {
        PlacedHaveMeans(rows);
      }
      var m :| m in means && m.location == p.location && m.company == p.company;
      assert m in g;
    }
  }

  /**
   * At a location with a usable row, the companies of its per-company means
   * are all different, so `nunique` counts every one of them, and they are
   * exactly the companies with a usable row there.
   */
  lemma CompaniesOfLocation(rows: seq<Event>, location: string)
    ensures var g := Group(CompanyMeans(rows), MeanLocation, location);
      |Dedup(Map(g, MeanCompany))| == |g| == |CompaniesAt(rows, location)|
  {
    var names := Map(Group(CompanyMeans(rows), MeanLocation, location), MeanCompany);
    MeanCompaniesDistinct(rows, location);
    MeanCompaniesAre(rows, location);
    DedupOfDistinct(names);
    SameElementsSameLength(names, CompaniesAt(rows, location));
  }

  /** With distinct companies, a location's index is the sum of their means. */
  lemma SummaryIndex(location: string, g: seq<CompanyMean>)
    requires |g| > 0
    requires |Dedup(Map(g, MeanCompany))| == |g|
    ensures SummariseLocation(location, g).index == Sum(g, MeanPct)
  {
    MeanTimesCount(g, MeanPct);
  }

  /**
   * A location's row counts the distinct companies with a usable row there,
   * averages their per-company mean percentages, and its fragility index is
   * the sum of those means.
   */
  lemma FragilityOfLocation(rows: seq<Event>)
    ensures forall o :: o in Fragility(rows) ==>
      var g := Group(CompanyMeans(rows), MeanLocation, o.location);
      && |g| > 0
      && o.numCompanies == |g| == |CompaniesAt(rows, o.location)|
      && o.avgPct == Mean(g, MeanPct)
      && o.index == Sum(g, MeanPct)
  {
    var means := CompanyMeans(rows);
    forall o | o in Fragility(rows)
      ensures var g := Group(means, MeanLocation, o.location);
        && |g| > 0
        && o.numCompanies == |g| == |CompaniesAt(rows, o.location)|
        && o.avgPct == Mean(g, MeanPct)
        && o.index == Sum(g, MeanPct)
    {
      var g := Group(means, MeanLocation, o.location);
      assert |g| > 0 && o == SummariseLocation(o.location, g) by {
        AggregateSorted(means, MeanLocation, SummariseLocation, FragilityLocation, FragilityIndex);
      }
      CompaniesOfLocation(rows, o.location);
      SummaryIndex(o.location, g);
    }
  }
}
