/**
 * The stop-selection and checkpoint rules of `main` in src/run_analysis.py:
 * clip incomes, derive the disability percentage, put every stop in a Low,
 * High or N/A group for disability and for income, keep the stops with a
 * group, and analyse each kept stop not already in the output file, writing
 * the header only before the first row of a new file.
 */
module StopSelection {
  import opened Wrappers
  import opened Sequences
  import Analyzer

  /** A pandas float64 cell: a number, an infinity, or NaN. */
  datatype Float = Num(x: real) | PosInf | NegInf | NaN

  /** `value <= t`: NaN compares false, -inf is below everything. */
  predicate AtMost(value: Float, t: real) {
    match value
    case Num(x) => x <= t
    case NegInf => true
    case _ => false
  }

  /** `value >= t`: NaN compares false, +inf is above everything. */
  predicate AtLeast(value: Float, t: real) {
    match value
    case Num(x) => x >= t
    case PosInf => true
    case _ => false
  }

  // ---------------------------------------------------------------- incomes

  /** A census income row; a missing cell is None. */
  datatype IncomeRow = IncomeRow(geoid: string, medianIncome: Option<real>, meanIncome: Option<real>)

  /** `clip(lower=0)` of one cell: negatives become 0, a missing value stays missing. */
  function ClipLow(v: Option<real>): Option<real> {
    match v
    case Some(x) => Some(if x < 0.0 then 0.0 else x)
    case None => None
  }

  /** src/run_analysis.py:31: clip the median income column at 0. */
  function ClipMedianIncomes(rows: seq<IncomeRow>): (r: seq<IncomeRow>)
    ensures |r| == |rows|
    ensures forall i :: 0 <= i < |r| ==>
      && r[i].geoid == rows[i].geoid && r[i].meanIncome == rows[i].meanIncome
      && (r[i].medianIncome.Some? <==> rows[i].medianIncome.Some?)
      && (r[i].medianIncome.Some? ==> r[i].medianIncome.value >= 0.0)
      && (r[i].medianIncome.Some? && rows[i].medianIncome.value >= 0.0 ==> r[i].medianIncome == rows[i].medianIncome)
      && (r[i].medianIncome.Some? && rows[i].medianIncome.value < 0.0 ==> r[i].medianIncome == Some(0.0))
  {
    seq(|rows|, i requires 0 <= i < |rows| => rows[i].(medianIncome := ClipLow(rows[i].medianIncome)))
  }

  // ------------------------------------------------------------- percentage

  /** A stop joined with its tract's census figures (the joins are not modelled). */
  datatype MasterRow = MasterRow(stopId: int, stopName: string, lat: real, lon: real,
                                 totalPopulation: Option<real>, disabilityPopulation: Option<real>,
                                 medianIncome: Option<real>)

  /** A stop that survived `dropna`, with its disability percentage. */
  datatype Stop = Stop(stopId: int, stopName: string, lat: real, lon: real,
                       disabilityPercentage: Float, medianIncome: real)

  /** `disability / total * 100` in float64: division by zero gives an infinity,
      or NaN for 0 / 0. */
  function Percentage(disability: real, total: real): (p: Float)
    ensures total != 0.0 ==> p.Num? && p.x * total == disability * 100.0
    ensures total == 0.0 ==> !p.Num?
    ensures total == 0.0 && disability > 0.0 ==> p == PosInf
    ensures total == 0.0 && disability < 0.0 ==> p == NegInf
    ensures total == 0.0 && disability == 0.0 ==> p == NaN
  {
    if total != 0.0 then Num(disability / total * 100.0)
    else if disability > 0.0 then PosInf
    else if disability < 0.0 then NegInf
    else NaN
  }

  /** A part of a positive whole is between 0 and 100 per cent. */
  lemma PercentageBounds(disability: real, total: real)
    requires 0.0 <= disability <= total && total > 0.0
    ensures Percentage(disability, total).Num?
    ensures 0.0 <= Percentage(disability, total).x <= 100.0
  {
    var q := disability / total;
    assert q * total == disability;
    assert q <= 1.0;
    assert q >= 0.0;
  }

  predicate Complete(row: MasterRow) {
    row.totalPopulation.Some? && row.disabilityPopulation.Some? && row.medianIncome.Some?
  }

  function ToStop(row: MasterRow): Stop
    requires Complete(row)
  {
    Stop(row.stopId, row.stopName, row.lat, row.lon,
         Percentage(row.disabilityPopulation.value, row.totalPopulation.value),
         row.medianIncome.value)
  }

  /** src/run_analysis.py:46-47: drop the rows missing a population or income
      figure, in order, and derive the percentage for the others. */
  function DropIncomplete(rows: seq<MasterRow>): (r: seq<Stop>)
    ensures |r| <= |rows|
    ensures forall row :: row in rows && Complete(row) ==> ToStop(row) in r
    ensures forall st :: st in r ==> exists row :: row in rows && Complete(row) && st == ToStop(row)
    decreases |rows|
  {
    if rows == [] then []
    else
      var init, last := rows[..|rows| - 1], rows[|rows| - 1];
      assert forall row :: row in init ==> row in rows;
      assert forall row :: row in rows ==> row in init || row == last;
      DropIncomplete(init) + (if Complete(last) then [ToStop(last)] else [])
  }

  /** `dropna` keeps the row order: the stops of a concatenation are the stops
      of its parts, one per complete row. */
  lemma {:induction false} DropIncompleteAppend(a: seq<MasterRow>, b: seq<MasterRow>)
    ensures DropIncomplete(a + b) == DropIncomplete(a) + DropIncomplete(b)
    ensures DropIncomplete([]) == []
    decreases |b|
  {
    if b == [] {
      assert a + b == a;
    } else {
      var init, last := b[..|b| - 1], b[|b| - 1];
      var tail := if Complete(last) then [ToStop(last)] else [];
      SplitLastOfAppend(a, b);
      DropIncompleteAppend(a, init);
      calc {
        DropIncomplete(a + b);
        DropIncomplete(a + init) + tail;
        DropIncomplete(a) + DropIncomplete(init) + tail;
        { AppendAssoc(DropIncomplete(a), DropIncomplete(init), tail); }
        DropIncomplete(a) + (DropIncomplete(init) + tail);
        DropIncomplete(a) + DropIncomplete(b);
      }
    }
  }

  // ----------------------------------------------------------------- groups

  datatype Group = NA | Low | High

  /** The thresholds, taken from quantiles of the data. */
  datatype Thresholds = Thresholds(lowDisability: real, highDisability: real,
                                   lowIncome: real, highIncome: real)

  /** The group a value ends in: High when it meets the high threshold, even if
      it also meets the low one, else Low when it meets the low one, else N/A. */
  function GroupOf(value: Float, low: real, high: real): (g: Group)
    ensures g == High <==> AtLeast(value, high)
    ensures g == Low <==> AtMost(value, low) && !AtLeast(value, high)
    ensures g == NA <==> !AtMost(value, low) && !AtLeast(value, high)
  {
    if AtLeast(value, high) then High else if AtMost(value, low) then Low else NA
  }

  /** `column.loc[mask] = value`: overwrite the masked rows, keep the others. */
  method WriteWhere(column: seq<Group>, mask: seq<bool>, value: Group) returns (r: seq<Group>)
    requires |mask| == |column|
    ensures |r| == |column|
    ensures forall i :: 0 <= i < |r| ==> r[i] == if mask[i] then value else column[i]
  {
    r := column;
    for i := 0 to |column|
      invariant |r| == |column|
      invariant forall k :: 0 <= k < i ==> r[k] == if mask[k] then value else column[k]
      invariant forall k :: i <= k < |r| ==> r[k] == column[k]
    {
      if mask[i] {
        r := r[i := value];
      }
    }
  }

  /** The classification of one row, in the order src/run_analysis.py:57-62 writes it. */
  method ClassifyColumn(values: seq<Float>, low: real, high: real) returns (groups: seq<Group>)
    ensures |groups| == |values|
    ensures forall i :: 0 <= i < |values| ==> groups[i] == GroupOf(values[i], low, high)
  {
    groups := seq(|values|, _ => NA);
    groups := WriteWhere(groups, seq(|values|, i requires 0 <= i < |values| => AtMost(values[i], low)), Low);
    groups := WriteWhere(groups, seq(|values|, i requires 0 <= i < |values| => AtLeast(values[i], high)), High);
  }

  datatype Classified = Classified(stop: Stop, disabilityGroup: Group, incomeGroup: Group)

  function Classify(st: Stop, th: Thresholds): Classified {
    Classified(st,
               GroupOf(st.disabilityPercentage, th.lowDisability, th.highDisability),
               GroupOf(Num(st.medianIncome), th.lowIncome, th.highIncome))
  }

  /** src/run_analysis.py:57-62: every stop starts N/A in both columns, then
      the Low writes and after them the High writes. */
  method AssignGroups(stops: seq<Stop>, th: Thresholds) returns (classified: seq<Classified>)
    ensures |classified| == |stops|
    ensures forall i :: 0 <= i < |stops| ==> classified[i] == Classify(stops[i], th)
  {
    var disability := ClassifyColumn(seq(|stops|, i requires 0 <= i < |stops| => stops[i].disabilityPercentage),
                                     th.lowDisability, th.highDisability);
    var income := ClassifyColumn(seq(|stops|, i requires 0 <= i < |stops| => Num(stops[i].medianIncome)),
                                 th.lowIncome, th.highIncome);
    classified := seq(|stops|, i requires 0 <= i < |stops| => Classified(stops[i], disability[i], income[i]));
  }

  /** Meeting both thresholds ends in High; NaN meets neither and stays N/A. */
  lemma HighOverridesLow(value: Float, low: real, high: real)
    ensures AtMost(value, low) && AtLeast(value, high) ==> GroupOf(value, low, high) == High
    ensures value == NaN ==> GroupOf(value, low, high) == NA
    ensures GroupOf(value, low, high) == Low <==> AtMost(value, low) && !AtLeast(value, high)
  {
  }

  // -------------------------------------------------------------- selection

  predicate Selected(c: Classified) {
    c.disabilityGroup != NA || c.incomeGroup != NA
  }

  /** src/run_analysis.py:64-66: the stops with a disability or an income group, in order. */
  function StopsToAnalyze(cs: seq<Classified>): (r: seq<Classified>)
    ensures |r| <= |cs|
    ensures forall c :: c in r <==> c in cs && Selected(c)
    ensures forall c :: multiset(r)[c] == if Selected(c) then multiset(cs)[c] else 0
    decreases |cs|
  {
    if cs == [] then []
    else
      var init, last := cs[..|cs| - 1], cs[|cs| - 1];
      SplitLast(cs);
      assert forall c :: c in cs <==> c in init || c == last;
      StopsToAnalyze(init) + (if Selected(last) then [last] else [])
  }

  /** The boolean mask keeps the row order: selecting from a concatenation
      concatenates the selections. */
  lemma {:induction false} StopsToAnalyzeAppend(a: seq<Classified>, b: seq<Classified>)
    ensures StopsToAnalyze(a + b) == StopsToAnalyze(a) + StopsToAnalyze(b)
    decreases |b|
  {
    if b == [] {
      assert a + b == a;
    } else {
      var init, last := b[..|b| - 1], b[|b| - 1];
      var tail := if Selected(last) then [last] else [];
      SplitLastOfAppend(a, b);
      StopsToAnalyzeAppend(a, init);
      calc {
        StopsToAnalyze(a + b);
        StopsToAnalyze(a + init) + tail;
        StopsToAnalyze(a) + StopsToAnalyze(init) + tail;
        { AppendAssoc(StopsToAnalyze(a), StopsToAnalyze(init), tail); }
        StopsToAnalyze(a) + (StopsToAnalyze(init) + tail);
        StopsToAnalyze(a) + StopsToAnalyze(b);
      }
    }
  }

  /** From the joined rows to the stops to analyse: a stop is kept iff its row
      is complete and it lands in a group for disability or for income. */
  method SelectStops(rows: seq<MasterRow>, th: Thresholds) returns (selected: seq<Classified>)
    ensures forall c :: c in selected <==>
      (exists row :: row in rows && Complete(row) && c == Classify(ToStop(row), th)) && Selected(c)
    ensures var stops := DropIncomplete(rows);
            selected == StopsToAnalyze(seq(|stops|, i requires 0 <= i < |stops| => Classify(stops[i], th)))
  {
    var stops := DropIncomplete(rows);
    var classified := AssignGroups(stops, th);
    assert classified == seq(|stops|, i requires 0 <= i < |stops| => Classify(stops[i], th));
    selected := StopsToAnalyze(classified);
    forall c | c in selected
      ensures exists row :: row in rows && Complete(row) && c == Classify(ToStop(row), th)
    {
      var i :| 0 <= i < |classified| && classified[i] == c;
      assert stops[i] in stops;
    }
    forall row | row in rows && Complete(row) && Selected(Classify(ToStop(row), th))
      ensures Classify(ToStop(row), th) in selected
    {
      var i :| 0 <= i < |stops| && stops[i] == ToStop(row);
      assert classified[i] == Classify(ToStop(row), th);
    }
  }

  // ------------------------------------------------------------ checkpoints

  /** One CSV row of the output file. */
  datatype OutputRow = OutputRow(stopId: int, stopName: string, lat: real, lon: real,
                                 incomeGroup: Group, disabilityGroup: Group,
                                 medianIncome: real, disabilityPercentage: Float,
                                 analysis: Analyzer.AnalysisResult)

  /** What one `to_csv` call appends: the row, preceded by the header if asked. */
  datatype Chunk = Chunk(withHeader: bool, row: OutputRow)

  function RowFor(c: Classified, analysis: Analyzer.AnalysisResult): OutputRow {
    OutputRow(c.stop.stopId, c.stop.stopName, c.stop.lat, c.stop.lon,
              c.incomeGroup, c.disabilityGroup, c.stop.medianIncome,
              c.stop.disabilityPercentage, analysis)
  }

  /** The stop ids already in the output file; none when there is no file. */
  function ProcessedIds(existing: Option<seq<int>>): set<int> {
    match existing
    case Some(ids) => set id | id in ids
    case None => {}
  }

  /** The stops the batch still has to analyse, in order. */
  function Pending(cs: seq<Classified>, processed: set<int>): (r: seq<Classified>)
    ensures |r| <= |cs|
    ensures forall c :: c in r <==> c in cs && c.stop.stopId !in processed
    decreases |cs|
  {
    if cs == [] then []
    else
      var init, last := cs[..|cs| - 1], cs[|cs| - 1];
      assert forall c :: c in cs <==> c in init || c == last;
      Pending(init, processed) + (if last.stop.stopId in processed then [] else [last])
  }

  /** What the batch appends to the output file, given the stop ids already in
      it and whether the file is new (`newFile`): a chunk for every pending stop,
      the first of them with the header when the file is new. */
  function Appended(cs: seq<Classified>, processed: set<int>, newFile: bool,
                    analyze: (real, real) -> Analyzer.AnalysisResult): (r: seq<Chunk>)
    ensures |r| <= |cs|
    ensures forall k :: 0 <= k < |r| ==> (r[k].withHeader <==> newFile && k == 0)
    decreases |cs|
  {
    if cs == [] then []
    else
      var before := Appended(cs[..|cs| - 1], processed, newFile, analyze);
      var last := cs[|cs| - 1];
      if last.stop.stopId in processed then before
      else before + [Chunk(newFile && before == [], RowFor(last, analyze(last.stop.lat, last.stop.lon)))]
  }

  /** The appended chunks are the pending stops' rows, in order, one each, and
      only the first chunk of a new file carries the header. */
  lemma {:induction false} AppendedRows(cs: seq<Classified>, processed: set<int>, newFile: bool,
                                        analyze: (real, real) -> Analyzer.AnalysisResult)
    ensures var out, todo := Appended(cs, processed, newFile, analyze), Pending(cs, processed);
            && |out| == |todo|
            && (forall k :: 0 <= k < |out| ==>
                  out[k].row == RowFor(todo[k], analyze(todo[k].stop.lat, todo[k].stop.lon)))
            && (forall k :: 0 <= k < |out| ==> (out[k].withHeader <==> newFile && k == 0))
    decreases |cs|
  {
    if cs != [] {
      AppendedRows(cs[..|cs| - 1], processed, newFile, analyze);
    }
  }

  /** src/run_analysis.py:68-98: skip the stops whose id the existing output
      file holds, analyse every other one and append one row for it; the header
      goes before the first row, and only when there was no file. `existing`
      is the stop-id column of the output file, None when it does not exist;
      `analyze` stands for the per-stop analysis. */
  method RunBatch(stops: seq<Classified>, existing: Option<seq<int>>,
                  analyze: (real, real) -> Analyzer.AnalysisResult)
    returns (written: seq<Chunk>)
    ensures written == Appended(stops, ProcessedIds(existing), existing.None?, analyze)
  {
    var processed := ProcessedIds(existing);
    var header := existing.None?;
    written := [];
    for i := 0 to |stops|
      invariant written == Appended(stops[..i], processed, existing.None?, analyze)
      invariant header <==> existing.None? && written == []
    {
      assert stops[..i + 1][..i] == stops[..i];
      var stop := stops[i];
      if stop.stop.stopId in processed {
        continue;
      }
      var analysis := analyze(stop.stop.lat, stop.stop.lon);
      written := written + [Chunk(header, RowFor(stop, analysis))];
      header := false;
    }
    assert stops[..|stops|] == stops;
  }

  /** Every output row belongs to a selected stop that was not processed
      before, and each such stop gets exactly as many rows as it occurs. */
  lemma {:induction false} PendingCounts(cs: seq<Classified>, processed: set<int>, c: Classified)
    ensures multiset(Pending(cs, processed))[c] ==
            if c.stop.stopId in processed then 0 else multiset(cs)[c]
    decreases |cs|
  {
    if cs != [] {
      var init, last := cs[..|cs| - 1], cs[|cs| - 1];
      PendingCounts(init, processed, c);
      SplitLast(cs);
      assert multiset(cs)[c] == multiset(init)[c] + multiset([last])[c];
      if last.stop.stopId in processed {
        assert Pending(cs, processed) == Pending(init, processed);
      } else {
        assert Pending(cs, processed) == Pending(init, processed) + [last];
      }
    }
  }
}
