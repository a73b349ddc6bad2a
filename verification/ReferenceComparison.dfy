/** Comparing three policy revisions over one benchmark (src/release_sentinel/coverage/comparison.py). */
module ReferenceComparison {
  import opened Wrappers
  import opened Sets
  import opened Hex
  import opened CoverageProtocol
  import opened Counting
  import opened Arena
  import Holm
  import McNemar

  datatype Metric = Metric(name: string, verdict: OracleVerdict, event: Classification)

  const METRICS: seq<Metric> := [Metric("escape", UNSAFE, ESCAPE), Metric("overblock", SAFE, OVERBLOCK)]

  const PAIRS: seq<(nat, nat)> := [(0, 1), (1, 2), (0, 2)]

  const REVISIONS: seq<int> := [1, 2, 3]

  const ALPHA: real := 0.05

  /** Which measured candidates of the population `verdict` are events, by id; on a repeated id
      the last one stays. */
  function EventMap(measurements: seq<Measurement>, metric: Metric): map<string, bool> {
    if measurements == [] then map[]
    else
      var n := |measurements| - 1;
      var earlier := EventMap(measurements[..n], metric);
      var m := measurements[n];
      if m.verdict == metric.verdict then earlier[m.candidateId := m.classification == metric.event] else earlier
  }

  // ---------------------------------------------------------------- event maps

  lemma {:induction false} EventMapKeys(measurements: seq<Measurement>, metric: Metric, id: string)
    ensures id in EventMap(measurements, metric) <==>
            exists k :: 0 <= k < |measurements| &&
              measurements[k].verdict == metric.verdict && measurements[k].candidateId == id
  {
    if measurements == [] {
    } else {
      var n := |measurements| - 1;
      EventMapKeys(measurements[..n], metric, id);
      assert forall k :: 0 <= k < n ==> measurements[..n][k] == measurements[k];
    }
  }

  /** The last measurement of an id decides. */
  lemma {:induction false} EventMapValue(measurements: seq<Measurement>, metric: Metric, k: nat)
    requires k < |measurements| && measurements[k].verdict == metric.verdict
    requires forall j :: k < j < |measurements| && measurements[j].verdict == metric.verdict ==>
      measurements[j].candidateId != measurements[k].candidateId
    ensures measurements[k].candidateId in EventMap(measurements, metric)
    ensures EventMap(measurements, metric)[measurements[k].candidateId] ==
            (measurements[k].classification == metric.event)
  {
    var n := |measurements| - 1;
    if k == n {
    } else {
      assert forall i :: 0 <= i < n ==> measurements[..n][i] == measurements[i];
      EventMapValue(measurements[..n], metric, k);
    }
  }

  // ---------------------------------------------------------------- populations

  function CandidateIds(d: Definition): (ids: seq<string>)
    ensures |ids| == |d.candidates| && forall i :: 0 <= i < |ids| ==> ids[i] == d.candidates[i].id
  {
    seq(|d.candidates|, i requires 0 <= i < |d.candidates| => d.candidates[i].id)
  }

  /** The ids of the candidates that load and that the oracle finds `verdict`: no policy in it. */
  ghost function Population(d: Definition, verdict: OracleVerdict): set<string> {
    set c | c in d.candidates && d.loads(c) && d.judge(c).verdict == verdict :: c.id
  }

  ghost function NamesAt(names: seq<string>, s: set<nat>): set<string>
    requires forall i :: i in s ==> i < |names|
  {
    set i | i in s :: names[i]
  }

  lemma MeasuredIsPopulation(ms: seq<Measurement>, d: Definition, revision: int, metric: Metric, k: nat)
    requires RecordsAll(ms, d, revision, d.candidates)
    requires k < |ms| && ms[k].verdict == metric.verdict
    ensures ms[k].candidateId in Population(d, metric.verdict)
  {
    var c := Loaded(d, d.candidates)[k];
    assert c in Loaded(d, d.candidates);
    assert Records(ms[k], d, revision, c);
  }

  lemma PopulationIsMeasured(ms: seq<Measurement>, d: Definition, revision: int, metric: Metric, id: string)
    returns (k: nat)
    requires RecordsAll(ms, d, revision, d.candidates) && id in Population(d, metric.verdict)
    ensures k < |ms| && ms[k].verdict == metric.verdict && ms[k].candidateId == id
  {
    var loaded := Loaded(d, d.candidates);
    var c :| c in d.candidates && d.loads(c) && d.judge(c).verdict == metric.verdict && c.id == id;
    k :| 0 <= k < |loaded| && loaded[k] == c;
    assert Records(ms[k], d, revision, c);
  }

  /** Every revision's map covers the same population, so pairing never fails. */
  lemma EventMapCoversPopulation(ms: seq<Measurement>, d: Definition, revision: int, metric: Metric)
    requires RecordsAll(ms, d, revision, d.candidates)
    ensures EventMap(ms, metric).Keys == Population(d, metric.verdict)
  {
    hide RecordsAll, EventMap, Population;
    forall id ensures id in EventMap(ms, metric) <==> id in Population(d, metric.verdict) {
      EventMapKeys(ms, metric, id);
      if id in Population(d, metric.verdict) {
        var k := PopulationIsMeasured(ms, d, revision, metric, id);
      }
      if id in EventMap(ms, metric) {
        var k :| 0 <= k < |ms| && ms[k].verdict == metric.verdict && ms[k].candidateId == id;
        MeasuredIsPopulation(ms, d, revision, metric, k);
      }
    }
  }

  lemma PopulationIsConfirmed(d: Definition, revision: int, verdict: OracleVerdict)
    ensures forall i :: i in Confirmed(Observed(d, revision), verdict) ==> i < |d.candidates|
    ensures Population(d, verdict) == NamesAt(CandidateIds(d), Confirmed(Observed(d, revision), verdict))
  {
    var confirmed := Confirmed(Observed(d, revision), verdict);
    forall id ensures id in Population(d, verdict) <==> id in NamesAt(CandidateIds(d), confirmed) {
      if id in Population(d, verdict) {
        var c :| c in d.candidates && d.loads(c) && d.judge(c).verdict == verdict && c.id == id;
        var i :| 0 <= i < |d.candidates| && d.candidates[i] == c;
        assert i in confirmed && CandidateIds(d)[i] == id;
      }
    }
  }

  predicate UniqueIds(candidates: seq<Candidate>) {
    forall i, j :: 0 <= i < j < |candidates| ==> candidates[i].id != candidates[j].id
  }

  lemma {:induction false} LoadedStayUnique(d: Definition, candidates: seq<Candidate>)
    requires UniqueIds(candidates)
    ensures UniqueIds(Loaded(d, candidates))
  {
    if candidates == [] {
    } else {
      var n := |candidates| - 1;
      LoadedStayUnique(d, candidates[..n]);
      forall c | c in Loaded(d, candidates[..n]) ensures c.id != candidates[n].id {
        var i :| 0 <= i < n && candidates[..n][i] == c;
        assert candidates[i].id != candidates[n].id;
      }
    }
  }

  lemma RecordedEvent(m: Measurement, d: Definition, revision: int, metric: Metric, c: Candidate)
    requires metric in METRICS && d.loads(c) && Records(m, d, revision, c)
    ensures m.classification == metric.event <==> Classify(ObservationOf(d, revision, c)) == Ok(metric.event)
    ensures m.classification == metric.event ==> m.verdict == metric.verdict
  {
  }

  lemma EventPosition(m: Measurement, d: Definition, revision: int, metric: Metric, c: Candidate) returns (i: nat)
    requires metric in METRICS && c in d.candidates && d.loads(c) && Records(m, d, revision, c)
    requires m.classification == metric.event
    ensures i < |d.candidates| && d.candidates[i] == c && i in Positions(Observed(d, revision), metric.event)
  {
    i :| 0 <= i < |d.candidates| && d.candidates[i] == c;
    RecordedEvent(m, d, revision, metric, c);
  }

  predicate UniqueMeasurements(ms: seq<Measurement>) {
    forall i, j :: 0 <= i < j < |ms| ==> ms[i].candidateId != ms[j].candidateId
  }

  lemma MeasuredOnce(ms: seq<Measurement>, d: Definition, revision: int)
    requires UniqueIds(d.candidates) && RecordsAll(ms, d, revision, d.candidates)
    ensures UniqueMeasurements(ms)
  {
    LoadedStayUnique(d, d.candidates);
    assert forall k :: 0 <= k < |ms| ==> ms[k].candidateId == Loaded(d, d.candidates)[k].id;
  }

  lemma FlaggedIsEvent(ms: seq<Measurement>, d: Definition, revision: int, metric: Metric, id: string) returns (i: nat)
    requires metric in METRICS && UniqueMeasurements(ms) && RecordsAll(ms, d, revision, d.candidates)
    requires id in McNemar.Flagged(EventMap(ms, metric))
    ensures i in Positions(Observed(d, revision), metric.event) && i < |d.candidates| && d.candidates[i].id == id
  {
    EventMapKeys(ms, metric, id);
    var k :| 0 <= k < |ms| && ms[k].verdict == metric.verdict && ms[k].candidateId == id;
    EventMapValue(ms, metric, k);
    assert Loaded(d, d.candidates)[k] in Loaded(d, d.candidates);
    i := EventPosition(ms[k], d, revision, metric, Loaded(d, d.candidates)[k]);
  }

  lemma EventIsFlagged(ms: seq<Measurement>, d: Definition, revision: int, metric: Metric, i: nat)
    requires metric in METRICS && UniqueMeasurements(ms) && RecordsAll(ms, d, revision, d.candidates)
    requires i in Positions(Observed(d, revision), metric.event)
    ensures i < |d.candidates| && d.candidates[i].id in McNemar.Flagged(EventMap(ms, metric))
  {
    var c, loaded := d.candidates[i], Loaded(d, d.candidates);
    assert Classify(ObservationOf(d, revision, c)) == Ok(metric.event);
    assert c in loaded;
    var k :| 0 <= k < |loaded| && loaded[k] == c;
    RecordedEvent(ms[k], d, revision, metric, c);
    EventMapValue(ms, metric, k);
  }

  /** With unique ids, the flagged ids are those of the candidates counted as events. */
  lemma FlaggedAreEvents(ms: seq<Measurement>, d: Definition, revision: int, metric: Metric)
    requires metric in METRICS && UniqueIds(d.candidates) && RecordsAll(ms, d, revision, d.candidates)
    ensures forall i :: i in Positions(Observed(d, revision), metric.event) ==> i < |d.candidates|
    ensures McNemar.Flagged(EventMap(ms, metric)) ==
            NamesAt(CandidateIds(d), Positions(Observed(d, revision), metric.event))
  {
    hide RecordsAll, EventMap, Positions, McNemar.Flagged;
    MeasuredOnce(ms, d, revision);
    var flagged, events := McNemar.Flagged(EventMap(ms, metric)), Positions(Observed(d, revision), metric.event);
    forall i | i in events ensures i < |d.candidates| && CandidateIds(d)[i] in flagged {
      EventIsFlagged(ms, d, revision, metric, i);
    }
    forall id | id in flagged ensures id in NamesAt(CandidateIds(d), events) {
      var i := FlaggedIsEvent(ms, d, revision, metric, id);
      assert CandidateIds(d)[i] == id;
    }
  }

  function EventCount(counts: Counts, metric: Metric): nat {
    if metric.event == ESCAPE then counts.escapes else counts.overblocks
  }

  function PopulationCount(counts: Counts, metric: Metric): nat {
    if metric.verdict == UNSAFE then counts.confirmedUnsafe else counts.confirmedSafe
  }

  lemma CountersOf(counts: Counts, observations: seq<Observation>, metric: Metric)
    requires metric in METRICS && Tallies(counts, observations)
    ensures EventCount(counts, metric) == |Positions(observations, metric.event)|
    ensures PopulationCount(counts, metric) == |Confirmed(observations, metric.verdict)|
  {
    ClassesMeaning(observations);
    hide Positions, Decided, Confirmed, Classify;
  }

  /** The maps agree with the counters of the same run. */
  lemma MapsMatchCounts(run: Run, d: Definition, metric: Metric)
    requires metric in METRICS && UniqueIds(d.candidates)
    requires RecordsAll(run.measurements, d, run.revision, d.candidates)
    requires Tallies(run.counts, Observed(d, run.revision))
    ensures |EventMap(run.measurements, metric)| == |Population(d, metric.verdict)|
    ensures |EventMap(run.measurements, metric)| == PopulationCount(run.counts, metric)
    ensures |McNemar.Flagged(EventMap(run.measurements, metric))| == EventCount(run.counts, metric)
  {
    hide Tallies, RecordsAll, Positions, Confirmed, Population, EventMap, McNemar.Flagged, Observed;
    var observed := Observed(d, run.revision);
    CountersOf(run.counts, observed, metric);
    EventMapCoversPopulation(run.measurements, d, run.revision, metric);
    PopulationIsConfirmed(d, run.revision, metric.verdict);
    NamesSize(CandidateIds(d), Confirmed(observed, metric.verdict));
    FlaggedAreEvents(run.measurements, d, run.revision, metric);
    NamesSize(CandidateIds(d), Positions(observed, metric.event));
    assert |EventMap(run.measurements, metric)| == |EventMap(run.measurements, metric).Keys|;
  }

  // ---------------------------------------------------------------- the comparison

  datatype Row = Row(
    metric: string,
    revisionFrom: int,
    revisionTo: int,
    policyFrom: string,
    policyTo: string,
    paired: McNemar.Comparison,
    rejectRaw: bool,
    correction: Option<Holm.Correction>)

  datatype Point = Point(
    revision: int,
    policySha256: string,
    escapes: nat,
    overblocks: nat,
    escapeRate: Rate,
    overblockRate: Rate)

  /** What the comparison receipt commits to, its constant labels apart. */
  datatype Receipt = Receipt(
    scopeSha256: string, manifestSha256: string, points: seq<Point>, comparisons: seq<Row>)

  datatype ReceiptTag = ReceiptTag(secret: string, receipt: Receipt)

  datatype SignedReceipt = SignedReceipt(
    receipt: Receipt, payloadSha256: string, signature: ReceiptTag, keyId: string, algorithm: string)

  datatype ReceiptHashes = ReceiptHashes(scope: Scope -> string, receipt: Receipt -> string)

  datatype Payload = Payload(
    runs: seq<Run>, points: seq<Point>, comparisons: seq<Row>, oracleQualified: bool, signed: SignedReceipt)

  datatype PayloadError = ArenaFailed(error: ArenaError) | ScopeMismatch | NoDigest

  ghost predicate RunsOf(runs: seq<Run>, d: Definition) {
    |runs| == |REVISIONS| && forall i :: 0 <= i < |runs| ==> RunOf(runs[i], d, REVISIONS[i])
  }

  /** The row compares the two runs of its pair on its metric. */
  predicate RowFits(row: Row, runs: seq<Run>, metric: Metric, pair: (nat, nat))
    requires pair.0 < |runs| && pair.1 < |runs|
  {
    && row.metric == metric.name
    && row.revisionFrom == runs[pair.0].revision && row.revisionTo == runs[pair.1].revision
    && row.policyFrom == runs[pair.0].policySha256 && row.policyTo == runs[pair.1].policySha256
    && McNemar.PairedMcnemarExact(EventMap(runs[pair.0].measurements, metric),
                                  EventMap(runs[pair.1].measurements, metric)) == Ok(row.paired)
    && row.rejectRaw == (row.paired.exactPValue < ALPHA)
  }

  function PValues(rows: seq<Row>): (values: seq<real>)
    ensures |values| == |rows| && forall i :: 0 <= i < |rows| ==> values[i] == rows[i].paired.exactPValue
  {
    seq(|rows|, i requires 0 <= i < |rows| => rows[i].paired.exactPValue)
  }

  /** Row 3m + k compares pair k on metric m. */
  predicate FitsAt(rows: seq<Row>, runs: seq<Run>, i: nat)
    requires |runs| == 3 && i < |rows| <= 6
  {
    RowFits(rows[i], runs, METRICS[i / 3], PAIRS[i % 3])
  }

  /** The six comparisons, corrected over the family of all of them. */
  ghost predicate Compares(rows: seq<Row>, runs: seq<Run>)
    requires |runs| == 3
  {
    && |rows| == 6
    && (forall i :: 0 <= i < 6 ==> FitsAt(rows, runs, i))
    && (forall i :: 0 <= i < 6 ==> rows[i].correction == Some(Holm.CorrectionOf(PValues(rows), ALPHA, i)))
  }

  /** All runs succeed with the same scope, and whatever the receipt names is a digest
      (`_require_sha256`). */
  ghost predicate Succeeds(d: Definition, hashes: ReceiptHashes) {
    && (forall i :: 0 <= i < |REVISIONS| ==> Runs(d, REVISIONS[i]))
    && d.scope(2) == d.scope(1) == d.scope(3)
    && ValidSha256Hex(hashes.scope(d.scope(1))) && ValidSha256Hex(d.scope(1).benchmarkManifestSha256)
    && forall i :: 0 <= i < |REVISIONS| ==> ValidSha256Hex(d.policySha256(REVISIONS[i]))
  }

  method CollectRuns(d: Definition) returns (r: Result<seq<Run>, ArenaError>)
    ensures r.Ok? <==> forall i :: 0 <= i < |REVISIONS| ==> Runs(d, REVISIONS[i])
    ensures r.Ok? ==> RunsOf(r.value, d)
  {
    hide RunOf, Runs;
    var runs: seq<Run> := [];
    for i := 0 to |REVISIONS|
      invariant |runs| == i
      invariant forall k :: 0 <= k < i ==> Runs(d, REVISIONS[k]) && RunOf(runs[k], d, REVISIONS[k])
    {
      var run := RunReferenceArena(d, REVISIONS[i]);
      if run.Err? {
        return Err(run.error);
      }
      runs := runs + [run.value];
    }
    return Ok(runs);
  }

  /** Both maps cover the same population, so the comparison cannot raise. */
  lemma PairingSucceeds(runs: seq<Run>, d: Definition, metric: Metric, first: nat, second: nat)
    requires RunsOf(runs, d) && first < |runs| && second < |runs|
    ensures McNemar.PairedMcnemarExact(EventMap(runs[first].measurements, metric),
                                       EventMap(runs[second].measurements, metric)).Ok?
  {
    EventMapCoversPopulation(runs[first].measurements, d, REVISIONS[first], metric);
    EventMapCoversPopulation(runs[second].measurements, d, REVISIONS[second], metric);
  }

  lemma PairedPValue(row: Row, runs: seq<Run>, metric: Metric, pair: (nat, nat))
    requires pair.0 < |runs| && pair.1 < |runs| && RowFits(row, runs, metric, pair)
    ensures 0.0 <= row.paired.exactPValue <= 1.0
  {
    McNemar.PValueRange(row.paired.onlyFirst, row.paired.onlySecond);
  }

  method ComparePairs(runs: seq<Run>, metric: Metric, ghost d: Definition) returns (rows: seq<Row>)
    requires RunsOf(runs, d)
    ensures |rows| == |PAIRS|
    ensures forall k :: 0 <= k < |PAIRS| ==> RowFits(rows[k], runs, metric, PAIRS[k])
    ensures forall k :: 0 <= k < |PAIRS| ==> 0.0 <= rows[k].paired.exactPValue <= 1.0
  {
    hide McNemar.PairedMcnemarExact, EventMap, RunOf;
    rows := [];
    for k := 0 to |PAIRS|
      invariant |rows| == k
      invariant forall j :: 0 <= j < k ==> RowFits(rows[j], runs, metric, PAIRS[j])
      invariant forall j :: 0 <= j < k ==> 0.0 <= rows[j].paired.exactPValue <= 1.0
    {
      var (first, second) := PAIRS[k];
      PairingSucceeds(runs, d, metric, first, second);
      var paired := McNemar.PairedMcnemarExact(EventMap(runs[first].measurements, metric),
                                               EventMap(runs[second].measurements, metric)).value;
      var row := Row(metric.name, runs[first].revision, runs[second].revision, runs[first].policySha256,
                     runs[second].policySha256, paired, paired.exactPValue < ALPHA, None);
      PairedPValue(row, runs, metric, PAIRS[k]);
      rows := rows + [row];
    }
  }

  /** `zip` and `update`: the corrections come back in the order of the rows. */
  method AttachCorrections(rows: seq<Row>) returns (corrected: seq<Row>)
    requires forall i :: 0 <= i < |rows| ==> 0.0 <= rows[i].paired.exactPValue <= 1.0
    ensures |corrected| == |rows| && PValues(corrected) == PValues(rows)
    ensures forall i :: 0 <= i < |rows| ==>
      corrected[i] == rows[i].(correction := Some(Holm.CorrectionOf(PValues(rows), ALPHA, i)))
  {
    var corrections := Holm.HolmBonferroni(PValues(rows), ALPHA);
    corrected := rows;
    for i := 0 to |rows|
      invariant |corrected| == |rows|
      invariant forall k :: 0 <= k < i ==>
        corrected[k] == rows[k].(correction := Some(Holm.CorrectionOf(PValues(rows), ALPHA, k)))
      invariant forall k :: i <= k < |rows| ==> corrected[k] == rows[k]
    {
      corrected := corrected[i := corrected[i].(correction := Some(corrections.value[i]))];
    }
    assert PValues(corrected) == PValues(rows);
  }

  lemma CorrectionKeepsRows(rows: seq<Row>, corrected: seq<Row>, runs: seq<Run>)
    requires |rows| == |corrected| == 6 && |runs| == 3 && PValues(corrected) == PValues(rows)
    requires forall i :: 0 <= i < 6 ==> FitsAt(rows, runs, i)
    requires forall i :: 0 <= i < |rows| ==>
      corrected[i] == rows[i].(correction := Some(Holm.CorrectionOf(PValues(rows), ALPHA, i)))
    ensures Compares(corrected, runs)
  {
    hide EventMap, McNemar.PairedMcnemarExact, Holm.CorrectionOf;
    forall i | 0 <= i < 6 ensures FitsAt(corrected, runs, i) {
      assert FitsAt(rows, runs, i);
    }
  }

  lemma NextMetricFits(rows: seq<Row>, more: seq<Row>, runs: seq<Run>, m: nat)
    requires |rows| == 3 * m && m < 2 && |runs| == 3 && |more| == 3
    requires forall i :: 0 <= i < 3 * m ==> FitsAt(rows, runs, i)
    requires forall k :: 0 <= k < 3 ==> RowFits(more[k], runs, METRICS[m], PAIRS[k])
    ensures forall i :: 0 <= i < 3 * m + 3 ==> FitsAt(rows + more, runs, i)
  {
    hide RowFits;
    forall i | 0 <= i < 3 * m + 3 ensures FitsAt(rows + more, runs, i) {
      if i < 3 * m {
        assert FitsAt(rows, runs, i);
      } else {
        assert i / 3 == m && i % 3 == i - 3 * m;
      }
    }
  }

  method CompareAll(runs: seq<Run>, ghost d: Definition) returns (rows: seq<Row>)
    requires RunsOf(runs, d)
    ensures Compares(rows, runs)
  {
    hide FitsAt, RowFits, RunOf, Compares;
    var compared: seq<Row> := [];
    for m := 0 to |METRICS|
      invariant |compared| == 3 * m
      invariant forall i :: 0 <= i < |compared| ==> FitsAt(compared, runs, i)
      invariant forall i :: 0 <= i < |compared| ==> 0.0 <= compared[i].paired.exactPValue <= 1.0
    {
      var more := ComparePairs(runs, METRICS[m], d);
      NextMetricFits(compared, more, runs, m);
      compared := compared + more;
    }
    rows := AttachCorrections(compared);
    CorrectionKeepsRows(compared, rows, runs);
  }

  /** What a point repeats of its run. */
  function PointOf(run: Run, sqrt: real -> real): Point
    requires Countable(run)
  {
    var counts := run.counts;
    Point(run.revision, run.policySha256, counts.escapes, counts.overblocks,
          RateOf(counts.escapes, counts.confirmedUnsafe, sqrt), RateOf(counts.overblocks, counts.confirmedSafe, sqrt))
  }

  predicate Countable(run: Run) {
    run.counts.escapes <= run.counts.confirmedUnsafe && run.counts.overblocks <= run.counts.confirmedSafe
  }

  predicate Plots(points: seq<Point>, runs: seq<Run>, sqrt: real -> real) {
    && |points| == |runs|
    && forall i :: 0 <= i < |points| ==> Countable(runs[i]) && points[i] == PointOf(runs[i], sqrt)
  }

  /** A point names its run's policy and counters; escapes are a share of the unsafe population,
      overblocks one of the safe. */
  lemma PointMeaning(run: Run, sqrt: real -> real)
    requires Countable(run)
    ensures var p, counts := PointOf(run, sqrt), run.counts;
      && p.revision == run.revision && p.policySha256 == run.policySha256
      && p.escapes == counts.escapes && p.overblocks == counts.overblocks
      && p.escapeRate.numerator == counts.escapes && p.escapeRate.denominator == counts.confirmedUnsafe
      && p.overblockRate.numerator == counts.overblocks && p.overblockRate.denominator == counts.confirmedSafe
  {
  }

  method PlotRuns(runs: seq<Run>, sqrt: real -> real) returns (points: seq<Point>)
    requires forall i :: 0 <= i < |runs| ==> Countable(runs[i])
    ensures Plots(points, runs, sqrt)
  {
    points := [];
    for i := 0 to |runs|
      invariant |points| == i && forall k :: 0 <= k < i ==> points[k] == PointOf(runs[k], sqrt)
    {
      points := points + [PointOf(runs[i], sqrt)];
    }
  }

  method SameScope(runs: seq<Run>) returns (same: bool)
    requires |runs| == 3
    ensures same <==> runs[1].scope == runs[0].scope && runs[2].scope == runs[0].scope
  {
    for i := 1 to |runs|
      invariant forall k :: 1 <= k < i ==> runs[k].scope == runs[0].scope
    {
      if runs[i].scope != runs[0].scope {
        return false;
      }
    }
    return true;
  }

  lemma ScopesOf(runs: seq<Run>, d: Definition)
    requires RunsOf(runs, d)
    ensures runs[0].scope == d.scope(1) && runs[1].scope == d.scope(2) && runs[2].scope == d.scope(3)
    ensures forall i :: 0 <= i < |runs| ==> Countable(runs[i])
  {
    assert RunOf(runs[0], d, REVISIONS[0]) && RunOf(runs[1], d, REVISIONS[1]) && RunOf(runs[2], d, REVISIONS[2]);
  }

  /** The constructor of the receipt: at least two points, and digests wherever one is due. */
  predicate Receivable(receipt: Receipt) {
    && ValidSha256Hex(receipt.scopeSha256) && ValidSha256Hex(receipt.manifestSha256) && |receipt.points| >= 2
    && forall i :: 0 <= i < |receipt.points| ==> ValidSha256Hex(receipt.points[i].policySha256)
  }

  function SignReceipt(receipt: Receipt, authority: CoverageProtocol.Authority, hashes: ReceiptHashes): SignedReceipt {
    SignedReceipt(receipt, hashes.receipt(receipt), ReceiptTag(authority.secret, receipt), authority.keyId,
                  authority.algorithm)
  }

  predicate VerifyReceipt(signed: SignedReceipt, authority: CoverageProtocol.Authority, hashes: ReceiptHashes) {
    && signed.payloadSha256 == hashes.receipt(signed.receipt)
    && signed.keyId == authority.keyId && signed.algorithm == authority.algorithm
    && signed.signature == ReceiptTag(authority.secret, signed.receipt)
  }

  /** The receipt of a payload verifies and says what the payload says about its runs. */
  predicate Certifies(payload: Payload, authority: CoverageProtocol.Authority, hashes: ReceiptHashes)
    requires |payload.runs| == 3
  {
    && VerifyReceipt(payload.signed, authority, hashes)
    && payload.signed.receipt.points == payload.points && payload.signed.receipt.comparisons == payload.comparisons
    && forall i :: 0 <= i < 3 ==>
         && payload.signed.receipt.scopeSha256 == hashes.scope(payload.runs[i].scope)
         && payload.signed.receipt.manifestSha256 == payload.runs[i].scope.benchmarkManifestSha256
  }

  lemma DigestsOf(runs: seq<Run>, points: seq<Point>, d: Definition, sqrt: real -> real)
    requires RunsOf(runs, d) && Plots(points, runs, sqrt)
    ensures (forall i :: 0 <= i < |points| ==> ValidSha256Hex(points[i].policySha256)) <==>
            forall i :: 0 <= i < |REVISIONS| ==> ValidSha256Hex(d.policySha256(REVISIONS[i]))
  {
    hide ValidSha256Hex;
    forall i | 0 <= i < |REVISIONS| ensures points[i].policySha256 == d.policySha256(REVISIONS[i]) {
      assert RunOf(runs[i], d, REVISIONS[i]);
    }
  }

  method BuildReferenceDemoPayload(
    d: Definition, authority: CoverageProtocol.Authority, hashes: ReceiptHashes, sqrt: real -> real)
    returns (r: Result<Payload, PayloadError>)
    ensures r.Ok? <==> Succeeds(d, hashes)
    ensures r.Ok? ==>
      && RunsOf(r.value.runs, d)
      && Compares(r.value.comparisons, r.value.runs)
      && Plots(r.value.points, r.value.runs, sqrt)
      && Certifies(r.value, authority, hashes)
      && r.value.oracleQualified
  {
    hide Compares, RunOf, ValidSha256Hex, PointOf;
    var collected := CollectRuns(d);
    if collected.Err? {
      return Err(ArenaFailed(collected.error));
    }
    var runs := collected.value;
    var qualified := d.qualification.passed;
    assert Runs(d, REVISIONS[0]);
    hide Runs;
    ScopesOf(runs, d);
    var same := SameScope(runs);
    if !same {
      return Err(ScopeMismatch);
    }
    var points := PlotRuns(runs, sqrt);
    var comparisons := CompareAll(runs, d);
    var receipt := Receipt(hashes.scope(runs[0].scope), runs[0].scope.benchmarkManifestSha256, points, comparisons);
    DigestsOf(runs, points, d, sqrt);
    if !Receivable(receipt) {
      return Err(NoDigest);
    }
    return Ok(Payload(runs, points, comparisons, qualified, SignReceipt(receipt, authority, hashes)));
  }

  // ---------------------------------------------------------------- conservation

  /** Each row balances: it pairs the whole confirmed population of its metric, which no policy
      changes, and the events only the first policy has less those only the second has is the
      difference of the counters reported for the two runs. */
  lemma RowBalances(payload: Payload, d: Definition, i: nat)
    requires |payload.runs| == 3 && |payload.comparisons| == 6
    requires RunsOf(payload.runs, d) && Compares(payload.comparisons, payload.runs)
    requires UniqueIds(d.candidates) && i < 6
    ensures var row, metric, pair := payload.comparisons[i], METRICS[i / 3], PAIRS[i % 3];
            var first, second := payload.runs[pair.0].counts, payload.runs[pair.1].counts;
      && row.paired.totalPairs == PopulationCount(first, metric) == PopulationCount(second, metric)
      && row.paired.onlyFirst - row.paired.onlySecond == EventCount(first, metric) - EventCount(second, metric)
  {
    hide Tallies, RecordsAll, McNemar.PairedMcnemarExact, McNemar.Flagged, Population;
    var metric, pair := METRICS[i / 3], PAIRS[i % 3];
    var first, second := payload.runs[pair.0], payload.runs[pair.1];
    MapsMatchCounts(first, d, metric);
    MapsMatchCounts(second, d, metric);
    McNemar.ComparisonMeaning(EventMap(first.measurements, metric), EventMap(second.measurements, metric));
    assert FitsAt(payload.comparisons, payload.runs, i);
  }

  /** The first three rows are about escapes among the unsafe, the other three about overblocks
      among the safe; each names the revisions of the two runs it compares. */
  lemma RowLabels(payload: Payload, d: Definition, i: nat, first: Run, second: Run)
    requires |payload.runs| == 3 && |payload.comparisons| == 6
    requires RunsOf(payload.runs, d) && Compares(payload.comparisons, payload.runs)
    requires UniqueIds(d.candidates) && i < 6
    requires first == payload.runs[PAIRS[i % 3].0] && second == payload.runs[PAIRS[i % 3].1]
    ensures var row := payload.comparisons[i];
      && row.revisionFrom == first.revision == (if i % 3 == 1 then 2 else 1)
      && row.revisionTo == second.revision == (if i % 3 == 0 then 2 else 3)
      && row.metric == (if i < 3 then "escape" else "overblock")
      && row.paired.totalPairs == (if i < 3 then first.counts.confirmedUnsafe else first.counts.confirmedSafe)
      && row.paired.onlyFirst - row.paired.onlySecond ==
         if i < 3 then first.counts.escapes - second.counts.escapes
         else first.counts.overblocks - second.counts.overblocks
  {
    hide Tallies, RecordsAll, McNemar.PairedMcnemarExact, McNemar.Flagged, Population;
    RowBalances(payload, d, i);
    assert FitsAt(payload.comparisons, payload.runs, i);
    assert RunOf(payload.runs[0], d, 1) && RunOf(payload.runs[1], d, 2) && RunOf(payload.runs[2], d, 3) by {
      assert RunOf(payload.runs[0], d, REVISIONS[0]);
      assert RunOf(payload.runs[1], d, REVISIONS[1]);
      assert RunOf(payload.runs[2], d, REVISIONS[2]);
    }
  }

  ghost function Net(row: Row): int {
    row.paired.onlyFirst - row.paired.onlySecond
  }

  /** The events of a metric that the given run counted. */
  ghost function EventsIn(runs: seq<Run>, run: nat, metric: Metric): int {
    if run < |runs| then EventCount(runs[run].counts, metric) else 0
  }

  lemma NetOf(payload: Payload, d: Definition, row: Row, i: nat, metric: Metric, first: nat, second: nat)
    requires RunsOf(payload.runs, d) && Compares(payload.comparisons, payload.runs) && UniqueIds(d.candidates)
    requires i < 6 && payload.comparisons[i] == row
    requires METRICS[i / 3] == metric && PAIRS[i % 3] == (first, second)
    ensures Net(row) == EventsIn(payload.runs, first, metric) - EventsIn(payload.runs, second, metric)
  {
    hide RunOf, FitsAt, EventCount, PopulationCount;
    ThreeRuns(payload.runs, d);
    SixRows(payload.comparisons, payload.runs);
    RowBalances(payload, d, i);
  }

  lemma SixRows(rows: seq<Row>, runs: seq<Run>)
    requires |runs| == 3 && Compares(rows, runs)
    ensures |rows| == 6
  {
  }

  lemma ThreeRuns(runs: seq<Run>, d: Definition)
    requires RunsOf(runs, d)
    ensures |runs| == 3
  {
  }

  /** The net changes from revision 1 to 2 and from 2 to 3 add up to the one from 1 to 3. */
  lemma ChangesTelescope(payload: Payload, d: Definition, m: nat)
    requires RunsOf(payload.runs, d) && Compares(payload.comparisons, payload.runs)
    requires UniqueIds(d.candidates) && m < 2
    ensures Net(payload.comparisons[3 * m]) + Net(payload.comparisons[3 * m + 1]) == Net(payload.comparisons[3 * m + 2])
  {
    hide RunsOf, Compares, EventsIn, Net, UniqueIds;
    var rows := payload.comparisons;
    ThreeRuns(payload.runs, d);
    SixRows(rows, payload.runs);
    if m == 0 {
      NetOf(payload, d, rows[0], 0, METRICS[0], 0, 1);
      NetOf(payload, d, rows[1], 1, METRICS[0], 1, 2);
      NetOf(payload, d, rows[2], 2, METRICS[0], 0, 2);
    } else {
      NetOf(payload, d, rows[3], 3, METRICS[1], 0, 1);
      NetOf(payload, d, rows[4], 4, METRICS[1], 1, 2);
      NetOf(payload, d, rows[5], 5, METRICS[1], 0, 2);
    }
  }
}
