/** Bounded ddmin over the lines of a counterexample
    (src/release_sentinel/coverage/minimizer.py).

    The escape predicate is a pure function. The monotonic clock is an arbitrary
    nondecreasing function: its k-th reading is `clock(k)`. */
module Minimizer {

  // ----- Lines -----

  /** The characters at which `str.splitlines` ends a line. */
  predicate IsBreak(c: char) {
    '\n' <= c <= '\r' || '\U{1C}' <= c <= '\U{1E}' || c == '\U{85}' || c == '\U{2028}' || c == '\U{2029}'
  }

  /** LF, VT, FF, CR, FS, GS, RS, NEL and the two Unicode separators. */
  lemma BreaksAre(c: char)
    ensures IsBreak(c) <==> c in "\n\U{B}\U{C}\r\U{1C}\U{1D}\U{1E}\U{85}\U{2028}\U{2029}"
  {
  }

  /** A nonempty text whose only line break, if any, ends it; CR LF counts as one break. */
  predicate IsLine(line: string) {
    && line != []
    && forall i :: 0 <= i < |line| - 1 && IsBreak(line[i]) ==> i == |line| - 2 && line[i] == '\r' && line[i + 1] == '\n'
  }

  /** The length of the first line of `s`, its terminator included. */
  function LineLength(s: string): (n: nat)
    requires s != []
    ensures 1 <= n <= |s|
  {
    if IsBreak(s[0]) then
      if s[0] == '\r' && |s| > 1 && s[1] == '\n' then 2 else 1
    else if |s| == 1 then 1
    else 1 + LineLength(s[1..])
  }

  lemma {:induction false} FirstLine(s: string)
    requires s != []
    ensures var n := LineLength(s);
            IsLine(s[..n]) && (n < |s| ==> IsBreak(s[n - 1]) && !(s[n - 1] == '\r' && s[n] == '\n'))
  {
    if IsBreak(s[0]) || |s| == 1 {
    } else {
      FirstLine(s[1..]);
      var n := LineLength(s);
      assert s[..n][1..] == s[1..][..n - 1];
    }
  }

  /** `s.splitlines(keepends=True)` */
  function SplitLines(s: string): seq<string> {
    if s == [] then []
    else var n := LineLength(s); [s[..n]] + SplitLines(s[n..])
  }

  /** `"".join(lines)` */
  function Join(lines: seq<string>): string {
    if lines == [] then [] else lines[0] + Join(lines[1..])
  }

  /** Every element is one line, only the last may lack a break, and no CR LF is torn apart. */
  ghost predicate AreLines(lines: seq<string>) {
    lines != [] ==>
      var line := lines[0];
      && IsLine(line)
      && AreLines(lines[1..])
      && (|lines| > 1 && lines[1] != [] ==>
            IsBreak(line[|line| - 1]) && !(line[|line| - 1] == '\r' && lines[1][0] == '\n'))
  }

  /** Splitting loses nothing. */
  lemma {:induction false} JoinSplitLines(s: string)
    ensures Join(SplitLines(s)) == s
  {
    if s == [] {
    } else {
      var n := LineLength(s);
      JoinSplitLines(s[n..]);
      assert SplitLines(s)[1..] == SplitLines(s[n..]);
      assert s == s[..n] + s[n..];
    }
  }

  /** Splitting yields lines. */
  lemma {:induction false} SplitLinesAreLines(s: string)
    ensures AreLines(SplitLines(s))
  {
    if s == [] {
    } else {
      var n := LineLength(s);
      var rest := s[n..];
      FirstLine(s);
      SplitLinesAreLines(rest);
      assert SplitLines(s)[1..] == SplitLines(rest);
      if rest != [] {
        assert SplitLines(s)[1] == rest[..LineLength(rest)];
        assert SplitLines(s)[1][0] == s[n];
      }
    }
  }

  /** What is left of `lines` when `count` of them are removed at `start`. */
  function Drop(lines: seq<string>, start: nat, count: nat): seq<string>
    requires start <= |lines|
  {
    lines[..start] + (if start + count <= |lines| then lines[start + count..] else [])
  }

  /** The lines before `start` stay where they are, those after the gap move up. */
  lemma DropMeaning(lines: seq<string>, start: nat, count: nat, k: nat)
    requires start <= |lines| && k < |lines|
    ensures k < start ==> |Drop(lines, start, count)| > k && Drop(lines, start, count)[k] == lines[k]
    ensures k >= start + count ==>
      |Drop(lines, start, count)| == |lines| - count && Drop(lines, start, count)[k - count] == lines[k]
    ensures start + count >= |lines| ==> |Drop(lines, start, count)| == start
  {
  }

  // ----- What a reduction promises -----

  /** `lines` consists of the original lines at the strictly increasing positions `kept`. */
  ghost predicate Selects(kept: seq<nat>, original: seq<string>, lines: seq<string>) {
    && |kept| == |lines|
    && (forall i :: 0 <= i < |kept| ==> kept[i] < |original| && lines[i] == original[kept[i]])
    && (forall i, j :: 0 <= i < j < |kept| ==> kept[i] < kept[j])
  }

  ghost predicate Subsequence(lines: seq<string>, original: seq<string>) {
    exists kept: seq<nat> :: Selects(kept, original, lines)
  }

  /** No single remaining line can be removed. With one line left nothing is claimed: the
      chunk is always smaller than the line count, so the empty source is never tried. */
  ghost predicate OneMinimal(escapes: string -> bool, lines: seq<string>) {
    |lines| >= 2 ==> forall i :: 0 <= i < |lines| ==> !escapes(Join(Drop(lines, i, 1)))
  }

  datatype Status = MinimalUnderConfiguredGranularity | ReducedCounterexample

  datatype Outcome =
    | Minimized(source: string, status: Status, evaluations: nat, removedLines: int, budgetExhausted: bool)
    | BudgetExpiredBeforeOriginal
    | OriginalDoesNotEscape

  /** `r` is the text of `lines`, a subsequence of the lines of `source` that still escapes. */
  ghost predicate Reduction(source: string, escapes: string -> bool, r: Outcome, lines: seq<string>) {
    && r.Minimized?
    && Subsequence(lines, SplitLines(source))
    && r.source == Join(lines)
    && escapes(r.source)
    && r.removedLines == |SplitLines(source)| - |lines|
    && (lines == [] <==> source == "")
    && (r.status.MinimalUnderConfiguredGranularity? ==> OneMinimal(escapes, lines))
  }

  /** When "minimal" is minimal for every removal of one line: unless a single line is left and
      the empty source, which is never tried, escapes too. */
  lemma MinimalExactlyWhen(source: string, escapes: string -> bool, r: Outcome, lines: seq<string>)
    requires Reduction(source, escapes, r, lines) && r.status.MinimalUnderConfiguredGranularity? && lines != []
    ensures (forall i :: 0 <= i < |lines| ==> !escapes(Join(Drop(lines, i, 1)))) <==> |lines| >= 2 || !escapes("")
  {
    if |lines| == 1 {
      assert Drop(lines, 0, 1) == [];
    }
  }

  lemma {:induction false} PositionsGrow(kept: seq<nat>, original: seq<string>, lines: seq<string>, i: nat)
    requires Selects(kept, original, lines) && i < |lines|
    ensures i <= kept[i] < |original|
  {
    if i == 0 {
    } else {
      PositionsGrow(kept, original, lines, i - 1);
    }
  }

  /** The exception is real: a one-line source is returned as it is, whatever escapes. */
  lemma OneLineIsKept(source: string, escapes: string -> bool, r: Outcome, lines: seq<string>)
    requires Reduction(source, escapes, r, lines) && |SplitLines(source)| == 1
    ensures r.source == source && r.removedLines == 0
  {
    var kept :| Selects(kept, SplitLines(source), lines);
    assert source == "" ==> SplitLines(source) == [];
    PositionsGrow(kept, SplitLines(source), lines, |lines| - 1);
    assert |lines| == 1;
    assert lines == SplitLines(source);
    JoinSplitLines(source);
  }

  /** A line is a text of one line. */
  lemma {:induction false} LineSplitsToItself(line: string)
    requires IsLine(line)
    ensures SplitLines(line) == [line]
  {
    LineIsWhole(line);
    assert line[..|line|] == line && line[|line|..] == [];
    assert SplitLines([]) == [];
  }

  lemma {:induction false} LineIsWhole(line: string)
    requires IsLine(line)
    ensures LineLength(line) == |line|
  {
    if |line| == 1 {
    } else if IsBreak(line[0]) {
      assert line[0] == '\r' && line[1] == '\n' && |line| == 2;
    } else {
      LineIsWhole(line[1..]);
    }
  }

  lemma {:induction false} EachIsLine(lines: seq<string>, i: nat)
    requires AreLines(lines) && i < |lines|
    ensures IsLine(lines[i])
  {
    if i == 0 {
    } else {
      EachIsLine(lines[1..], i - 1);
    }
  }

  /** No single line can be removed from `lines`, the last one included. */
  ghost predicate FullyMinimal(escapes: string -> bool, lines: seq<string>) {
    forall i :: 0 <= i < |lines| ==> !escapes(Join(Drop(lines, i, 1)))
  }

  /** "Minimal" is right about every reduction of every source. */
  ghost predicate LabelIsRight(escapes: string -> bool) {
    forall source, r, lines ::
      (Reduction(source, escapes, r, lines) && r.status.MinimalUnderConfiguredGranularity? && lines != []) ==>
        FullyMinimal(escapes, lines)
  }

  ghost predicate OneLineEscapes(escapes: string -> bool, text: string) {
    |SplitLines(text)| == 1 && escapes(text)
  }

  /** A reduction that ends with one line ends with a text of one line that escapes. */
  lemma SingleLineEscapes(source: string, escapes: string -> bool, r: Outcome, lines: seq<string>)
    requires Reduction(source, escapes, r, lines) && |lines| == 1
    ensures OneLineEscapes(escapes, lines[0])
  {
    var kept :| Selects(kept, SplitLines(source), lines);
    SplitLinesAreLines(source);
    EachIsLine(SplitLines(source), kept[0]);
    LineSplitsToItself(lines[0]);
    assert lines[1..] == [];
    assert Join(lines) == lines[0] + Join([]) == lines[0];
  }

  /** A text of one line that escapes reduces to itself. */
  lemma OneLineReduction(escapes: string -> bool, text: string)
    requires OneLineEscapes(escapes, text)
    ensures Reduction(text, escapes, Minimized(text, MinimalUnderConfiguredGranularity, 1, 0, false), SplitLines(text))
  {
    JoinSplitLines(text);
    AllSelected(SplitLines(text));
    assert SplitLines("") == [];
  }

  /** The label is right for a predicate exactly if not both the empty source and some one-line
      text escape. */
  lemma LabelIsRightExactlyWhen(escapes: string -> bool)
    ensures LabelIsRight(escapes) <==> !(escapes("") && exists text :: OneLineEscapes(escapes, text))
  {
    if escapes("") {
      if text :| OneLineEscapes(escapes, text) {
        OneLineReduction(escapes, text);
        var r := Minimized(text, MinimalUnderConfiguredGranularity, 1, 0, false);
        MinimalExactlyWhen(text, escapes, r, SplitLines(text));
        assert !FullyMinimal(escapes, SplitLines(text));
      }
    }
    forall source, r, lines | Reduction(source, escapes, r, lines) && r.status.MinimalUnderConfiguredGranularity?
                              && lines != [] && !(escapes("") && exists text :: OneLineEscapes(escapes, text))
      ensures FullyMinimal(escapes, lines)
    {
      MinimalExactlyWhen(source, escapes, r, lines);
      if |lines| == 1 {
        SingleLineEscapes(source, escapes, r, lines);
      }
    }
  }

  datatype BudgetFields = BudgetFields(maxEvaluations: int, maxSeconds: real) {
    predicate Valid() { maxEvaluations >= 1 && maxSeconds > 0.0 }
  }

  /** The constructor of MinimizationBudget raises on every other pair. */
  type Budget = b: BudgetFields | b.Valid() witness BudgetFields(1, 1.0)

  ghost predicate Nondecreasing(clock: nat -> real) {
    forall i: nat, j: nat :: i <= j ==> clock(i) <= clock(j)
  }

  // ----- The bound on predicate evaluations -----

  /** 1 + 2 + ... + n */
  function Triangle(n: nat): nat {
    if n == 0 then 0 else n + Triangle(n - 1)
  }

  lemma {:induction false} TriangleClosedForm(n: nat)
    ensures 2 * Triangle(n) == n * (n + 1)
  {
    if n == 0 {
    } else {
      TriangleClosedForm(n - 1);
    }
  }

  lemma {:induction false} TriangleMonotone(a: nat, b: nat)
    requires a <= b
    ensures Triangle(a) <= Triangle(b)
    decreases b
  {
    if a == b {
    } else {
      TriangleMonotone(a, b - 1);
    }
  }

  /** The evaluations that may still be spent on `len` lines at granularity `n`: at most 3·k at
      each smaller line count k, and at most 3·len - n (or `len`, in the last pass) at this one. */
  function Potential(len: nat, n: nat): nat
    requires 2 <= n <= len
  {
    3 * Triangle(len - 1) + if n == len then len else 3 * len - n
  }

  function EvaluationLimit(len: nat): nat {
    1 + 3 * Triangle(len)
  }

  /** 1 + 3·L·(L + 1) / 2 evaluations for L lines. */
  lemma LimitClosedForm(len: nat)
    ensures 2 * EvaluationLimit(len) == 2 + 3 * (len * (len + 1))
  {
    TriangleClosedForm(len);
  }

  /** `max(1, math.ceil(len / n))` */
  function Chunk(len: nat, n: nat): (c: nat)
    requires 2 <= n <= len
    ensures 1 <= c < len && c <= len - n + 1
    ensures n == len ==> c == 1
  {
    var c := (len + n - 1) / n;
    ChunkBounds(len, n, c);
    if c > 1 then c else 1
  }

  lemma ChunkBounds(len: nat, n: nat, c: int)
    requires 2 <= n <= len && c == (len + n - 1) / n
    ensures 1 <= c < len && c <= len - n + 1
    ensures n == len ==> c == 1
    ensures (c - 1) * n < len <= c * n
  {
    var rest := (len + n - 1) % n;
    assert len + n - 1 == c * n + rest && 0 <= rest < n;
    if c >= 2 {
      ProductAtLeastSum(c, n);
    } else {
      SmallProduct(c, n);
    }
  }

  /** A chunk is the least size of which n cover all lines. */
  lemma ChunkMeaning(len: nat, n: nat)
    requires 2 <= n <= len
    ensures (Chunk(len, n) - 1) * n < len <= Chunk(len, n) * n
  {
    ChunkBounds(len, n, (len + n - 1) / n);
  }

  lemma ProductAtLeastSum(c: int, n: int)
    requires c >= 2 && n >= 2
    ensures c * n >= c + 2 * (n - 1)
  {
    assert (c - 2) * (n - 1) >= 0;
  }

  lemma SmallProduct(c: int, n: int)
    requires c <= 1 && n >= 2
    ensures c <= 0 ==> c * n <= 0
    ensures c == 1 ==> c * n == n
  {
  }

  /** Fewer than `n` chunks start before the end of the lines. */
  lemma ChunkCount(len: nat, n: nat, c: nat, tried: nat)
    requires 2 <= n <= len && c == Chunk(len, n) && tried * c < len
    ensures tried < n
  {
    ChunkBounds(len, n, (len + n - 1) / n);
    assert len <= c * n;
    if tried >= n {
      assert false;
    }
  }

  /** The first evaluation fits beside everything that may follow it. */
  lemma InitialPotential(len: nat)
    requires len >= 2
    ensures 1 + Potential(len, 2) <= EvaluationLimit(len)
  {
  }

  /** A failed pass over all chunks pays for itself when the granularity doubles. */
  lemma FailedPass(len: nat, n: nat)
    requires 2 <= n < len
    ensures var m := if 2 * n < len then 2 * n else len; n + Potential(len, m) <= Potential(len, n)
  {
  }

  /** A successful pass pays for itself and for everything at the smaller line count. */
  lemma SuccessfulPass(len: nat, n: nat, shorter: nat, m: nat, tried: nat)
    requires 2 <= n <= len && tried <= n && 2 <= m <= shorter < len
    ensures tried + Potential(shorter, m) <= Potential(len, n)
  {
    TriangleMonotone(shorter, len - 1);
    assert Triangle(shorter) == shorter + Triangle(shorter - 1);
  }

  // ----- The search -----

  /** The closure state of `minimize_lines`: the evaluation counter, the readings taken from the
      clock, and the two inner functions that share them. Reading 0 is `started`. */
  class Search {
    const escapes: string -> bool
    const budget: Budget
    const clock: nat -> real
    var evaluations: nat
    var readings: nat

    constructor (escapes: string -> bool, budget: Budget, clock: nat -> real)
      ensures this.escapes == escapes && this.budget == budget && this.clock == clock
      ensures evaluations == 0 && readings == 1
    {
      this.escapes, this.budget, this.clock := escapes, budget, clock;
      evaluations, readings := 0, 1;
    }

    /** What the next budget check will answer. */
    predicate Live()
      reads this
    {
      evaluations < budget.maxEvaluations && clock(readings) - clock(0) < budget.maxSeconds
    }

    /** The short-circuit `and` reads the clock only while evaluations are left. */
    method WithinBudget() returns (within: bool)
      modifies this`readings
      ensures within == old(Live())
      ensures readings == old(readings) + if evaluations < budget.maxEvaluations then 1 else 0
    {
      if evaluations < budget.maxEvaluations {
        var now := clock(readings);
        readings := readings + 1;
        within := now - clock(0) < budget.maxSeconds;
      } else {
        within := false;
      }
    }

    method Evaluate(candidate: string) returns (accepted: bool)
      modifies this
      ensures accepted == (old(Live()) && escapes(candidate))
      ensures evaluations == old(evaluations) + if old(Live()) then 1 else 0
      ensures readings == old(readings) + if old(evaluations) < budget.maxEvaluations then 1 else 0
    {
      var within := WithinBudget();
      if !within {
        return false;
      }
      evaluations := evaluations + 1;
      return escapes(candidate);
    }
  }

  /** What holds before every iteration of the outer loop. */
  ghost predicate SearchInvariant(search: Search, original: seq<string>, lines: seq<string>, n: nat)
    reads search
  {
    && Subsequence(lines, original)
    && search.escapes(Join(lines))
    && (lines == [] <==> original == [])
    && 1 <= search.evaluations <= search.budget.maxEvaluations
    && search.evaluations <= EvaluationLimit(|original|)
    && (2 <= n <= |lines| ==> search.evaluations + Potential(|lines|, n) <= EvaluationLimit(|original|))
  }

  lemma AllSelected(lines: seq<string>)
    ensures Subsequence(lines, lines)
  {
    assert Selects(seq(|lines|, i => i), lines, lines);
  }

  lemma DropSelects(original: seq<string>, lines: seq<string>, start: nat, count: nat)
    requires Subsequence(lines, original) && start < |lines|
    ensures Subsequence(Drop(lines, start, count), original)
  {
    var kept :| Selects(kept, original, lines);
    var left := kept[..start] + if start + count <= |kept| then kept[start + count..] else [];
    assert Selects(left, original, Drop(lines, start, count));
  }

  lemma DropShortens(lines: seq<string>, start: nat, count: nat)
    requires start < |lines| && count > 0
    ensures |lines| - count <= |Drop(lines, start, count)| < |lines|
    ensures count < |lines| ==> Drop(lines, start, count) != []
  {
  }

  /** A failed or unfinished pass stays within the limit, also at the finer granularity. */
  lemma PassFits(originalLen: nat, len: nat, n: nat, before: nat, after: nat)
    requires 2 <= n <= len && before + Potential(len, n) <= EvaluationLimit(originalLen) && after <= before + n
    ensures after <= EvaluationLimit(originalLen)
    ensures n < len ==>
              after + Potential(len, if 2 * n < len then 2 * n else len) <= EvaluationLimit(originalLen)
  {
    if n < len {
      FailedPass(len, n);
    }
  }

  lemma ReductionFits(originalLen: nat, len: nat, n: nat, shorter: nat, coarser: nat, before: nat, after: nat)
    requires 2 <= n <= len && before + Potential(len, n) <= EvaluationLimit(originalLen)
    requires before <= after <= before + n
    requires shorter < len
    ensures 2 <= coarser <= shorter ==> after + Potential(shorter, coarser) <= EvaluationLimit(originalLen)
    ensures after <= EvaluationLimit(originalLen)
  {
    if 2 <= coarser <= shorter {
      SuccessfulPass(len, n, shorter, coarser, after - before);
    }
  }

  /** Where the chunk after `k` others starts. */
  function ChunkStart(k: nat, chunkSize: nat): nat {
    k * chunkSize
  }

  /** None of the first `count` chunks can be removed. */
  ghost predicate ChunksNeeded(escapes: string -> bool, lines: seq<string>, chunkSize: nat, count: nat) {
    forall k: nat :: k < count && ChunkStart(k, chunkSize) < |lines| ==>
      !escapes(Join(Drop(lines, ChunkStart(k, chunkSize), chunkSize)))
  }

  lemma OneMoreNeeded(escapes: string -> bool, lines: seq<string>, chunkSize: nat, count: nat)
    ensures ChunkStart(count + 1, chunkSize) == ChunkStart(count, chunkSize) + chunkSize
    ensures ChunksNeeded(escapes, lines, chunkSize, count) && ChunkStart(count, chunkSize) < |lines| &&
            !escapes(Join(Drop(lines, ChunkStart(count, chunkSize), chunkSize))) ==>
            ChunksNeeded(escapes, lines, chunkSize, count + 1)
  {
    hide Join, Drop;
  }

  /** With single lines for chunks, needing every chunk is one-minimality. */
  lemma LinesNeeded(escapes: string -> bool, lines: seq<string>, count: nat)
    requires ChunksNeeded(escapes, lines, 1, count) && count >= |lines|
    ensures OneMinimal(escapes, lines)
  {
    hide Join, Drop;
    forall i: nat | i < |lines| ensures !escapes(Join(Drop(lines, i, 1))) {
      assert ChunkStart(i, 1) == i;
    }
  }

  /** One pass of the `for start in starts` loop: the first chunk whose removal still escapes is
      removed; otherwise every chunk was tried, or a budget check failed. */
  method TryChunks(search: Search, lines: seq<string>, n: nat, chunkSize: nat)
    returns (completed: bool, reduced: bool, rest: seq<string>, ghost start: nat)
    requires 2 <= n <= |lines| && chunkSize == Chunk(|lines|, n)
    requires search.evaluations <= search.budget.maxEvaluations
    requires Nondecreasing(search.clock)
    modifies search
    ensures old(search.evaluations) <= search.evaluations <= old(search.evaluations) + n
    ensures search.evaluations <= search.budget.maxEvaluations
    ensures search.readings >= old(search.readings)
    ensures !completed ==> !reduced && !search.Live()
    ensures reduced ==> start < |lines| && rest == Drop(lines, start, chunkSize) && search.escapes(Join(rest))
    ensures reduced ==>
      && search.evaluations > old(search.evaluations)
      && start == ChunkStart(search.evaluations - old(search.evaluations) - 1, chunkSize)
      && ChunksNeeded(search.escapes, lines, chunkSize, search.evaluations - old(search.evaluations) - 1)
    ensures !reduced ==> rest == lines
    ensures completed && !reduced && search.Live() ==>
      && ChunksNeeded(search.escapes, lines, chunkSize, search.evaluations - old(search.evaluations))
      && ChunkStart(search.evaluations - old(search.evaluations), chunkSize) >= |lines|
    ensures completed && !reduced && chunkSize == 1 && search.Live() ==> OneMinimal(search.escapes, lines)
  {
    completed, reduced, rest, start := true, false, lines, 0;
    ghost var tried := 0;
    var at := 0;
    while at < |lines|
      invariant at == ChunkStart(tried, chunkSize)
      invariant tried <= n
      invariant search.Live() ==> search.evaluations == old(search.evaluations) + tried
      invariant search.Live() ==> ChunksNeeded(search.escapes, lines, chunkSize, tried)
      invariant old(search.evaluations) <= search.evaluations <= old(search.evaluations) + tried
      invariant search.evaluations <= search.budget.maxEvaluations
      invariant search.readings >= old(search.readings)
    {
      hide ChunksNeeded, Join, Drop;
      ChunkCount(|lines|, n, chunkSize, tried);
      var within := search.WithinBudget();
      if !within {
        completed := false;
        return;
      }
      var candidateLines := Drop(lines, at, chunkSize);
      var accepted := search.Evaluate(Join(candidateLines));
      tried := tried + 1;
      if accepted {
        reduced, rest, start := true, candidateLines, at;
        return;
      }
      at := at + chunkSize;
      OneMoreNeeded(search.escapes, lines, chunkSize, tried - 1);
    }
    if chunkSize == 1 && search.Live() {
      LinesNeeded(search.escapes, lines, tried);
    }
  }

  /** `rest` is what removing the first chunk that can be removed leaves. */
  ghost predicate FirstRemoved(escapes: string -> bool, lines: seq<string>, chunkSize: nat, rest: seq<string>) {
    exists k: nat ::
      && ChunkStart(k, chunkSize) < |lines| && ChunksNeeded(escapes, lines, chunkSize, k)
      && rest == Drop(lines, ChunkStart(k, chunkSize), chunkSize)
  }

  datatype Next = Continue | Finished | OutOfBudget

  /** One iteration of the outer loop. A reduction leaves fewer lines, a failed pass a finer
      granularity; the search is finished when the finest granularity fails. */
  method Iterate(search: Search, original: seq<string>, lines: seq<string>, n: nat)
    returns (next: Next, rest: seq<string>, granularity: nat)
    requires Nondecreasing(search.clock)
    requires SearchInvariant(search, original, lines, n) && 2 <= n <= |lines|
    modifies search
    ensures SearchInvariant(search, original, rest, if next.Continue? then granularity else 0)
    ensures next.Continue? ==>
      if rest != lines then
        && |rest| < |lines| && FirstRemoved(search.escapes, lines, Chunk(|lines|, n), rest)
        && granularity == (if n == 2 then 2 else n - 1)
      else
        n < |lines| && granularity == (if 2 * n < |lines| then 2 * n else |lines|)
    ensures next.Finished? ==> rest == lines && n == |lines|
    ensures next.Continue? && |rest| >= 2 ==> 2 <= granularity <= |rest|
    ensures next.OutOfBudget? ==> !search.Live()
    ensures next.Finished? && search.Live() ==> OneMinimal(search.escapes, rest)
  {
    hide Drop, Join, ChunksNeeded, Potential, EvaluationLimit, Subsequence, OneMinimal;
    rest, granularity := lines, n;
    var within := search.WithinBudget();
    if !within {
      return OutOfBudget, rest, granularity;
    }
    var chunkSize := Chunk(|lines|, n);
    ghost var spent := search.evaluations;
    var completed, reduced;
    ghost var start;
    completed, reduced, rest, start := TryChunks(search, lines, n, chunkSize);
    if reduced {
      DropSelects(original, lines, start, chunkSize);
      DropShortens(lines, start, chunkSize);
      granularity := if n - 1 > 2 then n - 1 else 2;
      ReductionFits(|original|, |lines|, n, |rest|, granularity, spent, search.evaluations);
      return Continue, rest, granularity;
    }
    PassFits(|original|, |lines|, n, spent, search.evaluations);
    if !completed {
      return OutOfBudget, rest, granularity;
    }
    if n >= |lines| {
      return Finished, rest, granularity;
    }
    granularity := if 2 * n < |lines| then 2 * n else |lines|;
    return Continue, rest, granularity;
  }

  /** The outer loop, from the original lines to the last ones that still escape. */
  method Reduce(search: Search, original: seq<string>) returns (completed: bool, lines: seq<string>)
    requires Nondecreasing(search.clock)
    requires search.escapes(Join(original)) && search.evaluations == 1
    modifies search
    ensures SearchInvariant(search, original, lines, 0)
    ensures !completed ==> !search.Live()
    ensures completed && search.Live() ==> OneMinimal(search.escapes, lines)
  {
    lines := original;
    var n: nat := 2;
    AllSelected(lines);
    if |lines| >= 2 {
      InitialPotential(|lines|);
    }
    while |lines| >= 2
      invariant SearchInvariant(search, original, lines, n)
      invariant |lines| >= 2 ==> 2 <= n <= |lines|
      decreases |lines|, |lines| - n
    {
      var next;
      next, lines, n := Iterate(search, original, lines, n);
      if !next.Continue? {
        return next.Finished?, lines;
      }
    }
    return true, lines;
  }

  /** The first reading of the clock decides whether the original is evaluated at all. A
      reduction never spends more than the budget, nor more than a quadratic number of
      evaluations, and with more than that to spend and an unexpired clock it is minimal. */
  method MinimizeLines(source: string, escapes: string -> bool, budget: Budget, clock: nat -> real)
    returns (r: Outcome)
    requires Nondecreasing(clock)
    ensures r.BudgetExpiredBeforeOriginal? <==> clock(1) - clock(0) >= budget.maxSeconds
    ensures clock(1) == clock(0) ==> !r.BudgetExpiredBeforeOriginal?
    ensures r.OriginalDoesNotEscape? <==> clock(1) - clock(0) < budget.maxSeconds && !escapes(source)
    ensures r.Minimized? ==> exists lines :: Reduction(source, escapes, r, lines)
    ensures r.Minimized? ==> 1 <= r.evaluations <= budget.maxEvaluations
    ensures r.Minimized? ==>
      var count := |SplitLines(source)|; 2 * r.evaluations <= 2 + 3 * (count * (count + 1))
    ensures r.Minimized? ==> (r.budgetExhausted <==> r.status.ReducedCounterexample?)
    ensures r.Minimized? && r.budgetExhausted ==>
              r.evaluations == budget.maxEvaluations || exists k: nat :: clock(k) - clock(0) >= budget.maxSeconds
    ensures r.Minimized? && (forall k: nat :: clock(k) - clock(0) < budget.maxSeconds) ==>
      var count := |SplitLines(source)|;
      2 * budget.maxEvaluations > 2 + 3 * (count * (count + 1)) ==> r.status.MinimalUnderConfiguredGranularity?
  {
    var search := new Search(escapes, budget, clock);
    var original := search.Evaluate(source);
    if !original {
      return if search.evaluations == 0 then BudgetExpiredBeforeOriginal else OriginalDoesNotEscape;
    }

    JoinSplitLines(source);
    LimitClosedForm(|SplitLines(source)|);
    var completed, lines := Reduce(search, SplitLines(source));
    var within := true;
    if completed {
      within := search.WithinBudget();
    }
    var budgetExhausted := !completed || !within;
    var status := if budgetExhausted then ReducedCounterexample else MinimalUnderConfiguredGranularity;
    r := Minimized(Join(lines), status, search.evaluations, |SplitLines(source)| - |lines|, budgetExhausted);
    assert Reduction(source, escapes, r, lines);
  }
}
