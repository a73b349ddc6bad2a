/** The differential non-influence checker and its certificate
    (packages/agentseal/src/agentseal/check.py and certificate.py).

    What running the pipeline does is an arbitrary outcome for each variant and attempt, so the
    results hold for pipelines that keep state, race or depend on time. */
module Checker {
  import opened Wrappers

  /** One run: an artifact with its fingerprint, a deliberate SealBroken, or any other exception.
      `kind` is the name of the exception's class: a subclass of SealBroken has its own. */
  datatype Run =
    | Artifact(digest: string)
    | SealBroken(kind: string, message: string)
    | Failed(kind: string, message: string)

  datatype Variant = Variant(name: string, description: string)

  datatype Status = INFLUENCED | BLOCKED | ERROR | SEALED

  datatype VariantResult = VariantResult(
    name: string,
    description: string,
    digest: Option<string>,
    influenced: bool,
    error: Option<string>,
    blocked: bool)
  {
    function Status(): Status {
      if influenced then INFLUENCED
      else if blocked then BLOCKED
      else if error.Some? && error.value != "" then ERROR
      else SEALED
    }

    predicate Successful() {
      Status() == SEALED || Status() == BLOCKED
    }
  }

  datatype Report = Report(baseline: string, results: seq<VariantResult>) {
    predicate Sealed() {
      results != [] && forall i :: 0 <= i < |results| ==> results[i].Successful()
    }
  }

  /** The text recorded for an exception. */
  function ErrorText(run: Run): (text: string)
    requires !run.Artifact?
    ensures text != ""
  {
    match run
    case SealBroken(kind, message) => kind + ": " + message
    case Failed(kind, message) => kind + ": " + message
  }

  /** The name of the exception's class, and after it the message. */
  lemma ErrorTextMeaning(run: Run)
    requires !run.Artifact?
    ensures run.kind <= ErrorText(run) && ErrorText(run)[|run.kind|..] == ": " + run.message
  {
    assert (run.kind + ": " + run.message)[|run.kind|..] == ": " + run.message;
  }

  // ---------------------------------------------------------------- the meaning of a result

  /** The run settles its variant: the artifact moved, or the seal stopped it. */
  predicate Decisive(run: Run, baseline: string) {
    run.SealBroken? || (run.Artifact? && run.digest != baseline)
  }

  /** `n` is the attempt that settles the variant, or `attempts` if none does. */
  predicate SettledAt(run: nat -> Run, baseline: string, attempts: nat, n: nat) {
    && n <= attempts
    && (forall i: nat :: i < n ==> !Decisive(run(i), baseline))
    && (n < attempts ==> Decisive(run(n), baseline))
  }

  ghost predicate AnyFailure(run: nat -> Run, n: nat) {
    exists i: nat :: i < n && run(i).Failed?
  }

  /** The error of the last of the first `n` attempts that raised something other than SealBroken. */
  function LastError(run: nat -> Run, n: nat): (error: Option<string>)
    ensures error.Some? <==> AnyFailure(run, n)
    ensures error.Some? ==> error.value != ""
  {
    if n == 0 then None
    else if run(n - 1).Failed? then Some(ErrorText(run(n - 1)))
    else LastError(run, n - 1)
  }

  /** The error is that of the last attempt that failed. */
  lemma {:induction false} LastErrorMeaning(run: nat -> Run, n: nat)
    ensures LastError(run, n).Some? ==> exists i: nat ::
      && i < n && run(i).Failed? && LastError(run, n) == Some(ErrorText(run(i)))
      && forall j: nat :: i < j < n ==> !run(j).Failed?
  {
    if n == 0 || run(n - 1).Failed? {
    } else {
      LastErrorMeaning(run, n - 1);
    }
  }

  /** What a result says about the attempts, given the one that settles them. */
  ghost predicate Explains(result: VariantResult, run: nat -> Run, baseline: string, attempts: nat, n: nat) {
    if n < attempts && run(n).SealBroken? then
      result.Status() == BLOCKED && result.digest == None && result.error == Some(ErrorText(run(n)))
    else
      && result.error == LastError(run, n)
      && if n < attempts then
           result.Status() == INFLUENCED && run(n).Artifact? && result.digest == Some(run(n).digest)
         else
           && result.Status() == (if AnyFailure(run, n) then ERROR else SEALED)
           && result.digest == (if n > 0 && run(n - 1).Failed? then None else Some(baseline))
  }

  function Attempts(repeat: int): (n: nat)
    ensures n >= 1 && n >= repeat && (n == 1 || n == repeat)
  {
    if repeat < 1 then 1 else repeat
  }

  ghost predicate Describes(report: Report, variants: seq<Variant>, runs: (nat, nat) -> Run, repeat: int) {
    && |report.results| == |variants|
    && forall v :: 0 <= v < |variants| ==>
         && report.results[v].name == variants[v].name
         && report.results[v].description == variants[v].description
         && Described(report.results[v], AttemptsOf(runs, v), report.baseline, Attempts(repeat))
  }

  ghost predicate Described(result: VariantResult, run: nat -> Run, baseline: string, attempts: nat) {
    exists n: nat :: SettledAt(run, baseline, attempts, n) && Explains(result, run, baseline, attempts, n)
  }

  function AttemptsOf(runs: (nat, nat) -> Run, v: nat): (run: nat -> Run)
    ensures forall attempt: nat :: run(attempt) == runs(v, attempt)
  {
    (attempt: nat) => runs(v, attempt)
  }

  // ---------------------------------------------------------------- the loops

  method CheckVariant(variant: Variant, run: nat -> Run, baseline: string, repeat: int) returns (result: VariantResult)
    ensures result.name == variant.name && result.description == variant.description
    ensures Described(result, run, baseline, Attempts(repeat))
  {
    var digest: Option<string>, error: Option<string> := None, None;
    var influenced, blocked, completed := false, false, false;
    var attempts := Attempts(repeat);
    var n := 0;
    while n < attempts
      invariant 0 <= n <= attempts && !influenced && !blocked
      invariant forall i: nat :: i < n ==> !Decisive(run(i), baseline)
      invariant error == LastError(run, n)
      invariant n > 0 ==> digest == (if run(n - 1).Failed? then None else Some(baseline))
      invariant n > 0 ==> completed || error.Some?
    {
      match run(n) {
        case Artifact(fingerprint) =>
          digest, completed := Some(fingerprint), true;
          if fingerprint != baseline {
            influenced := true;
            break;
          }
        case SealBroken(_, _) =>
          digest, error, blocked, completed := None, Some(ErrorText(run(n))), true, true;
          break;
        case Failed(_, _) =>
          digest, error := None, Some(ErrorText(run(n)));
      }
      n := n + 1;
    }
    if !completed && error.None? {
      // "agentseal: hostile variant never completed": there is at least one attempt, and every
      // attempt completes or leaves an error.
      assert false;
    }
    result := VariantResult(variant.name, variant.description, digest, influenced, error, blocked);
    assert SettledAt(run, baseline, attempts, n) && Explains(result, run, baseline, attempts, n);
  }

  /** A baseline run that raises ends the check with that exception. */
  method CheckNoInfluence(baseline: Run, variants: seq<Variant>, runs: (nat, nat) -> Run, repeat: int)
    returns (outcome: Result<Report, string>)
    ensures baseline.Artifact? <==> outcome.Ok?
    ensures outcome.Ok? ==>
      outcome.value.baseline == baseline.digest && Describes(outcome.value, variants, runs, repeat)
    ensures outcome.Err? ==> outcome.error == ErrorText(baseline)
  {
    if !baseline.Artifact? {
      return Err(ErrorText(baseline));
    }
    var results: seq<VariantResult> := [];
    for v := 0 to |variants|
      invariant Describes(Report(baseline.digest, results), variants[..v], runs, repeat)
    {
      var result := CheckVariant(variants[v], AttemptsOf(runs, v), baseline.digest, repeat);
      results := results + [result];
    }
    assert variants[..|variants|] == variants;
    outcome := Ok(Report(baseline.digest, results));
  }

  // ---------------------------------------------------------------- what the status tells

  /** The four statuses, each in terms of the attempts alone. A result is SEALED exactly when
      every attempt reproduced the baseline; one failed attempt that is not followed by a
      decisive one makes it ERROR for good. */
  lemma StatusTells(result: VariantResult, run: nat -> Run, baseline: string, attempts: nat, n: nat)
    requires 0 < attempts && Described(result, run, baseline, attempts) && SettledAt(run, baseline, attempts, n)
    ensures result.Status() == SEALED <==> forall i: nat :: i < attempts ==> run(i) == Artifact(baseline)
    ensures result.Status() == ERROR <==> n == attempts && AnyFailure(run, attempts)
    ensures result.Status() == BLOCKED <==> n < attempts && run(n).SealBroken?
    ensures result.Status() == INFLUENCED <==> n < attempts && run(n).Artifact?
    ensures result.Status() == SEALED ==> result.digest == Some(baseline)
    ensures result.Status() == BLOCKED ==> result.digest == None
  {
    var settled: nat :|
      SettledAt(run, baseline, attempts, settled) && Explains(result, run, baseline, attempts, settled);
    assert settled == n;
    if n == attempts && !AnyFailure(run, attempts) {
      forall i: nat | i < attempts ensures run(i) == Artifact(baseline) {
        assert !Decisive(run(i), baseline) && !run(i).Failed?;
      }
    }
  }

  lemma {:induction false} Settles(run: nat -> Run, baseline: string, attempts: nat) returns (n: nat)
    ensures SettledAt(run, baseline, attempts, n)
  {
    if attempts == 0 {
      n := 0;
    } else {
      n := Settles(run, baseline, attempts - 1);
      if n == attempts - 1 && !Decisive(run(n), baseline) {
        n := attempts;
      }
    }
  }

  /** A clean repeat does not clear an earlier error, although it leaves its digest behind. */
  lemma ErrorIsSticky(result: VariantResult, run: nat -> Run, baseline: string)
    requires Described(result, run, baseline, 2)
    requires run(0).Failed? && run(1) == Artifact(baseline)
    ensures result.Status() == ERROR && result.error == Some(ErrorText(run(0))) && result.digest == Some(baseline)
  {
    assert SettledAt(run, baseline, 2, 2);
    StatusTells(result, run, baseline, 2, 2);
    assert LastError(run, 2) == Some(ErrorText(run(0)));
  }

  /** More repeats never turn a finding into a seal: a decisive status is final, an error can
      only become decisive, and a seal over more attempts implies one over fewer. */
  lemma RepeatsOnlySharpen(fewer: VariantResult, more: VariantResult, run: nat -> Run, baseline: string,
                           attempts: nat, further: nat)
    requires 0 < attempts <= further
    requires Described(fewer, run, baseline, attempts) && Described(more, run, baseline, further)
    ensures fewer.Status() in {INFLUENCED, BLOCKED} ==> more.Status() == fewer.Status()
    ensures fewer.Status() == ERROR ==> more.Status() != SEALED
    ensures more.Status() == SEALED ==> fewer.Status() == SEALED
  {
    var n := Settles(run, baseline, attempts);
    var m := Settles(run, baseline, further);
    StatusTells(fewer, run, baseline, attempts, n);
    StatusTells(more, run, baseline, further, m);
    if n < attempts {
      assert m == n;
    }
  }

  /** The attempts made for a variant never moved the artifact: all reproduced the baseline, or
      the seal stopped the variant before any artifact differed. */
  ghost predicate Uninfluenced(run: nat -> Run, baseline: string, attempts: nat) {
    || (forall i: nat :: i < attempts ==> run(i) == Artifact(baseline))
    || exists n: nat :: n < attempts && run(n).SealBroken? && SettledAt(run, baseline, attempts, n)
  }

  lemma SealedExactlyWhen(report: Report, variants: seq<Variant>, runs: (nat, nat) -> Run, repeat: int)
    requires Describes(report, variants, runs, repeat)
    ensures report.Sealed() <==>
      variants != [] &&
      forall v :: 0 <= v < |variants| ==> Uninfluenced(AttemptsOf(runs, v), report.baseline, Attempts(repeat))
  {
    forall v | 0 <= v < |variants|
      ensures report.results[v].Successful() <==>
              Uninfluenced(AttemptsOf(runs, v), report.baseline, Attempts(repeat))
    {
      var run := AttemptsOf(runs, v);
      var n := Settles(run, report.baseline, Attempts(repeat));
      StatusTells(report.results[v], run, report.baseline, Attempts(repeat), n);
    }
  }

  // ---------------------------------------------------------------- certificates

  const SCHEMA: string := "agentseal.counterfactual-non-influence.v1"

  datatype Intervention = Intervention(
    name: string,
    description: string,
    outcome: string,
    artifact: Option<string>,
    error: Option<string>)

  datatype Certificate = Certificate(
    schema: string,
    subject: string,
    kind: string,
    baseline: string,
    issued: int,
    interventions: seq<Intervention>)

  function StatusText(status: Status): string {
    match status
    case INFLUENCED => "INFLUENCED"
    case BLOCKED => "BLOCKED"
    case ERROR => "ERROR"
    case SEALED => "SEALED"
  }

  function BuildCertificate(report: Report, subject: string, kind: string, now: int): Certificate {
    var interventions := seq(|report.results|, i requires 0 <= i < |report.results| =>
      var result := report.results[i];
      Intervention(result.name, result.description, StatusText(result.Status()), result.digest, result.error));
    Certificate(SCHEMA, subject, kind, report.baseline, now, interventions)
  }

  /** A certificate says of each variant what the report says, by the names of the statuses. */
  lemma CertificateStates(report: Report, subject: string, kind: string, now: int)
    ensures var c := BuildCertificate(report, subject, kind, now);
      && c.schema == SCHEMA && c.subject == subject && c.kind == kind && c.issued == now
      && c.baseline == report.baseline && |c.interventions| == |report.results|
      && forall i :: 0 <= i < |report.results| ==>
           var item, result := c.interventions[i], report.results[i];
           && item.name == result.name && item.description == result.description
           && item.artifact == result.digest && item.error == result.error
           && (item.outcome == "INFLUENCED" <==> result.Status() == INFLUENCED)
           && (item.outcome == "BLOCKED" <==> result.Status() == BLOCKED)
           && (item.outcome == "ERROR" <==> result.Status() == ERROR)
           && (item.outcome == "SEALED" <==> result.Status() == SEALED)
  {
  }

  /** An intervention that supports the claim: same artifact, or blocked with none. */
  predicate Supports(item: Intervention, baseline: string) {
    || (item.outcome == "SEALED" && item.artifact == Some(baseline))
    || (item.outcome == "BLOCKED" && item.artifact == None)
  }

  /** A certificate that carries evidence, all of it in support. */
  predicate Verifies(certificate: Certificate) {
    && certificate.schema == SCHEMA && |certificate.baseline| == 64 && certificate.interventions != []
    && forall i :: 0 <= i < |certificate.interventions| ==>
         Supports(certificate.interventions[i], certificate.baseline)
  }

  method VerifyCertificate(certificate: Certificate) returns (verified: bool)
    ensures verified <==> Verifies(certificate)
    ensures verified <==>
      && certificate.schema == "agentseal.counterfactual-non-influence.v1"
      && |certificate.baseline| == 64 && certificate.interventions != []
      && forall i :: 0 <= i < |certificate.interventions| ==>
           var item := certificate.interventions[i];
           || (item.outcome == "SEALED" && item.artifact == Some(certificate.baseline))
           || (item.outcome == "BLOCKED" && item.artifact == None)
  {
    if certificate.schema != SCHEMA {
      return false;
    }
    if |certificate.baseline| != 64 || certificate.interventions == [] {
      return false;
    }
    for i := 0 to |certificate.interventions|
      invariant forall k :: 0 <= k < i ==> Supports(certificate.interventions[k], certificate.baseline)
    {
      var item := certificate.interventions[i];
      if item.outcome == "SEALED" {
        if item.artifact != Some(certificate.baseline) {
          return false;
        }
      } else if item.outcome == "BLOCKED" {
        if item.artifact != None {
          return false;
        }
      } else {
        return false;
      }
    }
    return true;
  }

  /** A certificate built from a checker's report verifies exactly when the report is sealed
      (for a fingerprint of 64 characters), so a verified one means no attempt moved the artifact. */
  lemma CertificateIsTheSeal(report: Report, variants: seq<Variant>, runs: (nat, nat) -> Run, repeat: int,
                             subject: string, kind: string, now: int)
    requires Describes(report, variants, runs, repeat)
    ensures Verifies(BuildCertificate(report, subject, kind, now)) <==> report.Sealed() && |report.baseline| == 64
  {
    var certificate := BuildCertificate(report, subject, kind, now);
    forall v | 0 <= v < |variants|
      ensures Supports(certificate.interventions[v], report.baseline) <==> report.results[v].Successful()
    {
      var run := AttemptsOf(runs, v);
      var n := Settles(run, report.baseline, Attempts(repeat));
      StatusTells(report.results[v], run, report.baseline, Attempts(repeat), n);
    }
    assert report.results == [] <==> certificate.interventions == [];
  }
}
