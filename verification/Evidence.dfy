/** Findings, their blocking evidence, and the deterministic judge
    (src/release_sentinel/domain/evidence.py, src/release_sentinel/release/judge.py). */
module Evidence {

  datatype Severity = INFO | LOW | MEDIUM | HIGH | CRITICAL

  datatype Decision = GO | CONDITIONAL_GO | NO_GO

  datatype Authority = PLATFORM | ORGANIZATION_POLICY | MODEL_ADVISORY

  datatype Kind = STATIC_RULE | EXECUTION_RESULT | INTEGRITY_CHECK | MODEL_NOTE

  /** `details` stands for the canonical text of the JSON details. */
  datatype Item = Item(
    evidenceId: string, kind: Kind, authority: Authority, source: string, summary: string,
    reproducible: bool, blockingEligible: bool, details: string)
  {
    predicate Authoritative() {
      authority.PLATFORM? || authority.ORGANIZATION_POLICY?
    }
  }

  datatype Finding = Finding(
    findingId: string, title: string, severity: Severity, source: string, claim: string,
    evidence: seq<Item>, advisoryNotes: seq<string>)
  {
    /** `bool(finding.blocking_evidence())` */
    predicate Blocking() {
      exists i :: 0 <= i < |evidence| && evidence[i].Authoritative() && evidence[i].blockingEligible
    }
  }

  predicate IsBlocker(f: Finding) {
    (f.severity.HIGH? || f.severity.CRITICAL?) && f.Blocking()
  }

  predicate IsMedium(f: Finding) {
    f.severity.MEDIUM? && f.Blocking()
  }

  /** `len([f for f in findings if test(f)])` */
  function CountOf<T>(s: seq<T>, test: T -> bool): nat {
    if s == [] then 0 else (if test(s[0]) then 1 else 0) + CountOf(s[1..], test)
  }

  /** `DeterministicJudge.decide` */
  function Judge(findings: seq<Finding>): Decision {
    if CountOf(findings, IsBlocker) > 0 then NO_GO
    else if CountOf(findings, IsMedium) > 0 then CONDITIONAL_GO
    else GO
  }

  lemma {:induction false} CountOfPositive<T>(s: seq<T>, test: T -> bool)
    ensures CountOf(s, test) > 0 <==> exists i :: 0 <= i < |s| && test(s[i])
  {
    if s == [] {
    } else {
      CountOfPositive(s[1..], test);
      if i :| 0 <= i < |s| && test(s[i]) {
        assert i == 0 || test(s[1..][i - 1]);
      }
      if i :| 0 <= i < |s[1..]| && test(s[1..][i]) {
        assert test(s[i + 1]);
      }
    }
  }

  ghost function Places<T>(s: seq<T>, test: T -> bool): set<nat> {
    set i: nat | i < |s| && test(s[i])
  }

  lemma PlacesOneMore<T>(s: seq<T>, x: T, test: T -> bool)
    ensures |Places(s + [x], test)| == |Places(s, test)| + if test(x) then 1 else 0
  {
    if test(x) {
      assert Places(s + [x], test) == Places(s, test) + {|s|};
    } else {
      assert Places(s + [x], test) == Places(s, test);
    }
  }

  /** A count is the number of places. */
  lemma {:induction false} CountOfIsSize<T>(s: seq<T>, test: T -> bool)
    ensures CountOf(s, test) == |Places(s, test)|
  {
    hide Places;
    if s == [] {
      NoPlaces(test);
    } else {
      var n := |s| - 1;
      CountOfIsSize(s[..n], test);
      CountOfConcat(s[..n], [s[n]], test);
      PlacesOneMore(s[..n], s[n], test);
      assert s == s[..n] + [s[n]];
    }
  }

  lemma NoPlaces<T>(test: T -> bool)
    ensures Places([], test) == {}
  {
  }

  lemma WithoutOne<T>(t: seq<T>, i: nat)
    requires i < |t|
    ensures multiset(t) == multiset([t[i]]) + multiset(t[..i] + t[i + 1..])
  {
    assert t == t[..i] + ([t[i]] + t[i + 1..]);
  }

  lemma CancelMultiset<T>(m: multiset<T>, a: multiset<T>, b: multiset<T>)
    requires m + a == m + b
    ensures a == b
  {
    assert a == m + a - m;
    assert b == m + b - m;
  }

  lemma CountOfWithoutOne<T>(t: seq<T>, i: nat, test: T -> bool)
    requires i < |t|
    ensures CountOf(t, test) == (if test(t[i]) then 1 else 0) + CountOf(t[..i] + t[i + 1..], test)
  {
    CountOfConcat(t[..i], [t[i]] + t[i + 1..], test);
    CountOfConcat(t[..i], t[i + 1..], test);
    assert t == t[..i] + ([t[i]] + t[i + 1..]);
    assert ([t[i]] + t[i + 1..])[1..] == t[i + 1..];
  }

  lemma {:induction false} CountOfMultiset<T>(s: seq<T>, t: seq<T>, test: T -> bool)
    requires multiset(s) == multiset(t)
    ensures CountOf(s, test) == CountOf(t, test)
  {
    if s == [] {
      assert |multiset(t)| == 0;
    } else {
      assert s[0] in multiset(t);
      var i :| 0 <= i < |t| && t[i] == s[0];
      WithoutOne(s, 0);
      WithoutOne(t, i);
      assert s[..0] + s[0 + 1..] == s[1..];
      CancelMultiset(multiset([s[0]]), multiset(s[1..]), multiset(t[..i] + t[i + 1..]));
      CountOfMultiset(s[1..], t[..i] + t[i + 1..], test);
      CountOfWithoutOne(t, i, test);
    }
  }

  lemma {:induction false} CountOfConcat<T>(s: seq<T>, t: seq<T>, test: T -> bool)
    ensures CountOf(s + t, test) == CountOf(s, test) + CountOf(t, test)
  {
    if s == [] {
      assert s + t == t;
    } else {
      CountOfConcat(s[1..], t, test);
      assert (s + t)[1..] == s[1..] + t;
    }
  }

  /** What the decision means: release is refused exactly for a high or critical finding with an
      item of the platform or of the organization's policy that may block, and goes out exactly if
      no finding of medium severity or more has one. */
  lemma JudgeMeaning(findings: seq<Finding>)
    ensures Judge(findings) == NO_GO <==>
      exists i, k :: 0 <= i < |findings| && 0 <= k < |findings[i].evidence| &&
        findings[i].severity in {HIGH, CRITICAL} && findings[i].evidence[k].blockingEligible &&
        findings[i].evidence[k].authority in {PLATFORM, ORGANIZATION_POLICY}
    ensures Judge(findings) == GO <==>
      forall i, k :: 0 <= i < |findings| && 0 <= k < |findings[i].evidence| ==>
        !(findings[i].severity in {MEDIUM, HIGH, CRITICAL} && findings[i].evidence[k].blockingEligible &&
          findings[i].evidence[k].authority in {PLATFORM, ORGANIZATION_POLICY})
  {
    CountOfPositive(findings, IsBlocker);
    CountOfPositive(findings, IsMedium);
  }

  /** The two findings differ at most in advisory items and in wording. */
  ghost predicate DifferInAdvice(f: Finding, g: Finding) {
    && f.severity == g.severity
    && forall item: Item :: item.authority != MODEL_ADVISORY ==> (item in f.evidence <==> item in g.evidence)
  }

  lemma AdviceNeverBlocks(f: Finding, g: Finding)
    requires DifferInAdvice(f, g)
    ensures f.Blocking() <==> g.Blocking()
  {
    if i :| 0 <= i < |f.evidence| && f.evidence[i].Authoritative() && f.evidence[i].blockingEligible {
      assert f.evidence[i] in g.evidence;
    }
    if i :| 0 <= i < |g.evidence| && g.evidence[i].Authoritative() && g.evidence[i].blockingEligible {
      assert g.evidence[i] in f.evidence;
    }
  }

  /** Adding, dropping or changing advisory items has no influence on the decision. */
  lemma {:induction false} AdviceHasNoInfluence(findings: seq<Finding>, other: seq<Finding>)
    requires |findings| == |other| && forall i :: 0 <= i < |findings| ==> DifferInAdvice(findings[i], other[i])
    ensures Judge(findings) == Judge(other)
    ensures CountOf(findings, IsBlocker) == CountOf(other, IsBlocker)
    ensures CountOf(findings, IsMedium) == CountOf(other, IsMedium)
  {
    if findings == [] {
    } else {
      AdviceNeverBlocks(findings[0], other[0]);
      AdviceHasNoInfluence(findings[1..], other[1..]);
    }
  }

  /** The order of the findings has no influence. */
  lemma JudgeOrderIndependent(findings: seq<Finding>, other: seq<Finding>)
    requires multiset(findings) == multiset(other)
    ensures Judge(findings) == Judge(other)
  {
    CountOfMultiset(findings, other, IsBlocker);
    CountOfMultiset(findings, other, IsMedium);
  }
}
