/** The two-phase governance pipeline (packages/policy-engine/src/pipeline.ts). */
module PolicyPipeline {
  import opened Prelude
  import opened Sorting

  datatype Action = Approve | Reject | FlagIt | RequireReview

  datatype RuleOutcome = Pass | Fail | Flag

  datatype Rule = Rule(id: string, ruleType: string, enabled: bool, priority: int, action: Action)

  /** A rule's evaluator, applied to the candidate and context at hand. */
  type Evaluator = Rule -> RuleOutcome

  datatype Outcome = Approved | Rejected | Flagged

  datatype Evaluation = Evaluation(ruleId: string, outcome: RuleOutcome)

  datatype PipelineResult = PipelineResult(
    outcome: Outcome, evaluations: seq<Evaluation>, rejectedBy: Option<string>, flaggedBy: seq<string>)

  // ---------- what the policy means ----------

  predicate IsContradiction(r: Rule) {
    r.ruleType == "contradiction_check"
  }

  predicate Rejects(eval: Evaluator, r: Rule) {
    eval(r) == Fail && r.action == Reject
  }

  /** Some enabled rule outside the contradiction phase fails and rejects. */
  ghost predicate MustReject(eval: Evaluator, rules: seq<Rule>) {
    exists r :: r in rules && r.enabled && !IsContradiction(r) && Rejects(eval, r)
  }

  /** Some enabled rule does not pass. */
  ghost predicate MustFlag(eval: Evaluator, rules: seq<Rule>) {
    exists r :: r in rules && r.enabled && eval(r) != Pass
  }

  ghost function Meaning(eval: Evaluator, rules: seq<Rule>): Outcome {
    if MustReject(eval, rules) then Rejected else if MustFlag(eval, rules) then Flagged else Approved
  }

  // ---------- the phases ----------

  predicate PriorityLe(a: Rule, b: Rule) {
    a.priority <= b.priority
  }

  /** Enabled rules of one phase, in the order the policy lists them. */
  function Enabled(rules: seq<Rule>, contradiction: bool): seq<Rule> {
    if |rules| == 0 then []
    else if Last(rules).enabled && IsContradiction(Last(rules)) == contradiction
      then Enabled(Init(rules), contradiction) + [Last(rules)]
    else Enabled(Init(rules), contradiction)
  }

  function Phase(rules: seq<Rule>, contradiction: bool): seq<Rule> {
    Sort(Enabled(rules, contradiction), PriorityLe)
  }

  function Evaluations(eval: Evaluator, rules: seq<Rule>): seq<Evaluation> {
    if |rules| == 0 then [] else Evaluations(eval, Init(rules)) + [Evaluation(Last(rules).id, eval(Last(rules)))]
  }

  function Flags(eval: Evaluator, rules: seq<Rule>): seq<string> {
    if |rules| == 0 then []
    else if eval(Last(rules)) != Pass then Flags(eval, Init(rules)) + [Last(rules).id]
    else Flags(eval, Init(rules))
  }

  function RejectTest(eval: Evaluator): Rule -> bool {
    (r: Rule) => Rejects(eval, r)
  }

  lemma {:induction false} EnabledMember(rules: seq<Rule>, contradiction: bool, r: Rule)
    ensures r in Enabled(rules, contradiction) <==> r in rules && r.enabled && IsContradiction(r) == contradiction
  {
    if |rules| > 0 {
      EnabledMember(Init(rules), contradiction, r);
      assert r in rules <==> r in Init(rules) || r == Last(rules);
    }
  }

  lemma PhaseMember(rules: seq<Rule>, contradiction: bool, r: Rule)
    ensures r in Phase(rules, contradiction) <==> r in rules && r.enabled && IsContradiction(r) == contradiction
  {
    EnabledMember(rules, contradiction, r);
    SortMultiset(Enabled(rules, contradiction), PriorityLe);
    SameMultisetSameMembers(Enabled(rules, contradiction), Phase(rules, contradiction), r);
  }

  lemma {:induction false} FlagsMember(eval: Evaluator, rules: seq<Rule>, r: Rule)
    requires r in rules && eval(r) != Pass
    ensures r.id in Flags(eval, rules)
  {
    if r != Last(rules) {
      FlagsMember(eval, Init(rules), r);
    }
  }

  lemma {:induction false} NoFlagsIff(eval: Evaluator, rules: seq<Rule>)
    ensures Flags(eval, rules) == [] <==> forall r :: r in rules ==> eval(r) == Pass
  {
    if |rules| > 0 {
      NoFlagsIff(eval, Init(rules));
      assert forall r :: r in rules <==> r in Init(rules) || r == Last(rules);
    }
  }

  lemma {:induction false} FirstNoneIff(rules: seq<Rule>, p: Rule -> bool)
    ensures First(rules, p).None? <==> forall r :: r in rules ==> !p(r)
  {
    if |rules| > 0 {
      FirstNoneIff(Init(rules), p);
      assert forall r :: r in rules <==> r in Init(rules) || r == Last(rules);
    }
  }

  /** The first hit of a prefix is the first hit of the whole. */
  lemma {:induction false} FirstOfPrefix(rules: seq<Rule>, p: Rule -> bool, i: nat)
    requires i <= |rules| && First(rules[..i], p).Some?
    ensures First(rules, p) == First(rules[..i], p)
  {
    if i < |rules| {
      assert Init(rules)[..i] == rules[..i];
      FirstOfPrefix(Init(rules), p, i);
    } else {
      assert rules[..i] == rules;
    }
  }

  lemma PriorityOrder()
    ensures TotalPreorder(PriorityLe)
  {
  }

  // ---------- the verdict follows the meaning ----------

  /** The first rejecting rule of the sorted phase is, of the rejecting rules, the leftmost of least priority. */
  lemma RejecterIsLeftmostLeast(eval: Evaluator, rules: seq<Rule>)
    ensures First(Phase(rules, false), RejectTest(eval)) ==
            LeftmostLeast(Enabled(rules, false), RejectTest(eval), PriorityLe)
  {
    PriorityOrder();
    FirstOfSort(Enabled(rules, false), RejectTest(eval), PriorityLe);
  }

  lemma RejecterExistsIff(eval: Evaluator, rules: seq<Rule>)
    ensures First(Phase(rules, false), RejectTest(eval)).Some? <==> MustReject(eval, rules)
  {
    FirstNoneIff(Phase(rules, false), RejectTest(eval));
    forall r
      ensures r in Phase(rules, false) <==> r in rules && r.enabled && !IsContradiction(r)
    {
      PhaseMember(rules, false, r);
    }
  }

  lemma FlaggedIff(eval: Evaluator, rules: seq<Rule>)
    ensures Flags(eval, Phase(rules, true)) + Flags(eval, Phase(rules, false)) != [] <==> MustFlag(eval, rules)
  {
    NoFlagsIff(eval, Phase(rules, true));
    NoFlagsIff(eval, Phase(rules, false));
    forall r
      ensures r in Phase(rules, true) || r in Phase(rules, false) <==> r in rules && r.enabled
    {
      PhaseMember(rules, true, r);
      PhaseMember(rules, false, r);
    }
  }

  /** Every contradiction signal is in the result, rejected or not. */
  ghost predicate KeepsContradictions(eval: Evaluator, rules: seq<Rule>, flaggedBy: seq<string>) {
    forall r :: r in rules && r.enabled && IsContradiction(r) && eval(r) != Pass ==> r.id in flaggedBy
  }

  lemma ContradictionsKept(eval: Evaluator, rules: seq<Rule>, more: seq<string>)
    ensures KeepsContradictions(eval, rules, Flags(eval, Phase(rules, true)) + more)
  {
    forall r | r in rules && r.enabled && IsContradiction(r) && eval(r) != Pass
      ensures r.id in Flags(eval, Phase(rules, true))
    {
      PhaseMember(rules, true, r);
      FlagsMember(eval, Phase(rules, true), r);
    }
  }

  function IdOf(r: Option<Rule>): Option<string> {
    match r
    case None => None
    case Some(rule) => Some(rule.id)
  }

  /** Phase 1: every contradiction rule runs, and can only flag. */
  method RunContradictions(eval: Evaluator, rules: seq<Rule>) returns (evaluations: seq<Evaluation>, flaggedBy: seq<string>)
    ensures evaluations == Evaluations(eval, rules) && flaggedBy == Flags(eval, rules)
  {
    evaluations, flaggedBy := [], [];
    for i := 0 to |rules|
      invariant evaluations == Evaluations(eval, rules[..i]) && flaggedBy == Flags(eval, rules[..i])
    {
      assert Init(rules[..i + 1]) == rules[..i];
      var outcome := eval(rules[i]);
      evaluations := evaluations + [Evaluation(rules[i].id, outcome)];
      if outcome != Pass {
        flaggedBy := flaggedBy + [rules[i].id];
      }
    }
    assert rules[..|rules|] == rules;
  }

  /** Phase 2: up to the first rule that fails and rejects; ran says how many rules were evaluated. */
  method RunStandard(eval: Evaluator, rules: seq<Rule>)
    returns (evaluations: seq<Evaluation>, flaggedBy: seq<string>, rejectedBy: Option<Rule>, ran: nat)
    ensures rejectedBy == First(rules, RejectTest(eval)) && ran <= |rules|
    ensures evaluations == Evaluations(eval, rules[..ran])
    ensures rejectedBy.None? ==> ran == |rules| && flaggedBy == Flags(eval, rules)
    ensures rejectedBy.Some? ==> ran > 0 && rules[ran - 1] == rejectedBy.value && flaggedBy == Flags(eval, rules[..ran - 1])
  {
    evaluations, flaggedBy, rejectedBy := [], [], None;
    for i := 0 to |rules|
      invariant evaluations == Evaluations(eval, rules[..i]) && flaggedBy == Flags(eval, rules[..i])
      invariant First(rules[..i], RejectTest(eval)).None?
    {
      assert Init(rules[..i + 1]) == rules[..i];
      var rule := rules[i];
      var outcome := eval(rule);
      evaluations := evaluations + [Evaluation(rule.id, outcome)];
      if outcome == Fail {
        if rule.action == Reject {
          FirstOfPrefix(rules, RejectTest(eval), i + 1);
          return evaluations, flaggedBy, Some(rule), i + 1;
        }
        flaggedBy := flaggedBy + [rule.id];
      } else if outcome == Flag {
        flaggedBy := flaggedBy + [rule.id];
      }
    }
    assert rules[..|rules|] == rules;
    ran := |rules|;
  }

  /** A rejection stops at the rejecting rule: what was evaluated and flagged up to there is what is reported. */
  ghost predicate StoppedAt(eval: Evaluator, rules: seq<Rule>, result: PipelineResult, ran: nat) {
    var standard := Phase(rules, false);
    0 < ran <= |standard| && result.rejectedBy == Some(standard[ran - 1].id) &&
    result.evaluations == Evaluations(eval, Phase(rules, true)) + Evaluations(eval, standard[..ran]) &&
    result.flaggedBy == Flags(eval, Phase(rules, true)) + Flags(eval, standard[..ran - 1])
  }

  /**
   * The pipeline computes the policy's meaning. A rejection names the leftmost rejecting rule of least
   * priority, and keeps every contradiction flag; without one, the flags are those of all rules.
   */
  method Evaluate(eval: Evaluator, rules: seq<Rule>) returns (result: PipelineResult)
    ensures result.outcome == Meaning(eval, rules)
    ensures result.rejectedBy == IdOf(LeftmostLeast(Enabled(rules, false), RejectTest(eval), PriorityLe))
    ensures KeepsContradictions(eval, rules, result.flaggedBy)
    ensures result.outcome != Rejected ==>
      result.flaggedBy == Flags(eval, Phase(rules, true)) + Flags(eval, Phase(rules, false)) &&
      result.evaluations == Evaluations(eval, Phase(rules, true)) + Evaluations(eval, Phase(rules, false))
    ensures result.outcome == Rejected ==> exists ran: nat :: StoppedAt(eval, rules, result, ran)
  {
    RejecterIsLeftmostLeast(eval, rules);
    RejecterExistsIff(eval, rules);
    FlaggedIff(eval, rules);
    var contradictionRules := Phase(rules, true);
    var standardRules := Phase(rules, false);
    var evaluations, flaggedBy := RunContradictions(eval, contradictionRules);
    var more, flags, rejecter, ran := RunStandard(eval, standardRules);
    ContradictionsKept(eval, rules, flags);
    assert standardRules[..|standardRules|] == standardRules;
    evaluations, flaggedBy := evaluations + more, flaggedBy + flags;
    if rejecter.Some? {
      result := PipelineResult(Rejected, evaluations, Some(rejecter.value.id), flaggedBy);
      assert StoppedAt(eval, rules, result, ran);
      return;
    }
    if |flaggedBy| > 0 {
      return PipelineResult(Flagged, evaluations, None, flaggedBy);
    }
    result := PipelineResult(Approved, evaluations, None, []);
  }

  // ---------- what does not matter ----------

  /** The order of the rules decides nothing about the outcome. */
  lemma RuleOrderIsIrrelevant(eval: Evaluator, rules: seq<Rule>, permuted: seq<Rule>)
    requires multiset(rules) == multiset(permuted)
    ensures Meaning(eval, rules) == Meaning(eval, permuted)
  {
    forall r
      ensures r in rules <==> r in permuted
    {
      SameMultisetSameMembers(rules, permuted, r);
    }
  }

  /** The same rules with other priorities. */
  ghost predicate SameUpToPriority(rules: seq<Rule>, others: seq<Rule>) {
    |rules| == |others| && forall i: nat :: i < |rules| ==> others[i] == rules[i].(priority := others[i].priority)
  }

  ghost predicate IgnoresPriority(eval: Evaluator) {
    forall r: Rule, n: int :: eval(r.(priority := n)) == eval(r)
  }

  lemma PriorityOneWay(eval: Evaluator, rules: seq<Rule>, others: seq<Rule>)
    requires SameUpToPriority(rules, others) && IgnoresPriority(eval)
    ensures MustReject(eval, rules) ==> MustReject(eval, others)
    ensures MustFlag(eval, rules) ==> MustFlag(eval, others)
  {
    forall r | r in rules
      ensures exists s :: s in others && s == r.(priority := s.priority) && eval(s) == eval(r)
    {
      var i: nat :| i < |rules| && rules[i] == r;
      assert others[i] in others;
      assert eval(r.(priority := others[i].priority)) == eval(r);
    }
  }

  /** Nor do the priorities: they only choose which rejecting rule is named. */
  lemma PrioritiesAreIrrelevant(eval: Evaluator, rules: seq<Rule>, others: seq<Rule>)
    requires SameUpToPriority(rules, others) && IgnoresPriority(eval)
    ensures Meaning(eval, rules) == Meaning(eval, others)
  {
    PriorityOneWay(eval, rules, others);
    PriorityOneWay(eval, others, rules);
  }

  // ---------- spelled out ----------

  /** Rule r can reject: enabled, not a contradiction rule, its evaluator fails and its action is to reject. */
  predicate CanReject(eval: Evaluator, r: Rule) {
    r.enabled && r.ruleType != "contradiction_check" && eval(r) == Fail && r.action == Reject
  }

  /** What the policy means: rejected by any such rule, else flagged by any enabled rule that does not pass. */
  lemma MeaningSpelledOut(eval: Evaluator, rules: seq<Rule>)
    ensures Meaning(eval, rules) == Rejected <==> exists r :: r in rules && CanReject(eval, r)
    ensures Meaning(eval, rules) == Approved <==> forall r :: r in rules && r.enabled ==> eval(r) == Pass
  {
    assert forall r :: r in rules ==> (CanReject(eval, r) <==> r.enabled && !IsContradiction(r) && Rejects(eval, r));
  }

  /** Rule i is the one to name: of those that can reject, none has a lower priority and none before it the same. */
  ghost predicate ToName(eval: Evaluator, rules: seq<Rule>, i: nat) {
    i < |rules| && CanReject(eval, rules[i]) &&
    (forall j: nat :: j < |rules| && CanReject(eval, rules[j]) ==> rules[i].priority <= rules[j].priority) &&
    (forall j: nat :: j < i && CanReject(eval, rules[j]) ==> rules[i].priority < rules[j].priority)
  }

  ghost predicate NobodyRejects(eval: Evaluator, rules: seq<Rule>) {
    forall j: nat :: j < |rules| ==> !CanReject(eval, rules[j])
  }

  function Named(eval: Evaluator, rules: seq<Rule>): Option<Rule> {
    LeftmostLeast(Enabled(rules, false), RejectTest(eval), PriorityLe)
  }

  lemma {:induction false} NamedNoneIff(eval: Evaluator, rules: seq<Rule>)
    ensures Named(eval, rules).None? <==> NobodyRejects(eval, rules)
  {
    if |rules| > 0 {
      var n := |rules| - 1;
      NamedNoneIff(eval, rules[..n]);
      NamedOneMore(eval, rules);
      hide Named, CanReject;
      assert rules == rules[..n] + [rules[n]];
    }
  }

  lemma {:induction false} NamedIsToName(eval: Evaluator, rules: seq<Rule>)
    requires Named(eval, rules).Some?
    ensures exists i: nat :: ToName(eval, rules, i) && rules[i] == Named(eval, rules).value
  {
    var n := |rules| - 1;
    NamedOneMore(eval, rules);
    hide Named, CanReject;
    if Named(eval, rules[..n]).None? {
      NamedNoneIff(eval, rules[..n]);
      assert forall j: nat :: j < n ==> rules[..n][j] == rules[j];
      assert ToName(eval, rules, n);
    } else {
      NamedIsToName(eval, rules[..n]);
      var i: nat :| ToName(eval, rules[..n], i) && rules[..n][i] == Named(eval, rules[..n]).value;
      ToNameOneMore(eval, rules, i);
    }
  }

  /** The rule named by a rejection is that one, and there is one exactly when some rule can reject. */
  lemma NamedSpelledOut(eval: Evaluator, rules: seq<Rule>)
    ensures var named := LeftmostLeast(Enabled(rules, false), RejectTest(eval), PriorityLe);
            (named.None? <==> forall j: nat :: j < |rules| ==> !CanReject(eval, rules[j])) &&
            (named.Some? ==> exists i: nat :: ToName(eval, rules, i) && rules[i] == named.value)
  {
    NamedNoneIff(eval, rules);
    if Named(eval, rules).Some? {
      NamedIsToName(eval, rules);
    }
  }

  lemma ToNameOneMore(eval: Evaluator, rules: seq<Rule>, i: nat)
    requires |rules| > 0 && ToName(eval, rules[..|rules| - 1], i)
    ensures var n := |rules| - 1;
            if CanReject(eval, rules[n]) && rules[n].priority < rules[i].priority then ToName(eval, rules, n) else ToName(eval, rules, i)
  {
    hide CanReject;
    var n := |rules| - 1;
    assert forall j: nat :: j < n ==> rules[..n][j] == rules[j];
  }

  lemma NamedOneMore(eval: Evaluator, rules: seq<Rule>)
    requires |rules| > 0
    ensures var n := |rules| - 1;
            var was := Named(eval, rules[..n]);
            Named(eval, rules) ==
            if CanReject(eval, rules[n]) && (was.None? || rules[n].priority < was.value.priority) then Some(rules[n]) else was
  {
    var n := |rules| - 1;
    assert Init(rules) == rules[..n];
    var before, r := Enabled(rules[..n], false), rules[n];
    if r.enabled && !IsContradiction(r) {
      assert Init(before + [r]) == before;
    }
  }

  /** A phase's rules are ascending in priority; equal priorities keep the order of the policy. */
  lemma PhaseOrder(rules: seq<Rule>, contradiction: bool, k: Rule)
    ensures Sorted(Phase(rules, contradiction), PriorityLe)
    ensures TiesWith(Phase(rules, contradiction), k, PriorityLe) == TiesWith(Enabled(rules, contradiction), k, PriorityLe)
  {
    PriorityOrder();
    SortSorted(Enabled(rules, contradiction), PriorityLe);
    SortIsStable(Enabled(rules, contradiction), k, PriorityLe);
  }

  /** The evaluations of a list of rules, one by one in order. */
  lemma {:induction false} EvaluationsAt(eval: Evaluator, rules: seq<Rule>, i: nat)
    requires i < |rules|
    ensures |Evaluations(eval, rules)| == |rules| && Evaluations(eval, rules)[i] == Evaluation(rules[i].id, eval(rules[i]))
  {
    if i < |rules| - 1 {
      EvaluationsAt(eval, Init(rules), i);
    } else if i > 0 {
      EvaluationsAt(eval, Init(rules), 0);
    }
  }

  /** The flags of a list of rules: the ids of those that do not pass. */
  lemma {:induction false} FlagsAre(eval: Evaluator, rules: seq<Rule>, id: string)
    ensures id in Flags(eval, rules) <==> exists r :: r in rules && r.id == id && eval(r) != Pass
  {
    if |rules| > 0 {
      FlagsAre(eval, Init(rules), id);
      assert forall r :: r in rules <==> r in Init(rules) || r == Last(rules);
    }
  }
}
