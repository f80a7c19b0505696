/** The gate engine: whether a transition is allowed, combining the
    human-approval policy with the gate's rules, and the ordered reasons that
    block it. */
module Gates {
  import opened Wrappers
  import opened Text
  import opened Models
  import opened Completeness

  const CompletenessMin := "completeness_min"
  const HumanApprovalReason := "Human approval required but not provided."
  // Written as two literals: the verifier sees the characters of a literal
  // only up to a length, and ReasonShapes needs this one's first character.
  const MissingPercentReason := "Rule completeness_min missing required " + "'percent'."

  function BelowReason(actual: int, threshold: int): string
  {
    "Completeness " + IntToString(actual) + "% is below required " + IntToString(threshold) + "%."
  }

  function UnsupportedReason(ruleType: string): string
  {
    "Unsupported rule type: " + ruleType
  }

  datatype GateDecision = GateDecision(
    allowed: bool,
    reasons: seq<string>,
    completeness: Option<CompletenessResult>)

  /** `GateEngine._human_required`: a boolean policy is taken as it is, the
      "medium_or_high" policy asks for approval on the medium and high tiers,
      and every other string asks for approval (deny by default). */
  function HumanRequired(policy: Policy, riskTier: string): (r: bool)
    ensures policy.B? ==> r == policy.flag
    ensures policy == S("medium_or_high") ==> (r <==> riskTier == "medium" || riskTier == "high")
    ensures policy.S? && policy.name != "medium_or_high" ==> r
    ensures !r <==> policy == B(false) || (policy == S("medium_or_high") && riskTier != "medium" && riskTier != "high")
  {
    match policy
    case B(flag) => flag
    case S(name) => if name == "medium_or_high" then riskTier == "medium" || riskTier == "high" else true
  }

  /** What one rule contributes: at most one reason, and whether it computed completeness. */
  datatype Verdict = Verdict(reason: Option<string>, computes: bool)

  /** A rule that lets the transition through at the given completeness percent. */
  predicate Passes(rule: GateRule, percent: int) {
    Strip(rule.ruleType) == CompletenessMin && rule.percent.Some? && rule.percent.value <= percent
  }

  /** A rule that makes the engine compute completeness. */
  predicate Computes(rule: GateRule) {
    Strip(rule.ruleType) == CompletenessMin && rule.percent.Some?
  }

  /** One iteration of the rule loop, given the completeness percent it would compute. */
  function Judge(rule: GateRule, percent: int): Verdict
  {
    var ruleType := Strip(rule.ruleType);
    if ruleType == CompletenessMin then
      match rule.percent
      case None => Verdict(Some(MissingPercentReason), false)
      case Some(threshold) =>
        Verdict(if percent < threshold then Some(BelowReason(percent, threshold)) else None, true)
    else
      Verdict(Some(UnsupportedReason(ruleType)), false)
  }

  /** One rule's verdict: the reason it adds, if any, and whether it computes. */
  lemma JudgeSpec(rule: GateRule, percent: int)
    ensures Judge(rule, percent).computes == Computes(rule)
    ensures Judge(rule, percent).reason == None <==> Passes(rule, percent)
    ensures Strip(rule.ruleType) != CompletenessMin ==>
      Judge(rule, percent).reason == Some(UnsupportedReason(Strip(rule.ruleType)))
    ensures Strip(rule.ruleType) == CompletenessMin && rule.percent == None ==>
      Judge(rule, percent).reason == Some(MissingPercentReason)
    ensures Computes(rule) && percent < rule.percent.value ==>
      Judge(rule, percent).reason == Some(BelowReason(percent, rule.percent.value))
  {
  }

  /** The kinds of reason a rule adds, told apart by how they begin. */
  lemma ReasonShapes(actual: int, threshold: int, ruleType: string)
    ensures BelowReason(actual, threshold)[0] == 'C'
    ensures UnsupportedReason(ruleType)[0] == 'U'
    ensures MissingPercentReason[0] == 'R' && HumanApprovalReason[0] == 'H'
  {
  }

  function ReasonSeq(v: Verdict): seq<string> {
    match v.reason
    case None => []
    case Some(r) => [r]
  }

  /** The verdicts of the rules, one per rule, in rule order. */
  function Verdicts(rules: seq<GateRule>, percent: int): (vs: seq<Verdict>)
    ensures |vs| == |rules|
  {
    if rules == [] then []
    else Verdicts(rules[..|rules| - 1], percent) + [Judge(rules[|rules| - 1], percent)]
  }

  /** Verdict `i` is rule `i`'s. */
  lemma {:induction false} VerdictsIndex(rules: seq<GateRule>, percent: int)
    ensures forall i :: 0 <= i < |rules| ==> Verdicts(rules, percent)[i] == Judge(rules[i], percent)
  {
    if rules != [] {
      var init := rules[..|rules| - 1];
      VerdictsIndex(init, percent);
      forall i | 0 <= i < |rules| ensures Verdicts(rules, percent)[i] == Judge(rules[i], percent) {
        if i < |init| { assert rules[i] == init[i]; }
      }
    }
  }

  /** The reasons a run of verdicts adds, in order. */
  function Reasons(vs: seq<Verdict>): seq<string>
  {
    if vs == [] then [] else Reasons(vs[..|vs| - 1]) + ReasonSeq(vs[|vs| - 1])
  }

  /** The completeness reported after a run of verdicts: the result of the last
      rule that computed one, or none. */
  function ReportedOf(vs: seq<Verdict>, c: CompletenessResult): Option<CompletenessResult>
  {
    if vs == [] then None
    else if vs[|vs| - 1].computes then Some(c)
    else ReportedOf(vs[..|vs| - 1], c)
  }

  function ApprovalReasons(policy: Policy, riskTier: string, humanApproved: bool): seq<string> {
    if HumanRequired(policy, riskTier) && !humanApproved then [HumanApprovalReason] else []
  }

  /** What `GateEngine.evaluate` returns. */
  function Decide(checklist: seq<string>, data: EntityData, rules: seq<GateRule>,
                  policy: Policy, riskTier: string, humanApproved: bool): GateDecision
  {
    var c := Expected(checklist, data);
    var vs := Verdicts(rules, c.percent);
    var reasons := ApprovalReasons(policy, riskTier, humanApproved) + Reasons(vs);
    GateDecision(|reasons| == 0, reasons, ReportedOf(vs, c))
  }

  /** Each verdict adds at most one reason. */
  lemma {:induction false} ReasonsBound(vs: seq<Verdict>)
    ensures |Reasons(vs)| <= |vs|
  {
    if vs != [] { ReasonsBound(vs[..|vs| - 1]); }
  }

  /** The reasons are exactly the reasons the verdicts carry. */
  lemma {:induction false} ReasonsMembers(vs: seq<Verdict>, x: string)
    ensures x in Reasons(vs) <==> exists i :: 0 <= i < |vs| && vs[i].reason == Some(x)
  {
    if vs != [] {
      var init := vs[..|vs| - 1];
      ReasonsMembers(init, x);
      assert forall i :: 0 <= i < |init| ==> init[i] == vs[i];
    }
  }

  /** No reason is added exactly when no verdict carries one. */
  lemma {:induction false} ReasonsEmpty(vs: seq<Verdict>)
    ensures Reasons(vs) == [] <==> forall i :: 0 <= i < |vs| ==> vs[i].reason == None
  {
    if vs != [] {
      var init := vs[..|vs| - 1];
      ReasonsEmpty(init);
      assert forall i :: 0 <= i < |init| ==> init[i] == vs[i];
    }
  }

  /** A completeness result is reported exactly when some verdict computed one. */
  lemma {:induction false} ReportedIff(vs: seq<Verdict>, c: CompletenessResult)
    ensures ReportedOf(vs, c) == (if exists i :: 0 <= i < |vs| && vs[i].computes then Some(c) else None)
  {
    if vs != [] {
      var init := vs[..|vs| - 1];
      ReportedIff(init, c);
      assert forall i :: 0 <= i < |init| ==> init[i] == vs[i];
    }
  }

  /** At most one reason per rule plus the approval reason. */
  lemma ReasonCountBound(checklist: seq<string>, data: EntityData, rules: seq<GateRule>,
                         policy: Policy, riskTier: string, humanApproved: bool)
    ensures |Decide(checklist, data, rules, policy, riskTier, humanApproved).reasons| <= |rules| + 1
  {
    ReasonsBound(Verdicts(rules, Expected(checklist, data).percent));
  }

  /** The approval reason is listed exactly when approval is required and not
      given, and then it comes first. */
  lemma ApprovalReasonIff(checklist: seq<string>, data: EntityData, rules: seq<GateRule>,
                          policy: Policy, riskTier: string, humanApproved: bool)
    ensures var d := Decide(checklist, data, rules, policy, riskTier, humanApproved);
      (HumanApprovalReason in d.reasons <==> HumanRequired(policy, riskTier) && !humanApproved)
      && (HumanRequired(policy, riskTier) && !humanApproved ==> d.reasons[0] == HumanApprovalReason)
  {
    var p := Expected(checklist, data).percent;
    var vs := Verdicts(rules, p);
    VerdictsIndex(rules, p);
    ReasonsMembers(vs, HumanApprovalReason);
    if i :| 0 <= i < |vs| && vs[i].reason == Some(HumanApprovalReason) {
      JudgeSpec(rules[i], p);
      var t := if rules[i].percent.Some? then rules[i].percent.value else 0;
      ReasonShapes(p, t, Strip(rules[i].ruleType));
      assert false;
    }
  }

  /** A transition is allowed exactly when approval is not missing and every
      rule is a completeness rule whose threshold the data reaches. */
  lemma AllowedIff(checklist: seq<string>, data: EntityData, rules: seq<GateRule>,
                   policy: Policy, riskTier: string, humanApproved: bool)
    ensures var d := Decide(checklist, data, rules, policy, riskTier, humanApproved);
      d.allowed <==> (!HumanRequired(policy, riskTier) || humanApproved)
                     && forall i :: 0 <= i < |rules| ==> Passes(rules[i], Expected(checklist, data).percent)
  {
    var p := Expected(checklist, data).percent;
    VerdictsIndex(rules, p);
    ReasonsEmpty(Verdicts(rules, p));
    forall i | 0 <= i < |rules| ensures Judge(rules[i], p).reason == None <==> Passes(rules[i], p) {
      JudgeSpec(rules[i], p);
    }
  }

  /** A verdict carrying a below-required reason comes from a completeness rule
      whose threshold is above the percent. */
  lemma BelowReasonSource(rule: GateRule, percent: int, t: int)
    requires Judge(rule, percent).reason == Some(BelowReason(percent, t))
    ensures Computes(rule) && percent < rule.percent.value
  {
    JudgeSpec(rule, percent);
    var t' := if rule.percent.Some? then rule.percent.value else 0;
    ReasonShapes(percent, t, Strip(rule.ruleType));
    ReasonShapes(percent, t', Strip(rule.ruleType));
  }

  /** A below-required reason appears exactly when some completeness rule sets a
      threshold above the computed percent. */
  lemma BelowRequiredIff(checklist: seq<string>, data: EntityData, rules: seq<GateRule>,
                         policy: Policy, riskTier: string, humanApproved: bool)
    ensures var d := Decide(checklist, data, rules, policy, riskTier, humanApproved);
      var p := Expected(checklist, data).percent;
      (exists t :: BelowReason(p, t) in d.reasons)
        <==> (exists i :: 0 <= i < |rules| && Computes(rules[i]) && p < rules[i].percent.value)
  {
    var d := Decide(checklist, data, rules, policy, riskTier, humanApproved);
    var p := Expected(checklist, data).percent;
    var vs := Verdicts(rules, p);
    VerdictsIndex(rules, p);
    if t :| BelowReason(p, t) in d.reasons {
      ReasonShapes(p, t, "");
      assert BelowReason(p, t) in Reasons(vs);
      ReasonsMembers(vs, BelowReason(p, t));
      var i :| 0 <= i < |vs| && vs[i].reason == Some(BelowReason(p, t));
      BelowReasonSource(rules[i], p, t);
    }
    if i :| 0 <= i < |rules| && Computes(rules[i]) && p < rules[i].percent.value {
      JudgeSpec(rules[i], p);
      ReasonsMembers(vs, BelowReason(p, rules[i].percent.value));
    }
  }

  /** The reported completeness is the one computed from the checklist and
      data when some completeness rule with a percent ran, and none otherwise. */
  lemma ReportedCompleteness(checklist: seq<string>, data: EntityData, rules: seq<GateRule>,
                             policy: Policy, riskTier: string, humanApproved: bool)
    ensures Decide(checklist, data, rules, policy, riskTier, humanApproved).completeness
      == if exists i :: 0 <= i < |rules| && Computes(rules[i]) then Some(Expected(checklist, data)) else None
  {
    var c := Expected(checklist, data);
    var vs := Verdicts(rules, c.percent);
    VerdictsIndex(rules, c.percent);
    ReportedIff(vs, c);
    forall i | 0 <= i < |rules| ensures vs[i].computes == Computes(rules[i]) {
      JudgeSpec(rules[i], c.percent);
    }
  }

  /** An unsupported rule type always blocks, with its own reason. */
  lemma UnsupportedBlocks(checklist: seq<string>, data: EntityData, rules: seq<GateRule>,
                          policy: Policy, riskTier: string, humanApproved: bool, i: nat)
    requires i < |rules| && Strip(rules[i].ruleType) != CompletenessMin
    ensures var d := Decide(checklist, data, rules, policy, riskTier, humanApproved);
      !d.allowed && UnsupportedReason(Strip(rules[i].ruleType)) in d.reasons
  {
    var p := Expected(checklist, data).percent;
    JudgeSpec(rules[i], p);
    VerdictsIndex(rules, p);
    ReasonsMembers(Verdicts(rules, p), UnsupportedReason(Strip(rules[i].ruleType)));
  }

  /** A completeness rule without a percent blocks with its own reason and
      computes nothing. */
  lemma MissingPercentBlocks(checklist: seq<string>, data: EntityData, rules: seq<GateRule>,
                             policy: Policy, riskTier: string, humanApproved: bool, i: nat)
    requires i < |rules| && Strip(rules[i].ruleType) == CompletenessMin && rules[i].percent == None
    ensures var d := Decide(checklist, data, rules, policy, riskTier, humanApproved);
      !d.allowed && MissingPercentReason in d.reasons && !Computes(rules[i])
  {
    var p := Expected(checklist, data).percent;
    JudgeSpec(rules[i], p);
    VerdictsIndex(rules, p);
    ReasonsMembers(Verdicts(rules, p), MissingPercentReason);
  }

  /** The "medium_or_high" policy on a low-risk transition without rules lets it through unapproved. */
  lemma LowTierNeedsNoApproval(checklist: seq<string>, data: EntityData)
    ensures Decide(checklist, data, [], S("medium_or_high"), "low", false).allowed
  {
  }

  /** One step of the rule loop: the verdicts, reasons and reported
      completeness of the first `i + 1` rules from those of the first `i`. */
  lemma VerdictsStep(rules: seq<GateRule>, i: nat, percent: int, c: CompletenessResult)
    requires i < |rules|
    ensures Verdicts(rules[..i + 1], percent) == Verdicts(rules[..i], percent) + [Judge(rules[i], percent)]
    ensures var done, v := Verdicts(rules[..i], percent), Judge(rules[i], percent);
      && Reasons(Verdicts(rules[..i + 1], percent)) == Reasons(done) + ReasonSeq(v)
      && ReportedOf(Verdicts(rules[..i + 1], percent), c) == if v.computes then Some(c) else ReportedOf(done, c)
  {
    assert rules[..i + 1][..i] == rules[..i];
    var done, v := Verdicts(rules[..i], percent), Judge(rules[i], percent);
    assert (done + [v])[..|done|] == done;
  }

  /** The body of the rule loop in `evaluate`: one rule's reason, and the
      completeness it computed, if any. */
  method CheckRule(rule: GateRule, checklist: seq<string>, data: EntityData)
    returns (reason: Option<string>, computed: Option<CompletenessResult>)
    ensures reason == Judge(rule, Expected(checklist, data).percent).reason
    ensures computed == if Judge(rule, Expected(checklist, data).percent).computes
                        then Some(Expected(checklist, data)) else None
  {
    JudgeSpec(rule, Expected(checklist, data).percent);
    reason, computed := None, None;
    var ruleType := Strip(rule.ruleType);
    if ruleType == CompletenessMin {
      if rule.percent == None {
        reason := Some(MissingPercentReason);
      } else {
        var c := Compute(checklist, data);
        computed := Some(c);
        if c.percent < rule.percent.value {
          reason := Some(BelowReason(c.percent, rule.percent.value));
        }
      }
    } else {
      reason := Some(UnsupportedReason(ruleType));
    }
  }

  /** The rule loop of `evaluate`: the reasons the rules add, in order, and
      the completeness last computed. */
  method CheckRules(checklist: seq<string>, data: EntityData, rules: seq<GateRule>)
    returns (reasons: seq<string>, result: Option<CompletenessResult>)
    ensures reasons == Reasons(Verdicts(rules, Expected(checklist, data).percent))
    ensures result == ReportedOf(Verdicts(rules, Expected(checklist, data).percent), Expected(checklist, data))
  {
    reasons, result := [], None;
    ghost var c := Expected(checklist, data);
    var i := 0;
    while i < |rules|
      invariant 0 <= i <= |rules|
      invariant reasons == Reasons(Verdicts(rules[..i], c.percent))
      invariant result == ReportedOf(Verdicts(rules[..i], c.percent), c)
    {
      var reason, computed := CheckRule(rules[i], checklist, data);
      VerdictsStep(rules, i, c.percent, c);
      if reason.Some? {
        reasons := reasons + [reason.value];
      }
      if computed.Some? {
        result := computed;
      }
      i := i + 1;
    }
    assert rules[..|rules|] == rules;
  }

  /** `GateEngine.evaluate`: the approval check, then the rules in order. */
  method Evaluate(checklist: seq<string>, data: EntityData, rules: seq<GateRule>,
                  policy: Policy, riskTier: string, humanApproved: bool) returns (d: GateDecision)
    ensures d == Decide(checklist, data, rules, policy, riskTier, humanApproved)
    ensures d.allowed <==> d.reasons == []
    ensures |d.reasons| <= |rules| + 1
  {
    var reasons: seq<string> := [];
    if HumanRequired(policy, riskTier) {
      if !humanApproved {
        reasons := reasons + [HumanApprovalReason];
      }
    }
    assert reasons == ApprovalReasons(policy, riskTier, humanApproved);
    var ruleReasons, result := CheckRules(checklist, data, rules);
    reasons := reasons + ruleReasons;
    d := GateDecision(|reasons| == 0, reasons, result);
    ReasonsBound(Verdicts(rules, Expected(checklist, data).percent));
  }
}
