/** The specification document's data model: identifier patterns, gate rules,
    gates, transitions, entities and the root specification. */
module Models {
  import opened Wrappers

  /** A loosely typed value inside one of the document's free-form mappings
      (a transition entry, the auxiliary `rules` table). A `Gate` field stands
      for a mapping that validates as a gate; anything else is `Other`. */
  datatype Raw = RawText(text: string) | Gate(gate: GateSpec) | Other

  /** The approval policy as the document writes it: a boolean or a string. */
  datatype Policy = B(flag: bool) | S(name: string)

  datatype IdSpec = IdSpec(canonicalRegex: string, legacyRegexes: seq<string>, examples: seq<string>)

  datatype GateRule = GateRule(ruleType: string, percent: Option<int>)

  datatype GateSpec = GateSpec(requireHumanApproval: Policy, rules: seq<GateRule>)

  datatype TransitionSpec = TransitionSpec(fromState: string, toState: string, gate: GateSpec)

  /** One entry of an entity's `transitions` list: an untyped mapping that is
      read through the keys "from_state", "to_state" and "gate". */
  type TransitionEntry = map<string, Raw>

  datatype EntitySpec = EntitySpec(
    id: IdSpec,
    checklist: seq<string>,
    states: seq<string>,
    transitions: seq<TransitionEntry>)

  /** The root document; all three fields are required. */
  datatype GuardianSpec = GuardianSpec(
    riskTiers: seq<string>,
    entities: map<string, EntitySpec>,
    rules: map<string, map<string, Raw>>)

  /** An `IdSpec` given only its canonical pattern. */
  function NewIdSpec(canonicalRegex: string): (s: IdSpec)
    ensures s.canonicalRegex == canonicalRegex
    ensures s.legacyRegexes == [] && s.examples == []
  {
    IdSpec(canonicalRegex, [], [])
  }

  /** A `GateRule` given only its type. */
  function NewGateRule(ruleType: string): (r: GateRule)
    ensures r.ruleType == ruleType && r.percent == None
  {
    GateRule(ruleType, None)
  }

  /** A `GateSpec` given only its approval policy. */
  function NewGateSpec(requireHumanApproval: Policy): (g: GateSpec)
    ensures g.requireHumanApproval == requireHumanApproval && g.rules == []
  {
    GateSpec(requireHumanApproval, [])
  }

  /** The mapping form of a typed transition, with the keys the resolver reads. */
  function EntryOf(t: TransitionSpec): (e: TransitionEntry)
    ensures e.Keys == {"from_state", "to_state", "gate"}
    ensures e["from_state"] == RawText(t.fromState) && e["to_state"] == RawText(t.toState)
    ensures e["gate"] == Gate(t.gate)
  {
    map["from_state" := RawText(t.fromState), "to_state" := RawText(t.toState), "gate" := Gate(t.gate)]
  }
}
