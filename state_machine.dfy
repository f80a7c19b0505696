/** The transition resolver: checks that both states are known, then returns
    the gate of the first transition entry that links them. */
module StateMachine {
  import opened Wrappers
  import opened Models

  datatype ResolvedTransition = ResolvedTransition(fromState: string, toState: string, gate: GateSpec)

  /** Why resolution fails. The first three are the `TransitionError`s that
      `resolve_transition` raises; the last two are what reading a malformed
      entry raises instead (a missing key, and a "gate" value that does not
      validate as a gate). */
  datatype ResolveError =
    | UnknownFromState(state: string, known: seq<string>)
    | UnknownToState(state: string, known: seq<string>)
    | NotAllowed(fromState: string, toState: string)
    | MissingKey(key: string)
    | InvalidGate

  /** The entry has both state keys and they name the requested states. */
  predicate Links(t: TransitionEntry, fromState: string, toState: string) {
    "from_state" in t && t["from_state"] == RawText(fromState)
    && "to_state" in t && t["to_state"] == RawText(toState)
  }

  /** Reading an entry's keys cannot fail while the scan passes it: it has a
      "from_state", and a "to_state" whenever its "from_state" matches. */
  predicate Readable(t: TransitionEntry, fromState: string) {
    "from_state" in t && (t["from_state"] == RawText(fromState) ==> "to_state" in t)
  }

  /** The gate of a linking entry, read as `resolve_transition` reads it. */
  function GateOf(t: TransitionEntry): Result<GateSpec, ResolveError> {
    if "gate" !in t then Err(MissingKey("gate"))
    else match t["gate"]
      case Gate(g) => Ok(g)
      case _ => Err(InvalidGate)
  }

  /** The scan of `transitions[i..]` for the first linking entry. The
      comparison short-circuits as in `resolve_transition`: "to_state" is read
      only when "from_state" matched. */
  function Scan(ts: seq<TransitionEntry>, fromState: string, toState: string, i: nat)
    : (r: Result<ResolvedTransition, ResolveError>)
    requires i <= |ts|
    ensures r.Ok? ==> exists k :: i <= k < |ts| && Links(ts[k], fromState, toState)
                        && GateOf(ts[k]) == Ok(r.value.gate)
    ensures r.Ok? ==> r.value.fromState == fromState && r.value.toState == toState
    decreases |ts| - i
  {
    if i == |ts| then Err(NotAllowed(fromState, toState))
    else
      var t := ts[i];
      if "from_state" !in t then Err(MissingKey("from_state"))
      else if t["from_state"] != RawText(fromState) then Scan(ts, fromState, toState, i + 1)
      else if "to_state" !in t then Err(MissingKey("to_state"))
      else if t["to_state"] != RawText(toState) then Scan(ts, fromState, toState, i + 1)
      else match GateOf(t)
        case Ok(g) => Ok(ResolvedTransition(fromState, toState, g))
        case Err(e) => Err(e)
  }

  /** `resolve_transition` */
  function Resolve(entity: EntitySpec, fromState: string, toState: string)
    : (r: Result<ResolvedTransition, ResolveError>)
    ensures fromState !in entity.states ==> r == Err(UnknownFromState(fromState, entity.states))
    ensures fromState in entity.states && toState !in entity.states ==>
      r == Err(UnknownToState(toState, entity.states))
    ensures r.Ok? ==> fromState in entity.states && toState in entity.states
    ensures r.Ok? ==> r.value.fromState == fromState && r.value.toState == toState
    ensures r.Ok? ==> exists k :: 0 <= k < |entity.transitions| && Links(entity.transitions[k], fromState, toState)
                        && GateOf(entity.transitions[k]) == Ok(r.value.gate)
  {
    if fromState !in entity.states then Err(UnknownFromState(fromState, entity.states))
    else if toState !in entity.states then Err(UnknownToState(toState, entity.states))
    else Scan(entity.transitions, fromState, toState, 0)
  }

  /** First match wins: when entry `k` links the states and every entry
      before it is readable and does not link them, the scan stops at `k`. */
  lemma {:induction false} ScanFirstMatch(ts: seq<TransitionEntry>, fromState: string, toState: string, i: nat, k: nat)
    requires i <= k < |ts| && Links(ts[k], fromState, toState)
    requires forall j :: i <= j < k ==> Readable(ts[j], fromState) && !Links(ts[j], fromState, toState)
    ensures Scan(ts, fromState, toState, i) ==
      match GateOf(ts[k])
      case Ok(g) => Ok(ResolvedTransition(fromState, toState, g))
      case Err(e) => Err(e)
    decreases k - i
  {
    if i < k {
      ScanFirstMatch(ts, fromState, toState, i + 1, k);
    }
  }

  /** With readable entries and none linking the states, the transition is not allowed. */
  lemma {:induction false} ScanNoMatch(ts: seq<TransitionEntry>, fromState: string, toState: string, i: nat)
    requires i <= |ts|
    requires forall j :: i <= j < |ts| ==> Readable(ts[j], fromState) && !Links(ts[j], fromState, toState)
    ensures Scan(ts, fromState, toState, i) == Err(NotAllowed(fromState, toState))
    decreases |ts| - i
  {
    if i < |ts| {
      ScanNoMatch(ts, fromState, toState, i + 1);
    }
  }

  /** For known states, the resolver returns the gate of the first entry that
      links them, whatever entries follow it. */
  lemma ResolveFirstMatch(entity: EntitySpec, fromState: string, toState: string, k: nat, g: GateSpec)
    requires fromState in entity.states && toState in entity.states
    requires k < |entity.transitions| && Links(entity.transitions[k], fromState, toState)
    requires GateOf(entity.transitions[k]) == Ok(g)
    requires forall j :: 0 <= j < k ==>
      Readable(entity.transitions[j], fromState) && !Links(entity.transitions[j], fromState, toState)
    ensures Resolve(entity, fromState, toState) == Ok(ResolvedTransition(fromState, toState, g))
  {
    ScanFirstMatch(entity.transitions, fromState, toState, 0, k);
  }

  /** For known states and readable entries none of which links them, the
      transition is not allowed. */
  lemma ResolveNotAllowed(entity: EntitySpec, fromState: string, toState: string)
    requires fromState in entity.states && toState in entity.states
    requires forall j :: 0 <= j < |entity.transitions| ==>
      Readable(entity.transitions[j], fromState) && !Links(entity.transitions[j], fromState, toState)
    ensures Resolve(entity, fromState, toState) == Err(NotAllowed(fromState, toState))
  {
    ScanNoMatch(entity.transitions, fromState, toState, 0);
  }

  /** Transitions written as typed records resolve to the gate of the first
      record with the requested states, rules unchanged and in order. */
  lemma ResolveTyped(entity: EntitySpec, specs: seq<TransitionSpec>, fromState: string, toState: string, k: nat)
    requires entity.transitions == seq(|specs|, j requires 0 <= j < |specs| => EntryOf(specs[j]))
    requires fromState in entity.states && toState in entity.states
    requires k < |specs| && specs[k].fromState == fromState && specs[k].toState == toState
    requires forall j :: 0 <= j < k ==> !(specs[j].fromState == fromState && specs[j].toState == toState)
    ensures Resolve(entity, fromState, toState).Ok?
    ensures Resolve(entity, fromState, toState).value.gate == specs[k].gate
    ensures Resolve(entity, fromState, toState).value.gate.rules == specs[k].gate.rules
  {
    var ts := entity.transitions;
    forall j | 0 <= j < k ensures Readable(ts[j], fromState) && !Links(ts[j], fromState, toState) {
      assert ts[j] == EntryOf(specs[j]);
    }
    assert ts[k] == EntryOf(specs[k]);
    ResolveFirstMatch(entity, fromState, toState, k, specs[k].gate);
  }
}
