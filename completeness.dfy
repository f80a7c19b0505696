/** The completeness engine: how many checklist items an entity's data
    satisfies, as a count, a truncated integer percent and the ordered list of
    the items still missing. */
module Completeness {

  /** A value of the entity-data mapping, restricted to the scalar kinds. */
  datatype Value = Bool(b: bool) | Int(i: int) | Str(s: string) | Null

  /** Python truthiness of a scalar value. */
  predicate Truthy(v: Value) {
    match v
    case Bool(b) => b
    case Int(i) => i != 0
    case Str(s) => s != ""
    case Null => false
  }

  type EntityData = map<string, Value>

  /** The value recorded for an item, with a missing item read as `False`. */
  function Lookup(data: EntityData, item: string): Value {
    if item in data then data[item] else Bool(false)
  }

  predicate Satisfies(data: EntityData, item: string) {
    Truthy(Lookup(data, item))
  }

  datatype CompletenessResult = CompletenessResult(
    totalItems: nat,
    satisfiedItems: nat,
    percent: int,
    missingItems: seq<string>)

  /** The checklist items not satisfied by `data`, in checklist order. */
  function Missing(checklist: seq<string>, data: EntityData): seq<string>
  {
    if checklist == [] then []
    else
      var last := checklist[|checklist| - 1];
      Missing(checklist[..|checklist| - 1], data) + (if Satisfies(data, last) then [] else [last])
  }

  /** The number of checklist positions whose item `data` satisfies. */
  function SatisfiedCount(checklist: seq<string>, data: EntityData): nat
  {
    if checklist == [] then 0
    else
      var last := checklist[|checklist| - 1];
      SatisfiedCount(checklist[..|checklist| - 1], data) + (if Satisfies(data, last) then 1 else 0)
  }

  /** What `compute` returns for a checklist and entity data. */
  function Expected(checklist: seq<string>, data: EntityData): CompletenessResult
  {
    if checklist == [] then CompletenessResult(0, 0, 100, [])
    else
      var satisfied := SatisfiedCount(checklist, data);
      CompletenessResult(|checklist|, satisfied, satisfied * 100 / |checklist|, Missing(checklist, data))
  }

  /** Every checklist position is either counted as satisfied or listed missing. */
  lemma {:induction false} CountsAddUp(checklist: seq<string>, data: EntityData)
    ensures SatisfiedCount(checklist, data) + |Missing(checklist, data)| == |checklist|
  {
    if checklist != [] {
      CountsAddUp(checklist[..|checklist| - 1], data);
    }
  }

  /** An item is listed missing exactly when it is on the checklist and unsatisfied. */
  lemma {:induction false} MissingMembers(checklist: seq<string>, data: EntityData, item: string)
    ensures item in Missing(checklist, data) <==> item in checklist && !Satisfies(data, item)
  {
    if checklist != [] {
      var init := checklist[..|checklist| - 1];
      MissingMembers(init, data, item);
      assert checklist == init + [checklist[|checklist| - 1]];
    }
  }

  lemma {:induction false} MulMono(a: int, b: int, c: nat)
    requires a <= b
    ensures a * c <= b * c
  {
    if c > 0 {
      MulMono(a, b, c - 1);
      assert a * c == a * (c - 1) + a && b * c == b * (c - 1) + b;
    }
  }

  /** Integer percent of s out of t, truncated, lies in 0..100 and reaches 100 only at s == t. */
  lemma PercentBounds(s: nat, t: nat)
    requires 0 < t && s <= t
    ensures 0 <= s * 100 / t <= 100
    ensures s * 100 / t == 100 <==> s == t
  {
    var n := s * 100;
    var q, r := n / t, n % t;
    assert n == q * t + r && 0 <= r < t;
    if q < 0 { MulMono(q, -1, t); assert false; }
    if s == t {
      if q < 100 { MulMono(q, 99, t); assert false; }
      if q > 100 { MulMono(101, q, t); assert false; }
    } else {
      assert n <= 100 * t - 100;
      if q >= 100 { MulMono(100, q, t); assert false; }
    }
  }

  /** The properties `compute` promises, stated of its specification. */
  lemma ExpectedProperties(checklist: seq<string>, data: EntityData)
    ensures checklist == [] ==> Expected(checklist, data) == CompletenessResult(0, 0, 100, [])
    ensures Expected(checklist, data).totalItems == |checklist|
    ensures checklist != [] ==>
      Expected(checklist, data).percent == Expected(checklist, data).satisfiedItems * 100 / |checklist|
    ensures Expected(checklist, data).satisfiedItems + |Expected(checklist, data).missingItems| == |checklist|
    ensures 0 <= Expected(checklist, data).percent <= 100
    ensures checklist != [] ==>
      (Expected(checklist, data).percent == 100 <==> Expected(checklist, data).missingItems == [])
    ensures forall item ::
      item in Expected(checklist, data).missingItems <==> item in checklist && !Satisfies(data, item)
  {
    CountsAddUp(checklist, data);
    if checklist != [] {
      PercentBounds(SatisfiedCount(checklist, data), |checklist|);
    }
    forall item ensures item in Expected(checklist, data).missingItems <==> item in checklist && !Satisfies(data, item) {
      MissingMembers(checklist, data, item);
    }
  }

  /** A key absent from the data counts exactly as a key mapped to `False`. */
  lemma {:induction false} AbsentIsFalse(checklist: seq<string>, data: EntityData, key: string)
    requires key !in data
    ensures Expected(checklist, data) == Expected(checklist, data[key := Bool(false)])
  {
    assert forall item :: Satisfies(data, item) == Satisfies(data[key := Bool(false)], item);
    MissingSame(checklist, data, data[key := Bool(false)]);
    CountSame(checklist, data, data[key := Bool(false)]);
  }

  lemma {:induction false} MissingSame(checklist: seq<string>, d1: EntityData, d2: EntityData)
    requires forall item :: Satisfies(d1, item) == Satisfies(d2, item)
    ensures Missing(checklist, d1) == Missing(checklist, d2)
  {
    if checklist != [] { MissingSame(checklist[..|checklist| - 1], d1, d2); }
  }

  lemma {:induction false} CountSame(checklist: seq<string>, d1: EntityData, d2: EntityData)
    requires forall item :: Satisfies(d1, item) == Satisfies(d2, item)
    ensures SatisfiedCount(checklist, d1) == SatisfiedCount(checklist, d2)
  {
    if checklist != [] { CountSame(checklist[..|checklist| - 1], d1, d2); }
  }

  /** `CompletenessEngine.compute`: one pass over the checklist, counting the
      satisfied items and collecting the missing ones. */
  method Compute(checklist: seq<string>, data: EntityData) returns (r: CompletenessResult)
    ensures r == Expected(checklist, data)
  {
    var total := |checklist|;
    if total == 0 {
      return CompletenessResult(0, 0, 100, []);
    }
    var satisfied := 0;
    var missing := [];
    var i := 0;
    while i < total
      invariant 0 <= i <= total
      invariant satisfied == SatisfiedCount(checklist[..i], data)
      invariant missing == Missing(checklist[..i], data)
    {
      var item := checklist[i];
      assert checklist[..i + 1][..i] == checklist[..i];
      if Truthy(Lookup(data, item)) {
        satisfied := satisfied + 1;
      } else {
        missing := missing + [item];
      }
      i := i + 1;
    }
    assert checklist[..total] == checklist;
    r := CompletenessResult(total, satisfied, satisfied * 100 / total, missing);
  }
}
