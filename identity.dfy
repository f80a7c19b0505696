/** The identity validator: an identifier is canonical when it fully matches
    the canonical pattern, legacy when it fully matches one of the legacy
    patterns instead, and invalid otherwise. Regular-expression matching is
    not modelled: `fullmatch(pattern, text)` is a parameter. */
module Identity {
  import opened Wrappers

  /** Full-string match of a pattern against a text (`re.fullmatch`). */
  type Matcher = (string, string) -> bool

  datatype IdentityResult = IdentityResult(
    entityType: string,
    rawId: string,
    canonicalId: Option<string>,
    isLegacy: bool)

  /** The rejection, carrying the offending entity type and identifier. */
  datatype IdentityError = IdentityError(entityType: string, idValue: string)

  /** The text the error is raised with. */
  function Message(e: IdentityError): string {
    "Invalid " + e.entityType + " id '" + e.idValue + "'. Does not match canonical or legacy patterns."
  }

  /** For one entity type, the message names the rejected identifier: two
      rejections read alike exactly when they reject the same identifier. */
  lemma MessageIdentifiesId(e1: IdentityError, e2: IdentityError)
    requires e1.entityType == e2.entityType
    ensures Message(e1) == Message(e2) <==> e1 == e2
  {
    if Message(e1) == Message(e2) {
      var head := "Invalid " + e1.entityType + " id '";
      var tail := "'. Does not match canonical or legacy patterns.";
      assert Message(e1) == head + e1.idValue + tail;
      assert Message(e2) == head + e2.idValue + tail;
      assert |e1.idValue| == |e2.idValue|;
      assert e1.idValue == Message(e1)[|head|..|head| + |e1.idValue|];
      assert e2.idValue == Message(e2)[|head|..|head| + |e2.idValue|];
    }
  }

  datatype IdentityValidator = IdentityValidator(canonical: string, legacy: seq<string>)

  /** The constructor: an absent legacy list means no legacy patterns. */
  function NewValidator(canonical: string, legacy: Option<seq<string>>): (v: IdentityValidator)
    ensures v.canonical == canonical
    ensures v.legacy == if legacy.Some? then legacy.value else []
  {
    IdentityValidator(canonical, match legacy case Some(l) => l case None => [])
  }

  predicate SomeLegacyMatches(legacy: seq<string>, fullmatch: Matcher, id: string) {
    exists i :: 0 <= i < |legacy| && fullmatch(legacy[i], id)
  }

  /** The first legacy pattern at or after index `i` that matches `id`. */
  function FirstLegacyMatch(legacy: seq<string>, fullmatch: Matcher, id: string, i: nat): (k: Option<nat>)
    requires i <= |legacy|
    ensures k.Some? ==> i <= k.value < |legacy| && fullmatch(legacy[k.value], id)
    ensures k.Some? ==> forall j :: i <= j < k.value ==> !fullmatch(legacy[j], id)
    ensures k.None? <==> forall j :: i <= j < |legacy| ==> !fullmatch(legacy[j], id)
    decreases |legacy| - i
  {
    if i == |legacy| then None
    else if fullmatch(legacy[i], id) then Some(i)
    else FirstLegacyMatch(legacy, fullmatch, id, i + 1)
  }

  /** `IdentityValidator.validate` */
  function Validate(v: IdentityValidator, fullmatch: Matcher, entityType: string, id: string)
    : (r: Result<IdentityResult, IdentityError>)
    ensures r.Ok? ==> r.value.entityType == entityType && r.value.rawId == id
    ensures r.Ok? ==> (r.value.isLegacy <==> r.value.canonicalId == None)
    ensures fullmatch(v.canonical, id) ==> r == Ok(IdentityResult(entityType, id, Some(id), false))
    ensures !fullmatch(v.canonical, id) && SomeLegacyMatches(v.legacy, fullmatch, id) ==>
      r == Ok(IdentityResult(entityType, id, None, true))
    ensures !fullmatch(v.canonical, id) && !SomeLegacyMatches(v.legacy, fullmatch, id) ==>
      r == Err(IdentityError(entityType, id))
  {
    if fullmatch(v.canonical, id) then
      Ok(IdentityResult(entityType, id, Some(id), false))
    else
      match FirstLegacyMatch(v.legacy, fullmatch, id, 0)
      case Some(_) => Ok(IdentityResult(entityType, id, None, true))
      case None => Err(IdentityError(entityType, id))
  }

  /** Which legacy pattern matches, and in what order they are listed, does not
      matter: validators with the same canonical pattern and the same set of
      legacy patterns decide every identifier alike. */
  lemma LegacyOrderIrrelevant(v1: IdentityValidator, v2: IdentityValidator, fullmatch: Matcher,
                              entityType: string, id: string)
    requires v1.canonical == v2.canonical
    requires forall p :: p in v1.legacy <==> p in v2.legacy
    ensures Validate(v1, fullmatch, entityType, id) == Validate(v2, fullmatch, entityType, id)
  {
    if SomeLegacyMatches(v1.legacy, fullmatch, id) {
      var i :| 0 <= i < |v1.legacy| && fullmatch(v1.legacy[i], id);
      assert v1.legacy[i] in v2.legacy;
    }
    if SomeLegacyMatches(v2.legacy, fullmatch, id) {
      var i :| 0 <= i < |v2.legacy| && fullmatch(v2.legacy[i], id);
      assert v2.legacy[i] in v1.legacy;
    }
  }

  /** A successful validation is canonical exactly when the canonical pattern matches. */
  lemma CanonicalIff(v: IdentityValidator, fullmatch: Matcher, entityType: string, id: string)
    requires Validate(v, fullmatch, entityType, id).Ok?
    ensures !Validate(v, fullmatch, entityType, id).value.isLegacy <==> fullmatch(v.canonical, id)
  {
  }

  /** Validation fails exactly when no pattern matches. */
  lemma RejectedIff(v: IdentityValidator, fullmatch: Matcher, entityType: string, id: string)
    ensures Validate(v, fullmatch, entityType, id).Err?
      <==> !fullmatch(v.canonical, id) && forall p :: p in v.legacy ==> !fullmatch(p, id)
  {
  }
}
