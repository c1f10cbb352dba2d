/**
 * src/lib/availability.ts: validation of a stream record's after-image
 * (`extractAvailabilityData`) and the change classifier
 * (`availabilityHasChanged`).
 *
 * The format checks Joi performs for `uuid()`, `email()` and `date().iso()`
 * are not modelled; they are supplied as a `Checks` value and stay
 * uninterpreted. `Joi.boolean()` is modelled: in Joi's default convert mode it
 * accepts a boolean or the strings "true"/"false" in any letter case.
 */
module AvailabilityData {
  import opened Wrappers
  import opened Json
  import Text

  /** The uninterpreted format checks of the two Joi schemas. */
  datatype Checks = Checks(
    isUuid: string -> bool,
    isEmail: string -> bool,
    isIsoDate: RawValue -> bool
  )

  /** The validated fields `extractAvailabilityData` returns (`AvailabilityChangeData`). */
  datatype ChangeData = ChangeData(
    id: string,
    name: string,
    email: string,
    token: string,
    oldAvailability: Option<RawValue>,
    newAvailability: Option<RawValue>
  )

  /** The two errors `extractAvailabilityData` throws, each carrying the offending after-image. */
  datatype ExtractError =
    | MalformedRecord(image: Image)
    | MalformedAvailability(image: Image)

  /** The four fields of an availability object, in source order. */
  const AvailabilityKeys: set<string> := {"lastUpdated", "startDate", "endDate", "isAvailable"}

  /** The identity attributes `atfSchema` requires. */
  const IdentityKeys: set<string> := {"id", "name", "email", "token"}

  /** An availability object's four fields, each still a raw value. */
  datatype AvailabilityFields = AvailabilityFields(
    lastUpdated: RawValue,
    startDate: RawValue,
    endDate: RawValue,
    isAvailable: RawValue
  )

  /** The object `{ lastUpdated, startDate, endDate, isAvailable }`. */
  function AsObject(f: AvailabilityFields): RawValue
  {
    Obj(map[
      "lastUpdated" := f.lastUpdated,
      "startDate" := f.startDate,
      "endDate" := f.endDate,
      "isAvailable" := f.isAvailable])
  }

  /** `Joi.string().required()`: a present, non-empty string. */
  predicate IsNonEmptyString(v: Option<RawValue>)
  {
    v.Some? && v.value.Str? && v.value.s != ""
  }

  /** `Joi.boolean()` in convert mode. */
  predicate IsJoiBoolean(v: RawValue)
  {
    || v.Bool?
    || (v.Str? && (Text.EqualsIgnoringCase(v.s, "true") || Text.EqualsIgnoringCase(v.s, "false")))
  }

  /** `atfSchema`: uuid `id`, `name`, `email` address and `token`; other keys are allowed. */
  predicate ValidIdentity(image: Image, checks: Checks)
  {
    && IsNonEmptyString(Get(image, "id")) && checks.isUuid(image["id"].s)
    && IsNonEmptyString(Get(image, "name"))
    && IsNonEmptyString(Get(image, "email")) && checks.isEmail(image["email"].s)
    && IsNonEmptyString(Get(image, "token"))
  }

  /** The field-level checks of `availabilitySchema`. */
  predicate ValidFields(f: AvailabilityFields, checks: Checks)
  {
    && checks.isIsoDate(f.lastUpdated)
    && checks.isIsoDate(f.startDate)
    && checks.isIsoDate(f.endDate)
    && IsJoiBoolean(f.isAvailable)
  }

  /**
   * `availabilitySchema.validate(v)` on a present value: an object with
   * exactly the four keys (unknown keys are refused), each passing its check.
   */
  function ParseAvailability(v: RawValue, checks: Checks): (r: Option<AvailabilityFields>)
    ensures r.Some? ==> AsObject(r.value) == v && ValidFields(r.value, checks)
  {
    if v.Obj? && v.fields.Keys == AvailabilityKeys then
      var f := AvailabilityFields(
        v.fields["lastUpdated"], v.fields["startDate"], v.fields["endDate"], v.fields["isAvailable"]);
      if ValidFields(f, checks) then
        assert AsObject(f).fields == v.fields;
        Some(f)
      else None
    else None
  }

  /** `availabilitySchema.validate(newImage.availability)`: an absent value passes. */
  predicate ValidAvailability(v: Option<RawValue>, checks: Checks)
  {
    v.None? || ParseAvailability(v.value, checks).Some?
  }

  /**
   * `extractAvailabilityData` on a record's unmarshalled images: the
   * after-image must pass `atfSchema`, then its `availability` must pass
   * `availabilitySchema`; the before-image's `availability` is passed through
   * unvalidated.
   */
  function Extract(oldImage: Image, newImage: Image, checks: Checks): (r: Result<ChangeData, ExtractError>)
    ensures r.Success? <==> ValidIdentity(newImage, checks) && ValidAvailability(Get(newImage, "availability"), checks)
    ensures !ValidIdentity(newImage, checks) ==> r == Failure(MalformedRecord(newImage))
    ensures ValidIdentity(newImage, checks) && !ValidAvailability(Get(newImage, "availability"), checks) ==>
      r == Failure(MalformedAvailability(newImage))
    ensures r.Success? ==>
      && Get(newImage, "id") == Some(Str(r.value.id))
      && Get(newImage, "name") == Some(Str(r.value.name))
      && Get(newImage, "email") == Some(Str(r.value.email))
      && Get(newImage, "token") == Some(Str(r.value.token))
      && r.value.oldAvailability == Get(oldImage, "availability")
      && r.value.newAvailability == Get(newImage, "availability")
    ensures r.Success? && r.value.newAvailability.Some? ==>
      exists f :: r.value.newAvailability.value == AsObject(f) && ValidFields(f, checks)
  {
    if !ValidIdentity(newImage, checks) then
      Failure(MalformedRecord(newImage))
    else
      var newAvailability := Get(newImage, "availability");
      if !ValidAvailability(newAvailability, checks) then
        Failure(MalformedAvailability(newImage))
      else
        assert newAvailability.Some? ==> var f := ParseAvailability(newAvailability.value, checks).value;
          newAvailability.value == AsObject(f) && ValidFields(f, checks);
        Success(ChangeData(
          newImage["id"].s, newImage["name"].s, newImage["email"].s, newImage["token"].s,
          Get(oldImage, "availability"), newAvailability))
  }

  /**
   * `availabilityHasChanged`: a removal (`old && !new`, JavaScript
   * truthiness) is never a change; otherwise the result is strict deep
   * inequality, which on these values is structural inequality.
   */
  function HasChanged(oldAvailability: Option<RawValue>, newAvailability: Option<RawValue>): (r: bool)
    ensures oldAvailability.None? && newAvailability.None? ==> !r
    ensures oldAvailability.None? && newAvailability.Some? ==> r
    ensures Truthy(oldAvailability) && newAvailability.None? ==> !r
    ensures Truthy(newAvailability) ==> (r <==> oldAvailability != newAvailability)
    ensures oldAvailability == newAvailability ==> !r
  {
    if Truthy(oldAvailability) && !Truthy(newAvailability) then false
    else oldAvailability != newAvailability
  }

  /** A validated after-image availability is an object, hence truthy. */
  lemma ValidatedAvailabilityIsTruthy(v: RawValue, checks: Checks)
    requires ParseAvailability(v, checks).Some?
    ensures Truthy(Some(v))
  {
  }

  /** On validated data, both present: changed exactly when some field differs. */
  lemma {:induction false} ChangedIffSomeFieldDiffers(a: AvailabilityFields, b: AvailabilityFields)
    ensures HasChanged(Some(AsObject(a)), Some(AsObject(b))) <==>
      || a.lastUpdated != b.lastUpdated
      || a.startDate != b.startDate
      || a.endDate != b.endDate
      || a.isAvailable != b.isAvailable
  {
    if AsObject(a) == AsObject(b) {
      assert AsObject(a).fields["lastUpdated"] == AsObject(b).fields["lastUpdated"];
      assert AsObject(a).fields["startDate"] == AsObject(b).fields["startDate"];
      assert AsObject(a).fields["endDate"] == AsObject(b).fields["endDate"];
      assert AsObject(a).fields["isAvailable"] == AsObject(b).fields["isAvailable"];
    }
  }

  /** The comparison is type-sensitive: `true` and `"true"` differ, so the pair is a change. */
  lemma BooleanAndStringDiffer(a: AvailabilityFields)
    requires a.isAvailable == Bool(true)
    ensures HasChanged(Some(AsObject(a)), Some(AsObject(a.(isAvailable := Str("true")))))
  {
    ChangedIffSomeFieldDiffers(a, a.(isAvailable := Str("true")));
  }

  /**
   * A falsy before-image availability (null, false, 0, "") is not guarded
   * by the removal rule: followed by no availability it reports a change.
   */
  lemma FalsyOldThenRemovedIsChange(before: RawValue)
    requires !Truthy(Some(before))
    ensures HasChanged(Some(before), None)
  {
  }

  /** Extraction never looks at the before-image beyond copying its availability. */
  lemma {:induction false} BeforeImageNeverValidated(old1: Image, old2: Image, newImage: Image, checks: Checks)
    ensures Extract(old1, newImage, checks).Success? <==> Extract(old2, newImage, checks).Success?
    ensures Extract(old1, newImage, checks).Failure? ==> Extract(old1, newImage, checks) == Extract(old2, newImage, checks)
  {
  }

  /** Adding an attribute outside the validated ones never changes extraction's verdict or its result. */
  lemma {:induction false} ExtraKeysAllowed(oldImage: Image, newImage: Image, key: string, value: RawValue, checks: Checks)
    requires key !in IdentityKeys && key != "availability"
    requires Extract(oldImage, newImage, checks).Success?
    ensures Extract(oldImage, newImage[key := value], checks) == Extract(oldImage, newImage, checks)
  {
    var n2 := newImage[key := value];
    assert Get(n2, "id") == Get(newImage, "id");
    assert Get(n2, "name") == Get(newImage, "name");
    assert Get(n2, "email") == Get(newImage, "email");
    assert Get(n2, "token") == Get(newImage, "token");
    assert Get(n2, "availability") == Get(newImage, "availability");
  }

  /** An after-image without one of the identity attributes is rejected as a malformed record. */
  lemma {:induction false} MissingIdentityRejected(oldImage: Image, newImage: Image, key: string, checks: Checks)
    requires key in IdentityKeys
    ensures Extract(oldImage, newImage - {key}, checks) == Failure(MalformedRecord(newImage - {key}))
  {
    assert key !in newImage - {key};
  }

  /** An after-image whose availability lacks one of the four fields is rejected. */
  lemma {:induction false} IncompleteAvailabilityRejected(oldImage: Image, newImage: Image, key: string, checks: Checks)
    requires ValidIdentity(newImage, checks)
    requires "availability" in newImage && newImage["availability"].Obj?
    requires key in AvailabilityKeys && key !in newImage["availability"].fields
    ensures Extract(oldImage, newImage, checks) == Failure(MalformedAvailability(newImage))
  {
  }

  /** A validated availability object reads back as its own fields. */
  lemma ParseAsObject(f: AvailabilityFields, checks: Checks)
    requires ValidFields(f, checks)
    ensures ParseAvailability(AsObject(f), checks) == Some(f)
  {
    assert AsObject(f).fields.Keys == AvailabilityKeys;
  }
}
