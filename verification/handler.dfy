/**
 * src/handler/index.ts: one pass over the stream records builds the history
 * batch (old images of MODIFY records) and the email batch (new images of
 * MODIFY records whose availability changed); then the email batch is
 * published, then the history batch, each only when non-empty, and a
 * rejected publish is rethrown at once.
 *
 * The pass is parametrised over the extractor and the classifier, and the
 * publish step over whether each `publishMessages` call rejects; `Handler`
 * plugs in the modelled extractor and classifier.
 */
module Handler {
  import opened Wrappers
  import opened Json
  import opened AvailabilityData
  import opened Publisher

  /** One stream record, with its images already unmarshalled. */
  datatype StreamRecord = StreamRecord(eventName: string, oldImage: Image, newImage: Image)

  /** The two batches the pass builds. */
  datatype Accumulators = Accumulators(history: seq<Image>, email: seq<Image>)

  predicate IsModify(r: StreamRecord)
  {
    r.eventName == "MODIFY"
  }

  /** Whether a record's new image goes to the email batch. */
  predicate Notifies<E>(
    r: StreamRecord,
    extract: (Image, Image) -> Result<ChangeData, E>,
    changed: (Option<RawValue>, Option<RawValue>) -> bool)
  {
    && IsModify(r)
    && extract(r.oldImage, r.newImage).Success?
    && changed(extract(r.oldImage, r.newImage).value.oldAvailability,
               extract(r.oldImage, r.newImage).value.newAvailability)
  }

  /** The body of `records.forEach` for one record. */
  function Step<E>(
    acc: Accumulators, r: StreamRecord,
    extract: (Image, Image) -> Result<ChangeData, E>,
    changed: (Option<RawValue>, Option<RawValue>) -> bool): (next: Accumulators)
    ensures next.history == acc.history + (if IsModify(r) then [r.oldImage] else [])
    ensures next.email == acc.email + (if Notifies(r, extract, changed) then [r.newImage] else [])
  {
    if !IsModify(r) then acc
    else
      var history := acc.history + [r.oldImage];
      match extract(r.oldImage, r.newImage)
      case Failure(_) => Accumulators(history, acc.email)
      case Success(data) =>
        if changed(data.oldAvailability, data.newAvailability) then Accumulators(history, acc.email + [r.newImage])
        else Accumulators(history, acc.email)
  }

  /** `records.forEach(...)` starting from `acc`. */
  function CollectFrom<E>(
    acc: Accumulators, records: seq<StreamRecord>,
    extract: (Image, Image) -> Result<ChangeData, E>,
    changed: (Option<RawValue>, Option<RawValue>) -> bool): Accumulators
    decreases |records|
  {
    if records == [] then acc
    else CollectFrom(Step(acc, records[0], extract, changed), records[1..], extract, changed)
  }

  function Collect<E>(
    records: seq<StreamRecord>,
    extract: (Image, Image) -> Result<ChangeData, E>,
    changed: (Option<RawValue>, Option<RawValue>) -> bool): Accumulators
  {
    CollectFrom(Accumulators([], []), records, extract, changed)
  }

  /** Reference: the old images of the MODIFY records, in record order. */
  function ModifiedOldImages(records: seq<StreamRecord>): seq<Image>
    decreases |records|
  {
    if records == [] then []
    else (if IsModify(records[0]) then [records[0].oldImage] else []) + ModifiedOldImages(records[1..])
  }

  /** Reference: the new images of the records that notify, in record order. */
  function NotifiedNewImages<E>(
    records: seq<StreamRecord>,
    extract: (Image, Image) -> Result<ChangeData, E>,
    changed: (Option<RawValue>, Option<RawValue>) -> bool): seq<Image>
    decreases |records|
  {
    if records == [] then []
    else
      var head := if Notifies(records[0], extract, changed) then [records[0].newImage] else [];
      head + NotifiedNewImages(records[1..], extract, changed)
  }

  function CountModify(records: seq<StreamRecord>): nat
    decreases |records|
  {
    if records == [] then 0 else (if IsModify(records[0]) then 1 else 0) + CountModify(records[1..])
  }

  lemma {:induction false} CollectFromSpec<E>(
    acc: Accumulators, records: seq<StreamRecord>,
    extract: (Image, Image) -> Result<ChangeData, E>,
    changed: (Option<RawValue>, Option<RawValue>) -> bool)
    ensures CollectFrom(acc, records, extract, changed).history == acc.history + ModifiedOldImages(records)
    ensures CollectFrom(acc, records, extract, changed).email
      == acc.email + NotifiedNewImages(records, extract, changed)
    decreases |records|
  {
    if records != [] {
      var next := Step(acc, records[0], extract, changed);
      CollectFromSpec(next, records[1..], extract, changed);
    }
  }

  /**
   * The pass puts every MODIFY record's old image in the history batch and
   * exactly the notifying records' new images in the email batch, both in
   * record order; other records add nothing.
   */
  lemma CollectSpec<E>(
    records: seq<StreamRecord>,
    extract: (Image, Image) -> Result<ChangeData, E>,
    changed: (Option<RawValue>, Option<RawValue>) -> bool)
    ensures Collect(records, extract, changed).history == ModifiedOldImages(records)
    ensures Collect(records, extract, changed).email == NotifiedNewImages(records, extract, changed)
  {
    CollectFromSpec(Accumulators([], []), records, extract, changed);
  }

  lemma {:induction false} ReferenceLengths<E>(
    records: seq<StreamRecord>,
    extract: (Image, Image) -> Result<ChangeData, E>,
    changed: (Option<RawValue>, Option<RawValue>) -> bool)
    ensures |ModifiedOldImages(records)| == CountModify(records)
    ensures |NotifiedNewImages(records, extract, changed)| <= |ModifiedOldImages(records)|
    decreases |records|
  {
    if records != [] {
      ReferenceLengths(records[1..], extract, changed);
    }
  }

  /** One history entry per MODIFY record, and never more email entries than history entries. */
  lemma BatchSizes<E>(
    records: seq<StreamRecord>,
    extract: (Image, Image) -> Result<ChangeData, E>,
    changed: (Option<RawValue>, Option<RawValue>) -> bool)
    ensures |Collect(records, extract, changed).history| == CountModify(records)
    ensures |Collect(records, extract, changed).email| <= |Collect(records, extract, changed).history|
  {
    CollectSpec(records, extract, changed);
    ReferenceLengths(records, extract, changed);
  }

  lemma {:induction false} ModifiedSplit(a: seq<StreamRecord>, b: seq<StreamRecord>)
    ensures ModifiedOldImages(a + b) == ModifiedOldImages(a) + ModifiedOldImages(b)
    decreases |a|
  {
    if a == [] {
      assert a + b == b;
    } else {
      var ab := a + b;
      assert ab[0] == a[0];
      assert ab[1..] == a[1..] + b;
      ModifiedSplit(a[1..], b);
    }
  }

  lemma {:induction false} NotifiedSplit<E>(
    a: seq<StreamRecord>, b: seq<StreamRecord>,
    extract: (Image, Image) -> Result<ChangeData, E>,
    changed: (Option<RawValue>, Option<RawValue>) -> bool)
    ensures NotifiedNewImages(a + b, extract, changed) == NotifiedNewImages(a, extract, changed) + NotifiedNewImages(b, extract, changed)
    decreases |a|
  {
    if a == [] {
      assert a + b == b;
    } else {
      var ab := a + b;
      assert ab[0] == a[0];
      assert ab[1..] == a[1..] + b;
      NotifiedSplit(a[1..], b, extract, changed);
    }
  }

  /** Both reference batches of a concatenation are the concatenations of the parts' batches. */
  lemma ReferencesSplit<E>(
    a: seq<StreamRecord>, b: seq<StreamRecord>,
    extract: (Image, Image) -> Result<ChangeData, E>,
    changed: (Option<RawValue>, Option<RawValue>) -> bool)
    ensures ModifiedOldImages(a + b) == ModifiedOldImages(a) + ModifiedOldImages(b)
    ensures NotifiedNewImages(a + b, extract, changed) == NotifiedNewImages(a, extract, changed) + NotifiedNewImages(b, extract, changed)
  {
    ModifiedSplit(a, b);
    NotifiedSplit(a, b, extract, changed);
  }

  /** A record that is not MODIFY, wherever it stands, changes neither batch. */
  lemma NonModifyIgnored<E>(
    a: seq<StreamRecord>, r: StreamRecord, b: seq<StreamRecord>,
    extract: (Image, Image) -> Result<ChangeData, E>,
    changed: (Option<RawValue>, Option<RawValue>) -> bool)
    requires !IsModify(r)
    ensures Collect(a + [r] + b, extract, changed) == Collect(a + b, extract, changed)
  {
    CollectSpec(a + [r] + b, extract, changed);
    CollectSpec(a + b, extract, changed);
    ReferencesSplit(a + [r], b, extract, changed);
    ReferencesSplit(a, [r], extract, changed);
    ReferencesSplit(a, b, extract, changed);
  }

  /**
   * A MODIFY record whose extraction fails still lands in the history batch,
   * adds nothing to the email batch, and does not stop the pass.
   */
  lemma FailedExtractionSkipsOnlyEmail<E>(
    a: seq<StreamRecord>, r: StreamRecord, b: seq<StreamRecord>,
    extract: (Image, Image) -> Result<ChangeData, E>,
    changed: (Option<RawValue>, Option<RawValue>) -> bool)
    requires IsModify(r) && extract(r.oldImage, r.newImage).Failure?
    ensures Collect(a + [r] + b, extract, changed).email == Collect(a + b, extract, changed).email
    ensures Collect(a + [r] + b, extract, changed).history
      == Collect(a, extract, changed).history + [r.oldImage] + Collect(b, extract, changed).history
  {
    assert [r][1..] == [];
    assert ModifiedOldImages([r]) == [r.oldImage];
    assert NotifiedNewImages([r], extract, changed) == [];
    CollectSpec(a + [r] + b, extract, changed);
    CollectSpec(a + b, extract, changed);
    CollectSpec(a, extract, changed);
    CollectSpec(b, extract, changed);
    ReferencesSplit(a + [r], b, extract, changed);
    ReferencesSplit(a, [r], extract, changed);
    ReferencesSplit(a, b, extract, changed);
  }

  /** One `publishMessages` call: the message type and the batch. */
  datatype PublishCall = PublishCall(messageType: MessageType, messages: seq<Image>)

  /** The calls the handler made and the error it rethrew, if any. */
  datatype Invocation<Err> = Invocation(calls: seq<PublishCall>, error: Option<Err>)

  /**
   * The publish phase: email first, then history, each only when its batch
   * is non-empty; `publish` says whether a call rejects, and a rejection is
   * rethrown before anything else is attempted.
   */
  function PublishPhase<Err>(acc: Accumulators, publish: PublishCall -> Option<Err>): (inv: Invocation<Err>)
    ensures |inv.calls| <= 2
    ensures forall c :: c in inv.calls ==>
      c == PublishCall(Email, acc.email) || c == PublishCall(AvailabilityHistory, acc.history)
    ensures |inv.calls| == 2 ==>
      inv.calls == [PublishCall(Email, acc.email), PublishCall(AvailabilityHistory, acc.history)]
    ensures forall i :: 0 <= i < |inv.calls| ==> inv.calls[i].messages != []
    ensures acc.email != [] ==> |inv.calls| >= 1 && inv.calls[0] == PublishCall(Email, acc.email)
    ensures acc.email == [] ==> PublishCall(Email, acc.email) !in inv.calls
    ensures acc.email != [] && publish(PublishCall(Email, acc.email)).Some? ==>
      inv == Invocation([PublishCall(Email, acc.email)], publish(PublishCall(Email, acc.email)))
    ensures PublishCall(AvailabilityHistory, acc.history) in inv.calls <==>
      acc.history != [] && (acc.email == [] || publish(PublishCall(Email, acc.email)).None?)
    ensures inv.error.None? <==> forall i :: 0 <= i < |inv.calls| ==> publish(inv.calls[i]).None?
    ensures inv.error.Some? ==> inv.error == publish(inv.calls[|inv.calls| - 1])
  {
    var emailCall := PublishCall(Email, acc.email);
    var historyCall := PublishCall(AvailabilityHistory, acc.history);
    var emailCalls := if acc.email != [] then [emailCall] else [];
    if acc.email != [] && publish(emailCall).Some? then
      Invocation([emailCall], publish(emailCall))
    else if acc.history != [] then
      Invocation(emailCalls + [historyCall], publish(historyCall))
    else
      Invocation(emailCalls, None)
  }

  /** The whole handler, parametrised over extractor, classifier and publish outcome. */
  function Handle<E, Err>(
    records: seq<StreamRecord>,
    extract: (Image, Image) -> Result<ChangeData, E>,
    changed: (Option<RawValue>, Option<RawValue>) -> bool,
    publish: PublishCall -> Option<Err>): (inv: Invocation<Err>)
    ensures inv == PublishPhase(
      Accumulators(ModifiedOldImages(records), NotifiedNewImages(records, extract, changed)), publish)
    ensures forall c :: c in inv.calls ==>
      || c == PublishCall(Email, NotifiedNewImages(records, extract, changed))
      || c == PublishCall(AvailabilityHistory, ModifiedOldImages(records))
    ensures NotifiedNewImages(records, extract, changed) != [] ==>
      |inv.calls| >= 1 && inv.calls[0] == PublishCall(Email, NotifiedNewImages(records, extract, changed))
    ensures PublishCall(AvailabilityHistory, ModifiedOldImages(records)) in inv.calls <==>
      && CountModify(records) > 0
      && (|| NotifiedNewImages(records, extract, changed) == []
          || publish(PublishCall(Email, NotifiedNewImages(records, extract, changed))).None?)
  {
    CollectSpec(records, extract, changed);
    ReferenceLengths(records, extract, changed);
    PublishPhase(Collect(records, extract, changed), publish)
  }

  /**
   * One MODIFY record, extracted and classified as changed, with both
   * publishes resolving: the publisher is called exactly twice, email first.
   */
  lemma OneChangedRecordPublishesTwice<E, Err>(
    r: StreamRecord,
    extract: (Image, Image) -> Result<ChangeData, E>,
    changed: (Option<RawValue>, Option<RawValue>) -> bool,
    publish: PublishCall -> Option<Err>)
    requires IsModify(r) && extract(r.oldImage, r.newImage).Success?
    requires changed(extract(r.oldImage, r.newImage).value.oldAvailability,
                     extract(r.oldImage, r.newImage).value.newAvailability)
    requires forall c :: publish(c).None?
    ensures Handle([r], extract, changed, publish)
      == Invocation([PublishCall(Email, [r.newImage]), PublishCall(AvailabilityHistory, [r.oldImage])], None)
  {
    var s := Step(Accumulators([], []), r, extract, changed);
    assert s.history == [] + [r.oldImage] == [r.oldImage];
    assert s.email == [] + [r.newImage] == [r.newImage];
    assert [r][1..] == [];
    assert Collect([r], extract, changed) == CollectFrom(s, [], extract, changed);
  }

  /** The handler with the modelled extractor and classifier wired in. */
  function Handler<Err>(records: seq<StreamRecord>, checks: Checks, publish: PublishCall -> Option<Err>): Invocation<Err>
  {
    Handle(records, (o, n) => Extract(o, n, checks), HasChanged, publish)
  }

  /** What the handler's catch block sees when the call as written throws. */
  datatype CallError = TypeError(message: string) | Rejected(e: ExtractError)

  /**
   * Whether an image holds a `dynamodb` object with a `NewImage` attribute,
   * the only shape for which the call as written can read a non-empty
   * after-image.
   */
  predicate CarriesStreamImages(image: Image)
  {
    match Get(image, "dynamodb")
    case Some(Obj(m)) => "NewImage" in m
    case _ => false
  }

  /**
   * The call as written, `extractAvailabilityData(oldImage, newImage)`: the
   * function takes one stream record, so it receives the old image as the
   * record, ignores the new image, and reads `record.dynamodb.OldImage` and
   * then `record.dynamodb.NewImage`.
   *  - No `dynamodb` attribute, or a null one: reading a property of it
   *    throws a TypeError.
   *  - An object with a `NewImage` attribute: the outcome depends on
   *    unmarshalling the nested values, which is not modelled; `nested`
   *    gives it per image.
   *  - Any other value: `NewImage` reads as `undefined`, `unmarshall` turns
   *    that into `{}`, and `{}` fails the identity schema, so "Malformed
   *    record" is thrown for `{}`. Only an `OldImage` attribute can come
   *    first: unmarshalling it may throw a TypeError, which `nested` reports.
   */
  function ExtractAsCalled(
    oldImage: Image, newImage: Image, nested: Image -> Result<ChangeData, CallError>): (r: Result<ChangeData, CallError>)
    ensures Get(oldImage, "dynamodb") in {None, Some(Null)} ==> r.Failure? && r.error.TypeError?
    ensures Get(oldImage, "dynamodb") !in {None, Some(Null)} && !CarriesStreamImages(oldImage) ==>
      r.Failure? && (r.error.TypeError? || r.error == Rejected(MalformedRecord(map[])))
    ensures CarriesStreamImages(oldImage) ==> r == nested(oldImage)
    ensures r.Success? ==> CarriesStreamImages(oldImage)
  {
    var malformed := Failure(Rejected(MalformedRecord(map[])));
    match Get(oldImage, "dynamodb")
    case None => Failure(TypeError("Cannot read properties of undefined (reading 'OldImage')"))
    case Some(Null) => Failure(TypeError("Cannot read properties of null (reading 'OldImage')"))
    case Some(Obj(m)) =>
      if "NewImage" in m then nested(oldImage)
      else if "OldImage" in m then
        (match nested(oldImage)
         case Failure(TypeError(message)) => Failure(TypeError(message))
         case _ => malformed)
      else malformed
    case Some(_) => malformed
  }

  /** The handler as written. */
  function HandlerAsWritten<Err>(
    records: seq<StreamRecord>, nested: Image -> Result<ChangeData, CallError>,
    publish: PublishCall -> Option<Err>): Invocation<Err>
  {
    Handle(records, (o, n) => ExtractAsCalled(o, n, nested), HasChanged, publish)
  }

  lemma {:induction false} AsCalledNotifiesNothing(
    records: seq<StreamRecord>, nested: Image -> Result<ChangeData, CallError>)
    requires forall i :: 0 <= i < |records| ==> !CarriesStreamImages(records[i].oldImage)
    ensures NotifiedNewImages(records, (o, n) => ExtractAsCalled(o, n, nested), HasChanged) == []
    decreases |records|
  {
    if records != [] {
      AsCalledNotifiesNothing(records[1..], nested);
    }
  }

  /**
   * As written, a batch whose old images do not hold a `dynamodb` object
   * with a `NewImage` attribute (the table's items have no `dynamodb`
   * attribute at all) never publishes an email message, whatever changed.
   */
  lemma AsWrittenNeverPublishesEmail<Err>(
    records: seq<StreamRecord>, nested: Image -> Result<ChangeData, CallError>,
    publish: PublishCall -> Option<Err>)
    requires forall i :: 0 <= i < |records| ==> !CarriesStreamImages(records[i].oldImage)
    ensures forall i :: 0 <= i < |HandlerAsWritten(records, nested, publish).calls| ==>
      HandlerAsWritten(records, nested, publish).calls[i].messageType == AvailabilityHistory
  {
    var extract := (o, n) => ExtractAsCalled(o, n, nested);
    CollectSpec(records, extract, HasChanged);
    AsCalledNotifiesNothing(records, nested);
  }

  /**
   * With the extractor applied to the record's own images, a valid MODIFY
   * record whose availability changed is published on the email channel.
   */
  lemma CorrectedWiringPublishesEmail<Err>(r: StreamRecord, checks: Checks, publish: PublishCall -> Option<Err>)
    requires IsModify(r) && Extract(r.oldImage, r.newImage, checks).Success?
    requires HasChanged(Get(r.oldImage, "availability"), Get(r.newImage, "availability"))
    ensures var inv := Handler([r], checks, publish);
      |inv.calls| >= 1 && inv.calls[0] == PublishCall(Email, [r.newImage])
  {
    var extract := (o, n) => Extract(o, n, checks);
    var s := Step(Accumulators([], []), r, extract, HasChanged);
    assert s.history == [] + [r.oldImage] == [r.oldImage];
    assert s.email == [] + [r.newImage] == [r.newImage];
    assert [r][1..] == [];
    assert Collect([r], extract, HasChanged) == CollectFrom(s, [], extract, HasChanged);
  }
}
