# hvt-record-handler, modelled in Dafny

This project models the core of a Lambda function. The function reads a
DynamoDB stream of ATF (authorised testing facility) records and publishes
SNS messages. Each stream batch goes through the following steps:

- **Extraction and classification** (`AvailabilityData`): the after-image of
  each `MODIFY` record is validated against an identity schema (uuid `id`,
  `name`, `email`, `token`) and a four-field availability schema. The module
  then decides whether the availability changed.
- **Record fold and publishing** (`Handler`): a single pass builds two
  batches. Every `MODIFY` record's old image goes to the history batch. The
  new image goes to the email batch when extraction succeeds and the
  availability changed. The email batch is then published, and after it the
  history batch.
- **Per-message fan-out** (`Publisher`, with the shared partition and
  summary logic in `Fanout`): each message goes to the SNS topic of its
  message type. The per-message outcomes are split into successful and
  failed ids and summarised in two log lines.
- **Email construction** (`Email`, `EmailSubject`): the rendered body, the
  link with its query-escaped token, the SQS message with its four
  attributes, and the subject line. Enqueueing a batch uses the same
  partition and summary logic.
- **Configuration** (`EnvConfig`): five required environment variables are
  checked in a fixed order, and an empty value counts as missing.

Supporting modules:

- `Json`: the unmarshalled DynamoDB values, with JavaScript truthiness.
- `Text`: decimal printing and parsing, padding, split and join.
- `Dates`: the `{dd} {MMMM} {yyyy}` formatter and a parser that inverts it.
- `QueryString`: `querystring.escape`, which percent-encodes UTF-8, and a
  decoder that inverts it.
- `Types`: the records of `src/types.ts`.

Several effects are inputs to the model rather than things it performs:

- The outcome of every SNS publish and SQS send is an input. It is a
  sequence aligned with the messages, because `Promise.all` keeps input
  order.
- Whether each handler-level `publishMessages` call rejects is an input
  function.
- Joi's uuid, email and ISO-date grammars are uninterpreted predicates,
  passed in a `Checks` value.
- The environment is a map.

The two publishes are sequential. The email batch is published first. If
that publish rejects, the error is rethrown and the history batch is never
attempted (`src/handler/index.ts:47-68`). The model follows this code, not
a design in which both publishes are joined.

## Model

| member | source | states |
|---|---|---|
| AvailabilityData.Extract | src/lib/availability.ts:22-48 | Extraction succeeds iff the after-image passes the identity schema and its availability (absent, or exactly the four valid fields) passes the availability schema. A bad identity yields the malformed-record error and otherwise a bad availability yields the malformed-availability error. On success id, name, email and token are the after-image's strings and both availabilities are copied, the before-image's unvalidated |
| AvailabilityData.ParseAvailability | src/lib/availability.ts:15-20 | An accepted availability is exactly the object of its four fields, and each field passes its check |
| AvailabilityData.ParseAsObject | src/lib/availability.ts:15-20 | Every object made of four valid fields is accepted and read back as those fields |
| AvailabilityData.MissingIdentityRejected | src/lib/availability.ts:8-13 | Removing any of id, name, email or token from the after-image makes extraction fail as a malformed record |
| AvailabilityData.ExtraKeysAllowed | src/lib/availability.ts:8-13 | Adding any attribute besides the identity keys and availability leaves a successful extraction unchanged |
| AvailabilityData.IncompleteAvailabilityRejected | src/lib/availability.ts:15-20 | An availability object lacking one of the four fields is rejected as malformed availability |
| AvailabilityData.BeforeImageNeverValidated | src/lib/availability.ts:31-35 | Replacing the before-image never changes whether extraction succeeds, nor the error when it fails |
| AvailabilityData.HasChanged | src/lib/availability.ts:50-61 | Both absent gives no change. Old absent and new present gives a change. A truthy old and an absent new (a deletion) gives no change. With a truthy new the result is strict inequality. Equal arguments never count as a change |
| AvailabilityData.ChangedIffSomeFieldDiffers | src/lib/availability.ts:60 | For two validated availabilities, the result is a change iff at least one of the four fields differs |
| AvailabilityData.BooleanAndStringDiffer | src/lib/availability.ts:60 | The comparison is type-sensitive: `isAvailable` true and the string "true" count as a change |
| AvailabilityData.FalsyOldThenRemovedIsChange | src/lib/availability.ts:57-60 | A falsy unvalidated old value followed by an absent new value is reported as a change, because the deletion guard tests truthiness |
| AvailabilityData.ValidatedAvailabilityIsTruthy | src/lib/availability.ts:57 | A validated availability is truthy, so the deletion guard sees it as present |
| Handler.Step | src/handler/index.ts:21-45 | One record adds its old image to history iff it is a MODIFY record, and its new image to email iff it is MODIFY, its extraction succeeds and its availability changed; nothing else is touched |
| Handler.CollectSpec | src/handler/index.ts:20-46 | The pass yields the old images of the MODIFY records, in record order, as the history batch. The email batch is the new images of the MODIFY records whose extraction succeeds and whose availability changed, in record order |
| Handler.BatchSizes | src/handler/index.ts:31-45 | The history batch has one entry per MODIFY record, and the email batch is never longer than the history batch |
| Handler.NonModifyIgnored | src/handler/index.ts:22-25 | A non-MODIFY record anywhere in the batch changes neither accumulator |
| Handler.FailedExtractionSkipsOnlyEmail | src/handler/index.ts:34-40 | A MODIFY record whose extraction fails still adds its old image to history, adds nothing to email, and the records after it are still processed |
| Handler.ReferencesSplit | src/handler/index.ts:20 | Both reference batches of a concatenation are the concatenations of the parts' batches |
| Handler.PublishPhase | src/handler/index.ts:47-68 | At most two publish calls are made, each with a non-empty batch: only the email batch on the email channel and the history batch on the history channel, each at most once, and when there are two they are email then history. The email batch goes first when non-empty. A rejected email publish is the only call and its error is rethrown. History is published iff it is non-empty and the email publish did not reject. The run fails iff some call rejected, and then with the last call's error |
| Handler.Handle | src/handler/index.ts:12-71 | The whole handler is the publish phase applied to the two reference batches, so every `PublishPhase` guarantee holds for it: every publish call carries one of the two reference batches (the notifying records' new images on the email channel, the MODIFY records' old images on the history channel), a non-empty email batch is published first, and history is published iff some record is MODIFY and the email publish, if any, did not reject |
| Handler.OneChangedRecordPublishesTwice | src/handler/index.ts:16-68 | One changed MODIFY record with both publishes resolving gives exactly two calls: email with the new image, then history with the old image |
| Handler.ExtractAsCalled | src/handler/index.ts:36 | As called, the extractor reads `dynamodb` of the old image. An absent or null attribute raises a TypeError. Any other value without a `NewImage` attribute makes the after-image `{}`, so the call fails: as a malformed record for `{}`, or with a TypeError when unmarshalling an `OldImage` throws first. Extraction can succeed only when the old image holds a `dynamodb` object with a `NewImage` attribute |
| Handler.AsWrittenNeverPublishesEmail | src/handler/index.ts:36 | As written, a batch whose old images hold no `dynamodb` object with a `NewImage` attribute (the table's items have no `dynamodb` attribute) publishes only on the history channel |
| Handler.CorrectedWiringPublishesEmail | src/lib/availability.ts:22-48 | Extraction applied to the record's own images publishes a valid changed MODIFY record's new image on the email channel first |
| Publisher.TopicArn | src/lib/publisher.ts:38-47 | History messages route to the history topic. Email and every other type fall back to the email topic |
| Publisher.TopicsAreConfigured | src/lib/publisher.ts:6-7 | Once the configuration loads, the routed topic equals the configured, non-empty ARN for its channel |
| Publisher.TopicParams | src/lib/publisher.ts:30-36 | Each request's subject is "New <type> message sent to SNS", its message is the record unchanged, and its topic is the routed one |
| Publisher.PublishMessages | src/lib/publisher.ts:9-28 | One request per message in order. Every id lands in exactly one of successful and failed, and the counts sum to the batch size. The first log line is the all-published info line iff every publish succeeded, and otherwise the warning listing the failed ids joined by ", ". The count line reads back as processed, successful and failed, which by `Fanout.CountLineExactly` makes it exactly the line `${n}` prints |
| Publisher.FailedIdsInOrder | src/lib/publisher.ts:19-25 | The failed ids are the ids of the failed messages in input order |
| Publisher.EmptyBatch | src/lib/publisher.ts:22-27 | An empty batch takes the all-published branch and reports 0 processed, 0 successful and 0 failed |
| Fanout.TallyOutcomes | src/lib/publisher.ts:19-20 | Successful and failed ids together are a permutation of the ids. Nothing failed iff every outcome is a success, iff the successful count equals the total |
| Fanout.SelectIsInOrder | src/lib/publisher.ts:19-20 | A filtered list is the ids at the matching positions, in increasing position order |
| Fanout.PositionsFromSpec | src/lib/publisher.ts:19-20 | The positions a filter keeps are exactly the positions with the wanted outcome, each listed once, in increasing order |
| Fanout.Summary | src/lib/publisher.ts:22-27 | Two log lines: the first is the all-done info line iff the total equals the successful count, and otherwise the warning with the failed ids joined by ", "; the second is an info line that reads back as total, successful and failed, and so by `Fanout.CountLineExactly` is exactly that count line. `src/lib/email.ts:96-101` uses it with its own wording |
| Fanout.CountLineExactly | src/lib/publisher.ts:27 | A line reads back as three counts iff it is exactly the count line for them with the numbers printed plainly, so a zero-padded number such as "processed: 02" is never accepted |
| Fanout.ParseCountLineRoundTrip | src/lib/publisher.ts:27 | The count line parses back to exactly the three numbers printed in it |
| Email.BuildEmailBody | src/lib/email.ts:8-30 | The available template renders iff isAvailable. The values have exactly the keys atf_name, additional_open_date_start, additional_open_date_end and link. atf_name is the name. Both date strings parse back to the window dates, which by `Dates.ParseExactlyFormat` makes each exactly the printed date. The link is base URL + "/update?token=" + a query that holds no reserved character raw and decodes back to the token |
| Email.PlainTokenAppearsVerbatim | src/lib/email.ts:19 | A token of unreserved characters appears in the link verbatim |
| Email.SubjectAgreesWithBody | src/util/build-email-subject.ts:7-13 | The subject line's dates are the same strings the body renders |
| Email.BuildSqsMessage | src/lib/email.ts:45-72 | atfId, queue URL, templateId and recipient pass through, and the body is the built email body. The attributes are exactly templateId, messageType, recipient and subject, each of DataType "String". messageType is always "email" and subject is the built subject |
| Email.EnqueueEmailMessages | src/lib/email.ts:80-102 | The client is built for the region with API version 2012-11-05. Exactly the batch's messages are sent, in order. The ids are partitioned with counts summing to the total. The first log line is the all-enqueued info line iff every send succeeded, and otherwise the warning listing the failed ATFs. The count line reads back the three counts, and by `Fanout.CountLineExactly` is exactly the printed count line |
| Email.AllEnqueuedLogsNoWarning | src/lib/email.ts:96-101 | When every send succeeds nothing failed and every log line is an info line |
| Email.FailedAtfIdsInOrder | src/lib/email.ts:93-99 | The failed ATF ids are those of the failed sends, in input order |
| EmailSubject.BuildEmailSubject | src/util/build-email-subject.ts:4-14 | Available gives "<name> can take more MOT bookings between <start> and <end>", and otherwise "<name> is fully booked between <start> and <end>", with both dates in the day / month-name / year format |
| EmailSubject.SubjectReadsOnlyNameDecisionAndWindow | src/util/build-email-subject.ts:5-13 | Two parameter sets that agree on name, decision and window give the same subject, whatever their tokens, templates and lastUpdated |
| EmailSubject.DecisionIsVisible | src/util/build-email-subject.ts:9-11 | Flipping isAvailable always changes the subject |
| EmailSubject.SubjectDatesReadBack | src/util/build-email-subject.ts:7-8 | The two date pieces of the subject parse back to the window's start and end dates |
| Dates.ParseFormat | src/lib/email.ts:26-27 | A formatted date (two-digit day, English month name, four-digit year) parses back to the same calendar date |
| Dates.ParseExactlyFormat | src/lib/email.ts:26-27 | A string parses to a date iff it is exactly that date printed as two-digit day, English month name and year padded to four digits |
| Dates.FormatParse | src/lib/email.ts:26-27 | Whatever the parser accepts is the printed form of the date it yields, so no other spelling (an unpadded day, a zero-prefixed five-digit year) is accepted |
| QueryString.EscapeIsQuerySafe | src/lib/email.ts:19 | Escaped text holds only unreserved characters and the `%` of escapes, so `&`, `=`, `#`, `+`, space and every other reserved character never appear raw |
| QueryString.UnescapeEscape | src/lib/email.ts:19 | Percent-escaping (UTF-8, upper-case hex, unreserved characters kept) is undone by unescaping, for every string |
| QueryString.EscapeUnreserved | src/lib/email.ts:19 | A string of unreserved characters is left unchanged by escaping |
| EnvConfig.GetConfig | src/lib/config.ts:9-28 | Succeeds iff all five required variables are present and non-empty. A failure names the first missing variable in list order. On success each field holds its variable's value |
| EnvConfig.FailureMessageNamesFirstMissing | src/lib/config.ts:16-19 | A failing configuration throws "Environment variable <name> seems to be missing." for the first missing variable in list order |
| EnvConfig.ErrorMessageIdentifiesVariable | src/lib/config.ts:18 | Two error messages are equal iff they name the same variable, so the message always tells which variable is missing |
| EnvConfig.FirstMissing | src/lib/config.ts:10-19 | None iff no listed variable is missing. Otherwise the index of a missing variable with none missing before it |
| EnvConfig.GetConfigIgnoresOtherVariables | src/lib/config.ts:10-16 | Environments that agree on the five required variables give the same outcome |

## Left out

- I/O and external services are not modelled: the SNS and SQS transports, the S3 template fetch and nunjucks compilation (`src/lib/get-email-template.ts`), and the logger's sinks. Publish and send outcomes are inputs, and a rendered body is recorded as the template and the values it received.
- `src/util/handle-await-error.ts` becomes the `Option` that `publish` returns for each handler-level call.
- DynamoDB `Converter.unmarshall` is not modelled. Images are given already unmarshalled, and sets and binary values are not represented.
- Joi's uuid, email and ISO-date grammars are parameters. `Joi.string()` is modelled as rejecting the empty string. `Joi.boolean()` is modelled as accepting a boolean or a case-insensitive "true"/"false".
- Date parsing and time zones are not modelled. The window dates arrive as calendar dates (day 1-31, month 1-12, year).
- Dates.Format: pads the year to four digits and prints longer years in full. This is the reading of light-date's `{yyyy}` assumed here.
- `JSON.stringify` of a record is not modelled. A request's message is the record itself.
- The handler's own log lines, the publisher's debug `Dee:` line, and the per-record debug line are not modelled.
- The unused `tokenKey` in `buildEmailBody` has no effect and is not modelled.
- Publisher.MessageType: `MessageType` is imported from `src/types.ts` but not defined there. The labels "Email" and "AvailabilityHistory" are an assumption, and `Unlisted` stands for any other value.
- Publisher.PublishMessages: the message id is an abstract `idOf` function. The code reads `message.atfId`, while the stored records carry `id`.
- Publisher.TopicArn: topics are read from the environment map when asked. The code reads them once, when the module loads.
- Handler.ExtractAsCalled: when the old image holds a `dynamodb` object with a `NewImage` attribute, the outcome is a per-image parameter, because it depends on unmarshalling the nested values. With only an `OldImage` attribute, whether unmarshalling it throws a TypeError comes from the same parameter.
- QueryString.Escape: a string here is a sequence of Unicode scalar values. A JavaScript string holding a lone surrogate, for which `querystring.escape` throws a URIError, cannot be represented.
- Concurrency is not modelled. `Promise.all` is an ordered sequence of outcomes.

## Findings

| source | as written | input that shows it | evidently intended | confidence | as-written member | corrected member |
|---|---|---|---|---|---|---|
| src/handler/index.ts:36 | `extractAvailabilityData(oldImage, newImage)` passes the unmarshalled old image where `src/lib/availability.ts:22` expects the stream record. The function then reads `oldImage.dynamodb.OldImage`, which throws a TypeError that the handler catches, so no record ever reaches the email batch | one MODIFY record whose old image is an ordinary ATF item (no `dynamodb` attribute) and whose new image has a valid identity and a different, valid availability | extract from the record's own images, so that a changed record is published on the email channel | not executed | Handler.AsWrittenNeverPublishesEmail | Handler.CorrectedWiringPublishesEmail |
