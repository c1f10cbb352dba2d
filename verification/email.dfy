/**
 * src/lib/email.ts: the body and SQS message of an availability email, and
 * the fan-out that enqueues a batch of them. Template rendering, the SQS
 * transport and the logger are outside the model: a rendered body is
 * recorded as the template and the values it was given, and the outcome of
 * each `sendMessage` call is a parameter.
 */
module Email {
  import opened Wrappers
  import opened Types
  import Dates
  import QueryString
  import EmailSubject
  import Fanout
  import Text

  /** What `template.render(values)` produces, kept as its two inputs. */
  datatype Body = Rendered(template: Template, values: map<string, string>)

  const AtfNameTag := "atf_name"
  const StartTag := "additional_open_date_start"
  const EndTag := "additional_open_date_end"

  /** The key under which the link is rendered; both decisions use the same one. */
  function LinkTag(isAvailable: bool): string
  {
    if isAvailable then "link" else "link"
  }

  const UpdatePath := "/update?"
  const TokenField := "token="

  /** `qs.stringify({ token })`: the one field, its value percent-escaped. */
  function StringifyToken(token: string): string
  {
    TokenField + QueryString.Escape(token)
  }

  /** The values map handed to `render`. */
  function TemplateValues(atfName: string, start: string, end: string, linkTag: string, link: string): (m: map<string, string>)
    requires linkTag == "link"
    ensures m.Keys == {AtfNameTag, StartTag, EndTag, "link"}
    ensures m[AtfNameTag] == atfName && m[StartTag] == start && m[EndTag] == end && m["link"] == link
  {
    map[AtfNameTag := atfName, StartTag := start, EndTag := end, linkTag := link]
  }

  /**
   * The link carries the token as a query value that holds no reserved
   * character raw and decodes back to the token.
   */
  lemma LinkDecodes(baseUrl: string, token: string)
    ensures exists query ::
      && baseUrl + UpdatePath + StringifyToken(token) == baseUrl + UpdatePath + TokenField + query
      && QueryString.QuerySafe(query)
      && QueryString.Unescape(query) == Some(token)
  {
    QueryString.UnescapeEscape(token);
    QueryString.EscapeIsQuerySafe(token);
    var query := QueryString.Escape(token);
    assert baseUrl + UpdatePath + StringifyToken(token) == baseUrl + UpdatePath + TokenField + query;
  }

  /** `buildEmailBody`. */
  function BuildEmailBody(p: BuildEmailBodyParams): (b: Body)
    ensures b.template == if p.availability.isAvailable then p.availableTemplate else p.fullyBookedTemplate
    ensures b.values.Keys == {AtfNameTag, StartTag, EndTag, "link"}
    ensures b.values[AtfNameTag] == p.atfName
    ensures Dates.Parse(b.values[StartTag]) == Some(p.availability.startDate)
    ensures Dates.Parse(b.values[EndTag]) == Some(p.availability.endDate)
    ensures exists query ::
      && b.values["link"] == p.emailLinkBaseUrl + UpdatePath + TokenField + query
      && QueryString.QuerySafe(query)
      && QueryString.Unescape(query) == Some(p.token)
  {
    var template := if p.availability.isAvailable then p.availableTemplate else p.fullyBookedTemplate;
    var link := p.emailLinkBaseUrl + UpdatePath + StringifyToken(p.token);
    Dates.ParseFormat(p.availability.startDate);
    Dates.ParseFormat(p.availability.endDate);
    LinkDecodes(p.emailLinkBaseUrl, p.token);
    Rendered(template, TemplateValues(
      p.atfName,
      Dates.Format(p.availability.startDate),
      Dates.Format(p.availability.endDate),
      LinkTag(p.availability.isAvailable),
      link))
  }

  /** A token of unreserved characters appears in the link unchanged. */
  lemma PlainTokenAppearsVerbatim(p: BuildEmailBodyParams)
    requires forall i :: 0 <= i < |p.token| ==> QueryString.Unreserved(p.token[i])
    ensures BuildEmailBody(p).values["link"] == p.emailLinkBaseUrl + UpdatePath + TokenField + p.token
  {
    QueryString.EscapeUnreserved(p.token);
  }

  /** The subject line and the rendered body show the same window dates. */
  lemma SubjectAgreesWithBody(p: BuildEmailBodyParams)
    ensures var b := BuildEmailBody(p);
      EmailSubject.BuildEmailSubject(p)
        == p.atfName + " " + EmailSubject.Decision(p.availability.isAvailable) + " between "
          + b.values[StartTag] + " and " + b.values[EndTag]
  {
  }

  /** One SQS message attribute. */
  datatype MessageAttribute = MessageAttribute(dataType: string, stringValue: string)

  /** `AWS.SQS.SendMessageRequest`, restricted to the fields set here. */
  datatype SendMessageRequest = SendMessageRequest(
    queueUrl: string,
    messageBody: Body,
    messageAttributes: map<string, MessageAttribute>
  )

  /** `EmailMessageRequest`. */
  datatype EmailMessageRequest = EmailMessageRequest(atfId: string, message: SendMessageRequest)

  /** `BuildSQSMessageParams`. */
  datatype BuildSqsMessageParams = BuildSqsMessageParams(
    queueUrl: string,
    atfId: string,
    atfEmail: string,
    templateValues: BuildEmailBodyParams,
    templateId: string
  )

  /** The four message attributes, all of DataType "String". */
  function Attributes(templateId: string, recipient: string, subject: string): (m: map<string, MessageAttribute>)
    ensures m.Keys == {"templateId", "messageType", "recipient", "subject"}
    ensures forall k :: k in m ==> m[k].dataType == "String"
    ensures m["templateId"].stringValue == templateId
    ensures m["messageType"].stringValue == "email"
    ensures m["recipient"].stringValue == recipient
    ensures m["subject"].stringValue == subject
  {
    map[
      "templateId" := MessageAttribute("String", templateId),
      "messageType" := MessageAttribute("String", "email"),
      "recipient" := MessageAttribute("String", recipient),
      "subject" := MessageAttribute("String", subject)]
  }

  /** `buildSQSMessage`. */
  function BuildSqsMessage(p: BuildSqsMessageParams): (r: EmailMessageRequest)
    ensures r.atfId == p.atfId
    ensures r.message.queueUrl == p.queueUrl
    ensures r.message.messageBody == BuildEmailBody(p.templateValues)
    ensures r.message.messageAttributes.Keys == {"templateId", "messageType", "recipient", "subject"}
    ensures forall k :: k in r.message.messageAttributes ==> r.message.messageAttributes[k].dataType == "String"
    ensures r.message.messageAttributes["templateId"].stringValue == p.templateId
    ensures r.message.messageAttributes["messageType"].stringValue == "email"
    ensures r.message.messageAttributes["recipient"].stringValue == p.atfEmail
    ensures r.message.messageAttributes["subject"].stringValue == EmailSubject.BuildEmailSubject(p.templateValues)
  {
    var emailBody := BuildEmailBody(p.templateValues);
    var attributes := Attributes(p.templateId, p.atfEmail, EmailSubject.BuildEmailSubject(p.templateValues));
    EmailMessageRequest(p.atfId, SendMessageRequest(p.queueUrl, emailBody, attributes))
  }

  function AtfIdOf(req: EmailMessageRequest): string
  {
    req.atfId
  }

  function MessageOf(req: EmailMessageRequest): SendMessageRequest
  {
    req.message
  }

  /** The options the SQS client is constructed with. */
  datatype SqsClientConfig = SqsClientConfig(region: string, apiVersion: string)

  const SqsApiVersion := "2012-11-05"

  /** What one `enqueueEmailMessages` call does: the client, the messages it sends, their outcome and its log. */
  datatype EnqueueRun = EnqueueRun(
    client: SqsClientConfig,
    sent: seq<SendMessageRequest>,
    tally: Fanout.Tally,
    log: seq<Fanout.LogLine>
  )

  const EnqueueWording := Fanout.Wording(
    "All emails enqueued successfully.",
    "Could not enqueue emails for the following ATFs: ",
    "Messages")

  /**
   * `enqueueEmailMessages`: every message is sent, all at once, and a
   * failed send is recorded rather than raised. `delivered[i]` is whether
   * the i-th send succeeded.
   */
  function EnqueueEmailMessages(reqs: seq<EmailMessageRequest>, awsRegion: string, delivered: seq<bool>): (r: EnqueueRun)
    requires |delivered| == |reqs|
    ensures r.client == SqsClientConfig(awsRegion, SqsApiVersion)
    ensures |r.sent| == |reqs|
    ensures forall i :: 0 <= i < |reqs| ==> r.sent[i] == reqs[i].message
    ensures |r.tally.successful| + |r.tally.failed| == |reqs|
    ensures multiset(r.tally.successful) + multiset(r.tally.failed)
      == multiset(Fanout.Each(reqs, AtfIdOf))
    ensures |r.log| == 2 && r.log[1].Info?
    ensures (forall i :: 0 <= i < |delivered| ==> delivered[i]) <==>
      r.log[0] == Fanout.Info(EnqueueWording.allDone)
    ensures (exists i :: 0 <= i < |delivered| && !delivered[i]) <==>
      r.log[0] == Fanout.Warn(EnqueueWording.failurePrefix + Text.Join(r.tally.failed, ", "))
    ensures Fanout.ParseCountLine(EnqueueWording.countSubject, r.log[1].text)
      == Some((|reqs|, |r.tally.successful|, |r.tally.failed|))
  {
    var sent := Fanout.Each(reqs, MessageOf);
    var ids := Fanout.Each(reqs, AtfIdOf);
    var tally := Fanout.TallyOutcomes(ids, delivered);
    EnqueueRun(SqsClientConfig(awsRegion, SqsApiVersion), sent, tally, Fanout.Summary(EnqueueWording, |reqs|, tally))
  }

  /** When every send succeeds the log is two info lines and nothing is warned. */
  lemma AllEnqueuedLogsNoWarning(reqs: seq<EmailMessageRequest>, awsRegion: string, delivered: seq<bool>)
    requires |delivered| == |reqs|
    requires forall i :: 0 <= i < |delivered| ==> delivered[i]
    ensures var r := EnqueueEmailMessages(reqs, awsRegion, delivered);
      r.tally.failed == [] && forall k :: 0 <= k < |r.log| ==> r.log[k].Info?
  {
    var r := EnqueueEmailMessages(reqs, awsRegion, delivered);
    assert r.tally == Fanout.TallyOutcomes(Fanout.Each(reqs, AtfIdOf), delivered);
    assert r.log[0] == Fanout.Info(EnqueueWording.allDone);
  }

  /** The ATFs whose send failed are listed in message order. */
  lemma FailedAtfIdsInOrder(reqs: seq<EmailMessageRequest>, awsRegion: string, delivered: seq<bool>)
    requires |delivered| == |reqs|
    ensures var ps := Fanout.PositionsFrom(delivered, false, 0);
      var failed := EnqueueEmailMessages(reqs, awsRegion, delivered).tally.failed;
      |failed| == |ps| && forall k :: 0 <= k < |ps| ==> failed[k] == reqs[ps[k]].atfId
  {
    var ids := Fanout.Each(reqs, AtfIdOf);
    assert EnqueueEmailMessages(reqs, awsRegion, delivered).tally == Fanout.TallyOutcomes(ids, delivered);
    Fanout.SelectIsInOrder(ids, delivered, false);
  }
}
