/**
 * src/lib/publisher.ts: `publishMessages` sends every message of one batch
 * to the SNS topic of its message type and summarises the per-message
 * outcomes. The transport is not modelled: the outcome of each publish call
 * is an input, aligned with the messages (`Promise.all` keeps input order).
 */
module Publisher {
  import opened Wrappers
  import opened Json
  import opened Fanout
  import EnvConfig

  /**
   * The message types `publishMessages` is called with. `Unlisted` stands for
   * any other value reaching `getTopicArn`'s default branch.
   */
  datatype MessageType = Email | AvailabilityHistory | Unlisted(name: string)

  /** The text `${messageType}` interpolates. */
  function Label(t: MessageType): string
  {
    match t
    case Email => "Email"
    case AvailabilityHistory => "AvailabilityHistory"
    case Unlisted(l) => l
  }

  /**
   * `getTopicArn`: the history topic for availability history, the email
   * topic for everything else. Both are read from the environment when the
   * module loads, so either may be undefined.
   */
  function TopicArn(t: MessageType, env: EnvConfig.Env): (r: Option<string>)
    ensures t == AvailabilityHistory ==> r == EnvConfig.Lookup(env, "AVAILABILITY_HISTORY_SNS_TOPIC_ARN")
    ensures t != AvailabilityHistory ==> r == EnvConfig.Lookup(env, "EMAIL_SNS_TOPIC_ARN")
  {
    var emailTopic := EnvConfig.Lookup(env, "EMAIL_SNS_TOPIC_ARN");
    var availabilityHistoryTopic := EnvConfig.Lookup(env, "AVAILABILITY_HISTORY_SNS_TOPIC_ARN");
    match t
    case Email => emailTopic
    case AvailabilityHistory => availabilityHistoryTopic
    case Unlisted(_) => emailTopic
  }

  /**
   * The publisher imports the SNS service, whose module runs `getConfig()`
   * on load; so whenever it runs, both topics are the configured, non-empty
   * values.
   */
  lemma TopicsAreConfigured(env: EnvConfig.Env, t: MessageType)
    requires EnvConfig.GetConfig(env).Success?
    ensures var c := EnvConfig.GetConfig(env).value;
      && TopicArn(t, env) == Some(if t == AvailabilityHistory then c.availabilityHistorySnsTopicArn else c.emailSnsTopicArn)
      && TopicArn(t, env).value != ""
  {
    assert !EnvConfig.Missing(env, EnvConfig.RequiredVariables[2]);
    assert !EnvConfig.Missing(env, EnvConfig.RequiredVariables[3]);
  }

  /** One SNS `PublishInput`; `message` is the record that is serialised with `JSON.stringify`. */
  datatype PublishInput = PublishInput(subject: string, message: Image, topicArn: Option<string>)

  /** `getTopicParams`. */
  function TopicParams(message: Image, t: MessageType, env: EnvConfig.Env): (r: PublishInput)
    ensures r.subject == "New " + Label(t) + " message sent to SNS"
    ensures r.message == message
    ensures r.topicArn == TopicArn(t, env)
  {
    PublishInput("New " + Label(t) + " message sent to SNS", message, TopicArn(t, env))
  }

  /** What one `publishMessages` call does: the requests it sends, the split outcomes and its log lines. */
  datatype PublishRun = PublishRun(requests: seq<PublishInput>, tally: Tally, log: seq<LogLine>)

  /** The phrases `publishMessages` logs for message type `t`. */
  function PublishWording(t: MessageType): Fanout.Wording
  {
    Fanout.Wording(
      "All " + Label(t) + " messages published successfully.",
      "Could not publish " + Label(t) + " messages for the following ATFs: ",
      Label(t) + " messages")
  }

  /**
   * `publishMessages`: one request per message, in order; each outcome is
   * caught, so a failed publish becomes a failed id and never a rejection.
   * `idOf` is the identifier read from a message (`message.atfId`).
   */
  function PublishMessages(
    messages: seq<Image>, t: MessageType, env: EnvConfig.Env,
    idOf: Image -> string, delivered: seq<bool>): (r: PublishRun)
    requires |delivered| == |messages|
    ensures |r.requests| == |messages|
    ensures forall i :: 0 <= i < |messages| ==> r.requests[i] == TopicParams(messages[i], t, env)
    ensures |r.tally.successful| + |r.tally.failed| == |messages|
    ensures multiset(r.tally.successful) + multiset(r.tally.failed)
      == multiset(Each(messages, idOf))
    ensures |r.log| == 2 && r.log[1].Info?
    ensures (forall i :: 0 <= i < |delivered| ==> delivered[i]) <==> r.log[0] == Info(PublishWording(t).allDone)
    ensures (exists i :: 0 <= i < |delivered| && !delivered[i]) <==>
      r.log[0] == Warn(PublishWording(t).failurePrefix + Text.Join(r.tally.failed, ", "))
    ensures ParseCountLine(PublishWording(t).countSubject, r.log[1].text)
      == Some((|messages|, |r.tally.successful|, |r.tally.failed|))
  {
    var requests := Each(messages, m => TopicParams(m, t, env));
    var ids := Each(messages, idOf);
    var tally := TallyOutcomes(ids, delivered);
    var w := PublishWording(t);
    PublishRun(requests, tally, Summary(w, |messages|, tally))
  }

  /** The failed ids are listed in message order. */
  lemma FailedIdsInOrder(
    messages: seq<Image>, t: MessageType, env: EnvConfig.Env,
    idOf: Image -> string, delivered: seq<bool>)
    requires |delivered| == |messages|
    ensures var ps := PositionsFrom(delivered, false, 0);
      var failed := PublishMessages(messages, t, env, idOf, delivered).tally.failed;
      |failed| == |ps| && forall k :: 0 <= k < |ps| ==> failed[k] == idOf(messages[ps[k]])
  {
    var ids := Each(messages, idOf);
    assert PublishMessages(messages, t, env, idOf, delivered).tally == TallyOutcomes(ids, delivered);
    SelectIsInOrder(ids, delivered, false);
  }

  /** An empty batch takes the "all published" branch and reports zero processed, zero successful, zero failed. */
  lemma EmptyBatch(t: MessageType, env: EnvConfig.Env, idOf: Image -> string)
    ensures var r := PublishMessages([], t, env, idOf, []);
      && r.log[0] == Info("All " + Label(t) + " messages published successfully.")
      && ParseCountLine(Label(t) + " messages", r.log[1].text) == Some((0, 0, 0))
  {
  }
}
