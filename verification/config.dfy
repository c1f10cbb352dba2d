/**
 * `getConfig` (src/lib/config.ts): checks a fixed, ordered list of required
 * environment variables and builds the configuration record from them. The
 * process environment is an explicit map from variable name to value.
 */
module EnvConfig {
  import opened Wrappers

  type Env = map<string, string>

  /** The required variables, in the order they are checked. */
  const RequiredVariables: seq<string> := [
    "AWS_DEFAULT_REGION",
    "AWS_DEFAULT_ENDPOINT",
    "EMAIL_SNS_TOPIC_ARN",
    "AVAILABILITY_HISTORY_SNS_TOPIC_ARN",
    "NODE_ENV"
  ]

  datatype Config = Config(
    awsRegion: string,
    awsEndpoint: string,
    emailSnsTopicArn: string,
    availabilityHistorySnsTopicArn: string,
    nodeEnv: string
  )

  datatype ConfigError = MissingVariable(name: string)

  /** `!process.env[name]`: an unset variable and an empty one are both missing. */
  predicate Missing(env: Env, name: string)
  {
    name !in env || env[name] == ""
  }

  /** `process.env.NAME`: undefined when unset. */
  function Lookup(env: Env, name: string): Option<string>
  {
    if name in env then Some(env[name]) else None
  }

  /** Position of the first of `names` that is missing from `env`, if any. */
  function FirstMissing(env: Env, names: seq<string>): (r: Option<nat>)
    ensures r.None? <==> forall i :: 0 <= i < |names| ==> !Missing(env, names[i])
    ensures r.Some? ==>
      && r.value < |names|
      && Missing(env, names[r.value])
      && (forall j :: 0 <= j < r.value ==> !Missing(env, names[j]))
    decreases |names|
  {
    if names == [] then None
    else if Missing(env, names[0]) then Some(0)
    else
      match FirstMissing(env, names[1..])
      case None => None
      case Some(i) => Some(i + 1)
  }

  /**
   * `getConfig()`: fails naming the first missing required variable;
   * otherwise each field holds its variable's value.
   */
  function GetConfig(env: Env): (r: Result<Config, ConfigError>)
    ensures r.Success? <==> forall i :: 0 <= i < |RequiredVariables| ==> !Missing(env, RequiredVariables[i])
    ensures r.Failure? ==>
      exists i ::
        && 0 <= i < |RequiredVariables|
        && r.error == MissingVariable(RequiredVariables[i])
        && Missing(env, RequiredVariables[i])
        && (forall j :: 0 <= j < i ==> !Missing(env, RequiredVariables[j]))
    ensures r.Success? ==>
      && Lookup(env, "AWS_DEFAULT_REGION") == Some(r.value.awsRegion)
      && Lookup(env, "AWS_DEFAULT_ENDPOINT") == Some(r.value.awsEndpoint)
      && Lookup(env, "EMAIL_SNS_TOPIC_ARN") == Some(r.value.emailSnsTopicArn)
      && Lookup(env, "AVAILABILITY_HISTORY_SNS_TOPIC_ARN") == Some(r.value.availabilityHistorySnsTopicArn)
      && Lookup(env, "NODE_ENV") == Some(r.value.nodeEnv)
  {
    match FirstMissing(env, RequiredVariables)
    case Some(i) => Failure(MissingVariable(RequiredVariables[i]))
    case None =>
      assert !Missing(env, RequiredVariables[0]);
      assert !Missing(env, RequiredVariables[1]);
      assert !Missing(env, RequiredVariables[2]);
      assert !Missing(env, RequiredVariables[3]);
      assert !Missing(env, RequiredVariables[4]);
      Success(Config(
        env["AWS_DEFAULT_REGION"],
        env["AWS_DEFAULT_ENDPOINT"],
        env["EMAIL_SNS_TOPIC_ARN"],
        env["AVAILABILITY_HISTORY_SNS_TOPIC_ARN"],
        env["NODE_ENV"]))
  }

  const MessagePrefix := "Environment variable "
  const MessageSuffix := " seems to be missing."

  /** The thrown error's message. */
  function ErrorMessage(e: ConfigError): string
  {
    MessagePrefix + e.name + MessageSuffix
  }

  /** Two messages are equal only for the same variable, so a message always tells which variable is missing. */
  lemma ErrorMessageIdentifiesVariable(e1: ConfigError, e2: ConfigError)
    ensures ErrorMessage(e1) == ErrorMessage(e2) <==> e1 == e2
  {
    if ErrorMessage(e1) == ErrorMessage(e2) {
      var m := ErrorMessage(e1);
      assert |e1.name| == |e2.name|;
      assert e1.name == m[|MessagePrefix|..|MessagePrefix| + |e1.name|];
      assert e2.name == m[|MessagePrefix|..|MessagePrefix| + |e2.name|];
    }
  }

  /** A failing `getConfig()` throws the message naming the first missing variable in list order. */
  lemma FailureMessageNamesFirstMissing(env: Env)
    requires GetConfig(env).Failure?
    ensures FirstMissing(env, RequiredVariables).Some?
    ensures ErrorMessage(GetConfig(env).error)
      == MessagePrefix + RequiredVariables[FirstMissing(env, RequiredVariables).value] + MessageSuffix
  {
  }

  /** Variables outside the required list never change the outcome. */
  lemma GetConfigIgnoresOtherVariables(env1: Env, env2: Env)
    requires forall i :: 0 <= i < |RequiredVariables| ==> Lookup(env1, RequiredVariables[i]) == Lookup(env2, RequiredVariables[i])
    ensures GetConfig(env1) == GetConfig(env2)
  {
    FirstMissingAgrees(env1, env2, RequiredVariables);
    assert Lookup(env1, RequiredVariables[0]) == Lookup(env2, RequiredVariables[0]);
    assert Lookup(env1, RequiredVariables[1]) == Lookup(env2, RequiredVariables[1]);
    assert Lookup(env1, RequiredVariables[2]) == Lookup(env2, RequiredVariables[2]);
    assert Lookup(env1, RequiredVariables[3]) == Lookup(env2, RequiredVariables[3]);
    assert Lookup(env1, RequiredVariables[4]) == Lookup(env2, RequiredVariables[4]);
  }

  lemma {:induction false} FirstMissingAgrees(env1: Env, env2: Env, names: seq<string>)
    requires forall i :: 0 <= i < |names| ==> Lookup(env1, names[i]) == Lookup(env2, names[i])
    ensures FirstMissing(env1, names) == FirstMissing(env2, names)
    decreases |names|
  {
    if names != [] {
      assert Lookup(env1, names[0]) == Lookup(env2, names[0]);
      FirstMissingAgrees(env1, env2, names[1..]);
    }
  }
}
