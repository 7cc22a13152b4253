/**
  The sequence `main` runs once the documents are loaded: select a profile,
  resolve its MFA device (fatal if missing), select a lifetime, read the MFA
  code, exchange them for a session (fatal if the exchange fails), update the
  credentials document, and save it. The exchange is a parameter: a function
  from the request to the service's answer.
 */
module Helper {
  import opened Wrappers
  import opened Ini
  import opened Prompts
  import opened Credentials
  import opened Device
  import opened Decimal

  /** The arguments of the session-token call. */
  datatype StsRequest = StsRequest(profile: string, duration: Lifetime, serial: string, code: string)

  /** How a run ends. Only `Updated` saves the credentials file. */
  datatype RunResult =
    | Updated(profile: string, creds: StsCreds)
    | MissingSerial(profile: string)
    | ExchangeFailed(message: string)
    | InputEnded

  /** Exit status: 1 for the configuration error and for the uncaught exchange or end-of-input exceptions. */
  function ExitCode(r: RunResult): (code: int)
    ensures code == 0 <==> r.Updated?
  {
    if r.Updated? then 0 else 1
  }

  /** How the run ends, given the loaded documents, the typed lines and the token service. */
  function Outcome(creds: Doc, config: Doc, suffix: string, input: seq<string>,
                   exchange: StsRequest -> Result<StsCreds, string>): (r: RunResult)
    ensures r.Updated? || r.MissingSerial? ==>
      ProfileAnswer(creds.names, suffix, input).Answered? && ProfileAnswer(creds.names, suffix, input).value == r.profile
    ensures r.Updated? ==> r.profile in creds.names && Selectable(r.profile, suffix) && MfaDevice(config, r.profile).Success?
    ensures r.MissingSerial? ==> MfaDevice(config, r.profile).Failure?
    ensures r.ExchangeFailed? ==>
      ProfileAnswer(creds.names, suffix, input).Answered? &&
      MfaDevice(config, ProfileAnswer(creds.names, suffix, input).value).Success?
  {
    ProfileAnswerIsSelectable(creds.names, suffix, input);
    match ProfileAnswer(creds.names, suffix, input)
    case Answered(profile, afterProfile) =>
      (match MfaDevice(config, profile)
       case Failure(_) => MissingSerial(profile)
       case Success(serial) =>
         match DurationAnswer(afterProfile)
         case Answered(duration, afterDuration) =>
           (match MfaAnswer(afterDuration)
            case Answered(code, _) =>
              (match exchange(StsRequest(profile, duration, serial, code))
               case Success(sts) => Updated(profile, sts)
               case Failure(message) => ExchangeFailed(message))
            case _ => InputEnded)
         case _ => InputEnded)
    case _ => InputEnded
  }

  /**
    The run that follows loading: profile selection, the MFA device lookup,
    lifetime selection, code entry, the exchange and the update. `awsCreds` is
    the credentials document, `awsConf` the config document.
   */
  method Run(awsCreds: Document, awsConf: Doc, suffix: string, input: seq<string>,
             exchange: StsRequest -> Result<StsCreds, string>) returns (r: RunResult)
    requires awsCreds.Valid()
    modifies awsCreds
    ensures awsCreds.Valid()
    ensures r == Outcome(old(awsCreds.Contents()), awsConf, suffix, input, exchange)
    ensures awsCreds.Contents() ==
      if r.Updated? then Merge(old(awsCreds.Contents()), r.profile, suffix, r.creds) else old(awsCreds.Contents())
  {
    var profile := ProfileSelection(awsCreds.names, suffix, input);
    ProfileAnswerIsSelectable(awsCreds.names, suffix, input);
    if !profile.Answered? {
      return InputEnded;
    }
    var device := MfaDevice(awsConf, profile.value);
    if device.Failure? {
      return MissingSerial(profile.value);
    }
    var duration := DurationSelection(profile.rest);
    if !duration.Answered? {
      return InputEnded;
    }
    var code := MfaEntry(duration.rest);
    if !code.Answered? {
      return InputEnded;
    }
    var sts := exchange(StsRequest(profile.value, duration.value, device.value, code.value));
    if sts.Failure? {
      return ExchangeFailed(sts.error);
    }
    UpdateAwsCreds(awsCreds, profile.value, suffix, sts.value);
    r := Updated(profile.value, sts.value);
  }

  /**
    A run that updates the document did so for a menu profile whose MFA
    device is configured, with credentials the service issued for the
    request built from the prompts' answers.
   */
  lemma UpdatedRunMeaning(creds: Doc, config: Doc, suffix: string, input: seq<string>,
                          exchange: StsRequest -> Result<StsCreds, string>)
    ensures var r := Outcome(creds, config, suffix, input, exchange);
      r.Updated? ==>
        && r.profile in creds.names && Selectable(r.profile, suffix)
        && MfaDevice(config, r.profile).Success?
        && exists duration, code ::
             exchange(StsRequest(r.profile, duration, MfaDevice(config, r.profile).value, code)) == Success(r.creds)
  {
  }

  /** A profile without a configured MFA device ends the run with exit status 1 before any later prompt or the exchange. */
  lemma MissingSerialIsFatal(creds: Doc, config: Doc, suffix: string, input: seq<string>,
                             exchange: StsRequest -> Result<StsCreds, string>)
    requires ProfileAnswer(creds.names, suffix, input).Answered?
    requires MfaDevice(config, ProfileAnswer(creds.names, suffix, input).value).Failure?
    ensures Outcome(creds, config, suffix, input, exchange) == MissingSerial(ProfileAnswer(creds.names, suffix, input).value)
    ensures ExitCode(Outcome(creds, config, suffix, input, exchange)) == 1
  {
  }

  /** A run whose prompts all answer and whose exchange succeeds ends in an update with the issued credentials. */
  lemma UpdatedWhenEveryStepSucceeds(creds: Doc, config: Doc, suffix: string, input: seq<string>,
                                     exchange: StsRequest -> Result<StsCreds, string>,
                                     p: string, afterP: seq<string>, s: string, d: Lifetime, afterD: seq<string>,
                                     c: string, afterC: seq<string>, sts: StsCreds)
    requires ProfileAnswer(creds.names, suffix, input) == Answered(p, afterP)
    requires MfaDevice(config, p) == Success(s)
    requires DurationAnswer(afterP) == Answered(d, afterD)
    requires MfaAnswer(afterD) == Answered(c, afterC)
    requires exchange(StsRequest(p, d, s, c)) == Success(sts)
    ensures Outcome(creds, config, suffix, input, exchange) == Updated(p, sts)
  {
  }

  /** The same run with a failing exchange ends with the service's message. */
  lemma ExchangeFailureIsFatal(creds: Doc, config: Doc, suffix: string, input: seq<string>,
                               exchange: StsRequest -> Result<StsCreds, string>,
                               p: string, afterP: seq<string>, s: string, d: Lifetime, afterD: seq<string>,
                               c: string, afterC: seq<string>, message: string)
    requires ProfileAnswer(creds.names, suffix, input) == Answered(p, afterP)
    requires MfaDevice(config, p) == Success(s)
    requires DurationAnswer(afterP) == Answered(d, afterD)
    requires MfaAnswer(afterD) == Answered(c, afterC)
    requires exchange(StsRequest(p, d, s, c)) == Failure(message)
    ensures Outcome(creds, config, suffix, input, exchange) == ExchangeFailed(message)
  {
  }

  /** The run ends for lack of input exactly when a prompt it reaches runs out of lines. */
  lemma InputEndedExactly(creds: Doc, config: Doc, suffix: string, input: seq<string>,
                          exchange: StsRequest -> Result<StsCreds, string>)
    ensures Outcome(creds, config, suffix, input, exchange) == InputEnded <==>
      var profile := ProfileAnswer(creds.names, suffix, input);
      || profile.Exhausted?
      || (&& profile.Answered?
          && MfaDevice(config, profile.value).Success?
          && (|| DurationAnswer(profile.rest).Exhausted?
              || (DurationAnswer(profile.rest).Answered? && MfaAnswer(DurationAnswer(profile.rest).rest).Exhausted?)))
  {
    ProfileAnswerIsSelectable(creds.names, suffix, input);
    var profile := ProfileAnswer(creds.names, suffix, input);
    if profile.Answered? {
      DurationAnswerInBounds(profile.rest);
      var duration := DurationAnswer(profile.rest);
      if duration.Answered? {
        MfaAnswerIsFirstNumeric(duration.rest);
      }
    }
  }

  /** After a run, the next run offers the same profile menu: the derived section is never selectable. */
  lemma RunKeepsMenu(creds: Doc, config: Doc, suffix: string, input: seq<string>,
                     exchange: StsRequest -> Result<StsCreds, string>)
    ensures var r := Outcome(creds, config, suffix, input, exchange);
      r.Updated? ==> Choices(Merge(creds, r.profile, suffix, r.creds).names, suffix) == Choices(creds.names, suffix)
  {
  }

  function WorkCreds(): Doc {
    Doc([DefaultSection, "work"], map[DefaultSection := map[], "work" := map["region" := "us-east-1"]])
  }

  function WorkConfig(): Doc {
    Doc(["profile work"], map["profile work" := map[MfaSerialConfigKey := "arn:x"]])
  }

  lemma WorkProfilePrompt()
    ensures ProfileAnswer(WorkCreds().names, MfaCredsSuffix, ["1", "", "123456"]) == Answered("work", ["", "123456"])
  {
    var names := WorkCreds().names;
    assert names == [DefaultSection] + ["work"];
    ChoicesAppend([DefaultSection], ["work"], MfaCredsSuffix);
    assert "work"[0..] != "-mfa";
    assert Choices(["work"], MfaCredsSuffix) == ["work"];
    assert Choices(names, MfaCredsSuffix) == ["work"];
    assert AllDigits("1") && ParseInt("1") == Some(1);
    assert ["1", "", "123456"] == ["1"] + ["", "123456"];
    ProfileAnswerPicksNumbered(names, MfaCredsSuffix, "1", 1, ["", "123456"]);
  }

  lemma WorkLaterPrompts()
    ensures DurationAnswer(["", "123456"]) == Answered(Seconds(86400), ["123456"])
    ensures MfaAnswer(["123456"]) == Answered("123456", [])
  {
    DurationBlankIsDefault(["123456"]);
    assert ["", "123456"] == [""] + ["123456"];
    assert AllDigits("123456");
    MfaAcceptsAnyNumeral("123456", []);
    assert ["123456"] == ["123456"] + [];
  }

  lemma WorkDevice()
    ensures MfaDevice(WorkConfig(), "work") == Success("arn:x")
  {
    assert ConfigSection("work") == "profile work";
  }

  /**
    The session of the usage example: profile `work` with device `arn:x`,
    entry 1, a blank lifetime and a numeric code. The run updates `work`.
   */
  lemma WorkExample(exchange: StsRequest -> Result<StsCreds, string>, sts: StsCreds)
    requires exchange(StsRequest("work", Seconds(86400), "arn:x", "123456")) == Success(sts)
    ensures Outcome(WorkCreds(), WorkConfig(), MfaCredsSuffix, ["1", "", "123456"], exchange) == Updated("work", sts)
  {
    WorkProfilePrompt();
    WorkLaterPrompts();
    WorkDevice();
    UpdatedWhenEveryStepSucceeds(WorkCreds(), WorkConfig(), MfaCredsSuffix, ["1", "", "123456"], exchange,
      "work", ["", "123456"], "arn:x", Seconds(86400), ["123456"], "123456", [], sts);
  }

  /**
    The update of the usage example creates `work-mfa` with exactly the four
    credentials copied from the service's answer, and keeps `work` and
    `DEFAULT` as they were.
   */
  lemma WorkMerge(sts: StsCreds)
    ensures Merge(WorkCreds(), "work", MfaCredsSuffix, sts) == Doc(
      [DefaultSection, "work", "work-mfa"],
      map[DefaultSection := map[], "work" := map["region" := "us-east-1"],
          "work-mfa" := map[AccessKeyIdKey := sts.accessKey, SecretAccessKeyKey := sts.secretKey,
                            SessionTokenKey := sts.sessionToken, SecurityTokenKey := sts.sessionToken]])
  {
    assert "work" + MfaCredsSuffix == "work-mfa";
  }
}
