/**
 * The bridge program: the client credential, the startup choice of token and the
 * polling loop that publishes presence changes to the MQTT broker.
 *
 * The HTTP exchanges, the presence poll, the broker and the clock are not modelled;
 * their results are inputs: a token, or None where the exchange raised; a poll body,
 * or a poll that raised; whether the publish call raised; the time in whole seconds.
 */
module Bridge {
  import opened Wrappers
  import opened Model
  import Base64

  // ---------------------------------------------------------------------------
  // Client credential for HTTP Basic authentication

  /** The credential string, `client_id:client_secret`. */
  function Credentials(config: Config): string
  {
    config.clientId + ":" + config.clientSecret
  }

  /** `build_client_bearer`: the Base64 encoding of the ASCII bytes of the credential
      string; None where the ASCII encoding raises. */
  function ClientBearer(config: Config): (r: Option<string>)
    ensures r.Some? <==> Base64.IsAscii(Credentials(config))
    ensures r.Some? ==> Base64.Decode(r.value) == Base64.AsciiEncode(Credentials(config))
    ensures r.Some? ==> |r.value| == 4 * ((|Credentials(config)| + 2) / 3)
  {
    match Base64.AsciiEncode(Credentials(config))
    case None => None
    case Some(bytes) =>
      Base64.DecodeEncode(bytes);
      Some(Base64.Encode(bytes))
  }

  /** The bearer exists exactly when the credential string is ASCII, and it decodes to the
      character codes of `client_id`, a colon and `client_secret`, in that order. */
  lemma ClientBearerDecodes(config: Config)
    ensures ClientBearer(config).Some? <==> Base64.IsAscii(Credentials(config))
    ensures ClientBearer(config).Some? ==>
      var bytes := Base64.Decode(ClientBearer(config).value);
      var id, secret := config.clientId, config.clientSecret;
      bytes.Some? && |bytes.value| == |id| + 1 + |secret|
      && (forall i :: 0 <= i < |id| ==> bytes.value[i] as int == id[i] as int)
      && bytes.value[|id|] as int == ':' as int
      && (forall i :: 0 <= i < |secret| ==> bytes.value[|id| + 1 + i] as int == secret[i] as int)
    // No other text decodes to these bytes: the bearer is their one Base64 encoding.
    ensures ClientBearer(config).Some? ==>
      forall s :: Base64.Decode(s) == Base64.AsciiEncode(Credentials(config)) ==> s == ClientBearer(config).value
  {
    var s := Credentials(config);
    match Base64.AsciiEncode(s)
    case None =>
    case Some(bytes) =>
      Base64.DecodeEncode(bytes);
      var id, secret := config.clientId, config.clientSecret;
      assert forall i :: 0 <= i < |secret| ==> s[|id| + 1 + i] == secret[i];
      forall t | Base64.Decode(t) == Some(bytes)
        ensures t == Base64.Encode(bytes)
      {
        Base64.EncodeDecode(t);
      }
  }

  // ---------------------------------------------------------------------------
  // Startup

  datatype Startup =
    | Started(uat: UserAccessToken, cacheWritten: bool)
    | MintRejected  // the authorization-code exchange raised: the process stops

  /**
   * Startup choice of token. `cached` is the token read from the credential cache, or
   * None when the file is absent or reading it raised; `minted` is the result of the
   * authorization-code exchange, or None when it raised. The exchange is used only when
   * no cached token loaded, and its token is then written to the cache.
   */
  method StartupToken(cached: Option<UserAccessToken>, minted: Option<UserAccessToken>) returns (r: Startup)
    ensures cached.Some? ==> r == Started(cached.value, false)
    ensures cached.None? && minted.Some? ==> r == Started(minted.value, true)
    ensures cached.None? && minted.None? ==> r == MintRejected
  {
    var uat: Option<UserAccessToken> := None;
    if cached.Some? {
      uat := cached;
    }
    // A token object is always truthy, so only a missing one leads to the exchange.
    if uat.None? {
      if minted.None? {
        return MintRejected;
      }
      uat := minted;
      return Started(uat.value, true);
    }
    return Started(uat.value, false);
  }

  // ---------------------------------------------------------------------------
  // Presence changes

  const PresenceStatusKey: string := "presence_status"
  const DoNotDisturb: string := "Do_Not_Disturb"

  /** One retained MQTT message. */
  datatype Publish = Publish(topic: string, payload: string, retain: bool)

  /** Value of `presence_status`: a string, or None for JSON null. */
  type Status = Option<string>

  /** The message for an observed status: "Do_Not_Disturb" enters a meeting, anything else leaves. */
  function Payload(config: Config, status: Status): (m: string)
    ensures m == config.mqttMessageEnter || m == config.mqttMessageLeave
    ensures status == Some(DoNotDisturb) ==> m == config.mqttMessageEnter
    ensures status != Some(DoNotDisturb) ==> m == config.mqttMessageLeave
  {
    if status == Some(DoNotDisturb) then config.mqttMessageEnter else config.mqttMessageLeave
  }

  /** The publish an iteration attempts, given the last recorded status and the observed one. */
  function Decide(config: Config, known: Status, status: Status): (p: Option<Publish>)
    ensures p.Some? <==> status != known
    ensures p.Some? ==> p.value.topic == config.mqttPublishTo && p.value.retain
    ensures p.Some? && status == Some(DoNotDisturb) ==> p.value.payload == config.mqttMessageEnter
    ensures p.Some? && status != Some(DoNotDisturb) ==> p.value.payload == config.mqttMessageLeave
  {
    if status != known then Some(Publish(config.mqttPublishTo, Payload(config, status), true)) else None
  }

  /** What one iteration observes once it has a status: the status and whether the publish raised. */
  datatype Observation = Observation(status: Status, publishRaises: bool)

  /** The recorded status after an iteration: it becomes the observed one unless a publish was
      attempted and raised. */
  function NextKnown(known: Status, o: Observation): (k: Status)
    ensures o.publishRaises ==> k == known
    ensures !o.publishRaises ==> k == o.status
  {
    if o.status != known && o.publishRaises then known else o.status
  }

  /** The recorded status after a run of iterations. */
  function KnownAfter(known: Status, run: seq<Observation>): Status
    decreases |run|
  {
    if run == [] then known else KnownAfter(NextKnown(known, run[0]), run[1..])
  }

  /** The publishes attempted during a run of iterations, in order. */
  function Attempts(config: Config, known: Status, run: seq<Observation>): seq<Publish>
    decreases |run|
  {
    if run == [] then []
    else
      var now := match Decide(config, known, run[0].status) case Some(p) => [p] case None => [];
      now + Attempts(config, NextKnown(known, run[0]), run[1..])
  }

  /** Independent description of the recorded status: the status of the last iteration whose
      publish did not raise, or the starting one when there is none. */
  function LastDelivered(known: Status, run: seq<Observation>): Status
    decreases |run|
  {
    if run == [] then known
    else if !run[|run| - 1].publishRaises then run[|run| - 1].status
    else LastDelivered(known, run[..|run| - 1])
  }

  lemma {:induction false} KnownAfterSnoc(known: Status, run: seq<Observation>, o: Observation)
    ensures KnownAfter(known, run + [o]) == NextKnown(KnownAfter(known, run), o)
    decreases |run|
  {
    if run != [] {
      assert (run + [o])[1..] == run[1..] + [o];
      KnownAfterSnoc(NextKnown(known, run[0]), run[1..], o);
    }
  }

  /** The recorded status is always the last status whose publish returned (or that needed
      no publish): a status whose publish raised is never recorded. */
  lemma {:induction false} KnownIsLastDelivered(known: Status, run: seq<Observation>)
    ensures KnownAfter(known, run) == LastDelivered(known, run)
    decreases |run|
  {
    if run != [] {
      var init, last := run[..|run| - 1], run[|run| - 1];
      assert run == init + [last];
      KnownAfterSnoc(known, init, last);
      KnownIsLastDelivered(known, init);
    }
  }

  /** The recorded status starts as None, so the first observed string status is always published. */
  lemma FirstObservationPublishes(config: Config, run: seq<Observation>)
    requires run != [] && run[0].status.Some?
    ensures Attempts(config, None, run) != []
    ensures Attempts(config, None, run)[0] == Publish(config.mqttPublishTo, Payload(config, run[0].status), true)
  {
  }

  /** Once the recorded status equals the observed one, observing it again publishes nothing,
      however long it lasts. */
  lemma {:induction false} SteadyRunIsSilent(config: Config, known: Status, run: seq<Observation>)
    requires forall i :: 0 <= i < |run| ==> run[i].status == known
    ensures Attempts(config, known, run) == []
    ensures KnownAfter(known, run) == known
    decreases |run|
  {
    if run != [] {
      SteadyRunIsSilent(config, known, run[1..]);
    }
  }

  /** While the publish of a changed status keeps raising, the recorded status stays put and
      every iteration attempts the same publish again. */
  lemma {:induction false} FailedPublishIsRetried(config: Config, known: Status, run: seq<Observation>, status: Status)
    requires status != known
    requires forall i :: 0 <= i < |run| ==> run[i] == Observation(status, true)
    ensures KnownAfter(known, run) == known
    ensures |Attempts(config, known, run)| == |run|
    ensures forall i :: 0 <= i < |run| ==>
      Attempts(config, known, run)[i] == Publish(config.mqttPublishTo, Payload(config, status), true)
    decreases |run|
  {
    if run != [] {
      FailedPublishIsRetried(config, known, run[1..], status);
    }
  }

  /** The recorded status is the raw string, so a change between two statuses other than
      "Do_Not_Disturb" publishes the leave message again. */
  lemma LeaveIsRepublished(config: Config, a: string, b: string)
    requires a != b && a != DoNotDisturb && b != DoNotDisturb
    ensures Attempts(config, Some(a), [Observation(Some(b), false)])
         == [Publish(config.mqttPublishTo, config.mqttMessageLeave, true)]
  {
  }

  // ---------------------------------------------------------------------------
  // One iteration of the polling loop

  /** Decoded JSON body of the presence poll, reduced to its string-or-null fields. */
  type PollBody = map<string, Status>

  datatype Poll = Fetched(body: PollBody) | PollRaised

  /** Errors that escape the loop and stop the process. */
  datatype Fatal =
    | RefreshRejected   // the refresh exchange raised
    | DataUnbound       // the very first poll raised, so `data` was never assigned (NameError)
    | StatusMissing     // the body has no `presence_status` (KeyError)

  /** What an iteration did: the refresh token it exchanged, the access token it polled with,
      the publish it attempted and the error that stopped the process, if any. */
  datatype Trace = Trace(refreshWith: Option<string>, pollBearer: Option<string>,
                         publish: Option<Publish>, error: Option<Fatal>)

  /** The body the iteration reads: a failed poll leaves the previous one in place. */
  function NextData(data: Option<PollBody>, poll: Poll): (d: Option<PollBody>)
    ensures d.Some? <==> poll.Fetched? || data.Some?
    ensures poll.Fetched? ==> d == Some(poll.body)
    ensures poll.PollRaised? ==> d == data
  {
    match poll
    case Fetched(body) => Some(body)
    case PollRaised => data
  }

  /** The status read from the body, or the error raised while reading it. */
  function ReadStatus(data: Option<PollBody>): (r: Result<Status, Fatal>)
    ensures r == Err(DataUnbound) <==> data.None?
    ensures r == Err(StatusMissing) <==> data.Some? && PresenceStatusKey !in data.value
    ensures r.Ok? <==> data.Some? && PresenceStatusKey in data.value
    ensures r.Ok? ==> r.value == data.value[PresenceStatusKey]
  {
    match data
    case None => Err(DataUnbound)
    case Some(body) => if PresenceStatusKey in body then Ok(body[PresenceStatusKey]) else Err(StatusMissing)
  }

  /** A refresh is due once the clock reaches the token's deadline. */
  predicate RefreshDue(now: int, uat: UserAccessToken)
    reads uat
    requires uat.Valid()
  {
    now >= uat.RefreshAt()
  }

  /**
   * For a token whose deadline was filled in at `issuedAt`, the refresh falls due exactly
   * 300 seconds before expiry, so a token that is not due has more than 300 seconds left;
   * and once due, it stays due until it is replaced.
   */
  lemma RefreshDueTiming(uat: UserAccessToken, issuedAt: int, now: int, later: int)
    requires uat.Valid() && uat.RefreshAt() == issuedAt + uat.expiresIn - RefreshMargin
    ensures RefreshDue(now, uat) <==> now + RefreshMargin >= issuedAt + uat.expiresIn
    ensures !RefreshDue(now, uat) ==> now + RefreshMargin < issuedAt + uat.expiresIn
    ensures RefreshDue(now, uat) && now <= later ==> RefreshDue(later, uat)
  {
  }

  /** The body read after a run of polls. */
  function DataAfter(data: Option<PollBody>, polls: seq<Poll>): Option<PollBody>
    decreases |polls|
  {
    if polls == [] then data else DataAfter(NextData(data, polls[0]), polls[1..])
  }

  /** Independent description of that body: the body of the last poll that did not raise,
      or the starting one when every poll raised. */
  function LastFetched(data: Option<PollBody>, polls: seq<Poll>): Option<PollBody>
    decreases |polls|
  {
    if polls == [] then data
    else if polls[|polls| - 1].Fetched? then Some(polls[|polls| - 1].body)
    else LastFetched(data, polls[..|polls| - 1])
  }

  lemma {:induction false} DataAfterSnoc(data: Option<PollBody>, polls: seq<Poll>, p: Poll)
    ensures DataAfter(data, polls + [p]) == NextData(DataAfter(data, polls), p)
    decreases |polls|
  {
    if polls != [] {
      assert (polls + [p])[1..] == polls[1..] + [p];
      DataAfterSnoc(NextData(data, polls[0]), polls[1..], p);
    }
  }

  /** A poll that raises leaves the body of the last successful poll in place. */
  lemma {:induction false} DataIsLastFetched(data: Option<PollBody>, polls: seq<Poll>)
    ensures DataAfter(data, polls) == LastFetched(data, polls)
    decreases |polls|
  {
    if polls != [] {
      var init, last := polls[..|polls| - 1], polls[|polls| - 1];
      assert polls == init + [last];
      DataAfterSnoc(data, init, last);
      DataIsLastFetched(data, init);
    }
  }

  /** Starting with `data` unassigned, reading the status raises NameError exactly when every
      poll so far has raised. */
  lemma {:induction false} UnboundWhileEveryPollRaised(polls: seq<Poll>)
    ensures ReadStatus(DataAfter(None, polls)) == Err(DataUnbound)
        <==> forall i :: 0 <= i < |polls| ==> polls[i].PollRaised?
    decreases |polls|
  {
    DataIsLastFetched(None, polls);
    if polls != [] {
      var init := polls[..|polls| - 1];
      UnboundWhileEveryPollRaised(init);
      DataIsLastFetched(None, init);
      assert forall i :: 0 <= i < |init| ==> init[i] == polls[i];
    }
  }

  /** The variables of the polling loop. */
  class Loop {
    const config: Config
    var uat: UserAccessToken
    var data: Option<PollBody>     // last body fetched; None while `data` is unassigned
    var knownState: Status         // last status recorded

    ghost predicate Valid()
      reads this, uat
    {
      uat.Valid()
    }

    /** The loop starts with the startup token, no poll body and no recorded status. */
    constructor(config: Config, uat: UserAccessToken)
      requires uat.Valid()
      ensures Valid()
      ensures this.config == config && this.uat == uat
      ensures data == None && knownState == None
    {
      this.config := config;
      this.uat := uat;
      data := None;
      knownState := None;
    }

    /**
     * One iteration of the loop. `refreshed` is the result of the refresh exchange (None
     * where it raised), used only when a refresh is due; `poll` is the presence poll;
     * `publishRaises` says whether the broker's publish call raised.
     */
    method Step(now: int, refreshed: Option<UserAccessToken>, poll: Poll, publishRaises: bool) returns (t: Trace)
      requires Valid()
      requires refreshed.Some? ==> refreshed.value.Valid()
      modifies this
      ensures Valid()
      ensures t.refreshWith == if RefreshDue(now, old(uat)) then Some(old(uat).refreshToken) else None
      // A refresh that raises stops the process before the poll; nothing else changes.
      ensures RefreshDue(now, old(uat)) && refreshed.None? ==>
        t.error == Some(RefreshRejected) && t.pollBearer == None && t.publish == None
        && uat == old(uat) && data == old(data) && knownState == old(knownState)
      // Otherwise the refreshed token replaces the held one wholesale before the poll.
      ensures !(RefreshDue(now, old(uat)) && refreshed.None?) ==>
        uat == (if RefreshDue(now, old(uat)) then refreshed.value else old(uat))
        && t.pollBearer == Some(uat.accessToken)
        && data == NextData(old(data), poll)
        && match ReadStatus(data)
           case Err(e) => t.error == Some(e) && t.publish == None && knownState == old(knownState)
           case Ok(status) =>
             t.error == None
             && t.publish == Decide(config, old(knownState), status)
             && knownState == NextKnown(old(knownState), Observation(status, publishRaises))
    {
      var refreshWith: Option<string> := None;
      if now >= uat.refreshAtTs.value {
        refreshWith := Some(uat.refreshToken);
        if refreshed.None? {
          return Trace(refreshWith, None, None, Some(RefreshRejected));
        }
        uat := refreshed.value;
      }
      var bearer := uat.accessToken;
      if poll.Fetched? {
        data := Some(poll.body);
      }
      if data.None? {
        return Trace(refreshWith, Some(bearer), None, Some(DataUnbound));
      }
      if PresenceStatusKey !in data.value {
        return Trace(refreshWith, Some(bearer), None, Some(StatusMissing));
      }
      var status := data.value[PresenceStatusKey];
      var publish: Option<Publish> := None;
      if status != knownState {
        if status == Some(DoNotDisturb) {
          publish := Some(Publish(config.mqttPublishTo, config.mqttMessageEnter, true));
        } else {
          publish := Some(Publish(config.mqttPublishTo, config.mqttMessageLeave, true));
        }
        if !publishRaises {
          knownState := status;
        }
      }
      t := Trace(refreshWith, Some(bearer), publish, None);
    }
  }
}
