/**
 * The records of the bridge: its settings, the OAuth user access token and the
 * presence-state enumeration.
 */
module Model {
  import opened Wrappers

  const DefaultMqttPort: int := 1883
  const DefaultMqttTimeout: int := 60
  /** A resync interval of 0 means "no resync"; nothing in the loop reads it. */
  const DefaultResyncInterval: int := 0
  const DefaultQos: int := 1

  /** Settings read once at startup. The optional fields keep their `Optional` typing. */
  datatype Config = Config(
    clientId: string,
    clientSecret: string,
    redirectUri: string,
    mqttHost: string,
    userEmail: string,
    mqttPublishTo: string,
    mqttMessageEnter: string,
    mqttMessageLeave: string,
    userCode: Option<string>,
    mqttPort: Option<int>,
    mqttTimeout: Option<int>,
    resyncInterval: Option<int>,
    qos: Option<int>)

  /** A configuration that gives only the required fields: every optional field takes its default. */
  function NewConfig(
    clientId: string, clientSecret: string, redirectUri: string, mqttHost: string,
    userEmail: string, mqttPublishTo: string, mqttMessageEnter: string, mqttMessageLeave: string): (c: Config)
    ensures c.clientId == clientId && c.clientSecret == clientSecret && c.redirectUri == redirectUri
    ensures c.mqttHost == mqttHost && c.userEmail == userEmail && c.mqttPublishTo == mqttPublishTo
    ensures c.mqttMessageEnter == mqttMessageEnter && c.mqttMessageLeave == mqttMessageLeave
    ensures c.userCode == None
    ensures c.mqttPort == Some(1883) && c.mqttTimeout == Some(60)
    ensures c.resyncInterval == Some(0) && c.qos == Some(1)
  {
    Config(clientId, clientSecret, redirectUri, mqttHost, userEmail, mqttPublishTo,
           mqttMessageEnter, mqttMessageLeave,
           None, Some(DefaultMqttPort), Some(DefaultMqttTimeout), Some(DefaultResyncInterval), Some(DefaultQos))
  }

  /** Seconds between the refresh deadline and the token's expiry. */
  const RefreshMargin: int := 300

  /** Python truthiness of an optional integer: None and 0 are false. */
  predicate Truthy(v: Option<int>)
  {
    v.Some? && v.value != 0
  }

  /**
   * An OAuth user access token as returned by the token endpoint or read back from
   * the credential cache. Building one fills in a missing refresh deadline in place.
   */
  class UserAccessToken {
    var accessToken: string
    var tokenType: string
    var refreshToken: string
    var expiresIn: int
    var scope: string
    var refreshAtTs: Option<int>

    /** After construction the refresh deadline is always present. */
    ghost predicate Valid()
      reads this
    {
      refreshAtTs.Some?
    }

    /** The refresh deadline, in whole seconds since the epoch. */
    function RefreshAt(): int
      reads this
      requires Valid()
    {
      refreshAtTs.value
    }

    /**
     * Stores the fields as given; then, when the supplied deadline is falsy (None or 0),
     * replaces it by `now + expiresIn - 300`, so that the token is refreshed five minutes
     * before it expires. A truthy supplied deadline is kept as it is. `now` is the
     * wall-clock time at construction in whole seconds.
     */
    constructor(accessToken: string, tokenType: string, refreshToken: string, expiresIn: int,
                scope: string, refreshAtTs: Option<int>, now: int)
      ensures Valid()
      ensures this.accessToken == accessToken && this.tokenType == tokenType
      ensures this.refreshToken == refreshToken && this.expiresIn == expiresIn && this.scope == scope
      ensures Truthy(refreshAtTs) ==> this.refreshAtTs == refreshAtTs
      ensures !Truthy(refreshAtTs) ==> this.refreshAtTs == Some(now + expiresIn - RefreshMargin)
      ensures !Truthy(refreshAtTs) ==> RefreshAt() + RefreshMargin == now + expiresIn
    {
      this.accessToken := accessToken;
      this.tokenType := tokenType;
      this.refreshToken := refreshToken;
      this.expiresIn := expiresIn;
      this.scope := scope;
      this.refreshAtTs := refreshAtTs;
      new;
      if !Truthy(this.refreshAtTs) {
        this.refreshAtTs := Some(now + this.expiresIn - RefreshMargin);
      }
    }
  }

  /** The presence states the repository declares; the loop itself never uses them. */
  datatype KnownState = Unknown | OnCall | OffCall
  {
    /** The enumeration value: UNKNOWN = 0, ON_CALL = 1, OFF_CALL = 2. */
    function Value(): (v: nat)
      ensures v < 3
      ensures this == Unknown <==> v == 0
      ensures this == OnCall <==> v == 1
      ensures this == OffCall <==> v == 2
    {
      match this
      case Unknown => 0
      case OnCall => 1
      case OffCall => 2
    }
  }

  /** Lookup by value, `KnownState(v)`: None where Python raises ValueError. */
  function KnownStateOf(v: int): (r: Option<KnownState>)
    ensures r.Some? <==> 0 <= v < 3
    ensures r.Some? ==> r.value.Value() == v
  {
    if v == 0 then Some(Unknown)
    else if v == 1 then Some(OnCall)
    else if v == 2 then Some(OffCall)
    else None
  }

  /** The three members have distinct values, and lookup by value finds each member. */
  lemma KnownStateValues(k: KnownState, m: KnownState)
    ensures k.Value() == m.Value() ==> k == m
    ensures KnownStateOf(k.Value()) == Some(k)
  {
  }
}
