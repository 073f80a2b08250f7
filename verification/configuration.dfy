/** The monitor's configuration records and their validation (DomainToCheck.cs and
    PingRConfiguration.cs). Validation either returns `true` or throws a
    `ConfigurationException`; a throw is an `Err` here. */
module Configuration {
  import opened Wrappers
  import opened Text
  import opened ObjectExtensions

  /** The C# `int` of the millisecond settings. */
  newtype int32 = x: int | -0x8000_0000 <= x < 0x8000_0000

  /** One domain to probe. The last two fields are the certificate-expiry policy:
      the minimum time between two expiry evaluations (`TimeSpan` ticks) and the
      time of the last evaluation (`DateTimeOffset` ticks). */
  datatype DomainToCheck = DomainToCheck(
    domain: string,
    logMessage: string,
    instanceKey: string,
    checkCertificateExpiry: bool,
    certificateExpiryCheckInterval: int,
    lastCertificateExpiryCheckTimestamp: int)

  /** The whole configuration; a `null` domain list is `None`. */
  datatype PingRConfiguration = PingRConfiguration(
    domainsToCheck: Option<seq<DomainToCheck>>,
    serviceDelayInMilliSeconds: int32,
    heartbeatIntervalInMilliSeconds: int32,
    telegramBotToken: string,
    telegramChatId: string)

  datatype ConfigurationException = ConfigurationException(message: string)

  const DomainEmpty := "The domain is empty."
  const LogMessageEmpty := "The log message is empty."
  const InstanceKeyEmpty := "The instance key is empty."
  const DomainsEmpty := "The domains to check are empty."
  const AtLeastOneDomainInvalid := "At least one domain is invalid."
  const ServiceDelayInvalid := "The service delay is invalid."
  const HeartbeatIntervalInvalid := "The heartbeat interval is invalid."
  const BotTokenNotSet := "The Telegram bot token is not set."
  const ChatIdNotSet := "The Telegram chat identifier is not set."

  const DefaultServiceDelayInMilliSeconds: int32 := 3000
  const DefaultHeartbeatIntervalInMilliSeconds: int32 := 30000

  /** A configuration as constructed before binding: no domains, the default
      delays and empty Telegram settings. */
  function DefaultConfiguration(): (defaults: PingRConfiguration)
  {
    PingRConfiguration(Some([]), DefaultServiceDelayInMilliSeconds,
                       DefaultHeartbeatIntervalInMilliSeconds, "", "")
  }

  /** The reference notion of a usable domain: all three strings carry text. */
  predicate DomainFieldsSet(d: DomainToCheck)
  {
    !IsNullOrWhiteSpace(d.domain) && !IsNullOrWhiteSpace(d.logMessage) && !IsNullOrWhiteSpace(d.instanceKey)
  }

  /** The reference notion of a usable configuration. */
  predicate ConfigurationComplete(c: PingRConfiguration)
  {
    && c.domainsToCheck.Some?
    && |c.domainsToCheck.value| > 0
    && (forall i :: 0 <= i < |c.domainsToCheck.value| ==> DomainFieldsSet(c.domainsToCheck.value[i]))
    && c.serviceDelayInMilliSeconds > 0
    && c.heartbeatIntervalInMilliSeconds > 0
    && !IsNullOrWhiteSpace(c.telegramBotToken)
    && !IsNullOrWhiteSpace(c.telegramChatId)
  }

  function Fail(message: string): (r: Result<bool, ConfigurationException>)
  {
    Err(ConfigurationException(message))
  }

  /** `DomainToCheck.IsValid`: checks domain, log message and instance key in that
      order; the first blank one decides the message. The expiry flag and fields
      play no part. */
  function DomainIsValid(d: DomainToCheck): (r: Result<bool, ConfigurationException>)
    ensures r.Ok? ==> r.value
    ensures r.Ok? <==> DomainFieldsSet(d)
    ensures r == Fail(DomainEmpty) <==> IsNullOrWhiteSpace(d.domain)
    ensures r == Fail(LogMessageEmpty) <==> !IsNullOrWhiteSpace(d.domain) && IsNullOrWhiteSpace(d.logMessage)
    ensures r == Fail(InstanceKeyEmpty) <==>
              !IsNullOrWhiteSpace(d.domain) && !IsNullOrWhiteSpace(d.logMessage) && IsNullOrWhiteSpace(d.instanceKey)
  {
    if IsNullOrWhiteSpace(d.domain) then Fail(DomainEmpty)
    else if IsNullOrWhiteSpace(d.logMessage) then Fail(LogMessageEmpty)
    else if IsNullOrWhiteSpace(d.instanceKey) then Fail(InstanceKeyEmpty)
    else Ok(true)
  }

  /** `DomainsToCheck.Any(d => !d.IsValid())`: calls `IsValid` on the domains in
      list order, and the first one that throws ends the scan with its exception.
      Since `IsValid` never returns false, the scan never finds an invalid domain. */
  function AnyInvalid(domains: seq<DomainToCheck>): (r: Result<bool, ConfigurationException>)
    ensures r.Ok? ==> !r.value
    ensures r.Ok? <==> forall i :: 0 <= i < |domains| ==> DomainFieldsSet(domains[i])
    ensures r.Err? ==> exists i :: 0 <= i < |domains| && FirstInvalidAt(domains, i) && r == DomainIsValid(domains[i])
  {
    if |domains| == 0 then Ok(false)
    else match DomainIsValid(domains[0])
      case Err(e) =>
        assert FirstInvalidAt(domains, 0);
        Err(e)
      case Ok(valid) =>
        if !valid then Ok(true)
        else
          var rest := AnyInvalid(domains[1..]);
          assert forall i :: 1 <= i < |domains| ==> domains[i] == domains[1..][i - 1];
          assert rest.Err? ==> exists i :: 1 <= i < |domains| && FirstInvalidAt(domains, i) && rest == DomainIsValid(domains[i]) by {
            if rest.Err? {
              var k :| 0 <= k < |domains[1..]| && FirstInvalidAt(domains[1..], k) && rest == DomainIsValid(domains[1..][k]);
              assert FirstInvalidAt(domains, k + 1);
            }
          }
          rest
  }

  /** Index `i` holds the first domain in the list whose fields are not all set. */
  predicate FirstInvalidAt(domains: seq<DomainToCheck>, i: int)
  {
    && 0 <= i < |domains|
    && !DomainFieldsSet(domains[i])
    && forall j :: 0 <= j < i ==> DomainFieldsSet(domains[j])
  }

  /** `PingRConfiguration.IsValid`: the domain list, then every domain, then the
      two intervals, then the two Telegram settings; the first failing check
      throws. */
  function IsValid(c: PingRConfiguration): (r: Result<bool, ConfigurationException>)
    ensures r.Ok? ==> r.value
    ensures r.Ok? <==> ConfigurationComplete(c)
    ensures r != Fail(AtLeastOneDomainInvalid)
  {
    if IsEmptyOrNull(c.domainsToCheck) then Fail(DomainsEmpty)
    else match AnyInvalid(c.domainsToCheck.value)
      case Err(e) => Err(e)
      case Ok(anyInvalid) =>
        if anyInvalid then Fail(AtLeastOneDomainInvalid)
        else if c.serviceDelayInMilliSeconds <= 0 then Fail(ServiceDelayInvalid)
        else if c.heartbeatIntervalInMilliSeconds <= 0 then Fail(HeartbeatIntervalInvalid)
        else if IsNullOrWhiteSpace(c.telegramBotToken) then Fail(BotTokenNotSet)
        else if IsNullOrWhiteSpace(c.telegramChatId) then Fail(ChatIdNotSet)
        else Ok(true)
  }

  /** A null or empty domain list is reported first, whatever the other fields hold. */
  lemma EmptyDomainListReportedFirst(c: PingRConfiguration)
    requires c.domainsToCheck == None || c.domainsToCheck == Some([])
    ensures IsValid(c) == Fail(DomainsEmpty)
  {
  }

  /** The first incomplete domain's own message is the configuration's error. */
  lemma FirstInvalidDomainReported(c: PingRConfiguration, i: int)
    requires c.domainsToCheck.Some?
    requires FirstInvalidAt(c.domainsToCheck.value, i)
    ensures IsValid(c) == DomainIsValid(c.domainsToCheck.value[i])
    ensures IsValid(c).Err?
  {
    var domains := c.domainsToCheck.value;
    var r := AnyInvalid(domains);
    assert !DomainFieldsSet(domains[i]);
    var k :| 0 <= k < |domains| && FirstInvalidAt(domains, k) && r == DomainIsValid(domains[k]);
    assert k == i;
  }

  /** With every domain complete, each later check reports its own message exactly
      when it is the first one to fail. */
  lemma LaterChecksInOrder(c: PingRConfiguration)
    requires c.domainsToCheck.Some? && |c.domainsToCheck.value| > 0
    requires forall i :: 0 <= i < |c.domainsToCheck.value| ==> DomainFieldsSet(c.domainsToCheck.value[i])
    ensures IsValid(c) == Fail(ServiceDelayInvalid) <==> c.serviceDelayInMilliSeconds <= 0
    ensures IsValid(c) == Fail(HeartbeatIntervalInvalid) <==>
              c.serviceDelayInMilliSeconds > 0 && c.heartbeatIntervalInMilliSeconds <= 0
    ensures IsValid(c) == Fail(BotTokenNotSet) <==>
              c.serviceDelayInMilliSeconds > 0 && c.heartbeatIntervalInMilliSeconds > 0
              && IsNullOrWhiteSpace(c.telegramBotToken)
    ensures IsValid(c) == Fail(ChatIdNotSet) <==>
              c.serviceDelayInMilliSeconds > 0 && c.heartbeatIntervalInMilliSeconds > 0
              && !IsNullOrWhiteSpace(c.telegramBotToken) && IsNullOrWhiteSpace(c.telegramChatId)
  {
    assert AnyInvalid(c.domainsToCheck.value) == Ok(false);
  }

  /** The default delays pass both interval checks: a default configuration is
      accepted once it names complete domains and both Telegram settings, and
      as constructed (no domains) it is rejected for its empty domain list. */
  lemma DefaultIntervalsAccepted(domains: seq<DomainToCheck>, botToken: string, chatId: string)
    requires |domains| > 0 && forall i :: 0 <= i < |domains| ==> DomainFieldsSet(domains[i])
    requires !IsNullOrWhiteSpace(botToken) && !IsNullOrWhiteSpace(chatId)
    ensures IsValid(DefaultConfiguration().(domainsToCheck := Some(domains),
                                            telegramBotToken := botToken,
                                            telegramChatId := chatId)) == Ok(true)
    ensures IsValid(DefaultConfiguration()) == Fail(DomainsEmpty)
  {
  }
}
