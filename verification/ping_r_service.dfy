/** The monitor's decision logic (PingRService.cs): the certificate-validation
    callback with its expiry throttle, the heartbeat gate, and one probe cycle.
    The clock is the parameter `now` (ticks); the transport's answers, the
    certificate and the memory readings are inputs; log events are outputs. */
module PingRService {
  import opened Wrappers
  import opened Text
  import opened Time
  import opened ObjectExtensions
  import opened Configuration
  import opened SystemGlobals
  import DateTimeExtensions
  import DateTimeOffsetExtensions

  /** The flags of `SslPolicyErrors`; `SslPolicyErrors.None` is the empty set. */
  datatype SslPolicyError =
    | RemoteCertificateNotAvailable
    | RemoteCertificateNameMismatch
    | RemoteCertificateChainErrors

  /** The parts of the peer certificate the callback reads. */
  datatype Certificate = Certificate(issuer: string, notAfter: int)

  datatype LogLevel = Information | Warning | Error

  /** The log events the monitor writes, one constructor per message template. */
  datatype LogEvent =
    | CycleStarted
    | CheckingDomain(domain: string, instanceKey: string)
    | DomainDown(logMessage: string, instanceKey: string)
    | DomainQueryFailed
    | CycleFinished
    | CertificateExpired(issuer: string, expiryDate: int)
    | CertificateAboutToExpire(issuer: string, expiryDate: int)
    | Heartbeat(serviceName: string, total: FormattedSize, heapSize: FormattedSize,
                memoryLoad: FormattedSize, uptime: int)

  function Level(e: LogEvent): (level: LogLevel)
  {
    match e
    case DomainDown(_, _) => Error
    case DomainQueryFailed => Error
    case CertificateExpired(_, _) => Error
    case CertificateAboutToExpire(_, _) => Warning
    case _ => Information
  }

  function EventList(event: Option<LogEvent>): (events: seq<LogEvent>)
  {
    match event
    case None => []
    case Some(e) => [e]
  }

  // ---------------------------------------------------------------------------
  // Certificate-expiry policy

  /** `TimeSpan.FromDays(30)`: a certificate closer than this to its end is reported. */
  const CertificateWarningWindow: int := FromDays(30)

  datatype ExpiryCheck = ExpiryCheck(event: Option<LogEvent>, domain: DomainToCheck)

  /** An expiry evaluation runs when the domain asks for it and strictly more than
      its interval has passed since the last evaluation. */
  predicate ExpiryCheckDue(d: DomainToCheck, now: int)
  {
    d.checkCertificateExpiry
    && DateTimeOffsetExtensions.IsExpired(d.lastCertificateExpiryCheckTimestamp, d.certificateExpiryCheckInterval, now)
  }

  /** The expiry part of the callback for a matched domain: when no evaluation is
      due nothing happens; otherwise the timestamp moves to `now` and the
      certificate is reported as expired (its end strictly before now), as about to
      expire (less than 30 days left), or not at all. */
  function EvaluateCertificate(d: DomainToCheck, certificate: Certificate, now: int): (r: ExpiryCheck)
    ensures !ExpiryCheckDue(d, now) ==> r == ExpiryCheck(None, d)
    ensures ExpiryCheckDue(d, now) ==> r.domain == d.(lastCertificateExpiryCheckTimestamp := now)
    ensures r.event == Some(CertificateExpired(certificate.issuer, certificate.notAfter)) <==>
              ExpiryCheckDue(d, now) && certificate.notAfter < now
    ensures r.event == Some(CertificateAboutToExpire(certificate.issuer, certificate.notAfter)) <==>
              ExpiryCheckDue(d, now) && now <= certificate.notAfter < now + CertificateWarningWindow
    ensures r.event.None? <==> !ExpiryCheckDue(d, now) || certificate.notAfter >= now + CertificateWarningWindow
    ensures r.event.Some? ==> IsCertificateReport(r.event.value)
  {
    if !d.checkCertificateExpiry then ExpiryCheck(None, d)
    else if !DateTimeOffsetExtensions.IsExpired(d.lastCertificateExpiryCheckTimestamp, d.certificateExpiryCheckInterval, now) then
      ExpiryCheck(None, d)
    else
      var stamped := d.(lastCertificateExpiryCheckTimestamp := now);
      if DateTimeExtensions.IsExpiredNow(certificate.notAfter, now) then
        ExpiryCheck(Some(CertificateExpired(certificate.issuer, certificate.notAfter)), stamped)
      else if certificate.notAfter - now < CertificateWarningWindow then
        ExpiryCheck(Some(CertificateAboutToExpire(certificate.issuer, certificate.notAfter)), stamped)
      else
        ExpiryCheck(None, stamped)
  }

  // ---------------------------------------------------------------------------
  // Connection validation

  /** Index `i` holds the first domain in list order whose instance key is `key`. */
  predicate FirstWithKey(domains: seq<DomainToCheck>, key: string, i: int)
  {
    && 0 <= i < |domains|
    && domains[i].instanceKey == key
    && forall j :: 0 <= j < i ==> domains[j].instanceKey != key
  }

  /** `FirstOrDefault(d => d.InstanceKey == key)`, as an index. */
  function FindDomain(domains: seq<DomainToCheck>, key: string): (found: Option<nat>)
    ensures found.Some? ==> FirstWithKey(domains, key, found.value)
    ensures found.None? <==> forall j :: 0 <= j < |domains| ==> domains[j].instanceKey != key
  {
    if |domains| == 0 then None
    else if domains[0].instanceKey == key then Some(0)
    else match FindDomain(domains[1..], key)
      case None => None
      case Some(i) => Some(i + 1)
  }

  /** The request addresses domain `i`: its first `DomainToken` value carries text
      and `i` is the first domain with that instance key. */
  predicate Addressed(domains: seq<DomainToCheck>, headerValues: seq<string>, i: int)
  {
    && |headerValues| > 0
    && !IsNullOrWhiteSpace(headerValues[0])
    && FirstWithKey(domains, headerValues[0], i)
  }

  datatype Validation = Validation(accept: bool, event: Option<LogEvent>, domains: seq<DomainToCheck>)

  /** `ValidateServerCertificate`. The verdict is always the transport's own:
      accept when there is no certificate or no policy error. Besides, when a
      certificate is present and the request addresses a configured domain, that
      one domain goes through the expiry policy; every other domain is untouched. */
  function ValidateServerCertificate(
    domains: seq<DomainToCheck>, headerValues: seq<string>,
    certificate: Option<Certificate>, sslErrors: set<SslPolicyError>, now: int): (r: Validation)
    ensures r.accept <==> certificate.None? || sslErrors == {}
    ensures SameIdentity(domains, r.domains)
    ensures r.event.Some? ==> IsCertificateReport(r.event.value)
  {
    var verdict := certificate.None? || sslErrors == {};
    if certificate.None? then Validation(verdict, None, domains)
    else if IsEmptyOrNull(Some(headerValues)) then Validation(verdict, None, domains)
    else
      var firstHeader := headerValues[0];
      if IsNullOrWhiteSpace(firstHeader) then Validation(verdict, None, domains)
      else match FindDomain(domains, firstHeader)
        case None => Validation(verdict, None, domains)
        case Some(i) =>
          var check := EvaluateCertificate(domains[i], certificate.value, now);
          Validation(verdict, check.event, domains[i := check.domain])
  }

  /** No certificate, no `DomainToken` value, a blank first value, or a first value
      that no instance key equals: the callback reports nothing and changes nothing. */
  lemma UnaddressedValidationIsSilent(
    domains: seq<DomainToCheck>, headerValues: seq<string>,
    certificate: Option<Certificate>, sslErrors: set<SslPolicyError>, now: int)
    requires certificate.None? || |headerValues| == 0 || IsNullOrWhiteSpace(headerValues[0])
             || (forall j :: 0 <= j < |domains| ==> domains[j].instanceKey != headerValues[0])
    ensures ValidateServerCertificate(domains, headerValues, certificate, sslErrors, now)
            == Validation(certificate.None? || sslErrors == {}, None, domains)
  {
  }

  /** Only the addressed domain, the first whose instance key equals the first
      `DomainToken` value, can change, and it changes exactly as the expiry policy
      says; the report is the policy's report. */
  lemma ValidationTouchesOnlyAddressedDomain(
    domains: seq<DomainToCheck>, headerValues: seq<string>,
    certificate: Option<Certificate>, sslErrors: set<SslPolicyError>, now: int)
    ensures var r := ValidateServerCertificate(domains, headerValues, certificate, sslErrors, now);
            forall i :: 0 <= i < |domains| && !Addressed(domains, headerValues, i) ==> r.domains[i] == domains[i]
    ensures var r := ValidateServerCertificate(domains, headerValues, certificate, sslErrors, now);
            forall i :: Addressed(domains, headerValues, i) && certificate.Some? ==>
              var expected := EvaluateCertificate(domains[i], certificate.value, now);
              r.event == expected.event && r.domains[i] == expected.domain
  {
    var r := ValidateServerCertificate(domains, headerValues, certificate, sslErrors, now);
    if certificate.Some? && |headerValues| > 0 && !IsNullOrWhiteSpace(headerValues[0]) {
      var found := FindDomain(domains, headerValues[0]);
      if found.Some? {
        var k := found.value;
        forall i | Addressed(domains, headerValues, i)
          ensures i == k
        {
          assert FirstWithKey(domains, headerValues[0], k);
        }
      }
    }
  }

  /** The throttle: once an evaluation has run at `t0`, another handshake for the
      same domain up to and including `t0 + interval` reports nothing and changes
      nothing, whatever certificate and policy errors it brings. */
  lemma RepeatValidationWithinIntervalIsSilent(
    domains: seq<DomainToCheck>, headerValues: seq<string>, i: int,
    first: Certificate, second: Certificate, firstErrors: set<SslPolicyError>, secondErrors: set<SslPolicyError>,
    t0: int, t1: int)
    requires Addressed(domains, headerValues, i)
    requires ExpiryCheckDue(domains[i], t0)
    requires t1 <= t0 + domains[i].certificateExpiryCheckInterval
    ensures var r1 := ValidateServerCertificate(domains, headerValues, Some(first), firstErrors, t0);
            var r2 := ValidateServerCertificate(r1.domains, headerValues, Some(second), secondErrors, t1);
            r1.domains[i].lastCertificateExpiryCheckTimestamp == t0 && r2.event.None? && r2.domains == r1.domains
  {
    var r1 := ValidateServerCertificate(domains, headerValues, Some(first), firstErrors, t0);
    ValidationTouchesOnlyAddressedDomain(domains, headerValues, Some(first), firstErrors, t0);
    assert Addressed(r1.domains, headerValues, i) by {
      assert forall j :: 0 <= j < |domains| ==> r1.domains[j].instanceKey == domains[j].instanceKey;
    }
    assert r1.domains[i] == domains[i].(lastCertificateExpiryCheckTimestamp := t0);
    assert !ExpiryCheckDue(r1.domains[i], t1);
    var r2 := ValidateServerCertificate(r1.domains, headerValues, Some(second), secondErrors, t1);
    ValidationTouchesOnlyAddressedDomain(r1.domains, headerValues, Some(second), secondErrors, t1);
    assert r2.domains[i] == r1.domains[i];
    assert forall j :: 0 <= j < |r1.domains| ==> r2.domains[j] == r1.domains[j];
  }

  /** When the request addresses no domain, or the addressed domain does not check
      expiry, the callback is a pure verdict: no report and no change. */
  lemma UnmatchedOrDisabledIsSilent(
    domains: seq<DomainToCheck>, headerValues: seq<string>,
    certificate: Option<Certificate>, sslErrors: set<SslPolicyError>, now: int)
    requires forall i :: Addressed(domains, headerValues, i) ==> !domains[i].checkCertificateExpiry
    ensures ValidateServerCertificate(domains, headerValues, certificate, sslErrors, now).event.None?
    ensures ValidateServerCertificate(domains, headerValues, certificate, sslErrors, now).domains == domains
  {
    var r := ValidateServerCertificate(domains, headerValues, certificate, sslErrors, now);
    ValidationTouchesOnlyAddressedDomain(domains, headerValues, certificate, sslErrors, now);
    assert forall j :: 0 <= j < |domains| ==> r.domains[j] == domains[j];
    if certificate.Some? && |headerValues| > 0 && !IsNullOrWhiteSpace(headerValues[0]) {
      var found := FindDomain(domains, headerValues[0]);
      if found.Some? {
        assert Addressed(domains, headerValues, found.value);
      }
    }
  }

  /** The boundaries of the expiry classification: a certificate ending exactly now
      is not yet expired (it is about to expire), and one ending exactly 30 days
      from now is not reported. */
  lemma ExpiryBoundaries(d: DomainToCheck, issuer: string, now: int)
    requires ExpiryCheckDue(d, now)
    ensures EvaluateCertificate(d, Certificate(issuer, now), now).event == Some(CertificateAboutToExpire(issuer, now))
    ensures EvaluateCertificate(d, Certificate(issuer, now - 1), now).event == Some(CertificateExpired(issuer, now - 1))
    ensures EvaluateCertificate(d, Certificate(issuer, now + CertificateWarningWindow), now).event == None
    ensures EvaluateCertificate(d, Certificate(issuer, now + CertificateWarningWindow - 1), now).event
            == Some(CertificateAboutToExpire(issuer, now + CertificateWarningWindow - 1))
  {
  }

  /** A domain checked every hour, last checked two hours ago, whose certificate
      ends in ten days: one warning, and the timestamp becomes now. */
  lemma ExpiringSoonScenario(now: int)
    ensures var hour := FromMilliseconds(60 * 60 * 1000);
            var d := DomainToCheck("https://good.example", "good.example down", "k1", true, hour, now - 2 * hour);
            var cert := Certificate("Example CA", now + FromDays(10));
            var r := ValidateServerCertificate([d], ["k1"], Some(cert), {}, now);
            r == Validation(true, Some(CertificateAboutToExpire("Example CA", now + FromDays(10))),
                            [d.(lastCertificateExpiryCheckTimestamp := now)])
  {
    var hour := FromMilliseconds(60 * 60 * 1000);
    var d := DomainToCheck("https://good.example", "good.example down", "k1", true, hour, now - 2 * hour);
    assert Addressed([d], ["k1"], 0);
  }

  // ---------------------------------------------------------------------------
  // Heartbeat

  /** What the runtime reports when a heartbeat is written. */
  datatype MemoryReadings = MemoryReadings(totalMemory: int64, heapSizeBytes: int64, memoryLoadBytes: int64, uptime: int)

  datatype HeartbeatGate = HeartbeatGate(event: Option<LogEvent>, lastHeartbeatAt: int)

  function HeartbeatEvent(serviceName: string, readings: MemoryReadings): (event: LogEvent)
  {
    Heartbeat(serviceName,
              GetValueWithUnitByteSize(readings.totalMemory),
              GetValueWithUnitByteSize(readings.heapSizeBytes),
              GetValueWithUnitByteSize(readings.memoryLoadBytes),
              readings.uptime)
  }

  /** The private `LogMemoryInformation(string)`: the heartbeat line names the
      service and its uptime, and formats the three memory readings with the
      one-argument size overload, so each stays in bytes exactly when it is at
      most 1024 and is otherwise rounded to two decimals. */
  lemma HeartbeatFormatsThreeSizes(serviceName: string, readings: MemoryReadings)
    ensures var e := HeartbeatEvent(serviceName, readings);
            && e.Heartbeat? && e.serviceName == serviceName && e.uptime == readings.uptime
            && (e.total.Unscaled? <==> readings.totalMemory as int <= KiloBytesDivider)
            && (e.heapSize.Unscaled? <==> readings.heapSizeBytes as int <= KiloBytesDivider)
            && (e.memoryLoad.Unscaled? <==> readings.memoryLoadBytes as int <= KiloBytesDivider)
            && (e.total.Scaled? ==> e.total.allowedDecimals == 2)
            && (e.heapSize.Scaled? ==> e.heapSize.allowedDecimals == 2)
            && (e.memoryLoad.Scaled? ==> e.memoryLoad.allowedDecimals == 2)
  {
  }

  /** `LogMemoryInformation(int, string)`: a one-timestamp rate limiter. It writes
      the heartbeat exactly when strictly more than the interval has passed since
      the last one, and then remembers `now`; otherwise nothing changes. */
  function LogMemoryInformation(
    lastHeartbeatAt: int, heartbeatIntervalInMilliSeconds: int32, serviceName: string,
    readings: MemoryReadings, now: int): (r: HeartbeatGate)
    ensures r.event.Some? <==> now - lastHeartbeatAt > heartbeatIntervalInMilliSeconds as int * TicksPerMillisecond
    ensures r.event.Some? ==> r.lastHeartbeatAt == now && r.event.value == HeartbeatEvent(serviceName, readings)
    ensures r.event.None? ==> r.lastHeartbeatAt == lastHeartbeatAt
  {
    if DateTimeOffsetExtensions.IsExpired(lastHeartbeatAt, FromMilliseconds(heartbeatIntervalInMilliSeconds as int), now) then
      HeartbeatGate(Some(HeartbeatEvent(serviceName, readings)), now)
    else
      HeartbeatGate(None, lastHeartbeatAt)
  }

  /** Right after a heartbeat, none follows until strictly more than the interval
      has passed; in particular a second call at the same instant is silent. */
  lemma HeartbeatSilentWithinInterval(
    lastHeartbeatAt: int, interval: int32, serviceName: string,
    first: MemoryReadings, second: MemoryReadings, now: int, later: int)
    requires interval >= 0
    requires now <= later <= now + interval as int * TicksPerMillisecond
    ensures var r1 := LogMemoryInformation(lastHeartbeatAt, interval, serviceName, first, now);
            var r2 := LogMemoryInformation(r1.lastHeartbeatAt, interval, serviceName, second, now);
            r2.event.None? && r2 == HeartbeatGate(None, r1.lastHeartbeatAt)
    ensures var r1 := LogMemoryInformation(lastHeartbeatAt, interval, serviceName, first, now);
            r1.event.Some? ==> LogMemoryInformation(r1.lastHeartbeatAt, interval, serviceName, second, later).event.None?
  {
  }

  // ---------------------------------------------------------------------------
  // Probe cycle

  /** How `SendAsync` ended: a response with a success or other status code, a
      `null` response, or an exception (also one thrown while building the request). */
  datatype HttpResult = SuccessStatus | NonSuccessStatus | NullResponse | Thrown

  /** A TLS handshake on the request's connection, with what the transport saw. */
  datatype Handshake = Handshake(certificate: Option<Certificate>, sslErrors: set<SslPolicyError>)

  /** Everything the network contributes to one probe: the handshake, if the
      request opened a new TLS connection, the time the callback ran, and the
      result of the request when the handshake is accepted. */
  datatype Exchange = Exchange(handshake: Option<Handshake>, at: int, result: HttpResult)

  datatype Step = Step(events: seq<LogEvent>, domains: seq<DomainToCheck>)

  /** Two domain lists differ at most in the expiry timestamps. */
  predicate SameIdentity(a: seq<DomainToCheck>, b: seq<DomainToCheck>)
  {
    && |a| == |b|
    && forall i :: 0 <= i < |a| ==>
         b[i] == a[i].(lastCertificateExpiryCheckTimestamp := b[i].lastCertificateExpiryCheckTimestamp)
  }

  predicate IsProbeOutcome(e: LogEvent)
  {
    e.DomainDown? || e.DomainQueryFailed?
  }

  predicate IsDomainCheck(e: LogEvent)
  {
    e.CheckingDomain?
  }

  predicate IsError(e: LogEvent)
  {
    Level(e) == Error
  }

  /** The kinds of event a trace is searched for. */
  datatype EventClass = ProbeOutcomes | DomainChecks | ChecksAndOutcomes | Errors

  predicate InClass(keep: EventClass, e: LogEvent)
  {
    match keep
    case ProbeOutcomes => IsProbeOutcome(e)
    case DomainChecks => IsDomainCheck(e)
    case ChecksAndOutcomes => IsDomainCheck(e) || IsProbeOutcome(e)
    case Errors => IsError(e)
  }

  /** The events of a trace in class `keep`, in order. */
  function Filter(events: seq<LogEvent>, keep: EventClass): (kept: seq<LogEvent>)
  {
    if |events| == 0 then []
    else (if InClass(keep, events[0]) then [events[0]] else []) + Filter(events[1..], keep)
  }

  lemma {:induction false} FilterAppend(a: seq<LogEvent>, b: seq<LogEvent>, keep: EventClass)
    ensures Filter(a + b, keep) == Filter(a, keep) + Filter(b, keep)
    decreases |a|
  {
    if |a| == 0 {
      assert a + b == b;
    } else {
      var head := if InClass(keep, a[0]) then [a[0]] else [];
      assert (a + b)[0] == a[0];
      assert (a + b)[1..] == a[1..] + b;
      FilterAppend(a[1..], b, keep);
      calc {
        Filter(a + b, keep);
        head + Filter(a[1..] + b, keep);
        head + (Filter(a[1..], keep) + Filter(b, keep));
        (head + Filter(a[1..], keep)) + Filter(b, keep);
        Filter(a, keep) + Filter(b, keep);
      }
    }
  }

  /** The outcome of the request once the connection stands: a non-success status
      reports the domain's own log message, an exception reports the failed
      query, and a success or a null response reports nothing. */
  function ResponseEvents(d: DomainToCheck, result: HttpResult): (outcome: seq<LogEvent>)
  {
    match result
    case SuccessStatus => []
    case NullResponse => []
    case NonSuccessStatus => [DomainDown(d.logMessage, d.instanceKey)]
    case Thrown => [DomainQueryFailed]
  }

  /** The transport refuses the connection: a certificate came with policy errors. */
  predicate Rejected(h: Handshake)
  {
    h.certificate.Some? && h.sslErrors != {}
  }

  /** The reference classification of one probe, independent of any timestamp: a
      rejected handshake makes the request throw; otherwise the response decides. */
  function ExpectedOutcome(d: DomainToCheck, x: Exchange): (outcome: seq<LogEvent>)
  {
    if x.handshake.Some? && Rejected(x.handshake.value) then [DomainQueryFailed]
    else ResponseEvents(d, x.result)
  }

  /** The probe's handshake reaches the expiry policy: it brings a certificate and
      the `DomainToken` value, the instance key, carries text. */
  predicate ExpiryPolicyRuns(key: string, x: Exchange)
  {
    x.handshake.Some? && x.handshake.value.certificate.Some? && !IsNullOrWhiteSpace(key)
  }

  /** The events a probe may write: its announcement, its outcome and
      certificate reports. */
  predicate IsProbeEvent(e: LogEvent)
  {
    IsDomainCheck(e) || IsProbeOutcome(e) || IsCertificateReport(e)
  }

  /** `after` is `before`, except that the first domain whose instance key is `key`
      may have its expiry timestamp set to `t`. */
  predicate OnlyStamped(before: seq<DomainToCheck>, after: seq<DomainToCheck>, key: string, t: int)
  {
    && |before| == |after|
    && forall j :: 0 <= j < |before| ==>
         after[j] == before[j]
         || (FirstWithKey(before, key, j) && after[j] == before[j].(lastCertificateExpiryCheckTimestamp := t))
  }

  /** `after` is `before`, except that a domain may have its expiry timestamp set to
      the time of a probe from index `i` on whose instance key first occurs at it. */
  predicate StampedByProbes(before: seq<DomainToCheck>, after: seq<DomainToCheck>, exchanges: seq<Exchange>, i: nat)
    requires |exchanges| == |before|
  {
    && |before| == |after|
    && forall j :: 0 <= j < |before| ==>
         after[j] == before[j]
         || exists k :: i <= k < |before| && FirstWithKey(before, before[k].instanceKey, j)
                        && after[j] == before[j].(lastCertificateExpiryCheckTimestamp := exchanges[k].at)
  }

  /** Validation changes at most the addressed domain, and only its timestamp,
      which becomes `now`. */
  lemma ValidationOnlyStamps(
    domains: seq<DomainToCheck>, key: string,
    certificate: Option<Certificate>, sslErrors: set<SslPolicyError>, now: int)
    ensures OnlyStamped(domains, ValidateServerCertificate(domains, [key], certificate, sslErrors, now).domains, key, now)
  {
    var r := ValidateServerCertificate(domains, [key], certificate, sslErrors, now);
    ValidationTouchesOnlyAddressedDomain(domains, [key], certificate, sslErrors, now);
    forall j | 0 <= j < |domains|
      ensures r.domains[j] == domains[j]
              || (FirstWithKey(domains, key, j) && r.domains[j] == domains[j].(lastCertificateExpiryCheckTimestamp := now))
    {
      if Addressed(domains, [key], j) && certificate.Some? {
        var c := EvaluateCertificate(domains[j], certificate.value, now);
        assert r.domains[j] == c.domain;
      }
    }
  }

  /** `PingDomain` for the domain at index `i`: announce the check, send the request
      carrying the instance key as the `DomainToken` header (running the
      validation callback if a handshake happens), and report the outcome. The
      announcement comes first; exactly the reference outcome is reported; any
      other event is a certificate report; and at most one domain changes, the
      first with the probed instance key, whose expiry timestamp may become the
      handshake's time. */
  function PingDomain(domains: seq<DomainToCheck>, i: nat, x: Exchange): (r: Step)
    requires i < |domains|
    ensures SameIdentity(domains, r.domains)
    ensures |r.events| > 0 && r.events[0] == CheckingDomain(domains[i].domain, domains[i].instanceKey)
    ensures Filter(r.events, ProbeOutcomes) == ExpectedOutcome(domains[i], x)
    ensures Filter(r.events, DomainChecks) == [CheckingDomain(domains[i].domain, domains[i].instanceKey)]
    ensures Filter(r.events, ChecksAndOutcomes)
            == [CheckingDomain(domains[i].domain, domains[i].instanceKey)] + ExpectedOutcome(domains[i], x)
    ensures forall e :: e in r.events ==> IsProbeEvent(e)
    ensures OnlyStamped(domains, r.domains, domains[i].instanceKey, x.at)
  {
    var d := domains[i];
    var check := CheckingDomain(d.domain, d.instanceKey);
    match x.handshake
    case None =>
      ProbeEventsFiltered(check, [], ResponseEvents(d, x.result));
      ProbeEventsInterleaved(check, [], ResponseEvents(d, x.result));
      Step([check] + ([] + ResponseEvents(d, x.result)), domains)
    case Some(h) =>
      var v := ValidateServerCertificate(domains, [d.instanceKey], h.certificate, h.sslErrors, x.at);
      ValidationOnlyStamps(domains, d.instanceKey, h.certificate, h.sslErrors, x.at);
      var outcome := if v.accept then ResponseEvents(d, x.result) else [DomainQueryFailed];
      ProbeEventsFiltered(check, EventList(v.event), outcome);
      ProbeEventsInterleaved(check, EventList(v.event), outcome);
      Step([check] + (EventList(v.event) + outcome), v.domains)
  }

  predicate IsCertificateReport(e: LogEvent)
  {
    e.CertificateExpired? || e.CertificateAboutToExpire?
  }

  /** What one probe does beyond its announcement and outcome. Unless its handshake
      brings a certificate and the instance key carries text, it changes no domain
      and writes nothing else. Otherwise the first domain with that instance key
      (the probed one, or an earlier one sharing its key) goes through the expiry
      policy at the handshake's time: the list and the report between announcement
      and outcome are exactly the policy's. */
  lemma ProbeValidatesAddressedDomain(domains: seq<DomainToCheck>, i: nat, x: Exchange)
    requires i < |domains|
    ensures var r := PingDomain(domains, i, x);
            var check := CheckingDomain(domains[i].domain, domains[i].instanceKey);
            !ExpiryPolicyRuns(domains[i].instanceKey, x) ==>
              r == Step([check] + ExpectedOutcome(domains[i], x), domains)
    ensures var r := PingDomain(domains, i, x);
            var check := CheckingDomain(domains[i].domain, domains[i].instanceKey);
            forall j :: FirstWithKey(domains, domains[i].instanceKey, j) && ExpiryPolicyRuns(domains[i].instanceKey, x) ==>
              var c := EvaluateCertificate(domains[j], x.handshake.value.certificate.value, x.at);
              r == Step([check] + EventList(c.event) + ExpectedOutcome(domains[i], x), domains[j := c.domain])
  {
    var key := domains[i].instanceKey;
    var check := CheckingDomain(domains[i].domain, key);
    var r := PingDomain(domains, i, x);
    if ExpiryPolicyRuns(key, x) {
      var h := x.handshake.value;
      var found := FindDomain(domains, key);
      assert found.Some? by {
        assert domains[i].instanceKey == key;
      }
      var k := found.value;
      var c := EvaluateCertificate(domains[k], h.certificate.value, x.at);
      var v := ValidateServerCertificate(domains, [key], h.certificate, h.sslErrors, x.at);
      assert v == Validation(!Rejected(h), c.event, domains[k := c.domain]);
      assert r == Step([check] + EventList(c.event) + ExpectedOutcome(domains[i], x), domains[k := c.domain]);
      forall j | FirstWithKey(domains, key, j)
        ensures j == k
      {
      }
    } else if x.handshake.Some? {
      var h := x.handshake.value;
      var v := ValidateServerCertificate(domains, [key], h.certificate, h.sslErrors, x.at);
      assert v == Validation(!Rejected(h), None, domains);
    }
  }

  /** The trace of one probe is its announcement, the certificate reports, then the
      outcome; the filters pick out the announcement and the outcome. */
  lemma ProbeEventsFiltered(check: LogEvent, reports: seq<LogEvent>, outcome: seq<LogEvent>)
    requires check.CheckingDomain?
    requires forall e :: e in reports ==> IsCertificateReport(e)
    requires forall e :: e in outcome ==> IsProbeOutcome(e)
    ensures Filter([check] + (reports + outcome), ProbeOutcomes) == outcome
    ensures Filter([check] + (reports + outcome), DomainChecks) == [check]
  {
    FilterAppend([check], reports + outcome, ProbeOutcomes);
    FilterAppend([check], reports + outcome, DomainChecks);
    FilterAppend(reports, outcome, ProbeOutcomes);
    FilterAppend(reports, outcome, DomainChecks);
    FilterKeepsAll(outcome, ProbeOutcomes);
    FilterDropsAll(outcome, DomainChecks);
    FilterDropsAll(reports, ProbeOutcomes);
    FilterDropsAll(reports, DomainChecks);
    assert [check][1..] == [];
  }

  /** Together, the announcement and the outcome keep their order. */
  lemma ProbeEventsInterleaved(check: LogEvent, reports: seq<LogEvent>, outcome: seq<LogEvent>)
    requires check.CheckingDomain?
    requires forall e :: e in reports ==> IsCertificateReport(e)
    requires forall e :: e in outcome ==> IsProbeOutcome(e)
    ensures Filter([check] + (reports + outcome), ChecksAndOutcomes) == [check] + outcome
  {
    FilterKeepsAll(outcome, ChecksAndOutcomes);
    FilterDropsAll(reports, ChecksAndOutcomes);
    FilterAppend(reports, outcome, ChecksAndOutcomes);
    FilterKeepsAll([check], ChecksAndOutcomes);
    FilterAppend([check], reports + outcome, ChecksAndOutcomes);
  }

  lemma {:induction false} FilterKeepsAll(events: seq<LogEvent>, keep: EventClass)
    requires forall e :: e in events ==> InClass(keep, e)
    ensures Filter(events, keep) == events
    decreases |events|
  {
    if |events| > 0 {
      FilterKeepsAll(events[1..], keep);
    }
  }

  lemma {:induction false} FilterDropsAll(events: seq<LogEvent>, keep: EventClass)
    requires forall e :: e in events ==> !InClass(keep, e)
    ensures Filter(events, keep) == []
    decreases |events|
  {
    if |events| > 0 {
      FilterDropsAll(events[1..], keep);
    }
  }

  /** Probes the domains from index `i` on, one after another, each on the list as
      the earlier probes left it. Every one of them is announced once, in list
      order, and reports exactly its reference outcome right after its own
      announcement: a failed or thrown probe does not stop the ones after it. */
  function ProbeFrom(domains: seq<DomainToCheck>, exchanges: seq<Exchange>, i: nat): (r: Step)
    requires |exchanges| == |domains| && i <= |domains|
    ensures SameIdentity(domains, r.domains)
    ensures Filter(r.events, DomainChecks) == ExpectedChecks(domains, i)
    ensures Filter(r.events, ProbeOutcomes) == ExpectedOutcomes(domains, exchanges, i)
    ensures Filter(r.events, ChecksAndOutcomes) == ExpectedProbeTrace(domains, exchanges, i)
    decreases |domains| - i
  {
    if i == |domains| then Step([], domains)
    else
      var s := PingDomain(domains, i, exchanges[i]);
      var rest := ProbeFrom(s.domains, exchanges, i + 1);
      ProbeStepComposes(domains, exchanges, i, s, rest);
      Step(s.events + rest.events, rest.domains)
  }

  /** One probe followed by the probes after it meets the contract of the whole. */
  lemma ProbeStepComposes(domains: seq<DomainToCheck>, exchanges: seq<Exchange>, i: nat, s: Step, rest: Step)
    requires |exchanges| == |domains| && i < |domains|
    requires SameIdentity(domains, s.domains)
    requires Filter(s.events, DomainChecks) == [CheckingDomain(domains[i].domain, domains[i].instanceKey)]
    requires Filter(s.events, ProbeOutcomes) == ExpectedOutcome(domains[i], exchanges[i])
    requires Filter(s.events, ChecksAndOutcomes)
             == [CheckingDomain(domains[i].domain, domains[i].instanceKey)] + ExpectedOutcome(domains[i], exchanges[i])
    requires SameIdentity(s.domains, rest.domains)
    requires Filter(rest.events, DomainChecks) == ExpectedChecks(s.domains, i + 1)
    requires Filter(rest.events, ProbeOutcomes) == ExpectedOutcomes(s.domains, exchanges, i + 1)
    requires Filter(rest.events, ChecksAndOutcomes) == ExpectedProbeTrace(s.domains, exchanges, i + 1)
    ensures SameIdentity(domains, rest.domains)
    ensures Filter(s.events + rest.events, DomainChecks) == ExpectedChecks(domains, i)
    ensures Filter(s.events + rest.events, ProbeOutcomes) == ExpectedOutcomes(domains, exchanges, i)
    ensures Filter(s.events + rest.events, ChecksAndOutcomes) == ExpectedProbeTrace(domains, exchanges, i)
  {
    FilterAppend(s.events, rest.events, DomainChecks);
    FilterAppend(s.events, rest.events, ProbeOutcomes);
    FilterAppend(s.events, rest.events, ChecksAndOutcomes);
    ExpectedChecksIgnoreTimestamps(domains, s.domains, i + 1);
    ExpectedOutcomesIgnoreTimestamps(domains, s.domains, exchanges, i + 1);
    ExpectedProbeTraceIgnoresTimestamps(domains, s.domains, exchanges, i + 1);
  }

  /** What the probes from index `i` do besides announcing and reporting: they
      write only certificate reports, and change nothing but expiry timestamps,
      each set to the time of a probe whose instance key first occurs at that
      domain. A domain no probe addresses keeps its timestamp. */
  lemma {:induction false} ProbeFromFrame(domains: seq<DomainToCheck>, exchanges: seq<Exchange>, i: nat)
    requires |exchanges| == |domains| && i <= |domains|
    ensures forall e :: e in ProbeFrom(domains, exchanges, i).events ==> IsProbeEvent(e)
    ensures StampedByProbes(domains, ProbeFrom(domains, exchanges, i).domains, exchanges, i)
    decreases |domains| - i
  {
    if i < |domains| {
      var s := PingDomain(domains, i, exchanges[i]);
      var rest := ProbeFrom(s.domains, exchanges, i + 1);
      ProbeFromFrame(s.domains, exchanges, i + 1);
      StampsCompose(domains, exchanges, i, s.domains, rest.domains);
      assert ProbeFrom(domains, exchanges, i).events == s.events + rest.events;
    }
  }

  /** A stamp by probe `i` followed by stamps from the later probes is a stamp from
      the probes from `i` on. */
  lemma StampsCompose(domains: seq<DomainToCheck>, exchanges: seq<Exchange>, i: nat,
                      mid: seq<DomainToCheck>, after: seq<DomainToCheck>)
    requires |exchanges| == |domains| && i < |domains|
    requires SameIdentity(domains, mid)
    requires OnlyStamped(domains, mid, domains[i].instanceKey, exchanges[i].at)
    requires StampedByProbes(mid, after, exchanges, i + 1)
    ensures StampedByProbes(domains, after, exchanges, i)
  {
    forall j | 0 <= j < |domains|
      ensures after[j] == domains[j]
              || exists k :: i <= k < |domains| && FirstWithKey(domains, domains[k].instanceKey, j)
                             && after[j] == domains[j].(lastCertificateExpiryCheckTimestamp := exchanges[k].at)
    {
      if after[j] == mid[j] {
        if mid[j] != domains[j] {
          assert FirstWithKey(domains, domains[i].instanceKey, j);
        }
      } else {
        var k :| i + 1 <= k < |mid| && FirstWithKey(mid, mid[k].instanceKey, j)
                 && after[j] == mid[j].(lastCertificateExpiryCheckTimestamp := exchanges[k].at);
        FirstWithKeyIgnoresTimestamps(domains, mid, mid[k].instanceKey, j);
        assert mid[k].instanceKey == domains[k].instanceKey;
        assert FirstWithKey(domains, domains[k].instanceKey, j);
      }
    }
  }

  /** Which domain is the first with a key does not depend on the timestamps. */
  lemma FirstWithKeyIgnoresTimestamps(a: seq<DomainToCheck>, b: seq<DomainToCheck>, key: string, j: int)
    requires SameIdentity(a, b)
    ensures FirstWithKey(a, key, j) <==> FirstWithKey(b, key, j)
  {
    assert forall m :: 0 <= m < |a| ==> a[m].instanceKey == b[m].instanceKey;
  }

  /** `TryRunServiceTask`: one cycle over every configured domain, between the
      start and finish events. Every domain is announced once, in list order, and
      reports exactly its reference outcome right after its announcement. */
  function RunCycle(domains: seq<DomainToCheck>, exchanges: seq<Exchange>): (r: Step)
    requires |exchanges| == |domains|
    ensures SameIdentity(domains, r.domains)
    ensures |r.events| >= 2 && r.events[0] == CycleStarted && r.events[|r.events| - 1] == CycleFinished
    ensures Filter(r.events, DomainChecks) == ExpectedChecks(domains, 0)
    ensures Filter(r.events, ProbeOutcomes) == ExpectedOutcomes(domains, exchanges, 0)
    ensures Filter(r.events, ChecksAndOutcomes) == ExpectedProbeTrace(domains, exchanges, 0)
  {
    var probes := ProbeFrom(domains, exchanges, 0);
    FilterSkipsMarkers(probes.events, DomainChecks);
    FilterSkipsMarkers(probes.events, ProbeOutcomes);
    FilterSkipsMarkers(probes.events, ChecksAndOutcomes);
    Step([CycleStarted] + probes.events + [CycleFinished], probes.domains)
  }

  /** The start and finish events are neither announcements nor outcomes. */
  lemma FilterSkipsMarkers(events: seq<LogEvent>, keep: EventClass)
    requires keep != Errors
    ensures Filter([CycleStarted] + events + [CycleFinished], keep) == Filter(events, keep)
  {
    FilterAppend([CycleStarted] + events, [CycleFinished], keep);
    FilterAppend([CycleStarted], events, keep);
  }

  /** Between its start and finish events a cycle writes only announcements,
      outcomes and certificate reports, and it changes nothing but the expiry
      timestamps of the domains its probes address, each set to the time of one
      of those probes. */
  lemma CycleFrame(domains: seq<DomainToCheck>, exchanges: seq<Exchange>)
    requires |exchanges| == |domains|
    ensures var r := RunCycle(domains, exchanges);
            forall k :: 0 < k < |r.events| - 1 ==> IsProbeEvent(r.events[k])
    ensures StampedByProbes(domains, RunCycle(domains, exchanges).domains, exchanges, 0)
  {
    var probes := ProbeFrom(domains, exchanges, 0);
    ProbeFromFrame(domains, exchanges, 0);
    var events := [CycleStarted] + probes.events + [CycleFinished];
    assert RunCycle(domains, exchanges).events == events;
    forall k | 0 < k < |events| - 1
      ensures IsProbeEvent(events[k])
    {
      assert events[k] == probes.events[k - 1];
    }
  }

  /** When no probe from index `i` on reaches the expiry policy, the probes change
      no domain and write exactly the reference trace: announcement, then outcome,
      for each domain in list order. */
  lemma {:induction false} ProbesWithoutExpiryPolicy(domains: seq<DomainToCheck>, exchanges: seq<Exchange>, i: nat)
    requires |exchanges| == |domains| && i <= |domains|
    requires forall k :: i <= k < |domains| ==> !ExpiryPolicyRuns(domains[k].instanceKey, exchanges[k])
    ensures ProbeFrom(domains, exchanges, i) == Step(ExpectedProbeTrace(domains, exchanges, i), domains)
    decreases |domains| - i
  {
    if i < |domains| {
      var check := CheckingDomain(domains[i].domain, domains[i].instanceKey);
      var s := PingDomain(domains, i, exchanges[i]);
      ProbeValidatesAddressedDomain(domains, i, exchanges[i]);
      assert s == Step([check] + ExpectedOutcome(domains[i], exchanges[i]), domains);
      ProbesWithoutExpiryPolicy(domains, exchanges, i + 1);
      assert ProbeFrom(domains, exchanges, i) == Step(s.events + ProbeFrom(domains, exchanges, i + 1).events, domains);
    }
  }

  /** A cycle in which no probe reaches the expiry policy (no handshake, no
      certificate, or a blank instance key) writes the start, the reference trace
      of every domain, then the finish, and leaves the domain list as it was. */
  lemma CycleWithoutExpiryPolicy(domains: seq<DomainToCheck>, exchanges: seq<Exchange>)
    requires |exchanges| == |domains|
    requires forall k :: 0 <= k < |domains| ==> !ExpiryPolicyRuns(domains[k].instanceKey, exchanges[k])
    ensures RunCycle(domains, exchanges)
            == Step([CycleStarted] + ExpectedProbeTrace(domains, exchanges, 0) + [CycleFinished], domains)
  {
    ProbesWithoutExpiryPolicy(domains, exchanges, 0);
  }

  /** A probe when no domain asks for expiry checking: whether or not the
      callback runs, it changes no domain and writes only the announcement and
      the reference outcome. */
  lemma ProbeWithExpiryOff(domains: seq<DomainToCheck>, i: nat, x: Exchange)
    requires i < |domains|
    requires forall k :: 0 <= k < |domains| ==> !domains[k].checkCertificateExpiry
    ensures PingDomain(domains, i, x)
            == Step([CheckingDomain(domains[i].domain, domains[i].instanceKey)] + ExpectedOutcome(domains[i], x), domains)
  {
    var key := domains[i].instanceKey;
    ProbeValidatesAddressedDomain(domains, i, x);
    if ExpiryPolicyRuns(key, x) {
      var found := FindDomain(domains, key);
      assert found.Some? by {
        assert domains[i].instanceKey == key;
      }
      var j := found.value;
      assert FirstWithKey(domains, key, j);
      var c := EvaluateCertificate(domains[j], x.handshake.value.certificate.value, x.at);
      assert c == ExpiryCheck(None, domains[j]);
      assert domains[j := c.domain] == domains;
    }
  }

  /** When no domain asks for expiry checking, the probes from index `i` on change
      no domain and write exactly the reference trace, whatever their handshakes. */
  lemma {:induction false} ProbesWithExpiryOff(domains: seq<DomainToCheck>, exchanges: seq<Exchange>, i: nat)
    requires |exchanges| == |domains| && i <= |domains|
    requires forall k :: 0 <= k < |domains| ==> !domains[k].checkCertificateExpiry
    ensures ProbeFrom(domains, exchanges, i) == Step(ExpectedProbeTrace(domains, exchanges, i), domains)
    decreases |domains| - i
  {
    if i < |domains| {
      var check := CheckingDomain(domains[i].domain, domains[i].instanceKey);
      var s := PingDomain(domains, i, exchanges[i]);
      ProbeWithExpiryOff(domains, i, exchanges[i]);
      assert s == Step([check] + ExpectedOutcome(domains[i], exchanges[i]), domains);
      ProbesWithExpiryOff(domains, exchanges, i + 1);
      assert ProbeFrom(domains, exchanges, i) == Step(s.events + ProbeFrom(domains, exchanges, i + 1).events, domains);
    }
  }

  /** A cycle over domains none of which asks for expiry checking writes the start,
      the reference trace of every domain, then the finish, and leaves the domain
      list as it was, whether or not TLS handshakes run. */
  lemma CycleWithExpiryOff(domains: seq<DomainToCheck>, exchanges: seq<Exchange>)
    requires |exchanges| == |domains|
    requires forall k :: 0 <= k < |domains| ==> !domains[k].checkCertificateExpiry
    ensures RunCycle(domains, exchanges)
            == Step([CycleStarted] + ExpectedProbeTrace(domains, exchanges, 0) + [CycleFinished], domains)
  {
    ProbesWithExpiryOff(domains, exchanges, 0);
  }

  /** No domain other than `k` carries `k`'s instance key. */
  predicate KeyIsUnique(domains: seq<DomainToCheck>, k: int)
    requires 0 <= k < |domains|
  {
    forall j :: 0 <= j < |domains| && j != k ==> domains[j].instanceKey != domains[k].instanceKey
  }

  /** `r` leaves domain `k` exactly as the expiry policy leaves `d` at the time of
      `x`'s handshake, and its trace holds the policy's report, if any. */
  predicate PolicyApplied(d: DomainToCheck, x: Exchange, k: nat, r: Step)
  {
    && x.handshake.Some? && x.handshake.value.certificate.Some?
    && k < |r.domains|
    && var c := EvaluateCertificate(d, x.handshake.value.certificate.value, x.at);
       && r.domains[k] == c.domain
       && (c.event.Some? ==> c.event.value in r.events)
  }

  /** If the probe of domain `k`, whose instance key no other domain shares, reaches
      the expiry policy, then the probes from any index up to `k` apply the policy
      to domain `k` at that probe's time. */
  lemma {:induction false} ProbesEvaluateUniqueKey(domains: seq<DomainToCheck>, exchanges: seq<Exchange>, i: nat, k: nat)
    requires |exchanges| == |domains| && i <= k < |domains|
    requires KeyIsUnique(domains, k)
    requires ExpiryPolicyRuns(domains[k].instanceKey, exchanges[k])
    ensures PolicyApplied(domains[k], exchanges[k], k, ProbeFrom(domains, exchanges, i))
    decreases k - i, 1
  {
    if i < k {
      ProbesBeforeUniqueKey(domains, exchanges, i, k);
    } else {
      ProbesAtUniqueKey(domains, exchanges, k);
    }
  }

  /** The induction step: a probe before `k` leaves domain `k` alone, so the later
      probes apply the policy. */
  lemma {:induction false} ProbesBeforeUniqueKey(domains: seq<DomainToCheck>, exchanges: seq<Exchange>, i: nat, k: nat)
    requires |exchanges| == |domains| && i < k < |domains|
    requires KeyIsUnique(domains, k)
    requires ExpiryPolicyRuns(domains[k].instanceKey, exchanges[k])
    ensures PolicyApplied(domains[k], exchanges[k], k, ProbeFrom(domains, exchanges, i))
    decreases k - i, 0
  {
    var s := PingDomain(domains, i, exchanges[i]);
    var rest := ProbeFrom(s.domains, exchanges, i + 1);
    assert ProbeFrom(domains, exchanges, i) == Step(s.events + rest.events, rest.domains);
    EarlierProbeKeepsUniqueKey(domains, exchanges, i, k);
    ProbesEvaluateUniqueKey(s.domains, exchanges, i + 1, k);
  }

  /** The base: the probe of `k` applies the policy, and no later probe touches
      domain `k`. */
  lemma ProbesAtUniqueKey(domains: seq<DomainToCheck>, exchanges: seq<Exchange>, k: nat)
    requires |exchanges| == |domains| && k < |domains|
    requires KeyIsUnique(domains, k)
    requires ExpiryPolicyRuns(domains[k].instanceKey, exchanges[k])
    ensures PolicyApplied(domains[k], exchanges[k], k, ProbeFrom(domains, exchanges, k))
  {
    var s := PingDomain(domains, k, exchanges[k]);
    var rest := ProbeFrom(s.domains, exchanges, k + 1);
    assert ProbeFrom(domains, exchanges, k) == Step(s.events + rest.events, rest.domains);
    ProbeUniqueKeyEvaluates(domains, exchanges, k);
    ProbesLeaveUniqueKey(s.domains, exchanges, k);
  }

  /** A probe before `k` leaves domain `k`, whose key is unique, as it was. */
  lemma EarlierProbeKeepsUniqueKey(domains: seq<DomainToCheck>, exchanges: seq<Exchange>, i: nat, k: nat)
    requires |exchanges| == |domains| && i < k < |domains|
    requires KeyIsUnique(domains, k)
    ensures var s := PingDomain(domains, i, exchanges[i]);
            && s.domains[k] == domains[k]
            && KeyIsUnique(s.domains, k)
  {
    var s := PingDomain(domains, i, exchanges[i]);
    assert !FirstWithKey(domains, domains[i].instanceKey, k);
    forall j | 0 <= j < |s.domains| && j != k
      ensures s.domains[j].instanceKey != s.domains[k].instanceKey
    {
      assert s.domains[j].instanceKey == domains[j].instanceKey;
    }
  }

  /** The probe of a domain with a unique key that reaches the expiry policy
      leaves the domain as the policy does and writes its report. */
  lemma ProbeUniqueKeyEvaluates(domains: seq<DomainToCheck>, exchanges: seq<Exchange>, k: nat)
    requires |exchanges| == |domains| && k < |domains|
    requires KeyIsUnique(domains, k)
    requires ExpiryPolicyRuns(domains[k].instanceKey, exchanges[k])
    ensures PolicyApplied(domains[k], exchanges[k], k, PingDomain(domains, k, exchanges[k]))
  {
    assert FirstWithKey(domains, domains[k].instanceKey, k);
    ProbeValidatesAddressedDomain(domains, k, exchanges[k]);
  }

  /** The probes after `k` do not touch domain `k` when its key is unique. */
  lemma ProbesLeaveUniqueKey(domains: seq<DomainToCheck>, exchanges: seq<Exchange>, k: nat)
    requires |exchanges| == |domains| && k < |domains|
    requires KeyIsUnique(domains, k)
    ensures ProbeFrom(domains, exchanges, k + 1).domains[k] == domains[k]
  {
    ProbeFromFrame(domains, exchanges, k + 1);
  }

  /** `TryRunServiceTask` runs the expiry policy on every domain whose probe
      reaches it: if domain `k`'s instance key is unique and its probe's handshake
      brings a certificate, the cycle leaves domain `k` exactly as the policy
      leaves it at that handshake's time, and its trace holds the policy's report,
      if any. */
  lemma CycleEvaluatesUniqueKey(domains: seq<DomainToCheck>, exchanges: seq<Exchange>, k: nat)
    requires |exchanges| == |domains| && k < |domains|
    requires KeyIsUnique(domains, k)
    requires ExpiryPolicyRuns(domains[k].instanceKey, exchanges[k])
    ensures PolicyApplied(domains[k], exchanges[k], k, RunCycle(domains, exchanges))
  {
    ProbesEvaluateUniqueKey(domains, exchanges, 0, k);
  }

  /** The reference outcome trace of the domains from index `i` on. */
  function ExpectedOutcomes(domains: seq<DomainToCheck>, exchanges: seq<Exchange>, i: nat): (outcomes: seq<LogEvent>)
    requires |exchanges| == |domains| && i <= |domains|
    decreases |domains| - i
  {
    if i == |domains| then []
    else ExpectedOutcome(domains[i], exchanges[i]) + ExpectedOutcomes(domains, exchanges, i + 1)
  }

  /** The announcements expected from the domains from index `i` on: one per
      domain, in list order. */
  function ExpectedChecks(domains: seq<DomainToCheck>, i: nat): (checks: seq<LogEvent>)
    requires i <= |domains|
    ensures |checks| == |domains| - i
    ensures forall k :: 0 <= k < |checks| ==>
              checks[k] == CheckingDomain(domains[i + k].domain, domains[i + k].instanceKey)
    decreases |domains| - i
  {
    if i == |domains| then []
    else [CheckingDomain(domains[i].domain, domains[i].instanceKey)] + ExpectedChecks(domains, i + 1)
  }

  /** The reference trace of the domains from index `i` on: each domain's
      announcement followed by its reference outcome, in list order. */
  function ExpectedProbeTrace(domains: seq<DomainToCheck>, exchanges: seq<Exchange>, i: nat): (trace: seq<LogEvent>)
    requires |exchanges| == |domains| && i <= |domains|
    decreases |domains| - i
  {
    if i == |domains| then []
    else [CheckingDomain(domains[i].domain, domains[i].instanceKey)] + ExpectedOutcome(domains[i], exchanges[i])
         + ExpectedProbeTrace(domains, exchanges, i + 1)
  }

  /** The reference outcomes read only what the timestamps leave unchanged. */
  lemma {:induction false} ExpectedOutcomesIgnoreTimestamps(a: seq<DomainToCheck>, b: seq<DomainToCheck>, exchanges: seq<Exchange>, i: nat)
    requires SameIdentity(a, b) && |exchanges| == |a| && i <= |a|
    ensures ExpectedOutcomes(a, exchanges, i) == ExpectedOutcomes(b, exchanges, i)
    decreases |a| - i
  {
    if i < |a| {
      assert b[i].logMessage == a[i].logMessage && b[i].instanceKey == a[i].instanceKey;
      ExpectedOutcomesIgnoreTimestamps(a, b, exchanges, i + 1);
    }
  }

  lemma {:induction false} ExpectedProbeTraceIgnoresTimestamps(a: seq<DomainToCheck>, b: seq<DomainToCheck>, exchanges: seq<Exchange>, i: nat)
    requires SameIdentity(a, b) && |exchanges| == |a| && i <= |a|
    ensures ExpectedProbeTrace(a, exchanges, i) == ExpectedProbeTrace(b, exchanges, i)
    decreases |a| - i
  {
    if i < |a| {
      assert b[i].domain == a[i].domain && b[i].logMessage == a[i].logMessage && b[i].instanceKey == a[i].instanceKey;
      ExpectedProbeTraceIgnoresTimestamps(a, b, exchanges, i + 1);
    }
  }

  lemma {:induction false} ExpectedChecksIgnoreTimestamps(a: seq<DomainToCheck>, b: seq<DomainToCheck>, i: nat)
    requires SameIdentity(a, b) && i <= |a|
    ensures ExpectedChecks(a, i) == ExpectedChecks(b, i)
    decreases |a| - i
  {
    if i < |a| {
      assert b[i].domain == a[i].domain && b[i].instanceKey == a[i].instanceKey;
      ExpectedChecksIgnoreTimestamps(a, b, i + 1);
    }
  }

  // ---------------------------------------------------------------------------
  // One iteration of the service loop

  datatype MonitorState = MonitorState(domains: seq<DomainToCheck>, lastHeartbeatAt: int)

  datatype Iteration = Iteration(events: seq<LogEvent>, state: MonitorState)

  /** One pass of `ExecuteAsync`'s loop: the probe cycle, then the heartbeat gate
      at time `now`; the delay that follows is not modelled. The pass writes the
      cycle's trace followed by the heartbeat exactly when the gate opens, and
      keeps the domain list the cycle leaves. */
  function RunIteration(
    state: MonitorState, heartbeatIntervalInMilliSeconds: int32, serviceName: string,
    exchanges: seq<Exchange>, readings: MemoryReadings, now: int): (r: Iteration)
    requires |exchanges| == |state.domains|
    ensures r.state.domains == RunCycle(state.domains, exchanges).domains
    ensures r.events == RunCycle(state.domains, exchanges).events
                        + if now - state.lastHeartbeatAt > heartbeatIntervalInMilliSeconds as int * TicksPerMillisecond
                          then [HeartbeatEvent(serviceName, readings)] else []
    ensures SameIdentity(state.domains, r.state.domains)
    ensures |r.events| >= 2 && r.events[0] == CycleStarted
    ensures r.state.lastHeartbeatAt
            == if now - state.lastHeartbeatAt > heartbeatIntervalInMilliSeconds as int * TicksPerMillisecond
               then now else state.lastHeartbeatAt
    ensures now - state.lastHeartbeatAt > heartbeatIntervalInMilliSeconds as int * TicksPerMillisecond ==>
              && |r.events| >= 3
              && r.events[|r.events| - 2] == CycleFinished
              && r.events[|r.events| - 1] == HeartbeatEvent(serviceName, readings)
    ensures now - state.lastHeartbeatAt <= heartbeatIntervalInMilliSeconds as int * TicksPerMillisecond ==>
              r.events[|r.events| - 1] == CycleFinished
    ensures Filter(r.events, ProbeOutcomes) == ExpectedOutcomes(state.domains, exchanges, 0)
  {
    var cycle := RunCycle(state.domains, exchanges);
    var gate := LogMemoryInformation(state.lastHeartbeatAt, heartbeatIntervalInMilliSeconds, serviceName, readings, now);
    HeartbeatAfterCycle(cycle.events, EventList(gate.event));
    FiltersSkipHeartbeat(cycle.events, EventList(gate.event));
    Iteration(cycle.events + EventList(gate.event), MonitorState(cycle.domains, gate.lastHeartbeatAt))
  }

  /** At most one event after a cycle's trace comes right after the finish event. */
  lemma HeartbeatAfterCycle(cycle: seq<LogEvent>, extra: seq<LogEvent>)
    requires |cycle| >= 2 && cycle[0] == CycleStarted && cycle[|cycle| - 1] == CycleFinished
    requires |extra| <= 1
    ensures var events := cycle + extra;
            && events[0] == CycleStarted
            && (|extra| == 0 ==> events[|events| - 1] == CycleFinished)
            && (|extra| == 1 ==> events[|events| - 2] == CycleFinished && events[|events| - 1] == extra[0])
  {
  }

  /** A heartbeat is not a probe outcome. */
  lemma FiltersSkipHeartbeat(cycle: seq<LogEvent>, extra: seq<LogEvent>)
    requires forall e :: e in extra ==> e.Heartbeat?
    ensures Filter(cycle + extra, ProbeOutcomes) == Filter(cycle, ProbeOutcomes)
  {
    FilterAppend(cycle, extra, ProbeOutcomes);
    FilterDropsAll(extra, ProbeOutcomes);
  }

  /** A probe of a lone domain that opens no new TLS connection writes the
      announcement and the response's outcome, and leaves the domain as it was. */
  lemma SingleDomainProbe(d: DomainToCheck, x: Exchange)
    requires x.handshake.None?
    ensures ProbeFrom([d], [x], 0) == Step([CheckingDomain(d.domain, d.instanceKey)] + ResponseEvents(d, x.result), [d])
  {
    ProbeValidatesAddressedDomain([d], 0, x);
    assert ProbeFrom([d], [x], 1) == Step([], [d]);
  }

  /** A cycle over one domain whose probe opens no new TLS connection writes the
      start, the announcement, the response's outcome and the finish, and leaves
      the domain as it was. */
  lemma SingleDomainCycle(d: DomainToCheck, at: int, result: HttpResult)
    ensures RunCycle([d], [Exchange(None, at, result)])
            == Step([CycleStarted] + ([CheckingDomain(d.domain, d.instanceKey)] + ResponseEvents(d, result)) + [CycleFinished], [d])
  {
    SingleDomainProbe(d, Exchange(None, at, result));
  }

  /** The errors of such a trace are exactly its outcome events. */
  lemma CycleTraceErrors(check: LogEvent, outcome: seq<LogEvent>)
    requires check.CheckingDomain?
    requires forall e :: e in outcome ==> IsError(e)
    ensures Filter([CycleStarted] + ([check] + outcome) + [CycleFinished], Errors) == outcome
  {
    var probe := [check] + outcome;
    FilterAppend([CycleStarted] + probe, [CycleFinished], Errors);
    FilterAppend([CycleStarted], probe, Errors);
    FilterAppend([check], outcome, Errors);
    FilterDropsAll([CycleStarted], Errors);
    FilterDropsAll([check], Errors);
    FilterDropsAll([CycleFinished], Errors);
    FilterKeepsAll(outcome, Errors);
  }

  /** In such a cycle the errors are exactly the response's outcome. */
  lemma SingleDomainCycleErrors(d: DomainToCheck, at: int, result: HttpResult)
    ensures Filter(RunCycle([d], [Exchange(None, at, result)]).events, Errors) == ResponseEvents(d, result)
  {
    CycleTraceErrors(CheckingDomain(d.domain, d.instanceKey), ResponseEvents(d, result));
    SingleDomainCycle(d, at, result);
  }

  /** The reference outcome consists of error-level events. */
  lemma OutcomeIsError(d: DomainToCheck, x: Exchange)
    ensures forall e :: e in ExpectedOutcome(d, x) ==> IsError(e)
  {
  }

  /** In a cycle over one domain with expiry checking off, the error-level events
      are exactly the reference outcome, whether or not a handshake runs. */
  lemma ExpiryOffCycleErrors(d: DomainToCheck, x: Exchange)
    requires !d.checkCertificateExpiry
    ensures Filter(RunCycle([d], [x]).events, Errors) == ExpectedOutcome(d, x)
  {
    var check := CheckingDomain(d.domain, d.instanceKey);
    CycleWithExpiryOff([d], [x]);
    assert ExpectedProbeTrace([d], [x], 0) == [check] + ExpectedOutcome(d, x) by {
      assert ExpectedProbeTrace([d], [x], 1) == [];
    }
    OutcomeIsError(d, x);
    CycleTraceErrors(check, ExpectedOutcome(d, x));
  }

  /** The domain "good.example" with instance key "k1" and expiry checking off. */
  const GoodExample: DomainToCheck := DomainToCheck("https://good.example", "good.example down", "k1", false, 0, 0)

  /** A probe of the good example answering 200 writes no error, whenever it runs,
      over a reused connection or after a handshake the transport accepts. */
  lemma GoodExampleHealthyScenario(handshake: Option<Handshake>, at: int)
    requires !(handshake.Some? && Rejected(handshake.value))
    ensures Filter(RunCycle([GoodExample], [Exchange(handshake, at, SuccessStatus)]).events, Errors) == []
  {
    ExpiryOffCycleErrors(GoodExample, Exchange(handshake, at, SuccessStatus));
  }

  /** A probe of the good example answering 503 writes exactly one error, its own
      log message, whenever it runs, over a reused connection or after a handshake
      the transport accepts. */
  lemma GoodExampleDownScenario(handshake: Option<Handshake>, at: int)
    requires !(handshake.Some? && Rejected(handshake.value))
    ensures Filter(RunCycle([GoodExample], [Exchange(handshake, at, NonSuccessStatus)]).events, Errors)
            == [DomainDown("good.example down", "k1")]
  {
    ExpiryOffCycleErrors(GoodExample, Exchange(handshake, at, NonSuccessStatus));
  }

  /** A probe of the good example whose certificate comes with policy errors
      writes exactly one error, the failed query, whatever the server would have
      answered. */
  lemma GoodExampleRejectedScenario(handshake: Handshake, at: int, result: HttpResult)
    requires Rejected(handshake)
    ensures Filter(RunCycle([GoodExample], [Exchange(Some(handshake), at, result)]).events, Errors)
            == [DomainQueryFailed]
  {
    ExpiryOffCycleErrors(GoodExample, Exchange(Some(handshake), at, result));
  }
}
