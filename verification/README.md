# PingRService decision logic in Dafny

PingRService is a background monitor. It probes a configured list of HTTP(S)
domains once per cycle and logs an error with the domain's own log message when
a probe fails. Warning-and-above events are forwarded to Telegram. The HTTP
client's certificate-validation callback has a second job: it recognises the
domain a request belongs to by the `DomainToken` header. For that domain it
reports certificates that have expired or are about to expire, at most once per
configured interval. A heartbeat with memory figures is written whenever its
own interval has passed.

This project models that decision logic as pure functions over immutable
records:

- `now` is the clock, as an integer count of 100 ns ticks.
- The transport's answers, the peer certificate and the memory readings are
  inputs.
- Log events come out as values.

The modules mirror the source files:

- `Wrappers` holds `Option` and `Result`; `None` stands for a C# `null` and
  `Err` for a thrown exception.
- `Text` holds `char.IsWhiteSpace` and `string.IsNullOrWhiteSpace`.
- `ObjectExtensions` holds `IsEmptyOrNull`.
- `Time` holds the tick constants.
- `DateTimeOffsetExtensions` and `DateTimeExtensions` hold the `IsExpired` overloads.
- `Configuration` holds the `DomainToCheck` and `PingRConfiguration` records
  with their `IsValid` checks. `DomainToCheck` gains the two expiry fields
  that the service reads: `CertificateExpiryCheckInterval` and
  `LastCertificateExpiryCheckTimestamp`.
- `SystemGlobals` holds the byte-size unit selection.
- `PingRService` holds the expiry policy, `ValidateServerCertificate`, the
  heartbeat gate, `PingDomain`, the probe cycle and one loop iteration.

Each probe takes an `Exchange` as input:

- an optional TLS handshake (certificate and `SslPolicyErrors`, where the
  empty set means `None`), which runs the validation callback with the
  domain's instance key as the only `DomainToken` value;
- the time at which the callback runs;
- the abstract result of `SendAsync`: a success status, a non-success status, a
  `null` response, or an exception.

A rejected handshake makes `SendAsync` throw, so it is logged as
"Domain query failed".

Three boundary facts of the code that the model keeps:

- A certificate counts as expired only when `NotAfter < now`. A certificate
  ending exactly now is reported as about to expire.
- An expiry evaluation runs only once `last + interval < now`, that is, once
  strictly more than the interval has passed.
- Neither the expiry interval nor the listen URL is validated.

## Model

| member | source | states |
|---|---|---|
| Text.IsNullOrWhiteSpace | src/PingRService/Configuration/DomainToCheck.cs:43-56 | a string is blank exactly when every character is Unicode white space, so the empty string and whitespace-only strings are both blank; it is non-blank exactly when some character is not white space |
| ObjectExtensions.IsEmptyOrNull | src/PingRService/Extensions/ObjectExtensions.cs:23-31 | true exactly for a null or element-free sequence; a false answer implies the argument is non-null and has an element |
| DateTimeOffsetExtensions.IsExpired | src/PingRService/Extensions/DateTimeOffsetExtensions.cs:23-26 | expired exactly when strictly more than `duration` ticks have passed since `timestamp` |
| DateTimeOffsetExtensions.IsExpiredNow | src/PingRService/Extensions/DateTimeOffsetExtensions.cs:33-36 | the one-argument overload equals the two-argument one with a zero duration, i.e. `timestamp < now` |
| DateTimeOffsetExtensions.NotExpiredAtBoundary | src/PingRService/Extensions/DateTimeOffsetExtensions.cs:25 | at exactly `timestamp + duration` the predicate is false, and one tick later it is true |
| DateTimeOffsetExtensions.ExpiredStaysExpired | src/PingRService/Extensions/DateTimeOffsetExtensions.cs:25 | monotone in time: once expired, expired at every later `now` |
| DateTimeOffsetExtensions.ExpiredForShorterDuration | src/PingRService/Extensions/DateTimeOffsetExtensions.cs:25 | antitone in the duration: expired for `d` implies expired for every `d' <= d` |
| DateTimeExtensions.IsExpired | src/PingRService/Extensions/DateTimeExtensions.cs:23-26 | expired exactly when strictly more than `duration` ticks have passed since `timestamp` |
| DateTimeExtensions.IsExpiredNow | src/PingRService/Extensions/DateTimeExtensions.cs:33-36 | equals the zero-duration check, i.e. `timestamp < now`, so a `NotAfter` equal to now is not expired |
| DateTimeExtensions.NotExpiredAtBoundary | src/PingRService/Extensions/DateTimeExtensions.cs:25 | the comparison is strict: false at the boundary, true one tick after |
| DateTimeExtensions.ExpiredStaysExpired | src/PingRService/Extensions/DateTimeExtensions.cs:25 | once true, stays true as `now` increases |
| DateTimeExtensions.ExpiredForShorterDuration | src/PingRService/Extensions/DateTimeExtensions.cs:25 | true for a duration implies true for every smaller duration |
| Configuration.DomainIsValid | src/PingRService/Configuration/DomainToCheck.cs:41-59 | never returns false. It succeeds exactly when domain, log message and instance key are all non-blank. The expiry flag and expiry fields play no part. Each error message arises exactly when its field is the first blank one, in the order domain, log message, instance key |
| Configuration.AnyInvalid | src/PingRService/Configuration/PingRConfiguration.cs:53-56 | the in-order `Any(d => !d.IsValid())` never finds an invalid domain. It returns false exactly when every domain is complete. Otherwise it throws the exception of the first incomplete domain |
| Configuration.IsValid | src/PingRService/Configuration/PingRConfiguration.cs:46-79 | never returns false. It succeeds exactly when the domain list is non-empty, every domain is complete, both intervals are positive and both Telegram settings are non-blank. "At least one domain is invalid." is never the error |
| Configuration.EmptyDomainListReportedFirst | src/PingRService/Configuration/PingRConfiguration.cs:48-51 | a null or empty domain list yields "The domains to check are empty." whatever the other fields hold |
| Configuration.FirstInvalidDomainReported | src/PingRService/Configuration/PingRConfiguration.cs:53-56 | when some domain is incomplete, the configuration's error is the first incomplete domain's own error |
| Configuration.LaterChecksInOrder | src/PingRService/Configuration/PingRConfiguration.cs:58-76 | with complete domains, each of the four later messages occurs exactly when its check is the first to fail, in the order service delay, heartbeat interval, bot token, chat id |
| Configuration.DefaultIntervalsAccepted | src/PingRService/Configuration/PingRConfiguration.cs:25-66 | the defaults 3000 and 30000 pass both interval checks. A default configuration with complete domains and Telegram settings is valid. As constructed, with no domains, it is rejected for its empty domain list |
| SystemGlobals.GetValueWithUnitByteSizeDecimal | src/PingRService/Constants/SystemGlobals.cs:49-67 | requires, only when the value exceeds 1024 and so is rounded, a decimal count that `Math.Round` accepts (0 to 28). The value stays unscaled in bytes exactly when it is at most 1024, zero and negatives included. Otherwise the chosen unit's divider is strictly below the value, the value is at most 1024 times the divider unless the unit is GB, and quotient times divider gives back the value |
| SystemGlobals.GetValueWithUnitByteSize | src/PingRService/Constants/SystemGlobals.cs:38-41 | over the whole `long` range, with 0 to 28 decimals whenever the value is scaled: the value stays unscaled in bytes exactly when it is at most 1024. A scaled size keeps the requested number of decimals, its divider is strictly below the value, and the value is at most 1024 times the divider unless the unit is GB |
| SystemGlobals.OneArgumentOverloadUsesTwoDecimals | src/PingRService/Constants/SystemGlobals.cs:38 | called with the value alone, every scaled result rounds to 2 decimals. The largest `long` is scaled to GB |
| SystemGlobals.LongOverloadQuotientRoundTrips | src/PingRService/Constants/SystemGlobals.cs:38-41 | for every `long` and accepted decimal count, a scaled quotient times its unit's divider gives back the value |
| SystemGlobals.UnitIsUnique | src/PingRService/Constants/SystemGlobals.cs:51-66 | a value in a unit's range (divider, 1024 * divider], unbounded above for GB, receives exactly that unit |
| SystemGlobals.QuotientBounds | src/PingRService/Constants/SystemGlobals.cs:51-64 | before rounding, the quotient is in (1, 1024] for kB and MB and above 1 for GB |
| SystemGlobals.DividerBoundaries | src/PingRService/Constants/SystemGlobals.cs:51-66 | a value exactly at a divider falls to the lower unit: 1024 is bytes, 1048576 is 1024 kB, 1073741824 is 1024 MB. One more byte moves up a unit |
| PingRService.EvaluateCertificate | src/PingRService/PingRService.cs:198-225 | no evaluation is due when the flag is off or `last + interval >= now`, and then nothing changes. When one is due, the timestamp becomes now and exactly one of three things happens: Error iff `NotAfter < now`, Warning iff `now <= NotAfter < now + 30 days`, no event otherwise |
| PingRService.FindDomain | src/PingRService/PingRService.cs:191 | returns the first index whose instance key equals the key, and none exactly when no instance key equals it |
| PingRService.ValidateServerCertificate | src/PingRService/PingRService.cs:166-228 | the verdict is always `certificate == null or sslErrors == None`, whatever the header, domain state or expiry outcome. Domains keep their length and identity and may differ only in expiry timestamps. Any event is an expiry report |
| PingRService.UnaddressedValidationIsSilent | src/PingRService/PingRService.cs:169-196 | no certificate, no header value, a blank first value, or a first value matching no instance key: no event and the domain list is unchanged |
| PingRService.ValidationTouchesOnlyAddressedDomain | src/PingRService/PingRService.cs:191-225 | every domain other than the first whose instance key equals the first header value is unchanged. That one becomes what the expiry policy makes of it, and the event is the policy's event |
| PingRService.UnmatchedOrDisabledIsSilent | src/PingRService/PingRService.cs:191-198 | if the addressed domain, if any, has expiry checking off, the callback emits nothing and changes nothing |
| PingRService.RepeatValidationWithinIntervalIsSilent | src/PingRService/PingRService.cs:198-224 | after an evaluation at `t0`, the timestamp is `t0`. A second handshake for the same domain at any `t1 <= t0 + interval` emits nothing and changes nothing, whatever its certificate |
| PingRService.ExpiryBoundaries | src/PingRService/PingRService.cs:207-219 | once due: `NotAfter == now` gives a Warning, not an Error. `NotAfter == now - 1` gives an Error. Exactly 30 days left gives no event, and one tick less gives a Warning |
| PingRService.ExpiringSoonScenario | src/PingRService/PingRService.cs:198-219 | a domain with a 1 h interval, last checked 2 h ago, and a certificate ending in 10 days: the request is accepted, one Warning is emitted, and the timestamp becomes now |
| PingRService.HeartbeatFormatsThreeSizes | src/PingRService/PingRService.cs:250-260 | the heartbeat line written by the private `LogMemoryInformation(string)` names the service and its uptime. Each of total memory, heap size and memory load stays in bytes exactly when it is at most 1024, and is otherwise rounded to 2 decimals |
| PingRService.LogMemoryInformation | src/PingRService/PingRService.cs:235-260 | covers both overloads: the gate and the heartbeat line it writes. It emits the heartbeat, with the three sizes formatted by unit, exactly when `now - LastHeartbeatAt` exceeds the interval, and then sets `LastHeartbeatAt := now`. Otherwise the state is unchanged |
| PingRService.HeartbeatSilentWithinInterval | src/PingRService/PingRService.cs:238-242 | with a non-negative interval, a second call at the same instant emits nothing and changes nothing. After an emission, every call up to `now + interval` is silent |
| PingRService.PingDomain | src/PingRService/PingRService.cs:126-156 | the probe's first event announces the domain. The outcome events are exactly the reference classification: a non-success status gives one Error with the domain's `LogMessage`, an exception or rejected handshake gives "Domain query failed", success or null gives nothing. Every other event is a certificate report. Every domain except the first with the probed instance key is unchanged, and that one can only have its expiry timestamp set to the handshake's time |
| PingRService.ProbeValidatesAddressedDomain | src/PingRService/PingRService.cs:138-225 | the callback sees the instance key as the only `DomainToken` value. Without a certificate in the handshake, or with a blank key, the probe changes no domain and writes only announcement and outcome. Otherwise the first domain with that key, and the report written between announcement and outcome, are exactly what the expiry policy makes of it at the handshake's time |
| PingRService.ProbeFrom | src/PingRService/PingRService.cs:108-111 | every remaining domain is announced exactly once, in list order. The outcome events are the concatenation of each domain's reference outcome, so a failing probe never stops later ones. Announcements and outcomes together form the reference trace: each domain's announcement is followed by its own outcome, before the next announcement. Only expiry timestamps change |
| PingRService.ProbesWithoutExpiryPolicy | src/PingRService/PingRService.cs:108-111 | when no remaining probe's handshake brings a certificate for a non-blank key, the probes write exactly the reference trace and change no domain |
| PingRService.ProbesEvaluateUniqueKey | src/PingRService/PingRService.cs:108-111 | when domain `k`'s instance key is unique and not blank, and its probe's handshake brings a certificate, the probes up to and past `k` leave domain `k` exactly as the expiry policy leaves it at that handshake's time, and their trace holds the policy's report, if any |
| PingRService.ProbeFromFrame | src/PingRService/PingRService.cs:108-111 | the probes write only announcements, outcomes and certificate reports. A domain changes only when it is the first with some probed domain's instance key, and then only its expiry timestamp, which becomes the time of one of those probes |
| PingRService.RunCycle | src/PingRService/PingRService.cs:100-120 | a cycle starts with the start event and ends with the finish event. In between, the announcements are one per configured domain in list order, and the outcome events are the reference outcomes in list order. Announcements and outcomes together form the reference trace, each outcome right after its own announcement. Domains may differ only in expiry timestamps |
| PingRService.CycleWithoutExpiryPolicy | src/PingRService/PingRService.cs:100-120 | for any number of domains: when no probe reaches the expiry policy, the cycle is exactly the start event, the reference trace and the finish event, and the domain list is unchanged |
| PingRService.ProbeWithExpiryOff | src/PingRService/PingRService.cs:138-198 | when no domain asks for expiry checking, a probe changes no domain and writes exactly its announcement and reference outcome. This holds whether or not the callback runs and whatever certificate it sees |
| PingRService.ProbesWithExpiryOff | src/PingRService/PingRService.cs:108-111 | when no domain asks for expiry checking, the remaining probes write exactly the reference trace and change no domain, whatever their handshakes |
| PingRService.CycleWithExpiryOff | src/PingRService/PingRService.cs:100-198 | for any number of domains none of which asks for expiry checking: the cycle is exactly the start event, the reference trace and the finish event, and the domain list is unchanged, whatever the handshakes |
| PingRService.CycleEvaluatesUniqueKey | src/PingRService/PingRService.cs:106-225 | the cycle runs the certificate callback: when domain `k`'s instance key is unique and not blank, and its probe's handshake brings a certificate, the cycle leaves domain `k` exactly as the expiry policy leaves it at that time, and the policy's report, if any, is in the trace |
| PingRService.CycleFrame | src/PingRService/PingRService.cs:106-114 | every event strictly between the start and finish events is an announcement, an outcome or a certificate report. The cycle changes only the expiry timestamps of domains its probes address, each to the time of one of those probes |
| PingRService.RunIteration | src/PingRService/PingRService.cs:86-94 | one loop pass runs the cycle and then the heartbeat gate. The domain list is the one the cycle leaves. The trace is the cycle's trace followed by the heartbeat exactly when `now - LastHeartbeatAt` exceeds the interval, and by nothing otherwise. The heartbeat timestamp becomes now exactly when `now - LastHeartbeatAt` exceeds the interval, and otherwise stays. Exactly then the trace ends with the finish event followed by the heartbeat, and otherwise it ends with the finish event. The outcome events are the cycle's reference outcomes |
| PingRService.SingleDomainCycle | src/PingRService/PingRService.cs:100-150 | a cycle over one domain whose probe opens no new TLS connection writes exactly start, announcement, the response's outcome and finish, and leaves the domain unchanged |
| PingRService.SingleDomainCycleErrors | src/PingRService/PingRService.cs:126-154 | in such a cycle, the error-level events are exactly the response's outcome |
| PingRService.ExpiryOffCycleErrors | src/PingRService/PingRService.cs:126-198 | in a cycle over one domain with expiry checking off, the error-level events are exactly the reference outcome, over a reused connection or after any handshake |
| PingRService.GoodExampleHealthyScenario | src/PingRService/PingRService.cs:142-150 | for the domain "good.example" with key "k1" and expiry checking off, a 200 response writes no error. This holds over a reused connection and after any handshake the transport accepts |
| PingRService.GoodExampleDownScenario | src/PingRService/PingRService.cs:142-150 | for the same domain, a 503 response writes exactly one error, "good.example down". This holds over a reused connection and after any handshake the transport accepts |
| PingRService.GoodExampleRejectedScenario | src/PingRService/PingRService.cs:142-154 | for the same domain, a handshake whose certificate comes with policy errors writes exactly one error, "Domain query failed", whatever the server would have answered |

## Left out

- HTTP and TLS transport: `HttpClient`, `SendAsync`, URI parsing and X509
  chain building are not modelled. A probe's handshake and result are inputs,
  and `SslPolicyErrors` is an abstract set of flags.
- Missing header: `HttpHeaders.GetValues` throws when the `DomainToken` header
  is absent. The model treats that case as an empty list of values. Probe
  requests always carry the header.
- Connection reuse: whether a request opens a new TLS connection, and so runs
  the callback, is an input to each probe.
- Redirects: each probe carries at most one handshake. `HttpClientHandler`
  follows redirects and resends the same `DomainToken` header. A redirect to
  another HTTPS host opens a second TLS connection, which runs the callback
  again for the same domain. That can yield a second certificate report in
  one probe, for example with an expiry interval of 0. Redirects are not
  modelled.
- Async loop and cancellation: `ExecuteAsync`'s loop, `Task.Delay` and the
  cancellation token are not modelled. `RunIteration` models one pass without
  the delay.
- Start and stop logging: the lines written by `StartAsync` and `StopAsync`
  are not modelled.
- Concurrency: the callback may run on transport threads. Every call is
  treated as sequential.
- "Service task failed": the model has no path to this error from
  `TryRunServiceTask`, because `PingDomain` catches every exception itself.
  Failures of the logger are not modelled.
- Logging and alerting: Serilog, the Telegram sink, log-context enrichment and
  exception objects are not modelled. `DomainDown` carries the instance key
  that the code pushes as a log property.
- Cycle duration: the stopwatch value in the "finished" line is left out.
- Configuration input and hosting: environment variables, JSON binding,
  `Program`, `Startup` and the listen endpoint are not modelled. The endpoint
  has no parsing code in the source.
- Null strings: a `null` string is modelled as the empty string.
  `IsNullOrWhiteSpace` and the ordinal comparison with a non-blank header give
  the same answers for both.
- Runtime probes: GC memory figures and the uptime stopwatch are inputs
  (`MemoryReadings`).
- SystemGlobals.GetValueWithUnitByteSizeDecimal: does not model `Math.Round`,
  decimal-to-text rendering, or the 28-digit precision of .NET `decimal`
  division. The quotient is the exact rational value.
- SystemGlobals.GetValueWithUnitByteSize: `Math.Round` throws
  `ArgumentOutOfRangeException` when a scaled size is asked for fewer than 0
  or more than 28 decimals. Both overloads require that range instead of
  modelling the exception. The service itself always asks for 2.
- Clock reads: the several clock reads in one call are collapsed into one
  `now`. Local versus UTC time is not modelled. `NotAfter` and the stored
  timestamps sit on one time line.
- DateTimeOffsetExtensions.IsExpired: does not model the exception .NET throws
  when `timestamp + duration` leaves the `DateTime` range of year 1 to 9999.
  Ticks are unbounded integers.
- DateTimeExtensions.IsExpired: the same range exception is not modelled.
- Initial timestamps: the default `LastHeartbeatAt` (`DateTimeOffset.MinValue`)
  and the initial expiry timestamps are parameters, not fixed values.
