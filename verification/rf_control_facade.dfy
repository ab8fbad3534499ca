/** The radio-frequency control facade a policy uses for one domain. Every
    operation is gated by a capability of the domain, fixed when the facade is
    built: reading or invalidating the profile needs the status interface,
    setting the operating frequency needs the control interface. */
module RadioFrequencyControl {
  import opened Outcomes

  type Frequency = nat

  /** What the domain implements. */
  datatype DomainProperties = DomainProperties(implementsRfProfileControl: bool, implementsRfProfileStatus: bool)

  /** Profile data read from the domain; only its centre frequency is kept. */
  datatype RfProfile = RfProfile(centerFrequency: Frequency)

  /** The facade's state: the domain's properties, the last frequency set
      (none before the first set), and the cached profile data (none when
      not read yet or invalidated). */
  datatype Facade = Facade(properties: DomainProperties, lastSetFrequency: Option<Frequency>, cachedProfile: Option<RfProfile>)

  datatype RfFailure = StatusNotSupported | ControlNotSupported | ProfileReadFailed | ControlCallFailed

  /** Calls made to the domain's RF profile control. */
  datatype ControlCall = SetRfProfileCenterFrequency(frequency: Frequency)

  /** The facade after an operation, the failure raised (if any) and the
      control calls made. */
  datatype Update = Update(facade: Facade, failure: Option<RfFailure>, calls: seq<ControlCall>)

  /** The facade after a profile read, and what the read returned. */
  datatype ProfileRead = ProfileRead(facade: Facade, result: Result<RfProfile, RfFailure>)

  /** The children of the `radio_frequency_control` node. */
  datatype RfStatusXml = RfStatusXml(
    supportsStatusControls: bool,
    supportsSetControls: bool,
    lastSetFrequency: Option<Frequency>,
    profile: Option<RfProfile>)

  /** A newly constructed facade: nothing set, nothing cached. */
  function NewFacade(properties: DomainProperties): Facade
  {
    Facade(properties, None, None)
  }

  function SupportsRfControls(f: Facade): bool
  {
    f.properties.implementsRfProfileControl
  }

  function SupportsStatus(f: Facade): bool
  {
    f.properties.implementsRfProfileStatus
  }

  /** Nothing was set without control support, and nothing is cached
      without status support. */
  predicate Consistent(f: Facade)
  {
    && (!SupportsRfControls(f) ==> f.lastSetFrequency.None?)
    && (!SupportsStatus(f) ==> f.cachedProfile.None?)
  }

  /** `throwIfStatusNotSupported`. */
  function StatusGuard(f: Facade): (r: Option<RfFailure>)
    ensures r.Some? <==> !f.properties.implementsRfProfileStatus
    ensures r.Some? ==> r.value == StatusNotSupported
  {
    if SupportsStatus(f) then None else Some(StatusNotSupported)
  }

  /** `throwIfControlNotSupported`. */
  function ControlGuard(f: Facade): (r: Option<RfFailure>)
    ensures r.Some? <==> !f.properties.implementsRfProfileControl
    ensures r.Some? ==> r.value == ControlNotSupported
  {
    if SupportsRfControls(f) then None else Some(ControlNotSupported)
  }

  /** `getProfileData`: fails when status is unsupported; otherwise answers
      from the cache, or reads from the domain (`fetched`, none when the read
      fails) and caches what it read. */
  function GetProfileData(f: Facade, fetched: Option<RfProfile>): (r: ProfileRead)
    ensures r.result.Failure? && r.result.error == StatusNotSupported <==> !SupportsStatus(f)
    ensures !SupportsStatus(f) ==> r.facade == f
    ensures SupportsStatus(f) && f.cachedProfile.Some? ==> r == ProfileRead(f, Success(f.cachedProfile.value))
    ensures SupportsStatus(f) && f.cachedProfile.None? ==>
      r.result == (if fetched.Some? then Success(fetched.value) else Failure(ProfileReadFailed))
    ensures r.result.Success? ==> r.facade.cachedProfile == Some(r.result.value)
    ensures r.result.Failure? ==> r.facade == f
    ensures r.facade.properties == f.properties && r.facade.lastSetFrequency == f.lastSetFrequency
    ensures Consistent(f) ==> Consistent(r.facade)
  {
    if !SupportsStatus(f) then ProfileRead(f, Failure(StatusNotSupported))
    else if f.cachedProfile.Some? then ProfileRead(f, Success(f.cachedProfile.value))
    else
      match fetched
      case Some(p) => ProfileRead(f.(cachedProfile := Some(p)), Success(p))
      case None => ProfileRead(f, Failure(ProfileReadFailed))
  }

  /** `invalidateProfileData`: fails, leaving the cache alone, when status is
      unsupported; otherwise empties the cache. */
  function InvalidateProfileData(f: Facade): (r: Update)
    ensures r.failure == Some(StatusNotSupported) <==> !SupportsStatus(f)
    ensures r.failure.None? <==> SupportsStatus(f)
    ensures r.failure.Some? ==> r.facade == f
    ensures r.failure.None? ==> r.facade == f.(cachedProfile := None)
    ensures r.calls == []
    ensures Consistent(f) ==> Consistent(r.facade)
  {
    match StatusGuard(f)
    case Some(e) => Update(f, Some(e), [])
    case None => Update(f.(cachedProfile := None), None, [])
  }

  /** `setOperatingFrequency`: fails without a control call when control is
      unsupported; otherwise records the frequency, then calls the control.
      A failing control call leaves the recorded frequency in place. */
  function SetOperatingFrequency(f: Facade, frequency: Frequency, controlThrows: bool): (r: Update)
    ensures !SupportsRfControls(f) ==> r == Update(f, Some(ControlNotSupported), [])
    ensures SupportsRfControls(f) ==>
      && r.facade.lastSetFrequency == Some(frequency)
      && r.calls == [SetRfProfileCenterFrequency(frequency)]
    ensures r.failure.None? <==> SupportsRfControls(f) && !controlThrows
    ensures r.facade.properties == f.properties && r.facade.cachedProfile == f.cachedProfile
    ensures Consistent(f) ==> Consistent(r.facade)
  {
    match ControlGuard(f)
    case Some(e) => Update(f, Some(e), [])
    case None =>
      var recorded := f.(lastSetFrequency := Some(frequency));
      Update(recorded, if controlThrows then Some(ControlCallFailed) else None,
             [SetRfProfileCenterFrequency(frequency)])
  }

  /** `getXml`: the three flag and frequency children always; the profile
      child only when status is supported and the read succeeds. A failed
      read is swallowed. */
  function GetXml(f: Facade, fetched: Option<RfProfile>): (r: (Facade, RfStatusXml))
    ensures r.1.supportsStatusControls == SupportsStatus(f)
    ensures r.1.supportsSetControls == SupportsRfControls(f)
    ensures r.1.lastSetFrequency == f.lastSetFrequency
    ensures r.1.profile.Some? ==> SupportsStatus(f)
    ensures SupportsStatus(f) && f.cachedProfile.Some? ==> r.1.profile == f.cachedProfile
    ensures SupportsStatus(f) && f.cachedProfile.None? ==> r.1.profile == fetched
    ensures !SupportsStatus(f) ==> r.0 == f
    ensures r.0 == f.(cachedProfile := if SupportsStatus(f) && f.cachedProfile.None? then fetched else f.cachedProfile)
    ensures Consistent(f) ==> Consistent(r.0)
  {
    var header := RfStatusXml(SupportsStatus(f), SupportsRfControls(f), f.lastSetFrequency, None);
    if SupportsStatus(f) then
      var read := GetProfileData(f, fetched);
      match read.result
      case Success(p) => (read.facade, header.(profile := Some(p)))
      case Failure(_) => (read.facade, header)
    else
      (f, header)
  }

  /** A new facade is consistent, and stays so under any sequence of the
      facade's operations, since each one keeps it. */
  lemma NewFacadeConsistent(properties: DomainProperties)
    ensures Consistent(NewFacade(properties))
  {
  }

  /** After a successful invalidation, the next read goes to the domain
      rather than answering from the cache, and a failed read is reported. */
  lemma InvalidateForcesRead(f: Facade, fetched: Option<RfProfile>)
    requires SupportsStatus(f)
    ensures var read := GetProfileData(InvalidateProfileData(f).facade, fetched);
      && (read.result.Success? <==> fetched.Some?)
      && (fetched.Some? ==> read.result.value == fetched.value)
      && (fetched.None? ==> read.result == Failure(ProfileReadFailed))
  {
  }

  /** Setting a frequency and reading the status back reports that
      frequency, whether or not the control call itself failed. */
  lemma SetFrequencyThenXmlReportsIt(f: Facade, frequency: Frequency, controlThrows: bool,
                                     fetched: Option<RfProfile>)
    requires SupportsRfControls(f)
    ensures GetXml(SetOperatingFrequency(f, frequency, controlThrows).facade, fetched).1.lastSetFrequency == Some(frequency)
  {
  }

  /** `supportsRfControls` and `supportsStatus` answer from the properties the
      facade was built with: no operation changes them, and each one agrees
      with the guard it stands for. */
  lemma SupportQueriesFixed(f: Facade, frequency: Frequency, controlThrows: bool, fetched: Option<RfProfile>)
    ensures SupportsRfControls(NewFacade(f.properties)) == SupportsRfControls(f)
    ensures SupportsStatus(NewFacade(f.properties)) == SupportsStatus(f)
    ensures SupportsRfControls(f) <==> ControlGuard(f).None?
    ensures SupportsStatus(f) <==> StatusGuard(f).None?
    ensures var g := SetOperatingFrequency(f, frequency, controlThrows).facade;
      SupportsRfControls(g) == SupportsRfControls(f) && SupportsStatus(g) == SupportsStatus(f)
    ensures var g := InvalidateProfileData(f).facade;
      SupportsRfControls(g) == SupportsRfControls(f) && SupportsStatus(g) == SupportsStatus(f)
    ensures var g := GetProfileData(f, fetched).facade;
      SupportsRfControls(g) == SupportsRfControls(f) && SupportsStatus(g) == SupportsStatus(f)
    ensures var g := GetXml(f, fetched).0;
      SupportsRfControls(g) == SupportsRfControls(f) && SupportsStatus(g) == SupportsStatus(f)
  {
  }
}
