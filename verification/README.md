# DPTF policy manager core, modelled in Dafny

This project models the core of the Dynamic Platform and Thermal Framework
(DPTF) policy engine: the policy manager that creates, destroys and looks up
loaded policies and that fans event registrations in to the firmware layer,
the work item that delivers "passive table changed" to every policy, and two
participant-side pieces the policies rely on — the pixel-clock capability
normalisation of a display domain and the capability-gated radio-frequency
control facade.

The style is functional. The manager is an immutable value: a map from
policy index to slot plus the set of events some policy is registered for.
A slot is `Null` or `Live(policy)`, mirroring the shared pointers the code
checks for null. Every operation returns a `Step`: the manager afterwards,
an outcome (`Done` or `Raised(failure)`, in place of C++ exceptions), the
calls made to the firmware registration interface, and the error messages
logged in place of a propagated failure. Collaborators whose code is not
here become inputs: what loading a module comes to (`Loaded`,
`NotInSupportedList`, `LoadFailed`), whether a policy's teardown throws,
whether submitting a work item fails, what a policy's event handler does,
and what a firmware primitive read returns.

The invariant `PolicyManager.Valid` says no entry is null and every event a
live policy is registered for has its bit set. Every manager operation
keeps it. On top of it the project proves rollback on a failed create,
erase-always on destroy, a uniform lookup failure, first-time and last-time
firmware calls, the fatal start-up check, index reuse, gap tolerance in the
work item, and the input normalisation of the pixel-clock domain.

Three behaviours of the code are modelled as written and worth knowing:

- `registerEvent` sets the event's bit and may call the firmware before it
  looks the policy up. An invalid index therefore raises after both have
  happened (`PolicyManager.RegisterEvent` states this).
- `unregisterEvent` does nothing when no live policy is registered for the
  event, even if the event's bit is still set.
- `destroyPolicy` clears no event bit. Destroying the last policy registered
  for an event therefore leaves its bit set. Any later `unregisterEvent` for
  that event is then a no-op, so the manager never releases the firmware
  registration (`PolicyManagerProperties.DestroyKeepsEventRegistered`).
  Whether the policy's own teardown releases it is not part of this model.

Files: `outcomes.dfy` (Option, Result), `index_sets.dfy` (first free index,
ascending key order), `policy_manager.dfy`, `policy_manager_status.dfy`,
`policy_manager_properties.dfy`, `passive_table_changed.dfy`,
`pixel_clock_status.dfy`, `rf_control_facade.dfy`.

## Model

| member | source | states |
|---|---|---|
| PolicyManager.GetPolicyPtr | DPTF/Sources/Manager/PolicyManager.cpp:149-158 | The lookup fails with the invalid-index condition exactly when the index holds no non-null policy. Otherwise it returns the policy stored at that index. |
| PolicyManager.GetPolicyCount | DPTF/Sources/Manager/PolicyManager.cpp:233-246 | The scan returns the number of indexes that hold a non-null policy, which is never more than the map size. |
| PolicyManager.PolicyListCount | DPTF/Sources/Manager/PolicyManager.cpp:144-147 | The raw number of map entries, null ones included: never less than the live count, and 0 exactly when the map is empty. |
| PolicyManager.IsAnyPolicyRegisteredForEvent | DPTF/Sources/Manager/PolicyManager.cpp:217-231 | The early-exit scan returns true exactly when some live policy is registered for the event. |
| PolicyManager.DestroyPolicy | DPTF/Sources/Manager/PolicyManager.cpp:124-142 | Never raises. A live entry is erased whether or not its teardown throws, and a teardown failure is logged with the index. An absent or null index changes nothing. No other entry and no event bit changes, and the invariant is kept. |
| PolicyManager.RollBack | DPTF/Sources/Manager/PolicyManager.cpp:90-98 | Destroying the half-created policy at a fresh index gives back exactly the manager the creation started from. |
| PolicyManager.CreatePolicy | DPTF/Sources/Manager/PolicyManager.cpp:69-99 | A loaded module goes to the first available index: one not in use before the call, with every lower index in use. Every existing entry is unchanged. "Not in supported list" raises nothing and leaves the manager as it was. Any other failure leaves the manager as it was and is re-raised. The live count grows by one only on success, and the invariant is kept. |
| PolicyManager.CreateEach | DPTF/Sources/Manager/PolicyManager.cpp:50-55 | The create-all work item never raises and keeps every existing entry. The live count grows by exactly the number of candidates whose module loads. |
| PolicyManager.CreateAllPolicies | DPTF/Sources/Manager/PolicyManager.cpp:48-67 | The only condition raised is "no policies loaded", and it is raised exactly when the live count is 0 afterwards. Existing entries and event bits are always kept, and the live count grows by the number of loadable candidates. A failure to submit the work item is logged and swallowed, and the manager is left unchanged. |
| PolicyManager.DestroyOne | DPTF/Sources/Manager/PolicyManager.cpp:106-119 | A non-null entry whose destroy item is submitted is erased. One whose submission fails stays, and the failure is logged with its index. A null entry is skipped. |
| PolicyManager.DestroyAllPolicies | DPTF/Sources/Manager/PolicyManager.cpp:101-122 | Afterwards exactly the entries that were null, or whose destroy could not be submitted, remain, and they are unchanged. Each submission failure and each teardown failure is logged with its index. With no null entries and no submission failure, the map ends empty. |
| PolicyManager.RegisterEvent | DPTF/Sources/Manager/PolicyManager.cpp:160-172 | The firmware is called, once, exactly when the event's bit was clear and the event needs firmware registration. The bit is set afterwards. The event is added to the policy's own events, and no other policy changes. An invalid index raises the invalid-index condition, with the bit and the firmware call already done. |
| PolicyManager.UnregisterEvent | DPTF/Sources/Manager/PolicyManager.cpp:174-188 | A no-op when no live policy is registered for the event. Otherwise it succeeds exactly when the index holds a live policy, and then the event is removed from that policy. The event's bit then says whether any live policy is still registered. The firmware is released, once, exactly when none is and the event needs firmware registration. An invalid index raises and changes nothing. |
| ManagerStatus.ListedEvents | DPTF/Sources/Manager/PolicyManager.cpp:266-278 | The event list holds every event type below the event count except the invalid type 0, in ascending order. |
| ManagerStatus.EventValues | DPTF/Sources/Manager/PolicyManager.cpp:248-264 | There is one value per listed event, in list order, and it is true exactly when the policy is registered for that event. |
| ManagerStatus.PolicyStatuses | DPTF/Sources/Manager/PolicyManager.cpp:195-213 | The loop over the map yields at most one child per visited key. |
| ManagerStatus.PolicyStatusesSound | DPTF/Sources/Manager/PolicyManager.cpp:195-213 | Every child reports a live, readable policy found at one of the visited keys, with that policy's name and its event values. |
| ManagerStatus.PolicyStatusesComplete | DPTF/Sources/Manager/PolicyManager.cpp:195-213 | Every live, readable policy at a visited key gets a child. A null entry, or one whose status cannot be read, is skipped without failing the report. |
| ManagerStatus.PolicyStatusesInKeyOrder | DPTF/Sources/Manager/PolicyManager.cpp:195 | Visiting the keys in ascending order gives the children in ascending index order. |
| ManagerStatus.GetStatusAsXml | DPTF/Sources/Manager/PolicyManager.cpp:190-215 | Status reporting never fails. The report lists the events, then exactly one child per live policy whose status can be read, in index order, and drops the others silently. |
| IndexSets.FirstAvailableIndex | DPTF/Sources/Manager/PolicyManager.cpp:76-77 | The index chosen for a new policy is not in use, and every lower index is in use. |
| PolicyManagerProperties.NoNullsCountsAgree | DPTF/Sources/Manager/PolicyManager.cpp:144-147 | Without null entries, the raw map size equals the live count. |
| PolicyManagerProperties.LookupOnEmptyFails | DPTF/Sources/Manager/PolicyManager.cpp:149-155 | In a freshly constructed manager, every lookup fails with the invalid-index condition. |
| PolicyManagerProperties.LookupAfterDestroyFails | DPTF/Sources/Manager/PolicyManager.cpp:124-155 | After a destroy, whatever its teardown did, a lookup of that index fails with the invalid-index condition. |
| PolicyManagerProperties.DestroyIgnoresTeardown | DPTF/Sources/Manager/PolicyManager.cpp:129-140 | A teardown that throws and one that does not leave the same manager, and neither raises. |
| PolicyManagerProperties.IndexReuse | DPTF/Sources/Manager/PolicyManager.cpp:76-78 | Destroy a live policy whose lower indexes are all occupied, then create a new one: the new policy gets that same index. |
| PolicyManagerProperties.RejectedModuleChangesNothing | DPTF/Sources/Manager/PolicyManager.cpp:90-93 | A module that is not in the supported list leaves the manager, and so the live count, unchanged, and raises nothing. |
| PolicyManagerProperties.SecondRegistrationSkipsFirmware | DPTF/Sources/Manager/PolicyManager.cpp:162-170 | Once an event is registered, a second registration by any policy makes no firmware call. |
| PolicyManagerProperties.TwoPoliciesShareFirmwareRegistration | DPTF/Sources/Manager/PolicyManager.cpp:160-188 | Two policies register for a new event, then both unregister. The firmware is called once, on the first registration, and released once, on the second unregistration. |
| PolicyManagerProperties.NothingLoadableIsFatal | DPTF/Sources/Manager/PolicyManager.cpp:63-66 | With no policy loaded and no loadable module, start-up raises "no policies loaded", whether or not the work item was submitted. |
| PolicyManagerProperties.OneLoadableSuffices | DPTF/Sources/Manager/PolicyManager.cpp:63-66 | Once the create-all item runs, one loadable module is enough for start-up to succeed. |
| PolicyManagerProperties.TwoCreatedFillZeroAndOne | DPTF/Sources/Manager/PolicyManager.cpp:76-78 | Two policies created in an empty manager are placed at indexes 0 and 1. |
| PolicyManagerProperties.DestroyKeepsEventRegistered | DPTF/Sources/Manager/PolicyManager.cpp:124-142 | Destroying the only policy registered for an event leaves the event's bit set. A later unregistration of that event, at any index, is then a no-op that makes no firmware call. |
| PassiveTableChanged.Dispatch | DPTF/Sources/Manager/WIPolicyPassiveTableChanged.cpp:39-54 | The handler runs for exactly the visited indexes that hold a live policy. Invalid indexes are skipped without logging. Exactly the indexes whose handler raised a standard exception other than invalid-index are logged. A handler that raises invalid-index is caught by the same clause as a failed lookup and is not logged. A failure does not stop the remaining indexes. |
| PassiveTableChanged.DispatchInOrder | DPTF/Sources/Manager/WIPolicyPassiveTableChanged.cpp:39 | Indexes visited in ascending order are handled, and logged, in ascending order, each at most once. |
| PassiveTableChanged.ExecuteAsWritten | DPTF/Sources/Manager/WIPolicyPassiveTableChanged.cpp:32-55 | The map size is sampled once. The handler runs for exactly the live indexes below that size, in ascending order, each once. Live indexes at or above the size are not reached. |
| PassiveTableChanged.Execute | DPTF/Sources/Manager/WIPolicyPassiveTableChanged.cpp:32-55 | Corrected delivery: the handler runs for exactly the live indexes, in ascending order, each once. Failures are logged per index and do not stop delivery. |
| PassiveTableChanged.AsWrittenAgreesWithoutGaps | DPTF/Sources/Manager/WIPolicyPassiveTableChanged.cpp:37-39 | Without null entries or gaps, the code as written delivers exactly what the corrected item delivers. |
| PassiveTableChanged.AsWrittenMissesPolicyAboveGap | DPTF/Sources/Manager/WIPolicyPassiveTableChanged.cpp:37-39 | Create two policies and destroy the one at index 0. The code as written then reaches no policy, while the corrected item reaches the live policy at index 1. |
| PixelClockStatus.SubstituteDefaults | DPTF/Sources/UnifiedParticipant/DomainPixelClockStatus_001.cpp:77-85 | A deviation of 0 becomes exactly 2, and a non-zero deviation is kept. If neither direction is allowed, both become allowed; otherwise both direction flags are kept. The result is therefore always usable, usable capabilities come back unchanged, and no other field changes. |
| PixelClockStatus.GetPixelClockCapabilities | DPTF/Sources/UnifiedParticipant/DomainPixelClockStatus_001.cpp:32-91 | A deviation of 0 becomes 2, and any other deviation passes through. If both direction bytes are 0, both directions become allowed; otherwise each flag is "byte read != 0". SSC enabled is "byte read != 0", and the other reads pass through. |
| PixelClockStatus.SubstituteDefaultsIdempotent | DPTF/Sources/UnifiedParticipant/DomainPixelClockStatus_001.cpp:77-85 | Substituting defaults a second time changes nothing. |
| PixelClockStatus.UsableReadsPassThrough | DPTF/Sources/UnifiedParticipant/DomainPixelClockStatus_001.cpp:77-85 | The normalisation leaves the reads as they are exactly when they already give a non-zero deviation and at least one direction. |
| PixelClockStatus.GetPixelClockDataSet | DPTF/Sources/UnifiedParticipant/DomainPixelClockStatus_001.cpp:93-120 | Fails exactly when some clock below the count reads an original frequency of 0. On success there are exactly `clockCount` entries, in clock order. Entry i holds the original, SSC-enabled and SSC-disabled frequencies read for clock i through its one-byte instance. With more than 256 clocks, entry i + 256 is the same as entry i. |
| PixelClockStatus.ClockInstance | DPTF/Sources/UnifiedParticipant/DomainPixelClockStatus_001.cpp:102-103 | Below 256, the one-byte primitive instance of a clock is the clock's own number. |
| PixelClockStatus.ClockInstanceWraps | DPTF/Sources/UnifiedParticipant/DomainPixelClockStatus_001.cpp:102-103 | The one-byte primitive instance of clock i + 256 is the one of clock i. |
| RadioFrequencyControl.StatusGuard | DPTF/Sources/Policies/PolicyLib/RadioFrequencyControlFacade.cpp:90-96 | Raises "status not supported" exactly when the domain does not implement the RF profile status interface. |
| RadioFrequencyControl.ControlGuard | DPTF/Sources/Policies/PolicyLib/RadioFrequencyControlFacade.cpp:98-104 | Raises "control not supported" exactly when the domain does not implement the RF profile control interface. |
| RadioFrequencyControl.SupportQueriesFixed | DPTF/Sources/Policies/PolicyLib/RadioFrequencyControlFacade.cpp:42-50 | `supportsRfControls` and `supportsStatus` answer from the domain properties the facade was built with. No facade operation changes either answer, and each answer is true exactly when its guard lets calls through. |
| RadioFrequencyControl.GetProfileData | DPTF/Sources/Policies/PolicyLib/RadioFrequencyControlFacade.cpp:52-56 | Fails with "status not supported" exactly when status is unsupported. Otherwise it answers from the cache, or reads and caches. Any failure, including a failed read, leaves the facade unchanged. The recorded frequency and the capabilities never change. |
| RadioFrequencyControl.InvalidateProfileData | DPTF/Sources/Policies/PolicyLib/RadioFrequencyControlFacade.cpp:58-62 | Fails exactly when status is unsupported, and then the cache is not invalidated. Otherwise the cache is emptied and nothing else changes. |
| RadioFrequencyControl.SetOperatingFrequency | DPTF/Sources/Policies/PolicyLib/RadioFrequencyControlFacade.cpp:64-69 | Without control support it fails, makes no control call and changes nothing. With support the frequency is recorded and one control call with it is made. The recorded frequency stays even if that call fails. |
| RadioFrequencyControl.GetXml | DPTF/Sources/Policies/PolicyLib/RadioFrequencyControlFacade.cpp:71-88 | The report always carries the two support flags and the last frequency set. The profile child appears only when status is supported and the profile can be read. A read failure is swallowed. The only change to the facade is caching a profile read, when status is supported and nothing was cached. |
| RadioFrequencyControl.NewFacadeConsistent | DPTF/Sources/Policies/PolicyLib/RadioFrequencyControlFacade.cpp:24-36 | A new facade has nothing recorded and nothing cached, so it is consistent with its capabilities whatever they are. |
| RadioFrequencyControl.InvalidateForcesRead | DPTF/Sources/Policies/PolicyLib/RadioFrequencyControlFacade.cpp:58-62 | After a successful invalidation, the next profile read goes to the domain and reports its failure. |
| RadioFrequencyControl.SetFrequencyThenXmlReportsIt | DPTF/Sources/Policies/PolicyLib/RadioFrequencyControlFacade.cpp:66-76 | After setting a frequency with control supported, the status report shows that frequency, even if the control call failed. |

## Left out

- `reloadAllPolicies`: the supported-policy list and its directory re-scan are not modelled. The create pass that follows is `CreateAllPolicies`.
- The destructor: it only calls `destroyAllPolicies`, which is modelled.
- The work item queue: `enqueueImmediateWorkItemAndWait` is a synchronous call. Either the item runs to completion or submitting it fails. Cross-thread rendezvous is out of scope.
- `WIPolicyCreateAll` and `WIPolicyDestroy` are not part of this model. The create-all item is modelled as calling `createPolicy` for each candidate in turn, logging a re-raised failure and carrying on. The destroy item is modelled as `destroyPolicy` on its index. A failed submission is modelled as the item not running.
- The internals of loading a policy module (`Policy::createPolicy`, `destroyPolicy`, `isEventRegistered`). They become inputs: a load outcome, whether teardown throws, and a per-policy set of events. A new policy starts with no events. Registrations a module makes while it is being created are calls to `RegisterEvent` in their own right.
- `getFirstAvailableIndex` and `MapOps` are not part of this model. The first available index is taken to be the lowest unused one, as its name says. `CreatePolicy`'s contract places a new policy at that lowest unused index, so it relies on this assumption.
- `Policy::destroyPolicy` is not part of this model. Whether a policy's teardown unregisters its events, and so whether the firmware registration is released when the last registered policy is destroyed, is not modelled. `DestroyPolicy` keeps every event bit, as the manager's own code does.
- Calls to the firmware registration interface are assumed never to fail. In the code a failing `registerEvent` call propagates before the event's bit is set. A failing `unregisterEvent` call propagates after the bit is cleared. Neither case is modelled.
- Integer widths: policy indexes, counts and event types are unbounded naturals. The 32-bit `UIntN`, the `Constants::Invalid` sentinel and the bitset's range check on event types are not modelled.
- `PolicyEvent::ToFrameworkEvent` and `RequiresEsifEventRegistration`: the firmware trace records the policy event itself. The events that need firmware registration are an input set.
- Exceptions not derived from `std::exception` thrown by a policy handler would escape the work item's loop. Handlers are modelled as raising only standard exceptions.
- Logging of informational messages, message formatting, and XML node construction beyond which children appear and in what order. Event names (`PolicyEvent::toString`) are left out.
- Firmware primitive reads in the pixel-clock domain are plain inputs. A failing read propagates unchanged in the code and is not modelled.
- `sendActivityLoggingDataIfEnabled`, `clearCachedData`, `getXml` (not implemented in the code) and `getName` of the pixel-clock domain.
- The RF profile data object is not part of this model. It is modelled as a cache that is filled on a read and emptied on invalidation, and only a centre frequency is kept of its contents. `m_controlsHaveBeenInitialized` is never read and is left out.
- `Frequency` and `Percentage` are opaque naturals. The panel, channel and spread types stay raw 32-bit values, since the code casts them without a check.
- The null-object domain declarations (display control, power control) and `PerformanceControlStaticCaps`. The first are declarations without bodies. The second is a Boolean getter plus XML output.

## Findings

| source | as written | input that shows it | evidently intended | confidence | as-written member | corrected member |
|---|---|---|---|---|---|---|
| DPTF/Sources/Manager/WIPolicyPassiveTableChanged.cpp:37-39 | The loop visits indexes 0 up to the map size. After a destroy leaves a gap, keys can be larger than the size. | Create policies at 0 and 1, then destroy index 0. The map is {1}, its size is 1, and only index 0 is visited. The live policy at 1 never gets the event. | Every live policy gets the event, and gaps are skipped as the invalid-index catch intends. | medium; not executed | PassiveTableChanged.ExecuteAsWritten, PassiveTableChanged.AsWrittenMissesPolicyAboveGap | PassiveTableChanged.Execute |
