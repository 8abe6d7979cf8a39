# DVB tuner device model

A Dafny model of the tuner-device core of Kaffeine's DVB support, as declared in
`src/dvb/dvbdevice.h`:

- **Presence flags** (`DvbDevice::stateFlag`): one bit per device node of an
  adapter (CA, demux, DVR, frontend). The mask `DevicePresent` names the three
  mandatory nodes. Flags are modelled as the 32-bit pattern of the C++ `int`
  that `QFlags` wraps (`Flags.Flags = bv32`), with a set view (`Members`,
  `FromSet`) and round-trip lemmas (module `Presence`).
- **Transmission types** (`DvbDevice::TransmissionType`): DVB-C, DVB-S, DVB-T
  and ATSC as single bits, with the same set view (module `Transmission`).
- **Device state** (`DvbDevice::DeviceState`): NotReady, Idle, RotorMoving,
  Tuning and Tuned. The module `DeviceStates` also holds the pure rule for how
  attaching and detaching nodes moves the state, and the 0..100 reporting scale.
- **PID filter table**: for every 13-bit PID, the `DvbPidFilter` objects that
  receive its 188-byte packets, in registration order (module `PidRegistry`,
  pure functions over `map<int, seq<F>>`).
- **`DvbDevice`** (module `Device`): a class whose fields are the header's
  `deviceId`, `internalState`, `deviceState`, `transmissionTypes`,
  `frontendName`, the four node paths (as one map) and the filter table. Its
  methods update these fields in place, and their contracts tie each new state
  to the functions above. Hardware answers are parameters:
  - the outcome of identification (`Option<Identification>`);
  - whether a tune needs the dish to move (`needsRotor`);
  - the raw signal and SNR readings.
- **`DvbDeviceManager`** (module `Manager`): a class holding the device list as
  a `seq<DvbDevice>`. It routes an attached or detached node, already resolved
  to a device id and node kind, to the device with that id. It creates a device
  for a new id and drops a device that has no node left.

Behaviour the header leaves open is modelled as follows:

- Identification runs when the mandatory set *becomes* complete (the flag
  change in `setInternalState`). On success the device becomes Idle. On failure
  it stays NotReady until the set is broken and completed again.
- Losing a mandatory node makes a ready device NotReady. Its filters are
  dropped and its identification is cleared.
- The header says "all filters will be removed when the device becomes idle".
  The model drops the filter table whenever the state is set to Idle or
  NotReady.
- Registering a (pid, filter) pair that is already registered is a no-op. A
  PID whose last filter is removed disappears from the table.
- `stopDevice` and `tuneDevice` on a NotReady device change nothing.
- Filters may be registered and unregistered in any state, including Idle and
  NotReady. They are dropped only when the state is next set to Idle or
  NotReady. So a device that is already NotReady keeps its table when it loses
  a node, and `stopDevice` on an Idle device that holds filters empties its
  table.
- The `bool` that `componentRemoved(udi)` returns is read as "the device has no
  node left". The header names only the type.
- The manager is read as dropping a device from its list once the device has
  no node left. The header declares the list and the slots but not this policy.
- The transmission-type and presence flags are two separate `QFlags` types in
  the header. They get two modules with the same shape (`Transmission`,
  `Presence`) rather than one generic module over an enumerator-to-bit
  function: keeping each bit function first-order keeps the bit-vector proofs
  cheap.

## Model

| member | source | states |
|---|---|---|
| Transmission.BitIsSingle | src/dvb/dvbdevice.h:44-50 | each TransmissionType enumerator is exactly one bit, inside the four declared bits |
| Transmission.BitsDisjoint | src/dvb/dvbdevice.h:44-50 | two enumerators share a bit if and only if they are the same type |
| Transmission.FromSet | src/dvb/dvbdevice.h:52 | a TransmissionTypes value built from enumerators sets no bit outside the declared four |
| Transmission.MembersOfFromSet | src/dvb/dvbdevice.h:44-52 | a TransmissionTypes value built from a set of types decomposes back to exactly that set |
| Transmission.FromSetOfMembers | src/dvb/dvbdevice.h:44-52 | a TransmissionTypes value with only declared bits is the OR of the types it contains |
| Presence.BitIsSingle | src/dvb/dvbdevice.h:120-124 | each stateFlag enumerator is exactly one bit, inside the four declared bits |
| Presence.BitsDisjoint | src/dvb/dvbdevice.h:120-124 | two presence enumerators share a bit if and only if they are the same node |
| Presence.FromSet | src/dvb/dvbdevice.h:129 | a stateFlags value built from enumerators sets no bit outside the declared four |
| Presence.MembersOfFromSet | src/dvb/dvbdevice.h:120-129 | a stateFlags value built from a set of nodes decomposes back to exactly that set |
| Presence.FromSetOfMembers | src/dvb/dvbdevice.h:120-129 | a stateFlags value with only declared bits is the OR of the nodes it contains |
| Presence.EmptyIsZero | src/dvb/dvbdevice.h:129 | a well-formed stateFlags value records no node exactly when it is zero |
| Presence.MembersOfInsert | src/dvb/dvbdevice.h:120-131 | setting a node's bit records exactly that node as attached and leaves the others as they were |
| Presence.MembersOfErase | src/dvb/dvbdevice.h:120-131 | clearing a node's bit records exactly that node as detached and leaves the others as they were |
| Presence.KeepsWellFormed | src/dvb/dvbdevice.h:120-131 | setting or clearing a node's bit never sets an undeclared bit |
| Presence.DevicePresentIsMandatory | src/dvb/dvbdevice.h:120-127 | DevicePresent equals DemuxPresent, DvrPresent and FrontendPresent ORed together, whose set view is {Demux, Dvr, Frontend} |
| Presence.IsPresentIffMandatory | src/dvb/dvbdevice.h:120-127 | the DevicePresent mask test holds if and only if every mandatory node is attached (both directions) |
| Presence.CaIrrelevant | src/dvb/dvbdevice.h:120-127 | setting or clearing CaPresent never changes whether the DevicePresent mask test holds |
| Presence.MandatoryLoss | src/dvb/dvbdevice.h:122-127 | clearing the bit of demux, DVR or frontend always fails the DevicePresent mask test |
| Presence.FirstNode | src/dvb/dvbdevice.h:120-127 | the first node attached to a device with no node is its only bit, and one node alone never passes the DevicePresent mask test |
| Presence.InsertAllMembers | src/dvb/dvbdevice.h:120-131 | attaching nodes one by one records exactly the initial nodes plus the attached ones |
| Presence.InsertAllOrderIrrelevant | src/dvb/dvbdevice.h:120-131 | attaching the same nodes in any order yields the same stateFlags value |
| DeviceStates.AfterPresenceChange | src/dvb/dvbdevice.h:54-61 | after a change of the attached nodes, the device is ready if and only if the mandatory set is complete and either it was already ready or the set just became complete and identification succeeded; the only state the change can newly produce is Idle from NotReady |
| DeviceStates.ReadyIffComplete | src/dvb/dvbdevice.h:120-133 | attaching nodes one by one leaves the device ready exactly when the attached set covers DevicePresent and identification succeeds |
| DeviceStates.ArrivalOrderIrrelevant | src/dvb/dvbdevice.h:120-133 | for a device starting with no nodes, arrival order never changes whether it ends up ready, and it ends up ready if and only if the mandatory nodes arrived and identification succeeded |
| DeviceStates.Percent | src/dvb/dvbdevice.h:94-100 | the reported signal or SNR lies in 0..100, and a reading already in that range is reported unchanged |
| PidRegistry.Empty | src/dvb/dvbdevice.h:103-106 | the table kept after the device becomes idle has no filter for any PID |
| PidRegistry.Without | src/dvb/dvbdevice.h:109 | taking a filter out of a PID's list leaves every other filter of that list and adds none; a list without duplicates stays without duplicates |
| PidRegistry.WithoutAbsent | src/dvb/dvbdevice.h:109 | taking out a filter that is not in the list leaves the list unchanged |
| PidRegistry.WithoutAppend | src/dvb/dvbdevice.h:109 | taking out a filter keeps the relative order of the remaining filters |
| PidRegistry.Add | src/dvb/dvbdevice.h:103-108 | after addPidFilter the filter is registered under the PID; the earlier filters keep their order at the front and nothing but the filter is added; every other PID's list is unchanged; a valid table stays valid |
| PidRegistry.Remove | src/dvb/dvbdevice.h:103-109 | after removePidFilter the filter is not registered under the PID; every other filter of that PID stays and none is added; every other PID's list is unchanged; a valid table stays valid |
| PidRegistry.AddThenRemove | src/dvb/dvbdevice.h:108-109 | removing a filter just added to a PID where it was absent restores the table exactly |
| PidRegistry.AddIdempotent | src/dvb/dvbdevice.h:108 | registering the same (pid, filter) pair twice equals registering it once |
| PidRegistry.RemoveIdempotent | src/dvb/dvbdevice.h:109 | unregistering the same (pid, filter) pair twice equals unregistering it once, on any table |
| PidRegistry.RemoveUnregistered | src/dvb/dvbdevice.h:109 | unregistering a filter that is not registered under the PID, including under a number outside 0..8191, leaves the table unchanged |
| PidRegistry.SharedFilter | src/dvb/dvbdevice.h:103-109 | one filter object can be registered under two PIDs, and removing it under one leaves it registered under the other |
| PidRegistry.DeliveryOrder | src/dvb/dvbdevice.h:37-38 | two filters added to one PID are listed in registration order; after the first is removed only the second is listed |
| Device.DvbDevice.constructor | src/dvb/dvbdevice.h:63-69 | a new device keeps the given id (GetId returns it, and the field is constant), has no node attached, is NotReady and has no filter |
| Device.DvbDevice.GetDeviceState | src/dvb/dvbdevice.h:74-77 | the stored state is returned; a state other than NotReady implies all mandatory nodes are attached and identification succeeded |
| Device.DvbDevice.GetTransmissionTypes | src/dvb/dvbdevice.h:79-83 | callable only when the device is not NotReady; the flags returned have only declared bits and decompose to exactly the types identification found |
| Device.DvbDevice.GetFrontendName | src/dvb/dvbdevice.h:85-89 | callable only when the device is not NotReady; returns the name identification read |
| Device.DvbDevice.GetSignal | src/dvb/dvbdevice.h:94-99 | callable only while Tuning or Tuned; the result lies in 0..100 |
| Device.DvbDevice.GetSnr | src/dvb/dvbdevice.h:94-100 | callable only while Tuning or Tuned; the result lies in 0..100 |
| Device.DvbDevice.AddPidFilter | src/dvb/dvbdevice.h:103-108 | the filter table becomes PidRegistry.Add of the old table; no other field changes |
| Device.DvbDevice.RemovePidFilter | src/dvb/dvbdevice.h:103-109 | for any int PID, the filter table becomes PidRegistry.Remove of the old table; no other field changes |
| Device.DvbDevice.SetDeviceState | src/dvb/dvbdevice.h:105 | the new state is stored; entering Idle or NotReady drops every filter registration; other states keep the table |
| Device.DvbDevice.IdentifyDevice | src/dvb/dvbdevice.h:133 | succeeds exactly when the frontend answered; transmissionTypes and frontendName then hold the answer, and are cleared otherwise |
| Device.DvbDevice.SetInternalState | src/dvb/dvbdevice.h:131 | stores the new flags; the new state is AfterPresenceChange of the old one; becoming Idle comes with the identification found and an empty filter table; falling to NotReady clears identification and filters; an unchanged state changes nothing else |
| Device.DvbDevice.ComponentAdded | src/dvb/dvbdevice.h:71 | sets the node's bit and records its path; a ready device keeps its state, and a NotReady one becomes Idle exactly when the mandatory set just became complete and identification succeeded |
| Device.DvbDevice.ComponentRemoved | src/dvb/dvbdevice.h:72 | clears the node's bit and path; losing a mandatory node leaves the device NotReady with no identification; a device that was ready also loses its filters, types and name, while one that was already NotReady keeps its filter table; losing CA changes nothing else; returns true exactly when no node is left |
| Device.DvbDevice.TuneDevice | src/dvb/dvbdevice.h:91 | a ready device enters RotorMoving when the dish must move and Tuning otherwise; a NotReady device is left NotReady |
| Device.DvbDevice.StopDevice | src/dvb/dvbdevice.h:92 | a ready device becomes Idle with no filter registered; a NotReady device is left as it is |
| Manager.DvbDeviceManager.constructor | src/dvb/dvbdevice.h:164 | a new manager holds no device |
| Manager.DvbDeviceManager.GetDeviceList | src/dvb/dvbdevice.h:167-170 | returns the held list itself (a function, so nothing is modified), in which no two devices share an id |
| Manager.DvbDeviceManager.FindDevice | src/dvb/dvbdevice.h:179 | finds the position of the held device with a given id, or reports that no held device has it |
| Manager.DvbDeviceManager.ComponentAdded | src/dvb/dvbdevice.h:177 | ids stay unique and no other device changes; a held device with that id gains exactly the node (its earlier nodes stay) and its path, and its state, identification and filters change exactly as Device.DvbDevice.ComponentAdded states; otherwise a new device is appended that holds only that node, is NotReady, has no identification and no filter |
| Manager.DvbDeviceManager.ComponentRemoved | src/dvb/dvbdevice.h:174 | an unknown id changes nothing and no other device changes; the device with that id loses exactly the node and its path, is dropped from the list exactly when no node is left, and its state, identification and filters change exactly as Device.DvbDevice.ComponentRemoved states (losing CA leaves them all as they were) |

## Left out

- `isTuned()` reads the frontend's lock bit straight from the hardware. The model holds no state it depends on.
- `frontendEvent`, `frontendTimer` and `frontendTimeout` are the timer-driven polling that moves RotorMoving to Tuning and Tuning to Tuned or Idle. Timers and the event loop are not modelled; those transitions are reachable only through `SetDeviceState`.
- Device.DvbDevice.TuneDevice: does not cancel the previous sequence's timers, because timers are not modelled. `DvbTransponder` and `DvbConfig` are opaque; the only thing taken from them is whether the dish must move.
- `DvbDeviceThread`, the background packet reader, and the calls to `DvbPidFilter::processData` are concurrency and are not modelled. The filter table gives the filters each packet would reach, in order.
- Node identity is not modelled. On attach, Solid resolves the hot-plug udi to a device id and node kind. On removal, the device compares the udi with the `Solid::Device` it keeps for each node (`caComponent` … `frontendComponent`). Both lookups are left out. The device and manager operations take the resolved id and node kind; an udi matching none of the nodes is not modelled.
- The manager's udi slots `componentAdded(const QString &)` and `componentRemoved(const QString &)` are not modelled beyond that routing.
- Identification's hardware queries, the frontend file descriptor and ioctls are not modelled. Their outcome is the `probe` parameter.
- Device.DvbDevice.GetSignal: the scaling from the hardware's raw range is not in the header. The model clamps a reading to 0..100 and promises only that range and that in-range readings are kept.
- Device.DvbDevice.GetSnr: same as GetSignal.
- Device.DvbDevice.AddPidFilter: requires `0 <= pid < 8192` (the 13-bit PID of section 2.4.3.2 of ISO/IEC 13818-1), whereas the header accepts any `int`.
- The `stateChanged()` signal is not modelled; delivering it to Qt observers is outside the device's state.
- Destructors of the device and the manager are not modelled.
- `getId()` carries no contract of its own: `deviceId` is a constant field, and the constructor's contract states that `GetId()` returns the id it was given.
