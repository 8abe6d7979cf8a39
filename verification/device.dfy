/** One tuner (`DvbDevice`): which of its device nodes are attached, its
    readiness and tuning state, what identification found, and its PID
    filter table. Hardware outcomes (identification, whether the dish has to
    move, raw signal readings) are parameters of the operations. */
module Device {
  import opened Flags
  import Transmission
  import Presence
  import opened DeviceStates
  import PidRegistry

  datatype Option<T> = None | Some(value: T)

  /** What identification reads from the frontend: the delivery systems it
      supports and its name. */
  datatype Identification = Identification(types: set<Transmission.TransmissionType>, name: string)

  /** A consumer of transport-stream packets (`DvbPidFilter`). Only its
      identity matters to the device: the same object may be registered under
      several PIDs. */
  class DvbPidFilter {
    constructor ()
    {
    }
  }

  class DvbDevice {
    const deviceId: int
    var internalState: Flags
    var deviceState: DeviceState
    var transmissionTypes: Flags
    var frontendName: string
    var paths: map<Presence.Component, string>
    var pidFilters: PidRegistry.Registry<DvbPidFilter>
    /** The last identification that succeeded and still holds. */
    ghost var identified: Option<Identification>

    /** The invariant every private step keeps: a device that is not NotReady
        has all mandatory nodes and was identified; the identification fields
        hold what identification found, or are cleared. */
    ghost predicate Consistent()
      reads this
    {
      && Presence.WellFormed(internalState)
      && (deviceState != NotReady ==> Presence.IsPresent(internalState) && identified.Some?)
      && (identified.Some? ==>
            transmissionTypes == Transmission.FromSet(identified.value.types) &&
            frontendName == identified.value.name)
      && (identified.None? ==> transmissionTypes == 0 && frontendName == "")
      && PidRegistry.Valid(pidFilters)
    }

    /** The invariant between public calls: moreover a NotReady device keeps no
        identification, and a path is recorded exactly for the attached nodes. */
    ghost predicate Valid()
      reads this
    {
      && Consistent()
      && (identified.Some? ==> deviceState != NotReady)
      && paths.Keys == Presence.Members(internalState)
    }

    /** `DvbDevice(deviceId_)`: nothing attached, not ready, no filters. */
    constructor (id: int)
      ensures Valid()
      ensures deviceId == id && GetId() == id
      ensures deviceState == NotReady && internalState == 0 && paths == map[]
      ensures pidFilters == PidRegistry.Empty()
    {
      deviceId := id;
      internalState := 0;
      deviceState := NotReady;
      transmissionTypes := 0;
      frontendName := "";
      paths := map[];
      pidFilters := PidRegistry.Empty();
      identified := None;
    }

    /** `getId()`: `deviceId` is a constant field, so every call returns the
        id given to the constructor. */
    function GetId(): int
    {
      deviceId
    }

    /** `getDeviceState()`: a ready device always has its mandatory nodes
        attached and was identified. */
    function GetDeviceState(): (r: DeviceState)
      requires Valid()
      reads this
      ensures r == deviceState
      ensures r != NotReady ==> Presence.IsPresent(internalState) && identified.Some?
    {
      deviceState
    }

    /** `getTransmissionTypes()`: only on a ready device; the flags returned
        decompose to exactly the systems identification found. */
    function GetTransmissionTypes(): (r: Flags)
      requires Valid() && deviceState != NotReady
      reads this
      ensures Transmission.WellFormed(r)
      ensures Transmission.Members(r) == identified.value.types
    {
      Transmission.MembersOfFromSet(identified.value.types);
      transmissionTypes
    }

    /** `getFrontendName()`: only on a ready device; the name identification
        read. */
    function GetFrontendName(): (r: string)
      requires Valid() && deviceState != NotReady
      reads this
      ensures r == identified.value.name
    {
      frontendName
    }

    /** `getSignal()`: only while tuning or tuned; `reading` is the hardware's
        value, reported on the 0..100 scale. */
    method GetSignal(reading: int) returns (r: int)
      requires Valid() && CanReadSignal(deviceState)
      ensures 0 <= r <= 100
      ensures 0 <= reading <= 100 ==> r == reading
    {
      r := Percent(reading);
    }

    /** `getSnr()`: only while tuning or tuned; `reading` is the hardware's
        value, reported on the 0..100 scale. */
    method GetSnr(reading: int) returns (r: int)
      requires Valid() && CanReadSignal(deviceState)
      ensures 0 <= r <= 100
      ensures 0 <= reading <= 100 ==> r == reading
    {
      r := Percent(reading);
    }

    /** `addPidFilter(pid, filter)`: the filter is registered under `pid`,
        nothing else changes. */
    method AddPidFilter(pid: int, filter: DvbPidFilter)
      requires Valid() && PidRegistry.IsPid(pid)
      modifies this`pidFilters
      ensures Valid()
      ensures pidFilters == PidRegistry.Add(old(pidFilters), pid, filter)
    {
      pidFilters := PidRegistry.Add(pidFilters, pid, filter);
    }

    /** `removePidFilter(pid, filter)`: the filter's registration under `pid`
        is dropped, nothing else changes; a PID outside 0..8191 has no
        registration, so removing under it changes nothing. */
    method RemovePidFilter(pid: int, filter: DvbPidFilter)
      requires Valid()
      modifies this`pidFilters
      ensures Valid()
      ensures pidFilters == PidRegistry.Remove(old(pidFilters), pid, filter)
    {
      pidFilters := PidRegistry.Remove(pidFilters, pid, filter);
    }

    /** `setDeviceState(newState)`: records the new state; whenever the device
        is left idle or not ready, every filter registration is dropped. */
    method SetDeviceState(newState: DeviceState)
      requires Consistent()
      requires newState != NotReady ==> Presence.IsPresent(internalState) && identified.Some?
      modifies this`deviceState, this`pidFilters
      ensures Consistent()
      ensures deviceState == newState
      ensures pidFilters == if IsActive(newState) then old(pidFilters) else PidRegistry.Empty()
    {
      deviceState := newState;
      if !IsActive(newState) {
        pidFilters := PidRegistry.Empty();
      }
    }

    /** `identifyDevice()`: asks the frontend what it supports; `probe` is the
        answer, `None` when the frontend cannot be queried. */
    method IdentifyDevice(probe: Option<Identification>) returns (ok: bool)
      requires Consistent() && deviceState == NotReady
      modifies this`transmissionTypes, this`frontendName, this`identified
      ensures Consistent()
      ensures ok == probe.Some? && identified == probe
    {
      identified := probe;
      ok := probe.Some?;
      match probe
      case Some(found) =>
        transmissionTypes := Transmission.FromSet(found.types);
        frontendName := found.name;
      case None =>
        transmissionTypes := 0;
        frontendName := "";
    }

    /** `setInternalState(newState)`: records the attached nodes. When the
        mandatory set becomes complete the device is identified and, on
        success, becomes idle; when it becomes incomplete a ready device
        drops its filters and identification and becomes not ready. */
    method SetInternalState(newState: Flags, probe: Option<Identification>)
      requires Consistent() && (identified.Some? ==> deviceState != NotReady)
      requires Presence.WellFormed(newState)
      modifies this`internalState, this`deviceState, this`pidFilters
      modifies this`transmissionTypes, this`frontendName, this`identified
      ensures Consistent() && (identified.Some? ==> deviceState != NotReady)
      ensures internalState == newState
      ensures deviceState == AfterPresenceChange(old(deviceState),
        Presence.IsPresent(old(internalState)), Presence.IsPresent(newState), probe.Some?)
      ensures old(deviceState) == NotReady && deviceState == Idle ==>
        identified == probe && pidFilters == PidRegistry.Empty()
      ensures old(deviceState) != NotReady && deviceState == NotReady ==>
        identified == None && pidFilters == PidRegistry.Empty()
      ensures deviceState == old(deviceState) ==>
        identified == old(identified) && pidFilters == old(pidFilters)
    {
      var wasPresent := Presence.IsPresent(internalState);
      var nowPresent := Presence.IsPresent(newState);
      if !nowPresent && deviceState != NotReady {
        SetDeviceState(NotReady);
        identified := None;
        transmissionTypes := 0;
        frontendName := "";
      }
      internalState := newState;
      if nowPresent && !wasPresent {
        var ok := IdentifyDevice(probe);
        if ok {
          SetDeviceState(Idle);
        }
      }
    }

    /** `componentAdded(component)`: the node `c` at `path` is attached. It
        never makes a ready device lose readiness. */
    method ComponentAdded(c: Presence.Component, path: string, probe: Option<Identification>)
      requires Valid()
      modifies this
      ensures Valid()
      ensures internalState == Presence.Insert(old(internalState), c)
      ensures paths == old(paths)[c := path]
      ensures deviceState == AfterPresenceChange(old(deviceState),
        Presence.IsPresent(old(internalState)), Presence.IsPresent(internalState), probe.Some?)
      ensures old(deviceState) != NotReady ==> deviceState == old(deviceState)
      ensures old(deviceState) == NotReady && deviceState == Idle ==>
        identified == probe && pidFilters == PidRegistry.Empty()
      ensures deviceState == old(deviceState) ==>
        identified == old(identified) && pidFilters == old(pidFilters)
    {
      Presence.MembersOfInsert(internalState, c);
      Presence.KeepsWellFormed(internalState, c);
      SetInternalState(Presence.Insert(internalState, c), probe);
      paths := paths[c := path];
    }

    /** `componentRemoved(udi)`, with the node already resolved to `c`: the
        node is detached. Losing a mandatory node makes a ready device not
        ready, with no filters and no identification; a device that was not
        ready keeps its filter table; losing the CA node changes nothing
        else. Returns whether no node is left. */
    method ComponentRemoved(c: Presence.Component) returns (empty: bool)
      requires Valid()
      modifies this
      ensures Valid()
      ensures empty <==> internalState == 0
      ensures empty <==> paths == map[]
      ensures internalState == Presence.Erase(old(internalState), c)
      ensures paths == old(paths) - {c}
      ensures c in Presence.Mandatory ==> deviceState == NotReady && identified == None
      ensures c in Presence.Mandatory && old(deviceState) != NotReady ==>
        pidFilters == PidRegistry.Empty() && transmissionTypes == 0 && frontendName == ""
      ensures old(deviceState) == NotReady ==> deviceState == NotReady && pidFilters == old(pidFilters)
      ensures c == Presence.Ca ==>
        deviceState == old(deviceState) && identified == old(identified) && pidFilters == old(pidFilters)
    {
      Presence.CaIrrelevant(internalState);
      Presence.MembersOfErase(internalState, c);
      Presence.KeepsWellFormed(internalState, c);
      if c in Presence.Mandatory {
        Presence.MandatoryLoss(internalState, c);
      }
      SetInternalState(Presence.Erase(internalState, c), None);
      paths := paths - {c};
      Presence.EmptyIsZero(internalState);
      empty := internalState == 0;
    }

    /** `tuneDevice(transponder, config)`: a ready device starts a tune
        sequence, first turning the dish when `needsRotor` says the target
        needs it. Transponder and configuration are opaque here. */
    method TuneDevice(needsRotor: bool)
      requires Valid()
      modifies this`deviceState
      ensures Valid()
      ensures old(deviceState) == NotReady ==> deviceState == NotReady
      ensures old(deviceState) != NotReady ==> deviceState == if needsRotor then RotorMoving else Tuning
    {
      if deviceState != NotReady {
        deviceState := if needsRotor then RotorMoving else Tuning;
      }
    }

    /** `stopDevice()`: a ready device becomes idle with no filter registered;
        on an idle device with no filters this changes nothing. */
    method StopDevice()
      requires Valid()
      modifies this`deviceState, this`pidFilters
      ensures Valid()
      ensures old(deviceState) == NotReady ==> deviceState == NotReady && pidFilters == old(pidFilters)
      ensures old(deviceState) != NotReady ==> deviceState == Idle && pidFilters == PidRegistry.Empty()
    {
      if deviceState != NotReady {
        SetDeviceState(Idle);
      }
    }
  }
}
