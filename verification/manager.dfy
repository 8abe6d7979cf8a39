/** The list of tuners the application knows (`DvbDeviceManager`), kept up to
    date as device nodes come and go. Hot-plug identifiers arrive here already
    resolved to a device id and a node. */
module Manager {
  import Presence
  import PidRegistry
  import opened DeviceStates
  import opened Device

  class DvbDeviceManager {
    var devices: seq<DvbDevice>

    /** Every held device is consistent, has at least one node attached, and
        no two held devices share an id. */
    ghost predicate Valid()
      reads this, devices
    {
      && (forall d :: d in devices ==> d.Valid() && d.internalState != 0)
      && (forall i, j :: 0 <= i < j < |devices| ==> devices[i].deviceId != devices[j].deviceId)
    }

    /** True when a held device has id `id`. */
    ghost predicate Holds(id: int)
      reads this
    {
      exists i :: 0 <= i < |devices| && devices[i].deviceId == id
    }

    constructor ()
      ensures Valid() && devices == []
    {
      devices := [];
    }

    /** `getDeviceList()`: the held devices, one per id. */
    function GetDeviceList(): (r: seq<DvbDevice>)
      requires Valid()
      reads this, devices
      ensures r == devices
      ensures forall i, j :: 0 <= i < j < |r| ==> r[i].GetId() != r[j].GetId()
    {
      devices
    }

    /** The position of the held device with id `id`, if there is one. */
    method FindDevice(id: int) returns (found: bool, index: nat)
      ensures found ==> index < |devices| && devices[index].deviceId == id
      ensures !found ==> forall i :: 0 <= i < |devices| ==> devices[i].deviceId != id
    {
      found, index := false, 0;
      while index < |devices|
        invariant index <= |devices|
        invariant forall i :: 0 <= i < index ==> devices[i].deviceId != id
      {
        if devices[index].deviceId == id {
          found := true;
          return;
        }
        index := index + 1;
      }
    }

    /** `componentAdded(component)`: the node `c` of device `id` is attached,
        to the held device with that id or to a new one appended to the
        list; no other device is touched. */
    method ComponentAdded(id: int, c: Presence.Component, path: string, probe: Option<Identification>)
      returns (d: DvbDevice)
      requires Valid()
      modifies this, devices
      ensures Valid()
      ensures d in devices && d.GetId() == id
      ensures forall e :: e in old(devices) && e != d ==> unchanged(e)
      ensures old(Holds(id)) ==> devices == old(devices) && d in old(devices)
      ensures old(Holds(id)) ==>
        && d.internalState == Presence.Insert(old(d.internalState), c)
        && d.paths == old(d.paths)[c := path]
        && d.deviceState == AfterPresenceChange(old(d.deviceState),
             Presence.IsPresent(old(d.internalState)), Presence.IsPresent(d.internalState), probe.Some?)
        && (old(d.deviceState) != NotReady ==> d.deviceState == old(d.deviceState))
        && (old(d.deviceState) == NotReady && d.deviceState == Idle ==>
              d.identified == probe && d.pidFilters == PidRegistry.Empty())
        && (d.deviceState == old(d.deviceState) ==>
              d.identified == old(d.identified) && d.pidFilters == old(d.pidFilters))
      ensures !old(Holds(id)) ==>
        && fresh(d) && devices == old(devices) + [d]
        && d.internalState == Presence.Bit(c) && d.paths == map[c := path]
        && d.deviceState == NotReady && d.identified == None && d.pidFilters == PidRegistry.Empty()
    {
      var found, index := FindDevice(id);
      if found {
        d := devices[index];
      } else {
        d := new DvbDevice(id);
        devices := devices + [d];
        Presence.FirstNode(c);
      }
      d.ComponentAdded(c, path, probe);
    }

    /** `componentRemoved(udi)`, with the node resolved to device `id` and node
        `c`: the node is detached from that device, and a device left with no
        node is dropped from the list; no other device is touched. An id no
        held device has is ignored. */
    method ComponentRemoved(id: int, c: Presence.Component)
      requires Valid()
      modifies this, devices
      ensures Valid()
      ensures !old(Holds(id)) ==> devices == old(devices)
      ensures forall e :: e in old(devices) && e.deviceId != id ==> e in devices && unchanged(e)
      ensures forall k :: 0 <= k < |old(devices)| && old(devices)[k].deviceId == id ==>
        var e := old(devices)[k];
        && e.internalState == Presence.Erase(old(e.internalState), c)
        && (if e.internalState == 0
            then devices == old(devices)[..k] + old(devices)[k + 1..]
            else devices == old(devices))
        && e.paths == old(e.paths) - {c}
        && (c in Presence.Mandatory ==> e.deviceState == NotReady && e.identified == None)
        && (c in Presence.Mandatory && old(e.deviceState) != NotReady ==>
              e.pidFilters == PidRegistry.Empty() && e.transmissionTypes == 0 && e.frontendName == "")
        && (old(e.deviceState) == NotReady ==> e.deviceState == NotReady && e.pidFilters == old(e.pidFilters))
        && (c == Presence.Ca ==>
              e.deviceState == old(e.deviceState) && e.identified == old(e.identified) &&
              e.pidFilters == old(e.pidFilters))
    {
      var found, index := FindDevice(id);
      if found {
        var empty := DetachAt(index, c);
        if empty {
          Drop(index);
        }
      }
    }

    /** Detaches node `c` from the device at `index`; reports whether that
        device has no node left. */
    method DetachAt(index: nat, c: Presence.Component) returns (empty: bool)
      requires Valid() && index < |devices|
      modifies devices[index]
      ensures empty <==> devices[index].internalState == 0
      ensures var e := devices[index];
        && e.internalState == Presence.Erase(old(e.internalState), c)
        && e.paths == old(e.paths) - {c}
        && (c in Presence.Mandatory ==> e.deviceState == NotReady && e.identified == None)
        && (c in Presence.Mandatory && old(e.deviceState) != NotReady ==>
              e.pidFilters == PidRegistry.Empty() && e.transmissionTypes == 0 && e.frontendName == "")
        && (old(e.deviceState) == NotReady ==> e.deviceState == NotReady && e.pidFilters == old(e.pidFilters))
        && (c == Presence.Ca ==>
              e.deviceState == old(e.deviceState) && e.identified == old(e.identified) &&
              e.pidFilters == old(e.pidFilters))
      ensures devices[index].Valid()
      ensures forall d :: d in devices && d != devices[index] ==> d.Valid() && d.internalState != 0
      ensures !empty ==> Valid()
    {
      empty := devices[index].ComponentRemoved(c);
    }

    /** Takes the device at `index`, which has no node left, off the list. */
    method Drop(index: nat)
      requires index < |devices|
      requires forall d :: d in devices && d != devices[index] ==> d.Valid() && d.internalState != 0
      requires forall i, j :: 0 <= i < j < |devices| ==> devices[i].deviceId != devices[j].deviceId
      modifies this
      ensures Valid()
      ensures devices == old(devices)[..index] + old(devices)[index + 1..]
    {
      ghost var before := devices;
      devices := devices[..index] + devices[index + 1..];
      forall i | 0 <= i < |devices|
        ensures devices[i] == before[if i < index then i else i + 1]
      {
      }
    }
  }
}
