/** The readiness and tuning states of a tuner (`DvbDevice::DeviceState`) and
    how the presence of its device nodes drives them. */
module DeviceStates {
  import Presence
  import opened Flags

  datatype DeviceState = NotReady | Idle | RotorMoving | Tuning | Tuned

  /** A tune sequence is under way or has locked: the states in which packet
      filters stay registered. */
  predicate IsActive(s: DeviceState) {
    s == RotorMoving || s == Tuning || s == Tuned
  }

  /** The states in which signal strength and SNR may be read. */
  predicate CanReadSignal(s: DeviceState) {
    s == Tuning || s == Tuned
  }

  /** The state after the presence flags change: the device leaves NotReady
      only when the mandatory set becomes complete and identification
      succeeds, and it falls back to NotReady as soon as the set is incomplete.
      A device that is not NotReady always had its mandatory set complete. */
  function AfterPresenceChange(s: DeviceState, wasPresent: bool, nowPresent: bool, identified: bool): (r: DeviceState)
    requires s != NotReady ==> wasPresent
    ensures r != NotReady <==> nowPresent && (if wasPresent then s != NotReady else identified)
    ensures r == NotReady || r == s || (s == NotReady && r == Idle)
  {
    if !nowPresent then NotReady
    else if !wasPresent then (if identified then Idle else NotReady)
    else s
  }

  /** The state after the components `cs` are attached one by one, each
      completion of the mandatory set being identified with outcome `ok`. */
  function AfterAttaching(s: DeviceState, f: Flags, cs: seq<Presence.Component>, ok: bool): DeviceState
    requires s != NotReady ==> Presence.IsPresent(f)
    decreases |cs|
  {
    if cs == [] then s
    else
      var g := Presence.Insert(f, cs[0]);
      var next := AfterPresenceChange(s, Presence.IsPresent(f), Presence.IsPresent(g), ok);
      AfterAttaching(next, g, cs[1..], ok)
  }

  /** Attaching components in any order makes the device ready exactly when
      the attached set covers the mandatory nodes and identification succeeds. */
  lemma {:induction false} ReadyIffComplete(s: DeviceState, f: Flags, cs: seq<Presence.Component>, ok: bool)
    requires (s != NotReady) == (Presence.IsPresent(f) && ok)
    ensures (AfterAttaching(s, f, cs, ok) != NotReady) == (Presence.IsPresent(Presence.InsertAll(f, cs)) && ok)
    decreases |cs|
  {
    if cs != [] {
      var g := Presence.Insert(f, cs[0]);
      Presence.IsPresentIffMandatory(f);
      Presence.IsPresentIffMandatory(g);
      ReadyIffComplete(AfterPresenceChange(s, Presence.IsPresent(f), Presence.IsPresent(g), ok), g, cs[1..], ok);
    }
  }

  /** From a device with no node attached, the arrival order of the nodes does
      not change whether it ends up ready. */
  lemma ArrivalOrderIrrelevant(cs: seq<Presence.Component>, ds: seq<Presence.Component>, ok: bool)
    requires forall c :: c in cs <==> c in ds
    ensures (AfterAttaching(NotReady, 0, cs, ok) != NotReady) == (AfterAttaching(NotReady, 0, ds, ok) != NotReady)
    ensures (AfterAttaching(NotReady, 0, cs, ok) != NotReady) == (Presence.Mandatory <= (set c | c in cs) && ok)
  {
    assert !Presence.IsPresent(0);
    ReadyIffComplete(NotReady, 0, cs, ok);
    ReadyIffComplete(NotReady, 0, ds, ok);
    Presence.InsertAllOrderIrrelevant(0, cs, ds);
    Presence.InsertAllMembers(0, cs);
    Presence.IsPresentIffMandatory(Presence.InsertAll(0, cs));
  }

  /** `getSignal` / `getSnr` report on a 0..100 scale: a reading already on
      that scale is kept, anything outside is clamped to the nearest end. */
  function Percent(reading: int): (r: int)
    ensures 0 <= r <= 100
    ensures 0 <= reading <= 100 ==> r == reading
  {
    if reading < 0 then 0 else if reading > 100 then 100 else reading
  }
}
