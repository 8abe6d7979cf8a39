/** Which device nodes of a tuner are attached (`DvbDevice::stateFlag`,
    combined into `stateFlags`), and the mandatory mask `DevicePresent`. */
module Presence {
  import opened Flags

  /** The conditional-access, demux, DVR and frontend nodes of one adapter. */
  datatype Component = Ca | Demux | Dvr | Frontend

  const AllComponents: set<Component> := {Ca, Demux, Dvr, Frontend}

  /** The components without which the device cannot be used. */
  const Mandatory: set<Component> := {Demux, Dvr, Frontend}

  /** The union of the four enumerators' bits. */
  const AllBits: Flags := 0xF

  /** `DevicePresent = DemuxPresent | DvrPresent | FrontendPresent`. */
  const DevicePresent: Flags := (1 << 1) | (1 << 2) | (1 << 3)

  /** The enumerator's value: `CaPresent` .. `FrontendPresent`. */
  function Bit(c: Component): Flags
  {
    match c
    case Ca => 1 << 0
    case Demux => 1 << 1
    case Dvr => 1 << 2
    case Frontend => 1 << 3
  }

  /** A flags value built from the enumerators only. */
  predicate WellFormed(f: Flags) {
    f & !AllBits == 0
  }

  /** The device is usable: every bit of `DevicePresent` is set. */
  predicate IsPresent(f: Flags) {
    Has(f, DevicePresent)
  }

  lemma InAllComponents(c: Component)
    ensures c in AllComponents
  {
  }

  /** Each enumerator is a single bit among the declared ones. */
  lemma BitIsSingle(c: Component)
    ensures SingleBit(Bit(c)) && WellFormed(Bit(c))
  {
  }

  /** Distinct enumerators never share a bit. */
  lemma BitsDisjoint(a: Component, b: Component)
    ensures a != b <==> Bit(a) & Bit(b) == 0
  {
  }

  /** The set of components whose bit is set. */
  function Members(f: Flags): set<Component>
  {
    set c | c in AllComponents && Has(f, Bit(c))
  }

  /** The flags value for a set of components. */
  function FromSet(s: set<Component>): (f: Flags)
    ensures WellFormed(f)
  {
    (if Ca in s then Bit(Ca) else 0) |
    (if Demux in s then Bit(Demux) else 0) |
    (if Dvr in s then Bit(Dvr) else 0) |
    (if Frontend in s then Bit(Frontend) else 0)
  }

  lemma HasFromSet(s: set<Component>, c: Component)
    ensures Has(FromSet(s), Bit(c)) <==> c in s
  {
  }

  /** A combination of components decomposes back to exactly its members. */
  lemma MembersOfFromSet(s: set<Component>)
    ensures Members(FromSet(s)) == s
  {
    forall c ensures c in Members(FromSet(s)) <==> c in s {
      InAllComponents(c);
      HasFromSet(s, c);
    }
  }

  /** A well-formed flags value is the combination of its members. */
  lemma FromSetOfMembers(f: Flags)
    requires WellFormed(f)
    ensures FromSet(Members(f)) == f
  {
    assert Ca in Members(f) <==> Has(f, Bit(Ca));
    assert Demux in Members(f) <==> Has(f, Bit(Demux));
    assert Dvr in Members(f) <==> Has(f, Bit(Dvr));
    assert Frontend in Members(f) <==> Has(f, Bit(Frontend));
  }

  /** A well-formed value with no member is zero. */
  lemma EmptyIsZero(f: Flags)
    requires WellFormed(f)
    ensures Members(f) == {} <==> f == 0
  {
    FromSetOfMembers(f);
    if f == 0 {
      forall c ensures c !in Members(f) {
        BitIsSingle(c);
      }
    }
  }

  /** `f | bit`: the component is recorded as attached. */
  function Insert(f: Flags, c: Component): Flags
  {
    f | Bit(c)
  }

  /** `f & ~bit`: the component is recorded as detached. */
  function Erase(f: Flags, c: Component): Flags
  {
    f & !Bit(c)
  }

  lemma BitOfInsert(f: Flags, c: Component, d: Component)
    ensures Has(Insert(f, c), Bit(d)) <==> Has(f, Bit(d)) || d == c
  {
  }

  lemma BitOfErase(f: Flags, c: Component, d: Component)
    ensures Has(Erase(f, c), Bit(d)) <==> Has(f, Bit(d)) && d != c
  {
  }

  /** Attaching a component adds exactly that component. */
  lemma MembersOfInsert(f: Flags, c: Component)
    ensures Members(Insert(f, c)) == Members(f) + {c}
  {
    forall d ensures d in Members(Insert(f, c)) <==> d in Members(f) || d == c {
      InAllComponents(d);
      BitOfInsert(f, c, d);
    }
  }

  /** Detaching a component removes exactly that component. */
  lemma MembersOfErase(f: Flags, c: Component)
    ensures Members(Erase(f, c)) == Members(f) - {c}
  {
    forall d ensures d in Members(Erase(f, c)) <==> d in Members(f) && d != c {
      InAllComponents(d);
      BitOfErase(f, c, d);
    }
  }

  /** Attaching or detaching a component keeps the flags well formed. */
  lemma KeepsWellFormed(f: Flags, c: Component)
    requires WellFormed(f)
    ensures WellFormed(Insert(f, c)) && WellFormed(Erase(f, c))
  {
  }

  /** `DevicePresent` is exactly Demux | Dvr | Frontend. */
  lemma DevicePresentIsMandatory()
    ensures DevicePresent == Bit(Demux) | Bit(Dvr) | Bit(Frontend)
    ensures Members(DevicePresent) == Mandatory
  {
    MembersOfFromSet(Mandatory);
  }

  /** The mask test is the subset test on the set view. */
  lemma IsPresentIffMandatory(f: Flags)
    ensures IsPresent(f) <==> Mandatory <= Members(f)
  {
    assert Demux in Members(f) <==> Has(f, Bit(Demux));
    assert Dvr in Members(f) <==> Has(f, Bit(Dvr));
    assert Frontend in Members(f) <==> Has(f, Bit(Frontend));
  }

  /** Attaching or detaching the optional CA node never decides whether the
      mandatory set is complete. */
  lemma CaIrrelevant(f: Flags)
    ensures IsPresent(Insert(f, Ca)) == IsPresent(f)
    ensures IsPresent(Erase(f, Ca)) == IsPresent(f)
  {
  }

  /** Losing a mandatory node always leaves the mandatory set incomplete. */
  /** The first node attached to a device is its only one, and one node
      alone never makes the device present. */
  lemma FirstNode(c: Component)
    ensures Insert(0, c) == Bit(c)
    ensures !IsPresent(Insert(0, c))
  {
  }

  lemma MandatoryLoss(f: Flags, c: Component)
    requires c in Mandatory
    ensures !IsPresent(Erase(f, c))
  {
  }

  /** The flags after attaching the components of `cs` one by one. */
  function InsertAll(f: Flags, cs: seq<Component>): Flags
    decreases |cs|
  {
    if cs == [] then f else InsertAll(Insert(f, cs[0]), cs[1..])
  }

  /** Attaching components one at a time records exactly the attached set. */
  lemma {:induction false} InsertAllMembers(f: Flags, cs: seq<Component>)
    ensures forall c :: c in Members(InsertAll(f, cs)) <==> c in Members(f) || c in cs
    decreases |cs|
  {
    if cs != [] {
      MembersOfInsert(f, cs[0]);
      InsertAllMembers(Insert(f, cs[0]), cs[1..]);
      assert forall c :: c in cs <==> c == cs[0] || c in cs[1..];
    }
  }

  lemma {:induction false} InsertAllWellFormed(f: Flags, cs: seq<Component>)
    requires WellFormed(f)
    ensures WellFormed(InsertAll(f, cs))
    decreases |cs|
  {
    if cs != [] {
      KeepsWellFormed(f, cs[0]);
      InsertAllWellFormed(Insert(f, cs[0]), cs[1..]);
    }
  }

  /** The arrival order of the components does not matter: any two orders of
      the same components yield the same flags. */
  lemma {:induction false} InsertAllOrderIrrelevant(f: Flags, cs: seq<Component>, ds: seq<Component>)
    requires WellFormed(f)
    requires forall c :: c in cs <==> c in ds
    ensures InsertAll(f, cs) == InsertAll(f, ds)
  {
    InsertAllMembers(f, cs);
    InsertAllMembers(f, ds);
    assert Members(InsertAll(f, cs)) == Members(InsertAll(f, ds));
    InsertAllWellFormed(f, cs);
    InsertAllWellFormed(f, ds);
    FromSetOfMembers(InsertAll(f, cs));
    FromSetOfMembers(InsertAll(f, ds));
  }
}
