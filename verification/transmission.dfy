/** The delivery systems a tuner supports (`DvbDevice::TransmissionType`,
    combined into `TransmissionTypes` by `Q_DECLARE_FLAGS`). */
module Transmission {
  import opened Flags

  datatype TransmissionType = DvbC | DvbS | DvbT | Atsc

  const AllTypes: set<TransmissionType> := {DvbC, DvbS, DvbT, Atsc}

  /** The union of the four enumerators' bits. */
  const AllBits: Flags := 0xF

  /** The enumerator's value: `1 << 0` .. `1 << 3`. */
  function Bit(t: TransmissionType): Flags
  {
    match t
    case DvbC => 1 << 0
    case DvbS => 1 << 1
    case DvbT => 1 << 2
    case Atsc => 1 << 3
  }

  /** A flags value built from the enumerators only. */
  predicate WellFormed(f: Flags) {
    f & !AllBits == 0
  }

  lemma InAllTypes(t: TransmissionType)
    ensures t in AllTypes
  {
  }

  /** Each enumerator is a single bit among the declared ones. */
  lemma BitIsSingle(t: TransmissionType)
    ensures SingleBit(Bit(t)) && WellFormed(Bit(t))
  {
  }

  /** Distinct enumerators never share a bit. */
  lemma BitsDisjoint(a: TransmissionType, b: TransmissionType)
    ensures a != b <==> Bit(a) & Bit(b) == 0
  {
  }

  /** The set of types whose bit is set (what `testFlag` reports per type). */
  function Members(f: Flags): set<TransmissionType>
  {
    set t | t in AllTypes && Has(f, Bit(t))
  }

  /** The flags value `t1 | t2 | ...` for a set of types. */
  function FromSet(s: set<TransmissionType>): (f: Flags)
    ensures WellFormed(f)
  {
    (if DvbC in s then Bit(DvbC) else 0) |
    (if DvbS in s then Bit(DvbS) else 0) |
    (if DvbT in s then Bit(DvbT) else 0) |
    (if Atsc in s then Bit(Atsc) else 0)
  }

  lemma HasFromSet(s: set<TransmissionType>, t: TransmissionType)
    ensures Has(FromSet(s), Bit(t)) <==> t in s
  {
  }

  /** A combination of types decomposes back to exactly its members. */
  lemma MembersOfFromSet(s: set<TransmissionType>)
    ensures Members(FromSet(s)) == s
  {
    forall t ensures t in Members(FromSet(s)) <==> t in s {
      InAllTypes(t);
      HasFromSet(s, t);
    }
  }

  /** A well-formed flags value is the combination of its members. */
  lemma FromSetOfMembers(f: Flags)
    requires WellFormed(f)
    ensures FromSet(Members(f)) == f
  {
    assert DvbC in Members(f) <==> Has(f, Bit(DvbC));
    assert DvbS in Members(f) <==> Has(f, Bit(DvbS));
    assert DvbT in Members(f) <==> Has(f, Bit(DvbT));
    assert Atsc in Members(f) <==> Has(f, Bit(Atsc));
  }
}
