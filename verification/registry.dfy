/** The per-device table that `addPidFilter` / `removePidFilter` maintain:
    for every PID the filters that receive its 188-byte packets, in the order
    they were registered. `F` is the identity of a filter object. */
module PidRegistry {

  /** PIDs are 13-bit fields of the transport-stream packet header
      (section 2.4.3.2 of ISO/IEC 13818-1). */
  const PidCount: int := 0x2000

  predicate IsPid(pid: int) {
    0 <= pid < PidCount
  }

  type Registry<F> = map<int, seq<F>>

  predicate Distinct<F(==)>(s: seq<F>) {
    forall i, j :: 0 <= i < j < |s| ==> s[i] != s[j]
  }

  /** Only real PIDs are keys, no key holds an empty list, and no filter is
      registered twice under one PID. */
  predicate Valid<F(==)>(r: Registry<F>) {
    forall pid :: pid in r ==> IsPid(pid) && r[pid] != [] && Distinct(r[pid])
  }

  /** The filters a packet tagged `pid` is delivered to, in delivery order. */
  function FiltersFor<F(==)>(r: Registry<F>, pid: int): seq<F> {
    if pid in r then r[pid] else []
  }

  /** The table with no registration at all: what the device keeps when it
      becomes idle. */
  function Empty<F(==)>(): (r: Registry<F>)
    ensures Valid(r)
    ensures forall pid :: FiltersFor(r, pid) == []
  {
    map[]
  }

  /** `s` with every occurrence of `f` taken out, the others kept in order. */
  function Without<F(==)>(s: seq<F>, f: F): (t: seq<F>)
    ensures f !in t
    ensures forall i :: 0 <= i < |t| ==> t[i] in s
    ensures forall i :: 0 <= i < |s| && s[i] != f ==> s[i] in t
    ensures |t| <= |s|
    ensures Distinct(s) ==> Distinct(t)
  {
    if s == [] then []
    else if s[0] == f then Without(s[1..], f)
    else [s[0]] + Without(s[1..], f)
  }

  /** Taking out a filter that is not there changes nothing. */
  lemma {:induction false} WithoutAbsent<F>(s: seq<F>, f: F)
    requires f !in s
    ensures Without(s, f) == s
  {
    if s != [] {
      WithoutAbsent(s[1..], f);
    }
  }

  /** Taking out a filter keeps the relative order of the rest: appending `g`
      and then taking out `f` is taking out `f` and then appending `g`. */
  lemma {:induction false} WithoutAppend<F>(s: seq<F>, g: F, f: F)
    ensures Without(s + [g], f) == Without(s, f) + (if g == f then [] else [g])
  {
    if s == [] {
      assert s + [g] == [g];
    } else {
      assert (s + [g])[1..] == s[1..] + [g];
      WithoutAppend(s[1..], g, f);
    }
  }

  /** `addPidFilter(pid, f)`: `f` joins the end of `pid`'s list; adding a
      filter that is already registered under `pid` is a no-op. */
  function Add<F(==)>(r: Registry<F>, pid: int, f: F): (r': Registry<F>)
    ensures f in FiltersFor(r', pid)
    ensures forall i :: 0 <= i < |FiltersFor(r', pid)| ==>
      FiltersFor(r', pid)[i] in FiltersFor(r, pid) || FiltersFor(r', pid)[i] == f
    ensures FiltersFor(r, pid) <= FiltersFor(r', pid)
    ensures |FiltersFor(r', pid)| <= |FiltersFor(r, pid)| + 1
    ensures forall q :: q != pid ==> FiltersFor(r', q) == FiltersFor(r, q)
    ensures Valid(r) && IsPid(pid) ==> Valid(r')
  {
    var current := FiltersFor(r, pid);
    if f in current then r else r[pid := current + [f]]
  }

  /** `removePidFilter(pid, f)`: `f` leaves `pid`'s list, the remaining
      filters keep their order, and a PID left without filters is dropped. */
  function Remove<F(==)>(r: Registry<F>, pid: int, f: F): (r': Registry<F>)
    ensures f !in FiltersFor(r', pid)
    ensures forall i :: 0 <= i < |FiltersFor(r', pid)| ==> FiltersFor(r', pid)[i] in FiltersFor(r, pid)
    ensures forall i :: 0 <= i < |FiltersFor(r, pid)| && FiltersFor(r, pid)[i] != f ==>
      FiltersFor(r, pid)[i] in FiltersFor(r', pid)
    ensures forall q :: q != pid ==> FiltersFor(r', q) == FiltersFor(r, q)
    ensures Valid(r) ==> Valid(r')
  {
    var rest := Without(FiltersFor(r, pid), f);
    if rest == [] then r - {pid} else r[pid := rest]
  }

  /** Removing what was just added restores the table. */
  lemma AddThenRemove<F>(r: Registry<F>, pid: int, f: F)
    requires Valid(r)
    requires f !in FiltersFor(r, pid)
    ensures Remove(Add(r, pid, f), pid, f) == r
  {
    var current := FiltersFor(r, pid);
    WithoutAppend(current, f, f);
    WithoutAbsent(current, f);
    assert Without(current + [f], f) == current;
    if current == [] {
      assert pid !in r;
      assert r[pid := [f]] - {pid} == r;
    } else {
      assert r[pid := current + [f]][pid := current] == r;
    }
  }

  /** Unregistering a filter that is not registered under `pid` (in
      particular under a number outside 0..8191) leaves the table as it is. */
  lemma RemoveUnregistered<F>(r: Registry<F>, pid: int, f: F)
    requires Valid(r)
    requires f !in FiltersFor(r, pid)
    ensures Remove(r, pid, f) == r
  {
    WithoutAbsent(FiltersFor(r, pid), f);
    if pid in r {
      assert r[pid := r[pid]] == r;
    }
  }

  /** Registering the same pair twice is the same as registering it once. */
  lemma AddIdempotent<F>(r: Registry<F>, pid: int, f: F)
    ensures Add(Add(r, pid, f), pid, f) == Add(r, pid, f)
  {
  }

  /** Unregistering the same pair twice is the same as unregistering it once. */
  lemma RemoveIdempotent<F>(r: Registry<F>, pid: int, f: F)
    ensures Remove(Remove(r, pid, f), pid, f) == Remove(r, pid, f)
  {
    var r1 := Remove(r, pid, f);
    WithoutAbsent(FiltersFor(r1, pid), f);
    if pid !in r1 {
      assert FiltersFor(r1, pid) == [];
    }
  }

  /** One filter object registered under two PIDs: removing it under the
      first leaves its registration under the second in place. */
  lemma SharedFilter<F>(r: Registry<F>, p: int, q: int, f: F)
    requires p != q
    ensures var both := Add(Add(r, p, f), q, f);
      f in FiltersFor(both, p) && f in FiltersFor(both, q) &&
      f !in FiltersFor(Remove(both, p, f), p) && f in FiltersFor(Remove(both, p, f), q)
  {
  }

  /** Two filters on one PID are delivered to in registration order; after the
      first is removed only the second is. */
  lemma DeliveryOrder<F>(r: Registry<F>, pid: int, a: F, b: F)
    requires FiltersFor(r, pid) == []
    requires a != b
    ensures FiltersFor(Add(Add(r, pid, a), pid, b), pid) == [a, b]
    ensures FiltersFor(Remove(Add(Add(r, pid, a), pid, b), pid, a), pid) == [b]
  {
    assert Without([a, b], a) == Without([b], a);
  }
}
