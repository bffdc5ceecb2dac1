/** The open-addressed order-id table of the L3 book: linear probing, tombstones, growth at 70% load. */
module OrderTable {
  import opened CoreTypes
  import opened Bits
  import opened Decimal

  /** An index into the order arena; NO_ORDER stands for "none". */
  type OrderRef = nat
  const NO_ORDER: OrderRef := 0xFFFF_FFFF

  datatype Slot = Slot(id: OrderId, ref: OrderRef, occupied: bool, tombstone: bool) {
    /** Never used since the last rehash: such a slot ends a probe. */
    predicate Fresh() { !occupied && !tombstone }
  }

  const EMPTY_SLOT := Slot(0, NO_ORDER, false, false)

  ghost predicate IsPowerOfTwo(n: nat) { exists k: nat :: n == Pow2(k) }

  lemma DoubledPower(n: nat)
    requires IsPowerOfTwo(n)
    ensures IsPowerOfTwo(2 * n)
  {
    var k: nat :| n == Pow2(k);
    assert 2 * n == Pow2(k + 1);
  }

  /** The mixing function of order ids is a parameter: nothing below depends on how well it mixes. */
  type Mixer = OrderId -> nat

  /** First slot probed for `id`.  The capacity is a power of two, so masking is this remainder. */
  function Home(mix: Mixer, id: OrderId, n: nat): (h: nat)
    requires n > 0
    ensures h < n
  {
    mix(id) % n
  }

  /** How many probes after `home` slot `j` is visited. */
  function Dist(home: nat, j: nat, n: nat): nat
    requires home < n && j < n
  {
    if home <= j then j - home else j - home + n
  }

  function NextSlot(i: nat, n: nat): nat
    requires i < n
  {
    if i + 1 == n then 0 else i + 1
  }

  /** Occupied slots and tombstones. */
  function UsedCount(slots: seq<Slot>): nat {
    if slots == [] then 0
    else UsedCount(slots[..|slots| - 1]) + if slots[|slots| - 1].Fresh() then 0 else 1
  }

  /** No id sits in two slots, and every slot probed on the way to a live id is still non-fresh,
      so no tombstone or gap can sever a probe chain.  `at` gives each live id's slot. */
  ghost predicate Probes(slots: seq<Slot>, at: map<OrderId, nat>, mix: Mixer) {
    && |slots| > 0
    && (forall id :: id in at ==> at[id] < |slots| && slots[at[id]].occupied && slots[at[id]].id == id)
    && (forall j :: 0 <= j < |slots| && slots[j].occupied ==>
          slots[j].id in at && at[slots[j].id] == j && !slots[j].tombstone)
    && (forall id, j :: id in at && 0 <= j < |slots|
          && Dist(Home(mix, id, |slots|), j, |slots|) < Dist(Home(mix, id, |slots|), at[id], |slots|)
          ==> !slots[j].Fresh())
  }

  /** The load rule: after every insert fewer than 70% of the slots are occupied or tombstones. */
  ghost predicate Loaded(slots: seq<Slot>, used: nat) {
    && |slots| >= 16 && IsPowerOfTwo(|slots|)
    && used == UsedCount(slots)
    && used * 10 < |slots| * 7
  }

  /** `at` and `slots` together spell the finite map `index`. */
  ghost predicate Spells(slots: seq<Slot>, at: map<OrderId, nat>, index: map<OrderId, OrderRef>) {
    && at.Keys == index.Keys
    && forall id :: id in at ==> at[id] < |slots| && slots[at[id]].ref == index[id]
  }

  ghost predicate TableOk(slots: seq<Slot>, used: nat, at: map<OrderId, nat>,
                          index: map<OrderId, OrderRef>, mix: Mixer) {
    Probes(slots, at, mix) && Loaded(slots, used) && Spells(slots, at, index)
  }

  // ----- counting -----

  lemma {:induction false} UsedCountUpdate(slots: seq<Slot>, i: nat, s: Slot)
    requires i < |slots|
    ensures UsedCount(slots[i := s]) ==
            UsedCount(slots) + (if s.Fresh() then 0 else 1) - (if slots[i].Fresh() then 0 else 1)
  {
    var n := |slots| - 1;
    if i == n {
      assert slots[i := s][..n] == slots[..n];
    } else {
      UsedCountUpdate(slots[..n], i, s);
      assert slots[i := s][..n] == slots[..n][i := s];
    }
  }

  lemma {:induction false} UsedCountAllFresh(slots: seq<Slot>)
    requires forall j :: 0 <= j < |slots| ==> slots[j].Fresh()
    ensures UsedCount(slots) == 0
  {
    if slots != [] { UsedCountAllFresh(slots[..|slots| - 1]); }
  }

  /** The 70% rule leaves a never-used slot, so a probe for a free slot ends. */
  lemma {:induction false} FreshSlotExists(slots: seq<Slot>) returns (j: nat)
    requires UsedCount(slots) < |slots|
    ensures j < |slots| && slots[j].Fresh()
  {
    var n := |slots| - 1;
    if slots[n].Fresh() {
      j := n;
    } else {
      j := FreshSlotExists(slots[..n]);
    }
  }

  // ----- probing -----

  /** find_ref's loop: the slot holding `id`, or none. */
  method FindSlot(slots: seq<Slot>, ghost at: map<OrderId, nat>, mix: Mixer, id: OrderId)
    returns (slot: Option<nat>)
    requires Probes(slots, at, mix)
    ensures slot == if id in at then Some(at[id]) else None
  {
    var n := |slots|;
    var home := Home(mix, id, n);
    var i: nat := home;
    var probes := 0;
    while probes < n
      invariant 0 <= probes <= n
      invariant i < n && (probes < n ==> Dist(home, i, n) == probes)
      invariant id in at ==> probes <= Dist(home, at[id], n)
    {
      if slots[i].Fresh() {
        return None;
      }
      if slots[i].occupied && slots[i].id == id {
        return Some(i);
      }
      i := NextSlot(i, n);
      probes := probes + 1;
    }
    return None;
  }

  /** The probe for a slot to fill: the first unoccupied one.  Its loop has no bound of its own;
      the free slot that `UsedCount` promises is what ends it. */
  method FreeSlot(slots: seq<Slot>, mix: Mixer, id: OrderId) returns (i: nat)
    requires |slots| > 0 && UsedCount(slots) < |slots|
    ensures i < |slots| && !slots[i].occupied
    ensures forall j :: 0 <= j < |slots|
              && Dist(Home(mix, id, |slots|), j, |slots|) < Dist(Home(mix, id, |slots|), i, |slots|)
              ==> slots[j].occupied
  {
    var n := |slots|;
    var home := Home(mix, id, n);
    ghost var free := FreshSlotExists(slots);
    i := home;
    while slots[i].occupied
      invariant i < n && Dist(home, i, n) <= Dist(home, free, n)
      invariant forall j :: 0 <= j < n && Dist(home, j, n) < Dist(home, i, n) ==> slots[j].occupied
      decreases Dist(home, free, n) - Dist(home, i, n)
    {
      i := NextSlot(i, n);
    }
  }

  /** Filling the slot that FreeSlot found adds one id and keeps every probe chain. */
  lemma FillKeepsProbes(slots: seq<Slot>, at: map<OrderId, nat>, mix: Mixer, i: nat, id: OrderId, ref: OrderRef)
    requires Probes(slots, at, mix)
    requires id !in at && i < |slots| && !slots[i].occupied
    requires forall j :: 0 <= j < |slots|
              && Dist(Home(mix, id, |slots|), j, |slots|) < Dist(Home(mix, id, |slots|), i, |slots|)
              ==> slots[j].occupied
    ensures Probes(slots[i := Slot(id, ref, true, false)], at[id := i], mix)
  {
  }

  /** Turning a slot into a tombstone removes one id and keeps every other probe chain. */
  lemma BuryKeepsProbes(slots: seq<Slot>, at: map<OrderId, nat>, mix: Mixer, id: OrderId)
    requires Probes(slots, at, mix) && id in at
    ensures Probes(slots[at[id] := slots[at[id]].(occupied := false, tombstone := true)], at - {id}, mix)
  {
  }

  // ----- growing -----

  /** rehash's loop: move every occupied slot into a fresh table of `capacity` slots. */
  method Rehashed(old_: seq<Slot>, ghost at: map<OrderId, nat>, ghost index: map<OrderId, OrderRef>,
                  mix: Mixer, capacity: nat)
    returns (slots: seq<Slot>, used: nat, ghost newAt: map<OrderId, nat>)
    requires Probes(old_, at, mix) && Spells(old_, at, index)
    requires UsedCount(old_) < capacity
    ensures |slots| == capacity
    ensures Probes(slots, newAt, mix) && Spells(slots, newAt, index)
    ensures used == UsedCount(slots) <= UsedCount(old_)
  {
    hide Probes, Moved, UsedCount, Spells;
    slots := seq(capacity, _ => EMPTY_SLOT);
    used := 0;
    newAt := map[];
    UsedCountAllFresh(slots);
    NoneMoved(old_, slots, at, index, mix);
    var k := 0;
    while k < |old_|
      invariant 0 <= k <= |old_| && |slots| == capacity
      invariant Moved(slots, newAt, at, index, mix, k)
      invariant used == UsedCount(slots) <= UsedCount(old_[..k])
    {
      UsedCountPrefix(old_, k);
      UsedCountMonotone(old_, k + 1);
      var s := old_[k];
      if s.occupied {
        var i := FreeSlot(slots, mix, s.id);
        MoveOne(old_, slots, newAt, at, index, mix, k, i);
        UsedCountUpdate(slots, i, Slot(s.id, s.ref, true, false));
        slots := slots[i := Slot(s.id, s.ref, true, false)];
        newAt := newAt[s.id := i];
        used := used + 1;
      } else {
        NothingToMove(old_, slots, newAt, at, index, mix, k);
      }
      k := k + 1;
    }
    assert old_[..k] == old_;
    AllMoved(old_, slots, newAt, at, index, mix);
  }

  lemma NoneMoved(old_: seq<Slot>, slots: seq<Slot>, at: map<OrderId, nat>, index: map<OrderId, OrderRef>, mix: Mixer)
    requires Probes(old_, at, mix) && Spells(old_, at, index)
    requires |slots| > 0 && forall j :: 0 <= j < |slots| ==> slots[j] == EMPTY_SLOT
    ensures at.Keys == index.Keys && Moved(slots, map[], at, index, mix, 0) && UsedCount(old_[..0]) == 0
  {
  }

  /** An unoccupied slot holds no id. */
  lemma NothingToMove(old_: seq<Slot>, slots: seq<Slot>, newAt: map<OrderId, nat>, at: map<OrderId, nat>,
                      index: map<OrderId, OrderRef>, mix: Mixer, k: nat)
    requires Probes(old_, at, mix) && at.Keys == index.Keys && Moved(slots, newAt, at, index, mix, k)
    requires k < |old_| && !old_[k].occupied
    ensures Moved(slots, newAt, at, index, mix, k + 1)
  {
  }

  lemma AllMoved(old_: seq<Slot>, slots: seq<Slot>, newAt: map<OrderId, nat>, at: map<OrderId, nat>,
                 index: map<OrderId, OrderRef>, mix: Mixer)
    requires Probes(old_, at, mix) && at.Keys == index.Keys && Moved(slots, newAt, at, index, mix, |old_|)
    ensures Probes(slots, newAt, mix) && Spells(slots, newAt, index)
  {
    assert newAt.Keys == at.Keys;
  }

  /** rehash's loop invariant: exactly the ids from the first `k` old slots have moved. */
  ghost predicate Moved(slots: seq<Slot>, newAt: map<OrderId, nat>, at: map<OrderId, nat>,
                        index: map<OrderId, OrderRef>, mix: Mixer, k: nat)
    requires at.Keys == index.Keys
  {
    && Probes(slots, newAt, mix)
    && (forall j :: 0 <= j < |slots| ==> !slots[j].tombstone)
    && (forall id :: id in newAt <==> id in at && at[id] < k)
    && (forall id :: id in newAt ==> slots[newAt[id]].ref == index[id])
  }

  lemma MoveOne(old_: seq<Slot>, slots: seq<Slot>, newAt: map<OrderId, nat>, at: map<OrderId, nat>,
                index: map<OrderId, OrderRef>, mix: Mixer, k: nat, i: nat)
    requires Probes(old_, at, mix) && Spells(old_, at, index)
    requires k < |old_| && old_[k].occupied
    requires Moved(slots, newAt, at, index, mix, k)
    requires i < |slots| && !slots[i].occupied
    requires forall j :: 0 <= j < |slots|
              && Dist(Home(mix, old_[k].id, |slots|), j, |slots|) < Dist(Home(mix, old_[k].id, |slots|), i, |slots|)
              ==> slots[j].occupied
    ensures slots[i].Fresh()
    ensures Moved(slots[i := Slot(old_[k].id, old_[k].ref, true, false)], newAt[old_[k].id := i], at, index, mix, k + 1)
  {
    FillKeepsProbes(slots, newAt, mix, i, old_[k].id, old_[k].ref);
  }

  lemma UsedCountPrefix(slots: seq<Slot>, k: nat)
    requires k < |slots|
    ensures UsedCount(slots[..k + 1]) == UsedCount(slots[..k]) + if slots[k].Fresh() then 0 else 1
  {
    assert slots[..k + 1][..k] == slots[..k];
  }

  lemma {:induction false} UsedCountMonotone(slots: seq<Slot>, k: nat)
    requires k <= |slots|
    ensures UsedCount(slots[..k]) <= UsedCount(slots)
    decreases |slots| - k
  {
    if k == |slots| {
      assert slots[..k] == slots;
    } else {
      UsedCountPrefix(slots, k);
      UsedCountMonotone(slots, k + 1);
    }
  }

  // ----- one insert, one erase -----

  /** Below the load limit there is a slot to insert into. */
  lemma RoomForOne(slots: seq<Slot>, used: nat, at: map<OrderId, nat>, index: map<OrderId, OrderRef>, mix: Mixer)
    requires TableOk(slots, used, at, index, mix) && (used + 1) * 10 < |slots| * 7
    ensures UsedCount(slots) < |slots|
  {
  }

  lemma InsertKeepsTable(slots: seq<Slot>, used: nat, at: map<OrderId, nat>, index: map<OrderId, OrderRef>,
                         mix: Mixer, i: nat, id: OrderId, ref: OrderRef)
    requires TableOk(slots, used, at, index, mix) && (used + 1) * 10 < |slots| * 7
    requires id !in index && i < |slots| && !slots[i].occupied
    requires forall j :: 0 <= j < |slots|
              && Dist(Home(mix, id, |slots|), j, |slots|) < Dist(Home(mix, id, |slots|), i, |slots|)
              ==> slots[j].occupied
    ensures TableOk(slots[i := Slot(id, ref, true, false)], if slots[i].tombstone then used else used + 1,
                    at[id := i], index[id := ref], mix)
  {
    FillKeepsProbes(slots, at, mix, i, id, ref);
    UsedCountUpdate(slots, i, Slot(id, ref, true, false));
    FilledSpells(slots, at, index, i, id, ref);
  }

  lemma FilledSpells(slots: seq<Slot>, at: map<OrderId, nat>, index: map<OrderId, OrderRef>, i: nat, id: OrderId,
      ref: OrderRef)
    requires Spells(slots, at, index) && i < |slots| && forall x :: x in at ==> at[x] != i
    ensures Spells(slots[i := Slot(id, ref, true, false)], at[id := i], index[id := ref])
  {
  }

  lemma EraseKeepsTable(slots: seq<Slot>, used: nat, at: map<OrderId, nat>, index: map<OrderId, OrderRef>,
                        mix: Mixer, id: OrderId)
    requires TableOk(slots, used, at, index, mix) && id in at
    ensures TableOk(slots[at[id] := slots[at[id]].(occupied := false, tombstone := true)], used,
                    at - {id}, index - {id}, mix)
  {
    BuryKeepsProbes(slots, at, mix, id);
    UsedCountUpdate(slots, at[id], slots[at[id]].(occupied := false, tombstone := true));
  }

  lemma EmptyTableOk(n: nat, mix: Mixer)
    requires n >= 16 && IsPowerOfTwo(n)
    ensures TableOk(seq(n, _ => EMPTY_SLOT), 0, map[], map[], mix)
  {
    UsedCountAllFresh(seq(n, _ => EMPTY_SLOT));
  }

  lemma CapacityIsPower(slots: seq<Slot>, used: nat, at: map<OrderId, nat>, index: map<OrderId, OrderRef>, mix: Mixer)
    requires TableOk(slots, used, at, index, mix)
    ensures |slots| >= 16 && IsPowerOfTwo(|slots|)
  {
  }

  /** On every table the book can have, masking a hash or the next slot's number stays in bounds and
      is taking the remainder, so a probe visits every slot and wraps past the end. */
  lemma TableCapacity(slots: seq<Slot>, used: nat, at: map<OrderId, nat>, index: map<OrderId, OrderRef>, mix: Mixer)
    requires TableOk(slots, used, at, index, mix)
    ensures forall id :: And(mix(id), |slots| - 1) == Home(mix, id, |slots|) < |slots|
    ensures forall i :: 0 <= i < |slots| ==> And(i + 1, |slots| - 1) == NextSlot(i, |slots|)
  {
    var n := |slots|;
    var k: nat :| n == Pow2(k);
    forall id: OrderId ensures And(mix(id), n - 1) == Home(mix, id, n) { MaskIsRemainder(mix(id), k); }
    forall i: nat | i < n ensures And(i + 1, n - 1) == NextSlot(i, n) {
      MaskIsRemainder(i + 1, k);
      if i + 1 == n { DivModUnique(n, n, 1, 0); } else { DivModUnique(i + 1, n, 0, i + 1); }
    }
  }
}
