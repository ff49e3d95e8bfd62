/** Dynamic locks (crypto/cryptlib.c): slots with reference counts. Each method is one critical
    section under CRYPTO_LOCK_DYNLOCK; CRYPTO_lock is a get, the locking callback outside of the
    section, and a destroy, so any sequence of these calls is an interleaving of threads. */
module DynLocks {
  import opened Options

  type Thread = nat
  type Value = nat // what dynlock_create_callback returned

  datatype Lock = Lock(data: Value, references: int)

  datatype Use = Use(slot: nat, data: Value)

  // ---------- identifiers ----------

  function IdOfSlot(i: nat): int { -(i + 1) }

  // Both users of an identifier decode it this way.
  function SlotOfId(id: int): int { if id != 0 then -id - 1 else id }

  /** Exactly the failure value 0 is also read as a slot, and as the same slot as -1. */
  lemma ZeroAliasesFirst(id: int)
    ensures SlotOfId(id) == SlotOfId(IdOfSlot(0)) <==> id == 0 || id == IdOfSlot(0)
  {}

  // ---------- counting uses ----------

  // Threads inside CRYPTO_lock on slot i.
  function Users(inFlight: map<Thread, Use>, i: nat): set<Thread> { set t | t in inFlight && inFlight[t].slot == i }

  lemma UserAdded(inFlight: map<Thread, Use>, t: Thread, u: Use, i: nat)
    requires t !in inFlight
    ensures |Users(inFlight[t := u], i)| == |Users(inFlight, i)| + if u.slot == i then 1 else 0
  {
    var a, b := Users(inFlight[t := u], i), Users(inFlight, i);
    if u.slot == i { assert a == b + {t}; } else { assert a == b; }
  }

  lemma UserRemoved(inFlight: map<Thread, Use>, t: Thread, i: nat)
    requires t in inFlight
    ensures |Users(inFlight, i)| == |Users(inFlight - {t}, i)| + if inFlight[t].slot == i then 1 else 0
  {
    var a, b := Users(inFlight, i), Users(inFlight - {t}, i);
    if inFlight[t].slot == i { assert a == b + {t}; } else { assert a == b; }
  }

  lemma UserPositive(inFlight: map<Thread, Use>, t: Thread)
    requires t in inFlight
    ensures |Users(inFlight, inFlight[t].slot)| >= 1
  {
    assert Users(inFlight, inFlight[t].slot) >= {t};
    assert Users(inFlight, inFlight[t].slot) == {t} + (Users(inFlight, inFlight[t].slot) - {t});
  }

  predicate SlotOk(s: Option<Lock>, i: nat, owned: set<nat>, inFlight: map<Thread, Use>) {
    var count := |Users(inFlight, i)| + if i in owned then 1 else 0;
    match s
    case None => count == 0 && forall t :: t in inFlight ==> inFlight[t].slot != i
    case Some(l) => count >= 1 && l.references == count
  }

  ghost predicate ValidAt(slots: seq<Option<Lock>>, owned: set<nat>, inFlight: map<Thread, Use>) {
    && (forall i :: i in owned ==> i < |slots|)
    && (forall t :: t in inFlight ==> inFlight[t].slot < |slots|)
    && (forall i :: 0 <= i < |slots| ==> SlotOk(slots[i], i, owned, inFlight))
    && (forall t :: t in inFlight ==> slots[inFlight[t].slot].Some? && slots[inFlight[t].slot].value.data == inFlight[t].data)
  }

  class Table {
    var slots: seq<Option<Lock>>
    // Slots whose creator has not destroyed them, and calls of CRYPTO_lock under way.
    ghost var owned: set<nat>
    ghost var inFlight: map<Thread, Use>

    /** A slot is empty exactly when nobody owns or uses it, its count is the number of owners and users,
        and every call under way still finds the lock it got. */
    ghost predicate Valid()
      reads this
    {
      ValidAt(slots, owned, inFlight)
    }

    constructor ()
      ensures Valid() && slots == [] && owned == {} && inFlight == map[]
    {
      slots, owned, inFlight := [], {}, map[];
    }

    // sk_find for an empty slot
    method FindEmpty() returns (i: int)
      ensures -1 <= i < |slots| && (i >= 0 ==> slots[i].None?) && (i == -1 ==> forall k :: 0 <= k < |slots| ==> slots[k].Some?)
    {
      i := 0;
      while i < |slots| && slots[i].Some?
        invariant 0 <= i <= |slots| && forall k :: 0 <= k < i ==> slots[k].Some?
      {
        i := i + 1;
      }
      if i == |slots| { i := -1; }
    }

    /** CRYPTO_get_new_dynlockid, with the value the create callback made: a fresh or an empty slot,
        never one that is owned or in use. */
    method GetNewDynlockId(data: Value) returns (id: int)
      requires Valid()
      modifies this
      ensures Valid() && id < 0 && inFlight == old(inFlight)
      ensures var i := SlotOfId(id);
              && 0 <= i < |slots| && i !in old(owned) && owned == old(owned) + {i}
              && (forall t :: t in inFlight ==> inFlight[t].slot != i)
              && slots[i] == Some(Lock(data, 1)) && |slots| >= |old(slots)|
              && (forall k :: 0 <= k < |old(slots)| && k != i ==> slots[k] == old(slots[k]))
              && (if i < |old(slots)| then |slots| == |old(slots)| && old(slots[i]).None?
                  else |slots| == |old(slots)| + 1 && forall k :: 0 <= k < |old(slots)| ==> old(slots[k]).Some?)
    {
      ghost var was := slots;
      var i := FindEmpty();
      NoUserOfEmpty();
      if i == -1 {
        NoUserPastEnd();
        slots := slots + [Some(Lock(data, 1))];
        i := |slots| - 1;
      } else {
        slots := slots[i := Some(Lock(data, 1))];
      }
      assert Users(inFlight, i) == {};
      owned := owned + {i};
      forall k | 0 <= k < |slots| ensures SlotOk(slots[k], k, owned, inFlight) {
        if k != i { assert SlotOk(was[k], k, owned - {i}, inFlight); }
      }
      id := -(i + 1);
    }

    lemma NoUserOfEmpty()
      requires Valid()
      ensures forall i :: 0 <= i < |slots| && slots[i].None? ==> i !in owned && forall t :: t in inFlight ==> inFlight[t].slot != i
    {
      forall i | 0 <= i < |slots| && slots[i].None? ensures i !in owned && forall t :: t in inFlight ==> inFlight[t].slot != i {
        assert SlotOk(slots[i], i, owned, inFlight);
      }
    }

    lemma NoUserPastEnd()
      requires Valid()
      ensures |slots| !in owned && forall t :: t in inFlight ==> inFlight[t].slot != |slots|
    {}

    /** CRYPTO_get_dynlock_value at the start of CRYPTO_lock. */
    method GetDynlockValue(id: int, ghost t: Thread) returns (pointer: Option<Value>)
      requires Valid() && t !in inFlight
      modifies this
      ensures Valid() && owned == old(owned) && |slots| == |old(slots)|
      ensures var i := SlotOfId(id);
              pointer == if 0 <= i < |slots| && old(slots[i]).Some? then Some(old(slots[i]).value.data) else None
      ensures pointer.None? ==> slots == old(slots) && inFlight == old(inFlight)
      ensures forall k :: 0 <= k < |slots| && !(k == SlotOfId(id) && pointer.Some?) ==> slots[k] == old(slots[k])
      ensures pointer.Some? ==> SlotOfId(id) >= 0 && slots[SlotOfId(id)] == Some(Lock(pointer.value, old(slots[SlotOfId(id)]).value.references + 1))
      ensures pointer.Some? ==> inFlight == old(inFlight)[t := Use(SlotOfId(id), pointer.value)]
    {
      var i := id;
      if i != 0 { i := -i - 1; }
      pointer := None;
      if 0 <= i < |slots| && slots[i].Some? {
        ghost var was, users := slots, inFlight;
        var p := slots[i].value;
        slots := slots[i := Some(p.(references := p.references + 1))];
        pointer := Some(p.data);
        inFlight := inFlight[t := Use(i, p.data)];
        forall k | 0 <= k < |slots| ensures SlotOk(slots[k], k, owned, inFlight) {
          assert SlotOk(was[k], k, owned, users);
          UserAdded(users, t, Use(i, p.data), k);
        }
      }
    }

    // CRYPTO_destroy_dynlockid; freed is the lock handed to the destroy callback.
    method DropReference(i: nat) returns (freed: Option<Value>)
      requires i < |slots| && slots[i].Some?
      modifies `slots
      ensures |slots| == |old(slots)| && forall k :: 0 <= k < |slots| && k != i ==> slots[k] == old(slots[k])
      ensures var p := old(slots[i]).value;
              if p.references <= 1 then slots[i] == None && freed == Some(p.data)
              else slots[i] == Some(p.(references := p.references - 1)) && freed == None
    {
      var p := slots[i].value;
      p := p.(references := p.references - 1);
      if p.references <= 0 {
        slots := slots[i := None];
        freed := Some(p.data);
      } else {
        slots := slots[i := Some(p)];
        freed := None;
      }
    }

    /** The end of CRYPTO_lock: the thread's reference goes, and the lock with it when it was the last one. */
    method EndLock(id: int, ghost t: Thread) returns (freed: Option<Value>)
      requires Valid() && t in inFlight && inFlight[t].slot == SlotOfId(id)
      modifies this
      ensures Valid() && owned == old(owned) && inFlight == old(inFlight) - {t}
      ensures freed.Some? <==> SlotOfId(id) !in owned && |Users(inFlight, SlotOfId(id))| == 0
      ensures freed.Some? ==> freed.value == old(inFlight[t].data)
      ensures |slots| == |old(slots)| && forall k :: 0 <= k < |slots| && k != SlotOfId(id) ==> slots[k] == old(slots[k])
      ensures freed.None? ==> slots[SlotOfId(id)].Some? && slots[SlotOfId(id)].value.data == old(slots[SlotOfId(id)]).value.data
    {
      var i := id;
      if i != 0 { i := -i - 1; }
      ghost var was, users := slots, inFlight;
      assert SlotOk(slots[i], i, owned, inFlight);
      freed := DropReference(i);
      inFlight := inFlight - {t};
      UserRemoved(users, t, i);
      StillUsed(users, t, i, freed.Some?);
      forall k | 0 <= k < |slots| ensures SlotOk(slots[k], k, owned, inFlight) {
        assert SlotOk(was[k], k, owned, users);
        if k != i { SlotKept(was[k], k, owned, users, t); }
      }
    }

    /** CRYPTO_destroy_dynlockid: one reference of the slot goes, and the lock with it when it was the last
        one. The counts stay right unless the slot holds a lock that was destroyed before and is still in use. */
    method Destroy(id: int) returns (freed: Option<Value>)
      requires Valid()
      modifies this
      ensures var i := SlotOfId(id);
              && owned == old(owned) - {i} && inFlight == old(inFlight) && |slots| == |old(slots)|
              && (forall k :: 0 <= k < |slots| && k != i ==> slots[k] == old(slots[k]))
              && (Valid() <==> i in old(owned) || !(0 <= i < |slots| && old(slots[i]).Some?))
              && (i in old(owned) ==> 0 <= i < |slots| && old(slots[i]).Some? && (freed.Some? <==> |Users(inFlight, i)| == 0))
              && (if 0 <= i < |slots| && old(slots[i]).Some? then
                    var p := old(slots[i]).value;
                    if p.references <= 1 then slots[i] == None && freed == Some(p.data)
                    else slots[i] == Some(p.(references := p.references - 1)) && freed == None
                  else slots == old(slots) && freed == None)
    {
      var i := id;
      if i != 0 { i := -i - 1; }
      freed := None;
      OwnedInSlots();
      if 0 <= i < |slots| && slots[i].Some? {
        ghost var was, had := slots, owned;
        assert SlotOk(slots[i], i, owned, inFlight);
        freed := DropReference(i);
        owned := owned - {i};
        if i in had {
          DestroyedOnce(was, had, i);
        } else {
          assert !SlotOk(slots[i], i, owned, inFlight);
        }
      } else {
        assert owned - {i} == owned;
      }
    }

    lemma OwnedInSlots()
      requires Valid()
      ensures forall i :: i in owned ==> 0 <= i < |slots| && slots[i].Some?
    {
      forall i | i in owned ensures 0 <= i < |slots| && slots[i].Some? {
        assert SlotOk(slots[i], i, owned, inFlight);
      }
    }

    // The creator's reference of slot i is gone.
    lemma DestroyedOnce(was: seq<Option<Lock>>, had: set<nat>, i: nat)
      requires i in had && owned == had - {i} && |was| == |slots| && i < |slots| && was[i].Some?
      requires (forall k :: 0 <= k < |slots| && k != i ==> slots[k] == was[k])
      requires var p := was[i].value; slots[i] == if p.references <= 1 then None else Some(p.(references := p.references - 1))
      requires ValidAt(was, had, inFlight)
      ensures Valid()
    {
      NoUsers(inFlight, i);
      forall k | 0 <= k < |slots| ensures SlotOk(slots[k], k, owned, inFlight) {
        assert SlotOk(was[k], k, had, inFlight);
      }
      forall u | u in inFlight ensures slots[inFlight[u].slot].Some? && slots[inFlight[u].slot].value.data == inFlight[u].data {
        UserPositive(inFlight, u);
      }
    }
  }

  lemma NoUsers(inFlight: map<Thread, Use>, i: nat)
    ensures |Users(inFlight, i)| == 0 ==> forall t :: t in inFlight ==> inFlight[t].slot != i
  {
    forall t | |Users(inFlight, i)| == 0 && t in inFlight ensures inFlight[t].slot != i {
      assert t !in Users(inFlight, i);
    }
  }

  lemma SlotKept(s: Option<Lock>, k: nat, owned: set<nat>, users: map<Thread, Use>, t: Thread)
    requires t in users && users[t].slot != k && SlotOk(s, k, owned, users)
    ensures SlotOk(s, k, owned, users - {t})
  {
    UserRemoved(users, t, k);
  }

  // A slot that was freed has no other user.
  lemma StillUsed(users: map<Thread, Use>, t: Thread, i: nat, freed: bool)
    requires t in users && users[t].slot == i && (freed ==> |Users(users - {t}, i)| == 0)
    ensures var rest := users - {t}; freed ==> forall u :: u in rest ==> rest[u].slot != i
  {
    var rest := users - {t};
    forall u | freed && u in rest ensures rest[u].slot != i {
      assert u !in Users(rest, i);
    }
  }

  /** A lock destroyed twice while a thread is inside CRYPTO_lock on it: the thread's lock is freed. */
  method DestroyedTwice(data: Value, ghost t: Thread) returns (table: Table, freed: Option<Value>)
    ensures !table.Valid() && t in table.inFlight && table.inFlight[t].data == data && freed == Some(data)
    ensures table.slots == [None]
  {
    table := new Table();
    var id := table.GetNewDynlockId(data);
    var pointer := table.GetDynlockValue(id, t);
    freed := table.Destroy(id);
    freed := table.Destroy(id);
  }
}
