/** Reference counts of application information (crypto/mem_dbg.c): each thread has a stack of nodes
    whose top is in a hash table, and each recorded memory block holds the node that was on top. */
module AppInfo {
  import opened Options

  type Id = nat       // a node; later nodes have larger numbers
  type Thread = nat
  type Addr = nat

  datatype Node = Node(thread: Thread, next: Option<Id>, references: int)

  // ---------- holders ----------

  function TopHolders(tops: map<Thread, Id>, id: Id): set<Thread> { set t | t in tops && tops[t] == id }

  // Nodes in `dying` are about to be freed and hold nothing any more.
  function NextHolders(nodes: map<Id, Node>, dying: set<Id>, id: Id): set<Id> {
    set n | n in nodes && n !in dying && nodes[n].next == Some(id)
  }

  function MemHolders(mems: map<Addr, Option<Id>>, id: Id): set<Addr> { set a | a in mems && mems[a] == Some(id) }

  function Holders(nodes: map<Id, Node>, dying: set<Id>, tops: map<Thread, Id>, mems: map<Addr, Option<Id>>, id: Id): nat {
    |TopHolders(tops, id)| + |NextHolders(nodes, dying, id)| + |MemHolders(mems, id)|
  }

  // Everything held is allocated, and stacks go from newer to older nodes of one thread.
  ghost predicate Linked(nodes: map<Id, Node>, dying: set<Id>, tops: map<Thread, Id>, mems: map<Addr, Option<Id>>) {
    && (forall t :: t in tops ==> tops[t] in nodes && nodes[tops[t]].thread == t)
    && (forall n :: n in nodes && nodes[n].next.Some? && n !in dying ==>
          nodes[n].next.value in nodes && nodes[n].next.value < n && nodes[nodes[n].next.value].thread == nodes[n].thread)
    && (forall a :: a in mems && mems[a].Some? ==> mems[a].value in nodes)
    && (forall d :: d in dying ==> d in nodes)
  }

  // Every count is the number of holders, apart from `owed` more on node x.
  ghost predicate Counted(nodes: map<Id, Node>, dying: set<Id>, tops: map<Thread, Id>, mems: map<Addr, Option<Id>>, x: Id, owed: int) {
    forall n :: n in nodes ==> nodes[n].references == Holders(nodes, dying, tops, mems, n) + if n == x then owed else 0
  }

  lemma NextSame(nodes: map<Id, Node>, nodes': map<Id, Node>, dying: set<Id>, id: Id)
    requires nodes.Keys == nodes'.Keys && forall n :: n in nodes ==> nodes[n].next == nodes'[n].next
    ensures NextHolders(nodes, dying, id) == NextHolders(nodes', dying, id)
  {}

  // A node that starts dying gives up its hold on the next one.
  lemma NextDying(nodes: map<Id, Node>, dying: set<Id>, d: Id, id: Id)
    requires d in nodes && d !in dying
    ensures |NextHolders(nodes, dying, id)| == |NextHolders(nodes, dying + {d}, id)| + if nodes[d].next == Some(id) then 1 else 0
  {
    var a, b := NextHolders(nodes, dying, id), NextHolders(nodes, dying + {d}, id);
    if nodes[d].next == Some(id) { assert a == b + {d} && d !in b; } else { assert a == b; }
  }

  // Freeing a dying node changes nobody's holders.
  lemma NextFreed(nodes: map<Id, Node>, dying: set<Id>, d: Id, id: Id)
    requires d in nodes && d in dying
    ensures NextHolders(nodes - {d}, dying - {d}, id) == NextHolders(nodes, dying, id)
  {}

  lemma NextAdded(nodes: map<Id, Node>, n: Id, node: Node, id: Id)
    requires n !in nodes
    ensures |NextHolders(nodes[n := node], {}, id)| == |NextHolders(nodes, {}, id)| + if node.next == Some(id) then 1 else 0
  {
    var a, b := NextHolders(nodes[n := node], {}, id), NextHolders(nodes, {}, id);
    if node.next == Some(id) { assert a == b + {n}; } else { assert a == b; }
  }

  lemma TopRemoved(tops: map<Thread, Id>, t: Thread, id: Id)
    requires t in tops
    ensures |TopHolders(tops, id)| == |TopHolders(tops - {t}, id)| + if tops[t] == id then 1 else 0
  {
    var a, b := TopHolders(tops, id), TopHolders(tops - {t}, id);
    if tops[t] == id { assert a == b + {t}; } else { assert a == b; }
  }

  lemma TopAdded(tops: map<Thread, Id>, t: Thread, n: Id, id: Id)
    requires t !in tops
    ensures |TopHolders(tops[t := n], id)| == |TopHolders(tops, id)| + if n == id then 1 else 0
  {
    var a, b := TopHolders(tops[t := n], id), TopHolders(tops, id);
    if n == id { assert a == b + {t}; } else { assert a == b; }
  }

  lemma MemRemoved(mems: map<Addr, Option<Id>>, a: Addr, id: Id)
    requires a in mems
    ensures |MemHolders(mems, id)| == |MemHolders(mems - {a}, id)| + if mems[a] == Some(id) then 1 else 0
  {
    var s, r := MemHolders(mems, id), MemHolders(mems - {a}, id);
    if mems[a] == Some(id) { assert s == r + {a}; } else { assert s == r; }
  }

  lemma MemAdded(mems: map<Addr, Option<Id>>, a: Addr, v: Option<Id>, id: Id)
    requires a !in mems
    ensures |MemHolders(mems[a := v], id)| == |MemHolders(mems, id)| + if v == Some(id) then 1 else 0
  {
    var s, r := MemHolders(mems[a := v], id), MemHolders(mems, id);
    if v == Some(id) { assert s == r + {a}; } else { assert s == r; }
  }

  // A node without holders is named by nothing that still counts.
  lemma NoHolders(nodes: map<Id, Node>, dying: set<Id>, tops: map<Thread, Id>, mems: map<Addr, Option<Id>>, id: Id)
    requires Holders(nodes, dying, tops, mems, id) == 0
    ensures (forall t :: t in tops ==> tops[t] != id) && (forall a :: a in mems ==> mems[a] != Some(id))
    ensures forall n :: n in nodes && n !in dying ==> nodes[n].next != Some(id)
  {
    forall t | t in tops ensures tops[t] != id { assert t !in TopHolders(tops, id); }
    forall a | a in mems ensures mems[a] != Some(id) { assert a !in MemHolders(mems, id); }
    forall n | n in nodes && n !in dying ensures nodes[n].next != Some(id) { assert n !in NextHolders(nodes, dying, id); }
  }

  // ---------- dropping a reference ----------

  lemma RefChanged(nodes: map<Id, Node>, dying: set<Id>, tops: map<Thread, Id>, mems: map<Addr, Option<Id>>, x: Id, owed: int, d: int)
    requires x in nodes && Linked(nodes, dying, tops, mems) && Counted(nodes, dying, tops, mems, x, owed)
    ensures var nodes' := nodes[x := nodes[x].(references := nodes[x].references + d)];
            Linked(nodes', dying, tops, mems) && Counted(nodes', dying, tops, mems, x, owed + d)
  {
    hide TopHolders, MemHolders, NextHolders;
    var nodes' := nodes[x := nodes[x].(references := nodes[x].references + d)];
    forall n | n in nodes' ensures nodes'[n].references == Holders(nodes', dying, tops, mems, n) + if n == x then owed + d else 0 {
      NextSame(nodes, nodes', dying, n);
    }
  }

  // Node x stops holding its successor, which is then counted once too often.
  lemma StartDying(nodes: map<Id, Node>, dying: set<Id>, tops: map<Thread, Id>, mems: map<Addr, Option<Id>>, x: Id)
    requires x in nodes && x !in dying && Linked(nodes, dying, tops, mems) && Counted(nodes, dying, tops, mems, 0, 0)
    ensures Linked(nodes, dying + {x}, tops, mems)
    ensures Counted(nodes, dying + {x}, tops, mems, if nodes[x].next.Some? then nodes[x].next.value else 0, if nodes[x].next.Some? then 1 else 0)
  {
    hide TopHolders, MemHolders, NextHolders;
    forall n | n in nodes
      ensures nodes[n].references == Holders(nodes, dying + {x}, tops, mems, n) + if nodes[x].next == Some(n) then 1 else 0
    {
      NextDying(nodes, dying, x, n);
    }
  }

  lemma Freed(nodes: map<Id, Node>, dying: set<Id>, tops: map<Thread, Id>, mems: map<Addr, Option<Id>>, x: Id)
    requires x in nodes && x in dying && nodes[x].references == 0
    requires Linked(nodes, dying, tops, mems) && Counted(nodes, dying, tops, mems, 0, 0)
    ensures Linked(nodes - {x}, dying - {x}, tops, mems) && Counted(nodes - {x}, dying - {x}, tops, mems, 0, 0)
  {
    hide TopHolders, MemHolders, NextHolders;
    NoHolders(nodes, dying, tops, mems, x);
    forall n | n in nodes - {x} ensures nodes[n].references == Holders(nodes - {x}, dying - {x}, tops, mems, n) {
      NextFreed(nodes, dying, x, n);
    }
  }

  lemma CountedAt(nodes: map<Id, Node>, dying: set<Id>, tops: map<Thread, Id>, mems: map<Addr, Option<Id>>, n: Id, x: Id, owed: int)
    requires n in nodes && Counted(nodes, dying, tops, mems, x, owed)
    ensures nodes[n].references >= if n == x then owed else 0
  {}

  lemma CountedNone(nodes: map<Id, Node>, dying: set<Id>, tops: map<Thread, Id>, mems: map<Addr, Option<Id>>, x: Id)
    requires Counted(nodes, dying, tops, mems, x, 0)
    ensures Counted(nodes, dying, tops, mems, 0, 0)
  {}

  // No node is new, and those left have their stacks.
  ghost predicate Inherited(now: map<Id, Node>, was: map<Id, Node>) {
    forall n :: n in now ==> n in was && now[n].next == was[n].next && now[n].thread == was[n].thread
  }

  lemma InheritedTwice(a: map<Id, Node>, b: map<Id, Node>, c: map<Id, Node>)
    requires Inherited(b, a) && Inherited(c, b)
    ensures Inherited(c, a)
  {}

  // One reference less on node x.
  function Less(nodes: map<Id, Node>, x: Id): map<Id, Node>
    requires x in nodes
  {
    nodes[x := nodes[x].(references := nodes[x].references + -1)]
  }

  // Every allocated node that is not being freed is held.
  ghost predicate AllHeld(nodes: map<Id, Node>, dying: set<Id>) {
    forall n :: n in nodes && n !in dying ==> nodes[n].references >= 1
  }

  // The hash table gives up a top node.
  lemma TopDropped(nodes: map<Id, Node>, tops: map<Thread, Id>, mems: map<Addr, Option<Id>>, t: Thread)
    requires t in tops && Linked(nodes, {}, tops, mems) && Counted(nodes, {}, tops, mems, 0, 0)
    ensures Linked(nodes, {}, tops - {t}, mems) && Counted(nodes, {}, tops - {t}, mems, tops[t], 1)
  {
    hide TopHolders, MemHolders, NextHolders;
    forall n | n in nodes ensures nodes[n].references == Holders(nodes, {}, tops - {t}, mems, n) + if n == tops[t] then 1 else 0 {
      TopRemoved(tops, t, n);
    }
  }

  // The hash table takes node n, whose count has gone up.
  lemma TopTaken(nodes: map<Id, Node>, tops: map<Thread, Id>, mems: map<Addr, Option<Id>>, t: Thread, n: Id, x: Id)
    requires t !in tops && n in nodes && nodes[n].thread == t && x != n
    requires Linked(nodes, {}, tops, mems) && Counted(nodes, {}, tops, mems, x, 1)
    ensures var nodes' := nodes[n := nodes[n].(references := nodes[n].references + 1)];
            Linked(nodes', {}, tops[t := n], mems) && Counted(nodes', {}, tops[t := n], mems, x, 1)
  {
    hide TopHolders, MemHolders, NextHolders;
    var nodes' := nodes[n := nodes[n].(references := nodes[n].references + 1)];
    forall k | k in nodes' ensures nodes'[k].references == Holders(nodes', {}, tops[t := n], mems, k) + if k == x then 1 else 0 {
      NextSame(nodes, nodes', {}, k);
      TopAdded(tops, t, n, k);
    }
  }

  // A new node on top of the old top, which passes from the hash table to the new node.
  lemma NodePushed(nodes: map<Id, Node>, tops: map<Thread, Id>, mems: map<Addr, Option<Id>>, t: Thread, n: Id, old_: Option<Id>)
    requires n !in nodes && (forall k :: k in nodes ==> k < n) && old_ == (if t in tops then Some(tops[t]) else None)
    requires Linked(nodes, {}, tops, mems) && Counted(nodes, {}, tops, mems, 0, 0)
    ensures Linked(nodes[n := Node(t, old_, 1)], {}, tops[t := n], mems)
    ensures Counted(nodes[n := Node(t, old_, 1)], {}, tops[t := n], mems, 0, 0)
  {
    hide TopHolders, MemHolders, NextHolders;
    var node := Node(t, old_, 1);
    var nodes' := nodes[n := node];
    forall k | k in nodes' ensures nodes'[k].references == Holders(nodes', {}, tops[t := n], mems, k) {
      NextAdded(nodes, n, node, k);
      TopReplaced(tops, t, n, k);
      if k == n { NewHasNone(nodes, tops, mems, n); }
    }
  }

  lemma TopReplaced(tops: map<Thread, Id>, t: Thread, n: Id, id: Id)
    ensures |TopHolders(tops[t := n], id)|
         == |TopHolders(tops, id)| - (if t in tops && tops[t] == id then 1 else 0) + (if n == id then 1 else 0)
  {
    hide TopHolders;
    if t in tops { TopRemoved(tops, t, id); }
    TopAdded(tops - {t}, t, n, id);
    assert (tops - {t})[t := n] == tops[t := n];
    if t !in tops { assert tops - {t} == tops; }
  }

  lemma NewHasNone(nodes: map<Id, Node>, tops: map<Thread, Id>, mems: map<Addr, Option<Id>>, n: Id)
    requires Linked(nodes, {}, tops, mems) && n !in nodes
    ensures Holders(nodes, {}, tops, mems, n) == 0
  {
    assert TopHolders(tops, n) == {};
    assert NextHolders(nodes, {}, n) == {};
    assert MemHolders(mems, n) == {};
  }

  // A recorded block gives up the node it holds.
  lemma MemDropped(nodes: map<Id, Node>, tops: map<Thread, Id>, mems: map<Addr, Option<Id>>, a: Addr)
    requires a in mems && Linked(nodes, {}, tops, mems) && Counted(nodes, {}, tops, mems, 0, 0)
    ensures Linked(nodes, {}, tops, mems - {a})
    ensures Counted(nodes, {}, tops, mems - {a}, if mems[a].Some? then mems[a].value else 0, if mems[a].Some? then 1 else 0)
  {
    hide TopHolders, MemHolders, NextHolders;
    forall n | n in nodes ensures nodes[n].references == Holders(nodes, {}, tops, mems - {a}, n) + if mems[a] == Some(n) then 1 else 0 {
      MemRemoved(mems, a, n);
    }
  }

  // A recorded block takes node v, whose count has gone up.
  lemma MemTaken(nodes: map<Id, Node>, tops: map<Thread, Id>, mems: map<Addr, Option<Id>>, a: Addr, v: Option<Id>)
    requires a !in mems && (v.Some? ==> v.value in nodes)
    requires Linked(nodes, {}, tops, mems) && Counted(nodes, {}, tops, mems, if v.Some? then v.value else 0, if v.Some? then 1 else 0)
    ensures Linked(nodes, {}, tops, mems[a := v]) && Counted(nodes, {}, tops, mems[a := v], 0, 0)
  {
    hide TopHolders, MemHolders, NextHolders;
    forall n | n in nodes ensures nodes[n].references == Holders(nodes, {}, tops, mems[a := v], n) {
      MemAdded(mems, a, v, n);
    }
  }

  class MemDebug {
    var nodes: map<Id, Node>
    var tops: map<Thread, Id>          // amih
    var mems: map<Addr, Option<Id>>    // mh: the node each recorded block holds
    var serial: Id                  // numbers used so far

    constructor ()
      ensures Valid() && AllHeld(nodes, {}) && nodes == map[] && tops == map[] && mems == map[]
    {
      nodes, tops, mems, serial := map[], map[], map[], 0;
    }

    /** Every reference count is the number of holders, and nothing holds a freed node. */
    ghost predicate Valid()
      reads this
    {
      && Linked(nodes, {}, tops, mems) && Counted(nodes, {}, tops, mems, 0, 0)
      && forall n :: n in nodes ==> n < serial
    }

    /** app_info_free: drops one reference; a node without any is freed after its own reference is dropped. */
    method AppInfoFree(inf: Id, ghost dying: set<Id>)
      requires inf in nodes && inf !in dying && forall d :: d in dying ==> d > inf
      requires Linked(nodes, dying, tops, mems) && Counted(nodes, dying, tops, mems, inf, 1)
      modifies `nodes
      ensures Linked(nodes, dying, tops, mems) && Counted(nodes, dying, tops, mems, 0, 0)
      ensures Inherited(nodes, old(nodes))
      ensures forall n :: n in old(nodes) && n > inf ==> n in nodes && nodes[n] == old(nodes[n])
      ensures old(AllHeld(nodes, dying)) ==> AllHeld(nodes, dying)
      decreases inf
    {
      hide Linked, Counted, Holders;
      RefChanged(nodes, dying, tops, mems, inf, 1, -1);
      CountedAt(nodes, dying, tops, mems, inf, inf, 1);
      nodes := nodes[inf := nodes[inf].(references := nodes[inf].references + -1)];
      CountedNone(nodes, dying, tops, mems, inf);
      if nodes[inf].references <= 0 {
        StartDying(nodes, dying, tops, mems, inf);
        var next := nodes[inf].next;
        if next.Some? {
          NextOlder(nodes, dying, tops, mems, inf);
          AppInfoFree(next.value, dying + {inf});
        }
        Freed(nodes, dying + {inf}, tops, mems, inf);
        assert dying + {inf} - {inf} == dying;
        nodes := nodes - {inf};
      }
    }

    /** pop_info: the thread's stack loses its top, and the popped node is freed unless a block holds it. */
    method PopInfo(cur: Thread) returns (ret: Option<Id>)
      requires Valid()
      modifies this
      ensures Valid() && mems == old(mems) && serial == old(serial)
      ensures ret == (if cur in old(tops) then Some(old(tops[cur])) else None)
      ensures ret.None? ==> tops == old(tops) && nodes == old(nodes)
      ensures ret.Some? && old(nodes[tops[cur]].next).None? ==> tops == old(tops) - {cur}
      ensures ret.Some? && old(nodes[tops[cur]].next).Some? ==> tops == old(tops)[cur := old(nodes[tops[cur]].next.value)]
      ensures ret.Some? ==> (ret.value in nodes <==> old(nodes[tops[cur]].references) > 1)
      ensures Inherited(nodes, old(nodes))
      ensures old(AllHeld(nodes, {})) ==> AllHeld(nodes, {})
    {
      hide Linked, Counted, Holders;
      ret := None;
      if cur !in tops { return; }
      var r := tops[cur];
      TopInNodes(nodes, tops, mems, cur);
      TopDropped(nodes, tops, mems, cur);
      tops := tops - {cur};
      ret := Some(r);
      var next := nodes[r].next;
      if next.Some? {
        NextOlder(nodes, {}, tops, mems, r);
        TopTaken(nodes, tops, mems, cur, next.value, r);
        nodes := nodes[next.value := nodes[next.value].(references := nodes[next.value].references + 1)];
        tops := tops[cur := next.value];
      }
      ReleasePopped(r);
      if old(AllHeld(nodes, {})) { PopKeepsHeld(old(nodes), nodes, r); }
    }

    // The end of pop_info: the hash table no longer holds node r.
    method ReleasePopped(r: Id)
      requires r in nodes && (nodes[r].next.Some? ==> nodes[r].next.value in nodes && nodes[r].next.value != r)
      requires Linked(nodes, {}, tops, mems) && Counted(nodes, {}, tops, mems, r, 1)
      modifies `nodes
      ensures Linked(nodes, {}, tops, mems) && Counted(nodes, {}, tops, mems, 0, 0)
      ensures old(nodes[r].references) > 1 ==> nodes == Less(old(nodes), r)
      ensures old(nodes[r].references) <= 1 ==>
                nodes == (if old(nodes[r].next).Some? then Less(old(nodes), old(nodes[r].next.value)) else old(nodes)) - {r}
    {
      hide Linked, Counted, Holders;
      var next := nodes[r].next;
      RefChanged(nodes, {}, tops, mems, r, 1, -1);
      CountedAt(nodes, {}, tops, mems, r, r, 1);
      nodes := Less(nodes, r);
      CountedNone(nodes, {}, tops, mems, r);
      if nodes[r].references <= 0 {
        ghost var was := nodes;
        StartDying(nodes, {}, tops, mems, r);
        assert {} + {r} == {r} && {r} - {r} == {};
        if next.Some? {
          RefChanged(was, {r}, tops, mems, next.value, 1, -1);
          was := Less(was, next.value);
          CountedNone(was, {r}, tops, mems, next.value);
        }
        Freed(was, {r}, tops, mems, r);
        nodes := nodes[r := nodes[r].(next := None)];
        if next.Some? { nodes := Less(nodes, next.value); }
        nodes := nodes - {r};
        assert nodes == was - {r};
      }
    }

    /** CRYPTO_push_info_: a new node on top of the thread's stack (the code's return value is always 0). */
    method PushInfo(cur: Thread) returns (ret: int)
      requires Valid()
      modifies this
      ensures Valid() && mems == old(mems) && ret == 0
      ensures tops == old(tops)[cur := old(serial)] && old(serial) !in old(nodes)
      ensures nodes == old(nodes)[old(serial) := Node(cur, if cur in old(tops) then Some(old(tops[cur])) else None, 1)]
      ensures old(AllHeld(nodes, {})) ==> AllHeld(nodes, {})
    {
      hide Linked, Counted, Holders;
      ret := 0;
      var ami := serial;
      serial := serial + 1;
      var amim := if cur in tops then Some(tops[cur]) else None;
      NodePushed(nodes, tops, mems, cur, ami, amim);
      nodes := nodes[ami := Node(cur, None, 1)];
      tops := tops[cur := ami];
      if amim.Some? { nodes := nodes[ami := nodes[ami].(next := amim)]; }
      assert nodes == old(nodes)[ami := Node(cur, amim, 1)];
    }

    /** CRYPTO_remove_all_info: pops until the thread's stack is empty. */
    method RemoveAllInfo(cur: Thread) returns (ret: nat)
      requires Valid()
      modifies this
      ensures Valid() && mems == old(mems) && tops == old(tops) - {cur}
      ensures Inherited(nodes, old(nodes))
      ensures old(AllHeld(nodes, {})) ==> AllHeld(nodes, {})
    {
      hide Linked, Counted, Holders, AllHeld, Inherited, Valid;
      ret := 0;
      ghost var before := tops - {cur};
      TopOlder();
      var top := PopInfo(cur);
      while top.Some?
        invariant Valid() && mems == old(mems) && Inherited(nodes, old(nodes)) && (old(AllHeld(nodes, {})) ==> AllHeld(nodes, {}))
        invariant (top.None? ==> cur !in tops) && tops - {cur} == before
        invariant top.Some? && cur in tops ==> tops[cur] < top.value
        decreases if top.Some? then top.value + 1 else 0
      {
        ret := ret + 1;
        TopOlder();
        ghost var mid := nodes;
        top := PopInfo(cur);
        InheritedTwice(old(nodes), mid, nodes);
      }
      assert tops == tops - {cur};
    }

    lemma TopOlder()
      requires Valid()
      ensures forall n :: n in nodes && nodes[n].next.Some? ==> nodes[n].next.value < n
      ensures forall t :: t in tops ==> tops[t] in nodes
    {}

    /** CRYPTO_dbg_malloc: the block holds the thread's top node; only replacing a record can leave a node
        unfreed that nothing holds. */
    method DbgMalloc(addr: Addr, cur: Thread)
      requires Valid()
      modifies this
      ensures Valid() && tops == old(tops) && nodes.Keys == old(nodes.Keys) && Inherited(nodes, old(nodes))
      ensures mems == old(mems)[addr := if cur in tops then Some(tops[cur]) else None]
      ensures old(AllHeld(nodes, {})) ==>
                (AllHeld(nodes, {}) <==> !(addr in old(mems) && old(mems[addr]).Some? && old(nodes[mems[addr].value].references) == 1
                                           && !(cur in tops && tops[cur] == old(mems[addr]).value)))
    {
      hide Linked, Counted, Holders, AllHeld, Inherited, Bumped;
      var amim := if cur in tops then Some(tops[cur]) else None;
      var mm := if addr in mems then mems[addr] else None;
      ghost var was := nodes;
      MallocCounts(nodes, tops, mems, addr, cur);
      BumpFacts(nodes, amim, 1);
      if amim.Some? {
        nodes := nodes[amim.value := nodes[amim.value].(references := nodes[amim.value].references + 1)];
      }
      mems := mems[addr := amim];
      BumpFacts(nodes, mm, -1);
      if mm.Some? {
        nodes := nodes[mm.value := nodes[mm.value].(references := nodes[mm.value].references + -1)];
      }
      MallocHeld(was, nodes, amim, mm);
      BumpedInherits(was, nodes, amim, mm);
    }

    /** CRYPTO_dbg_free: the record goes, and its node with it when nothing else holds it. */
    method DbgFree(addr: Addr)
      requires Valid()
      modifies this
      ensures Valid() && tops == old(tops) && mems == old(mems) - {addr} && Inherited(nodes, old(nodes))
      ensures old(AllHeld(nodes, {})) ==> AllHeld(nodes, {})
    {
      hide Linked, Counted, Holders;
      if addr !in mems {
        assert mems - {addr} == mems;
        return;
      }
      var mp := mems[addr];
      MemsInNodes(nodes, tops, mems);
      MemDropped(nodes, tops, mems, addr);
      mems := mems - {addr};
      if mp.Some? { AppInfoFree(mp.value, {}); }
    }
  }

  // One node's count changes by d.
  function Bumped(nodes: map<Id, Node>, x: Option<Id>, d: int): map<Id, Node>
    requires x.Some? ==> x.value in nodes
  {
    if x.None? then nodes else nodes[x.value := nodes[x.value].(references := nodes[x.value].references + d)]
  }

  lemma BumpFacts(nodes: map<Id, Node>, x: Option<Id>, d: int)
    requires x.Some? ==> x.value in nodes
    ensures var b := Bumped(nodes, x, d);
            && b.Keys == nodes.Keys
            && b == (if x.None? then nodes else nodes[x.value := nodes[x.value].(references := nodes[x.value].references + d)])
  {}

  lemma BumpedInherits(was: map<Id, Node>, now: map<Id, Node>, up: Option<Id>, down: Option<Id>)
    requires (up.Some? ==> up.value in was) && (down.Some? ==> down.value in Bumped(was, up, 1)) && now == Bumped(Bumped(was, up, 1), down, -1)
    ensures Inherited(now, was) && now.Keys == was.Keys
  {}

  // Taking a record for addr: the top's count goes up, that of a replaced record's node goes down.
  lemma MallocCounts(nodes: map<Id, Node>, tops: map<Thread, Id>, mems: map<Addr, Option<Id>>, addr: Addr, cur: Thread)
    requires Linked(nodes, {}, tops, mems) && Counted(nodes, {}, tops, mems, 0, 0)
    ensures var up := if cur in tops then Some(tops[cur]) else None;
            var down := if addr in mems then mems[addr] else None;
            && (up.Some? ==> up.value in nodes) && (down.Some? ==> down.value in nodes && down.value in Bumped(nodes, up, 1))
            && Linked(Bumped(Bumped(nodes, up, 1), down, -1), {}, tops, mems[addr := up])
            && Counted(Bumped(Bumped(nodes, up, 1), down, -1), {}, tops, mems[addr := up], 0, 0)
  {
    hide Linked, Counted, Holders;
    var up := if cur in tops then Some(tops[cur]) else None;
    var down := if addr in mems then mems[addr] else None;
    MemsInNodes(nodes, tops, mems);
    if up.Some? { TopInNodes(nodes, tops, mems, cur); }
    var mems0 := mems;
    if addr in mems {
      MemDropped(nodes, tops, mems, addr);
      mems0 := mems - {addr};
      if down.Some? {
        RefChanged(nodes, {}, tops, mems0, down.value, 1, -1);
        CountedNone(Bumped(nodes, down, -1), {}, tops, mems0, down.value);
      }
    }
    var dropped := Bumped(nodes, down, -1);
    if up.Some? {
      CountedNone0(dropped, {}, tops, mems0, up.value);
      RefChanged(dropped, {}, tops, mems0, up.value, 0, 1);
    }
    assert Bumped(dropped, up, 1) == Bumped(Bumped(nodes, up, 1), down, -1);
    MemTaken(Bumped(dropped, up, 1), tops, mems0, addr, up);
    assert mems0[addr := up] == mems[addr := up];
  }

  // One node gains a holder and one loses one.
  lemma MallocHeld(was: map<Id, Node>, now: map<Id, Node>, up: Option<Id>, down: Option<Id>)
    requires (up.Some? ==> up.value in was) && (down.Some? ==> down.value in was && down.value in Bumped(was, up, 1))
    requires now == Bumped(Bumped(was, up, 1), down, -1)
    ensures AllHeld(was, {}) ==> (AllHeld(now, {}) <==> !(down.Some? && was[down.value].references == 1 && up != down))
  {
    if down.Some? { assert AllHeld(now, {}) ==> now[down.value].references >= 1; }
  }

  lemma TopInNodes(nodes: map<Id, Node>, tops: map<Thread, Id>, mems: map<Addr, Option<Id>>, t: Thread)
    requires t in tops && Linked(nodes, {}, tops, mems)
    ensures tops[t] in nodes && nodes[tops[t]].thread == t
  {}

  lemma MemsInNodes(nodes: map<Id, Node>, tops: map<Thread, Id>, mems: map<Addr, Option<Id>>)
    requires Linked(nodes, {}, tops, mems)
    ensures forall a :: a in mems && mems[a].Some? ==> mems[a].value in nodes
  {}

  lemma CountedNone0(nodes: map<Id, Node>, dying: set<Id>, tops: map<Thread, Id>, mems: map<Addr, Option<Id>>, x: Id)
    requires Counted(nodes, dying, tops, mems, 0, 0)
    ensures Counted(nodes, dying, tops, mems, x, 0)
  {}

  // The successor of a popped node gains the hash table and loses at most the popped node.
  lemma PopKeepsHeld(nodes: map<Id, Node>, nodes': map<Id, Node>, r: Id)
    requires AllHeld(nodes, {}) && nodes'.Keys <= nodes.Keys && (r in nodes' ==> nodes'[r].references >= 1)
    requires forall n :: n in nodes' && n != r ==> nodes'[n].references >= nodes[n].references
    ensures AllHeld(nodes', {})
  {}

  lemma NextOlder(nodes: map<Id, Node>, dying: set<Id>, tops: map<Thread, Id>, mems: map<Addr, Option<Id>>, x: Id)
    requires Linked(nodes, dying, tops, mems) && x in nodes && x !in dying && nodes[x].next.Some?
    ensures nodes[x].next.value in nodes && nodes[x].next.value < x && nodes[nodes[x].next.value].thread == nodes[x].thread
  {}

  lemma OneTop(tops: map<Thread, Id>, t: Thread, n: Id)
    requires tops == map[t := n]
    ensures |TopHolders(tops, n)| == 1
  {
    assert TopHolders(tops, n) == {t};
  }

  lemma OneMem(mems: map<Addr, Option<Id>>, a: Addr, n: Id)
    requires mems == map[a := Some(n)]
    ensures |MemHolders(mems, n)| == 1
  {
    assert MemHolders(mems, n) == {a};
  }

  // The only block recorded holds node n, the only node.
  lemma HeldByBlock(nodes: map<Id, Node>, mems: map<Addr, Option<Id>>, a: Addr, n: Id)
    requires Counted(nodes, {}, map[], mems, 0, 0) && nodes.Keys == {n} && nodes[n].next.None? && mems == map[a := Some(n)]
    ensures nodes[n].references == 1
  {
    OneMem(mems, a, n);
    assert TopHolders(map[], n) == {};
    assert NextHolders(nodes, {}, n) == {};
  }

  lemma NobodyHolds(nodes: map<Id, Node>, mems: map<Addr, Option<Id>>, a: Addr, n: Id)
    requires Counted(nodes, {}, map[], mems, 0, 0) && nodes.Keys == {n} && nodes[n].next.None? && mems == map[a := None]
    ensures nodes[n].references == 0
  {
    assert TopHolders(map[], n) == {};
    assert NextHolders(nodes, {}, n) == {};
    assert MemHolders(mems, n) == {};
  }

  // The block and the hash table hold it.
  lemma HeldTwice(nodes: map<Id, Node>, tops: map<Thread, Id>, mems: map<Addr, Option<Id>>, t: Thread, a: Addr, n: Id)
    requires Counted(nodes, {}, tops, mems, 0, 0) && nodes.Keys == {n} && nodes[n].next.None? && tops == map[t := n] && mems == map[a := Some(n)]
    ensures nodes[n].references == 2
  {
    OneMem(mems, a, n);
    OneTop(tops, t, n);
    assert NextHolders(nodes, {}, n) == {};
  }

  // One block of address 5 holds n, the only node, which is on no stack.
  method BlockOnly() returns (m: MemDebug, n: Id)
    ensures fresh(m) && m.Valid() && AllHeld(m.nodes, {}) && m.nodes.Keys == {n} && m.nodes[n].next.None? && m.nodes[n].references == 1
    ensures m.tops == map[] && m.mems == map[5 := Some(n)]
  {
    hide Counted, Linked, Holders, AllHeld;
    m := new MemDebug();
    n := m.serial;
    var ret := m.PushInfo(0);
    m.DbgMalloc(5, 0);
    HeldTwice(m.nodes, m.tops, m.mems, 0, 5, n);
    var popped := m.PopInfo(0);
    assert m.tops == map[];
    HeldByBlock(m.nodes, m.mems, 5, n);
  }

  /** A block recorded under a node, the node popped, the same address recorded again: the node stays
      allocated, and nothing holds it. */
  method Stranded() returns (m: MemDebug, n: Id)
    ensures m.Valid() && n in m.nodes && m.nodes[n].references == 0
    ensures m.tops == map[] && m.mems == map[5 := None] && m.nodes.Keys == {n}
  {
    hide Counted, Linked, Holders, AllHeld;
    m, n := BlockOnly();
    m.DbgMalloc(5, 0);
    assert m.mems == map[5 := None];
    NobodyHolds(m.nodes, m.mems, 5, n);
  }
}
