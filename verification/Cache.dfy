/** The object cache: ownership is split between the live map and the shared deletion queue. */
module Cache {
  import opened Options
  import opened Decimal

  /** An object identified by a snowflake; only its identity and id matter here. */
  class Managed {
    const id: UserId

    constructor (id: UserId)
      ensures this.id == id
    {
      this.id := id;
    }
  }

  datatype State = State(live: map<UserId, Managed>, queue: map<Managed, int>)

  /** Calls that change ownership, at a given time; the pointer may be null. */
  datatype Op = Store(item: Managed?, now: int) | Remove(item: Managed?, now: int)

  function Step(st: State, op: Op): State {
    if op.item == null then st
    else
      var o: Managed := op.item;
      match op
      case Store(_, now) =>
        if o.id !in st.live then st.(live := st.live[o.id := o])
        else if o != st.live[o.id] then State(st.live[o.id := o], st.queue[st.live[o.id] := now])
        else st
      case Remove(_, now) =>
        if o.id in st.live then State(st.live - {o.id}, st.queue[o := now]) else st
  }

  predicate IsLive(st: State, o: Managed) {
    o.id in st.live && st.live[o.id] == o
  }

  /** Every object ever stored is either live or queued, never both; every live object was stored and
      sits under its own id. */
  ghost predicate Conserved(st: State, stored: set<Managed>) {
    && (forall o :: o in stored ==> (IsLive(st, o) <==> o !in st.queue))
    && (forall k :: k in st.live ==> st.live[k].id == k && st.live[k] in stored)
  }

  function StoredAfter(stored: set<Managed>, op: Op): set<Managed> {
    if op.Store? && op.item != null then stored + {op.item} else stored
  }

  /** A queued object is not stored again; `remove` gets the cached pointer or an object whose id is absent. */
  predicate Disciplined(st: State, op: Op) {
    op.item == null ||
    (var o: Managed := op.item;
     if op.Store? then o !in st.queue else o.id in st.live ==> st.live[o.id] == o)
  }

  /** One call conserves ownership if and only if it is disciplined. */
  lemma StepConservesIff(st: State, stored: set<Managed>, op: Op)
    requires Conserved(st, stored)
    ensures Conserved(Step(st, op), StoredAfter(stored, op)) <==> Disciplined(st, op)
  {
    var next, after := Step(st, op), StoredAfter(stored, op);
    if op.item != null {
      var o: Managed := op.item;
      if Disciplined(st, op) {
        forall x | x in after
          ensures IsLive(next, x) <==> x !in next.queue
        {
          assert x in stored ==> (IsLive(st, x) <==> x !in st.queue);
        }
      } else if op.Store? {
        assert o in after && IsLive(next, o) && o in next.queue;
      } else {
        var x := st.live[o.id];
        assert x in stored && x in after && !IsLive(next, x) && x !in next.queue;
      }
    }
  }

  function Run(st: State, ops: seq<Op>): State
    decreases |ops|
  {
    if ops == [] then st else Run(Step(st, ops[0]), ops[1..])
  }

  ghost predicate AlwaysConserved(st: State, stored: set<Managed>, ops: seq<Op>)
    decreases |ops|
  {
    Conserved(st, stored) && (ops == [] || AlwaysConserved(Step(st, ops[0]), StoredAfter(stored, ops[0]), ops[1..]))
  }

  ghost predicate DisciplinedRun(st: State, ops: seq<Op>)
    decreases |ops|
  {
    ops == [] || (Disciplined(st, ops[0]) && DisciplinedRun(Step(st, ops[0]), ops[1..]))
  }

  /** A run conserves ownership at every moment if and only if every call is disciplined. */
  lemma {:induction false} RunConservesIff(st: State, stored: set<Managed>, ops: seq<Op>)
    requires Conserved(st, stored)
    ensures AlwaysConserved(st, stored, ops) <==> DisciplinedRun(st, ops)
    decreases |ops|
  {
    if ops != [] {
      StepConservesIff(st, stored, ops[0]);
      if Disciplined(st, ops[0]) {
        RunConservesIff(Step(st, ops[0]), StoredAfter(stored, ops[0]), ops[1..]);
      }
    }
  }

  // ----- several caches over the one queue -----

  /** The maps of all caches and the queue that they share. */
  datatype Family = Family(live: seq<map<UserId, Managed>>, queue: map<Managed, int>)

  /** A call on the cache with the given number. */
  datatype Call = Call(cache: nat, op: Op)

  function Of(f: Family, k: nat): State
    requires k < |f.live|
  {
    State(f.live[k], f.queue)
  }

  function CallStep(f: Family, c: Call): Family
    requires c.cache < |f.live|
  {
    var st := Step(Of(f, c.cache), c.op);
    Family(f.live[c.cache := st.live], st.queue)
  }

  function CallStored(stored: seq<set<Managed>>, c: Call): seq<set<Managed>>
    requires c.cache < |stored|
  {
    stored[c.cache := StoredAfter(stored[c.cache], c.op)]
  }

  /** Every cache conserves its objects, and no object was given to two caches. */
  ghost predicate AllConserved(f: Family, stored: seq<set<Managed>>) {
    && |stored| == |f.live|
    && (forall k :: 0 <= k < |stored| ==> Conserved(Of(f, k), stored[k]))
    && (forall j, k :: 0 <= j < |stored| && 0 <= k < |stored| && j != k ==> stored[j] !! stored[k])
  }

  /** The call is disciplined for its own cache and stores nothing that belongs to another. */
  ghost predicate DisciplinedCall(f: Family, stored: seq<set<Managed>>, c: Call)
    requires c.cache < |f.live| && |stored| == |f.live|
  {
    && Disciplined(Of(f, c.cache), c.op)
    && forall k :: 0 <= k < |stored| && k != c.cache ==> StoredAfter(stored[c.cache], c.op) !! stored[k]
  }

  /** A disciplined call on one cache leaves every other cache conserved. */
  lemma OthersStayConserved(st: State, op: Op, mine: set<Managed>, other: State, others: set<Managed>)
    requires Conserved(st, mine) && Disciplined(st, op)
    requires Conserved(other, others) && other.queue == st.queue && StoredAfter(mine, op) !! others
    ensures Conserved(State(other.live, Step(st, op).queue), others)
  {
    var queue := Step(st, op).queue;
    forall o | o in others
      ensures o in queue <==> o in other.queue
    {
      assert op.item != null && op.item.id in st.live ==> st.live[op.item.id] in mine;
    }
  }

  /** A call on one cache conserves ownership in all of them if and only if it is disciplined. */
  lemma CallConservesAllIff(f: Family, stored: seq<set<Managed>>, c: Call)
    requires AllConserved(f, stored) && c.cache < |f.live|
    ensures AllConserved(CallStep(f, c), CallStored(stored, c)) <==> DisciplinedCall(f, stored, c)
  {
    var g, after, i := CallStep(f, c), CallStored(stored, c), c.cache;
    StepConservesIff(Of(f, i), stored[i], c.op);
    assert Of(g, i) == Step(Of(f, i), c.op) && after[i] == StoredAfter(stored[i], c.op);
    if DisciplinedCall(f, stored, c) {
      forall k | 0 <= k < |after|
        ensures Conserved(Of(g, k), after[k])
      {
        if k != i {
          OthersStayConserved(Of(f, i), c.op, stored[i], Of(f, k), stored[k]);
        }
      }
    }
    if AllConserved(g, after) {
      forall k | 0 <= k < |stored| && k != i
        ensures StoredAfter(stored[i], c.op) !! stored[k]
      {
        assert after[i] !! after[k];
      }
    }
  }

  ghost predicate AllAlwaysConserved(f: Family, stored: seq<set<Managed>>, calls: seq<Call>)
    requires |stored| == |f.live| && forall c :: c in calls ==> c.cache < |f.live|
    decreases |calls|
  {
    && AllConserved(f, stored)
    && (calls == [] || AllAlwaysConserved(CallStep(f, calls[0]), CallStored(stored, calls[0]), calls[1..]))
  }

  ghost predicate DisciplinedCalls(f: Family, stored: seq<set<Managed>>, calls: seq<Call>)
    requires |stored| == |f.live| && forall c :: c in calls ==> c.cache < |f.live|
    decreases |calls|
  {
    calls == [] ||
    (DisciplinedCall(f, stored, calls[0]) && DisciplinedCalls(CallStep(f, calls[0]), CallStored(stored, calls[0]), calls[1..]))
  }

  /** Over any run of calls on any of the caches: at every moment every stored object is in exactly one
      place, if and only if every call is disciplined. */
  lemma {:induction false} AllRunConservesIff(f: Family, stored: seq<set<Managed>>, calls: seq<Call>)
    requires AllConserved(f, stored) && forall c :: c in calls ==> c.cache < |f.live|
    ensures AllAlwaysConserved(f, stored, calls) <==> DisciplinedCalls(f, stored, calls)
    decreases |calls|
  {
    if calls != [] {
      CallConservesAllIff(f, stored, calls[0]);
      if DisciplinedCall(f, stored, calls[0]) {
        AllRunConservesIff(CallStep(f, calls[0]), CallStored(stored, calls[0]), calls[1..]);
      }
    }
  }

  // ----- history -----

  /** The object with the given id that the history says is cached: the last call about the id decides. */
  function LastTouch(ops: seq<Op>, id: UserId): Option<Managed> {
    if ops == [] then None
    else
      var op := ops[|ops| - 1];
      if op.item == null then LastTouch(ops[..|ops| - 1], id)
      else
        var o: Managed := op.item;
        if o.id != id then LastTouch(ops[..|ops| - 1], id)
        else if op.Store? then Some(o) else None
  }

  function Lookup(st: State, id: UserId): Option<Managed> {
    if id in st.live then Some(st.live[id]) else None
  }

  lemma {:induction false} RunSnoc(st: State, ops: seq<Op>, op: Op)
    ensures Run(st, ops + [op]) == Step(Run(st, ops), op)
    decreases |ops|
  {
    if ops == [] {
      assert [] + [op] == [op] && [op][1..] == [];
    } else {
      assert (ops + [op])[0] == ops[0] && (ops + [op])[1..] == ops[1..] + [op];
      RunSnoc(Step(st, ops[0]), ops[1..], op);
    }
  }

  lemma LookupAfter(st: State, op: Op, id: UserId)
    ensures Lookup(Step(st, op), id) ==
            if op.item == null || op.item.id != id then Lookup(st, id)
            else if op.Store? then Some(op.item) else None
  {
  }

  /** Looking up an id agrees with the history for every run from the empty cache, disciplined or not. */
  lemma {:induction false} LookupReplaysHistory(queue: map<Managed, int>, ops: seq<Op>, id: UserId)
    ensures Lookup(Run(State(map[], queue), ops), id) == LastTouch(ops, id)
    decreases |ops|
  {
    if ops != [] {
      var before, op := ops[..|ops| - 1], ops[|ops| - 1];
      assert ops == before + [op];
      RunSnoc(State(map[], queue), before, op);
      LookupReplaysHistory(queue, before, id);
      LookupAfter(Run(State(map[], queue), before), op, id);
    }
  }

  // ----- the classes -----

  /** The global queue of objects that wait to be freed, with the time they were put there. */
  class DeletionQueue {
    var entries: map<Managed, int>

    constructor ()
      ensures entries == map[]
    {
      entries := map[];
    }
  }

  /** A cache. The `others` of a call are caches that share the queue; what they store is theirs alone. */
  class ObjectCache {
    var cacheMap: map<UserId, Managed>
    const queue: DeletionQueue
    ghost var stored: set<Managed>

    function Snapshot(): State
      reads this, queue
    {
      State(cacheMap, queue.entries)
    }

    ghost predicate Valid()
      reads this, queue
    {
      Conserved(Snapshot(), stored)
    }

    constructor (queue: DeletionQueue)
      ensures this.queue == queue && Snapshot() == State(map[], queue.entries) && stored == {} && Valid()
    {
      this.queue := queue;
      cacheMap := map[];
      stored := {};
    }

    method Store(item: Managed?, now: int, ghost others: set<ObjectCache>)
      requires Valid()
      requires forall c :: c in others ==> c != this && c.queue == queue && c.Valid() && c.stored !! StoredAfter(stored, Op.Store(item, now))
      modifies this, queue
      ensures item == null || (item.id in old(cacheMap) && old(cacheMap)[item.id] == item) ==>
                cacheMap == old(cacheMap) && queue.entries == old(queue.entries)
      ensures item != null && item.id !in old(cacheMap) ==>
                cacheMap == old(cacheMap)[item.id := item] && queue.entries == old(queue.entries)
      ensures item != null && item.id in old(cacheMap) && old(cacheMap)[item.id] != item ==>
                cacheMap == old(cacheMap)[item.id := item] && queue.entries == old(queue.entries)[old(cacheMap)[item.id] := now]
      ensures Snapshot() == Step(old(Snapshot()), Op.Store(item, now))
      ensures stored == StoredAfter(old(stored), Op.Store(item, now))
      ensures Valid() <==> Disciplined(old(Snapshot()), Op.Store(item, now))
      ensures Disciplined(old(Snapshot()), Op.Store(item, now)) ==> forall c :: c in others ==> c.Valid()
    {
      KeepsOthers(Op.Store(item, now), others);
      StepConservesIff(Snapshot(), stored, Op.Store(item, now));
      if item == null {
        return;
      }
      if item.id !in cacheMap {
        cacheMap := cacheMap[item.id := item];
      } else if item != cacheMap[item.id] {
        queue.entries := queue.entries[cacheMap[item.id] := now];
        cacheMap := cacheMap[item.id := item];
      }
      stored := stored + {item};
    }

    method Remove(item: Managed?, now: int, ghost others: set<ObjectCache>)
      requires Valid()
      requires forall c :: c in others ==> c != this && c.queue == queue && c.Valid() && c.stored !! StoredAfter(stored, Op.Remove(item, now))
      modifies this, queue
      ensures item == null || item.id !in old(cacheMap) ==> cacheMap == old(cacheMap) && queue.entries == old(queue.entries)
      ensures item != null && item.id in old(cacheMap) ==>
                cacheMap == old(cacheMap) - {item.id} && queue.entries == old(queue.entries)[item := now]
      ensures Snapshot() == Step(old(Snapshot()), Op.Remove(item, now)) && stored == old(stored)
      ensures Valid() <==> Disciplined(old(Snapshot()), Op.Remove(item, now))
      ensures Disciplined(old(Snapshot()), Op.Remove(item, now)) ==> forall c :: c in others ==> c.Valid()
    {
      KeepsOthers(Op.Remove(item, now), others);
      StepConservesIff(Snapshot(), stored, Op.Remove(item, now));
      if item == null {
        return;
      }
      if item.id in cacheMap {
        cacheMap := cacheMap - {item.id};
        queue.entries := queue.entries[item := now];
      }
    }

    /** What a disciplined call means for the other caches over the queue. */
    lemma KeepsOthers(op: Op, others: set<ObjectCache>)
      requires Valid()
      requires forall c :: c in others ==> c.queue == queue && c.Valid() && c.stored !! StoredAfter(stored, op)
      ensures Disciplined(Snapshot(), op) ==>
                forall c :: c in others ==> Conserved(State(c.cacheMap, Step(Snapshot(), op).queue), c.stored)
    {
      if Disciplined(Snapshot(), op) {
        forall c | c in others
          ensures Conserved(State(c.cacheMap, Step(Snapshot(), op).queue), c.stored)
        {
          OthersStayConserved(Snapshot(), op, stored, c.Snapshot(), c.stored);
        }
      }
    }

    method Find(id: UserId) returns (o: Managed?)
      ensures o == if id in cacheMap then cacheMap[id] else null
      ensures Valid() && o != null ==> o.id == id && o in stored && o !in queue.entries
    {
      o := if id in cacheMap then cacheMap[id] else null;
      assert Valid() && id in cacheMap ==> cacheMap[id].id == id && cacheMap[id] in stored && IsLive(Snapshot(), cacheMap[id]);
    }

    method Count() returns (n: nat)
      ensures n == |cacheMap|
    {
      n := |cacheMap|;
    }

    /** Copying every entry, in whatever order they come, into a new map changes nothing. */
    method Rehash()
      modifies this`cacheMap
      ensures cacheMap == old(cacheMap)
    {
      var n: map<UserId, Managed> := map[];
      var rest := cacheMap.Keys;
      while rest != {}
        invariant rest <= cacheMap.Keys && n.Keys == cacheMap.Keys - rest
        invariant forall k :: k in n ==> n[k] == cacheMap[k]
      {
        var k :| k in rest;
        if k !in n {
          n := n[k := cacheMap[k]];
        }
        rest := rest - {k};
      }
      cacheMap := n;
    }
  }
}
