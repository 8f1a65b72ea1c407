/** Connections, their pools and their two counters: who destroys what, over every interleaving of
    newSSL, freeSSL and the destruction of ancestor pools. */
module Lifetimes {
  import opened Bytes

  /** A pool is live until it is destroyed; `java` tells whether Java made it, `cleanup` is the connection
      whose cleanup is registered. */
  datatype Pool = Pool(parent: nat, destroys: nat, java: bool, cleanup: Option<nat>)

  /** A malloc'ed `int` and how often it was freed. */
  datatype Counter = Counter(value: int, frees: nat)

  /** What one call of newSSL allocates. `handle` tells whether Java got the SSL; `created` whether
      SSL_new made one; the connection structure lives in `pool`, or is to, unless that is 0. */
  datatype Ssl = Ssl(handle: bool, created: bool, pool: nat, destroyCount: Counter, handshakeCount: Counter, frees: nat)

  /** `fault` records a use of memory that was already given back; nothing is defined after it. */
  datatype World = World(pools: seq<Pool>, ssls: seq<Ssl>, fault: bool)

  /** The global pool alone. */
  const START := World([Pool(0, 0, true, None)], [], false)

  function Faulted(w: World): World {
    w.(fault := true)
  }

  predicate Live(w: World, q: nat) {
    q < |w.pools| && w.pools[q].destroys == 0
  }

  /** `q` is `p` or below it. Pools are numbered in the order of their creation. */
  predicate Below(pools: seq<Pool>, p: nat, q: nat)
    requires q < |pools|
  {
    q == p || (p < q && pools[q].parent < q && Below(pools, p, pools[q].parent))
  }

  /** `ssl_con_pool_cleanup` */
  function Cleanup(w: World, s: nat): World
    requires s < |w.ssls|
  {
    var ssl := w.ssls[s];
    if ssl.frees > 0 || ssl.destroyCount.frees > 0 then Faulted(w)
    else w.(ssls := w.ssls[s := ssl.(destroyCount := ssl.destroyCount.(value := ssl.destroyCount.value + 1))])
  }

  /** One pool goes: its cleanup runs, then it is gone. */
  function DestroyOne(w: World, q: nat): (w': World)
    requires q < |w.pools|
    ensures |w'.pools| == |w.pools| && |w'.ssls| == |w.ssls|
  {
    var pool := w.pools[q];
    var cleaned := if pool.cleanup.Some? && pool.cleanup.value < |w.ssls| then Cleanup(w, pool.cleanup.value) else w;
    cleaned.(pools := w.pools[q := pool.(destroys := pool.destroys + 1)])
  }

  /** Every live pool below `p` with a number under `k` goes, children before parents. */
  function Sweep(w: World, p: nat, k: nat): (w': World)
    requires k <= |w.pools|
    ensures |w'.pools| == |w.pools| && |w'.ssls| == |w.ssls|
    decreases k
  {
    if k == 0 then w
    else
      var q := k - 1;
      Sweep(if Live(w, q) && Below(w.pools, p, q) then DestroyOne(w, q) else w, p, q)
  }

  /** `apr_pool_destroy` */
  function Destroy(w: World, p: nat): (w': World)
    ensures |w'.pools| == |w.pools| && |w'.ssls| == |w.ssls|
  {
    if !Live(w, p) then Faulted(w) else Sweep(w, p, |w.pools|)
  }

  datatype Creation = SslFails | PoolFails | ConFails | Created

  /** `newSSL` for a context in the pool `ctx`, which it reads first. */
  function NewSsl(w: World, ctx: nat, outcome: Creation): World {
    var given := Counter(0, 1);
    if !Live(w, ctx) then Faulted(w)
    else
      match outcome
      case SslFails => w.(ssls := w.ssls + [Ssl(false, false, 0, given, given, 0)])
      case PoolFails => w.(ssls := w.ssls + [Ssl(false, true, 0, given, given, 1)])
      case ConFails =>
        w.(pools := w.pools + [Pool(ctx, 1, false, None)],
           ssls := w.ssls + [Ssl(false, true, |w.pools|, given, given, 1)])
      case Created =>
        w.(pools := w.pools + [Pool(ctx, 0, false, Some(|w.ssls|))],
           ssls := w.ssls + [Ssl(true, true, |w.pools|, Counter(0, 0), Counter(0, 0), 0)])
  }

  /** `freeSSL` */
  function FreeSsl(w: World, h: nat): World
    requires h < |w.ssls|
  {
    var ssl := w.ssls[h];
    if ssl.frees > 0 || ssl.destroyCount.frees > 0 then Faulted(w)
    else if ssl.destroyCount.value == 0 && !Live(w, ssl.pool) then Faulted(w)
    else
      var v := if ssl.destroyCount.value == 0 then Destroy(w, ssl.pool) else w;
      var left := v.ssls[h];
      if left.destroyCount.frees > 0 || left.handshakeCount.frees > 0 || left.frees > 0 then Faulted(v)
      else
        v.(ssls := v.ssls[h := left.(destroyCount := left.destroyCount.(frees := 1),
                                     handshakeCount := left.handshakeCount.(frees := 1), frees := 1)])
  }

  // ---------------------------------------------------------------------------------------------
  // The same operations, in place
  // ---------------------------------------------------------------------------------------------

  class Runtime {
    var pools: seq<Pool>
    var ssls: seq<Ssl>
    var fault: bool

    constructor ()
      ensures State() == START
    {
      pools, ssls, fault := [Pool(0, 0, true, None)], [], false;
    }

    function State(): World
      reads this
    {
      World(pools, ssls, fault)
    }

    /** `ssl_con_pool_cleanup` */
    method ConPoolCleanup(s: nat)
      requires s < |ssls|
      modifies this
      ensures State() == Cleanup(old(State()), s)
    {
      var ssl := ssls[s];
      if ssl.frees > 0 || ssl.destroyCount.frees > 0 {
        fault := true;
        return;
      }
      ssls := ssls[s := ssl.(destroyCount := ssl.destroyCount.(value := ssl.destroyCount.value + 1))];
    }

    /** `apr_pool_destroy` */
    method PoolDestroy(p: nat)
      modifies this
      ensures State() == Destroy(old(State()), p)
    {
      hide Below;
      if !Live(State(), p) {
        fault := true;
        return;
      }
      var k := |pools|;
      while k > 0
        invariant 0 <= k <= |pools|
        invariant Sweep(State(), p, k) == Sweep(old(State()), p, |old(pools)|)
      {
        k := k - 1;
        if Live(State(), k) && Below(pools, p, k) {
          var pool := pools[k];
          if pool.cleanup.Some? && pool.cleanup.value < |ssls| {
            ConPoolCleanup(pool.cleanup.value);
          }
          pools := pools[k := pool.(destroys := pool.destroys + 1)];
        }
      }
    }

    /** `newSSL`; the result is the handle, or none on an error exit. */
    method NewSSL(ctx: nat, outcome: Creation) returns (h: Option<nat>)
      modifies this
      ensures State() == NewSsl(old(State()), ctx, outcome)
      ensures h == if old(Live(State(), ctx)) && outcome == Created then Some(|old(ssls)|) else None
    {
      if !Live(State(), ctx) {
        fault := true;
        return None;
      }
      var ssl := Ssl(false, false, 0, Counter(0, 0), Counter(0, 0), 0);
      if outcome == SslFails {
        ssl := ssl.(handshakeCount := Counter(0, 1), destroyCount := Counter(0, 1));
        ssls := ssls + [ssl];
        return None;
      }
      ssl := ssl.(created := true);
      if outcome == PoolFails {
        ssl := ssl.(handshakeCount := Counter(0, 1), destroyCount := Counter(0, 1), frees := 1);
        ssls := ssls + [ssl];
        return None;
      }
      var p := |pools|;
      pools := pools + [Pool(ctx, 0, false, None)];
      ssl := ssl.(pool := p);
      if outcome == ConFails {
        ssl := ssl.(handshakeCount := Counter(0, 1), destroyCount := Counter(0, 1), frees := 1);
        ssls := ssls + [ssl];
        pools := pools[p := pools[p].(destroys := 1)];
        return None;
      }
      ssl := ssl.(handle := true);
      h := Some(|ssls|);
      ssls := ssls + [ssl];
      pools := pools[p := pools[p].(cleanup := h)];
    }

    /** `freeSSL` */
    method FreeSSL(h: nat)
      requires h < |ssls|
      modifies this
      ensures State() == FreeSsl(old(State()), h)
    {
      var ssl := ssls[h];
      if ssl.frees > 0 || ssl.destroyCount.frees > 0 {
        fault := true;
        return;
      }
      if ssl.destroyCount.value == 0 {
        if !Live(State(), ssl.pool) {
          fault := true;
          return;
        }
        PoolDestroy(ssl.pool);
      }
      ssl := ssls[h];
      if ssl.destroyCount.frees > 0 || ssl.handshakeCount.frees > 0 || ssl.frees > 0 {
        fault := true;
        return;
      }
      ssl := ssl.(destroyCount := ssl.destroyCount.(frees := 1));
      ssl := ssl.(handshakeCount := ssl.handshakeCount.(frees := 1));
      ssls := ssls[h := ssl.(frees := 1)];
    }
  }

  // ---------------------------------------------------------------------------------------------
  // Runs
  // ---------------------------------------------------------------------------------------------

  datatype Event = NewPool(parent: nat) | DestroyPool(p: nat) | NewSSL(ctx: nat, outcome: Creation) | FreeSSL(h: nat)

  /** What Java can name: pools it made itself, live or not, and handles it was given, freed or not. */
  predicate Legal(w: World, e: Event) {
    w.fault ||
    match e
    case NewPool(p) => p < |w.pools| && w.pools[p].java
    case DestroyPool(p) => p < |w.pools| && w.pools[p].java
    case NewSSL(p, _) => p < |w.pools| && w.pools[p].java
    case FreeSSL(h) => h < |w.ssls| && w.ssls[h].handle
  }

  /** The event names a pool that is already destroyed. */
  predicate NamesDead(w: World, e: Event) {
    match e
    case NewPool(p) => !Live(w, p)
    case DestroyPool(p) => !Live(w, p)
    case NewSSL(p, _) => !Live(w, p)
    case FreeSSL(_) => false
  }

  /** `Pool.create` */
  function NewPoolIn(w: World, parent: nat): World {
    if !Live(w, parent) then Faulted(w) else w.(pools := w.pools + [Pool(parent, 0, true, None)])
  }

  function Step(w: World, e: Event): World
    requires Legal(w, e)
  {
    if w.fault then w
    else
      match e
      case NewPool(parent) => NewPoolIn(w, parent)
      case DestroyPool(p) => Destroy(w, p)
      case NewSSL(ctx, outcome) => NewSsl(w, ctx, outcome)
      case FreeSSL(h) => FreeSsl(w, h)
  }

  predicate AllLegal(w: World, events: seq<Event>)
    decreases |events|
  {
    events == [] || (Legal(w, events[0]) && AllLegal(Step(w, events[0]), events[1..]))
  }

  function Run(w: World, events: seq<Event>): World
    requires AllLegal(w, events)
    decreases |events|
  {
    if events == [] then w else Run(Step(w, events[0]), events[1..])
  }

  // ---------------------------------------------------------------------------------------------
  // The invariant
  // ---------------------------------------------------------------------------------------------

  /** One slot is in order: while it is not freed, `destroyCount` counts the destructions of its pool;
      once it is freed, or on an error exit, each counter was freed exactly once. */
  predicate SlotOk(w: World, s: nat)
    requires s < |w.ssls|
  {
    var ssl := w.ssls[s];
    if !ssl.handle then
      && ssl.destroyCount.frees == 1 && ssl.handshakeCount.frees == 1
      && ssl.frees == (if ssl.created then 1 else 0)
      && (ssl.pool != 0 ==> ssl.pool < |w.pools| && w.pools[ssl.pool].destroys == 1)
    else
      && ssl.created && ssl.pool < |w.pools| && w.pools[ssl.pool].cleanup == Some(s)
      && ssl.frees <= 1 && ssl.destroyCount.frees == ssl.frees && ssl.handshakeCount.frees == ssl.frees
      && ssl.destroyCount.value == w.pools[ssl.pool].destroys
      && (ssl.frees == 1 ==> w.pools[ssl.pool].destroys == 1)
  }

  predicate PoolOk(w: World, q: nat)
    requires q < |w.pools|
  {
    var pool := w.pools[q];
    && pool.destroys <= 1 && (q > 0 ==> pool.parent < q)
    && (pool.cleanup.Some? ==>
          && !pool.java && pool.cleanup.value < |w.ssls|
          && w.ssls[pool.cleanup.value].handle && w.ssls[pool.cleanup.value].pool == q)
  }

  predicate SlotsOk(w: World) {
    && !w.fault
    && (forall s :: 0 <= s < |w.ssls| ==> SlotOk(w, s))
    && (forall q :: 0 <= q < |w.pools| ==> PoolOk(w, q))
  }

  /** A live pool has a live parent. */
  predicate ParentsLive(w: World) {
    forall q :: 0 < q < |w.pools| && Live(w, q) ==> Live(w, w.pools[q].parent)
  }

  predicate Inv(w: World) {
    SlotsOk(w) && ParentsLive(w)
  }

  /** Nothing but destructions and the counts of them differs. */
  predicate SameShape(w: World, v: World) {
    && |v.pools| == |w.pools| && |v.ssls| == |w.ssls|
    && (forall q :: 0 <= q < |w.pools| ==>
          v.pools[q].parent == w.pools[q].parent && v.pools[q].java == w.pools[q].java
          && v.pools[q].cleanup == w.pools[q].cleanup)
    && (forall s :: 0 <= s < |w.ssls| ==>
          v.ssls[s] == w.ssls[s].(destroyCount := v.ssls[s].destroyCount))
  }

  lemma DestroyOneKeeps(w: World, q: nat)
    requires SlotsOk(w) && Live(w, q)
    ensures var v := DestroyOne(w, q);
            && SlotsOk(v) && SameShape(w, v)
            && v.pools == w.pools[q := w.pools[q].(destroys := 1)]
  {
    assert PoolOk(w, q);
    var v := DestroyOne(w, q);
    if w.pools[q].cleanup.Some? {
      var s := w.pools[q].cleanup.value;
      assert SlotOk(w, s);
      forall t | 0 <= t < |w.ssls|
        ensures SlotOk(v, t)
      {
        assert SlotOk(w, t);
      }
    } else {
      forall t | 0 <= t < |w.ssls|
        ensures SlotOk(v, t)
      {
        assert SlotOk(w, t);
      }
    }
    forall r | 0 <= r < |w.pools|
      ensures PoolOk(v, r)
    {
      assert PoolOk(w, r);
    }
  }

  lemma {:induction false} BelowSame(a: seq<Pool>, b: seq<Pool>, p: nat, q: nat)
    requires q < |a| == |b|
    requires forall r :: 0 <= r < |a| ==> a[r].parent == b[r].parent
    ensures Below(a, p, q) == Below(b, p, q)
    decreases q
  {
    if p < q && a[q].parent < q {
      BelowSame(a, b, p, a[q].parent);
    }
  }

  /** A sweep destroys exactly the live pools below `p`, each once. */
  lemma {:induction false} SweepKeeps(w: World, p: nat, k: nat)
    requires SlotsOk(w) && k <= |w.pools|
    ensures var v := Sweep(w, p, k);
            && SlotsOk(v) && SameShape(w, v)
            && forall q :: 0 <= q < |w.pools| ==>
                 v.pools[q].destroys == if q < k && Below(w.pools, p, q) then 1 else w.pools[q].destroys
    decreases k
  {
    if k > 0 {
      var q := k - 1;
      assert PoolOk(w, q);
      var u := w;
      if Live(w, q) && Below(w.pools, p, q) {
        DestroyOneKeeps(w, q);
        u := DestroyOne(w, q);
      }
      SweepKeeps(u, p, q);
      forall r | 0 <= r < |w.pools|
        ensures Below(u.pools, p, r) == Below(w.pools, p, r)
      {
        BelowSame(u.pools, w.pools, p, r);
      }
    }
  }

  lemma ChildrenAreBelow(pools: seq<Pool>, p: nat, q: nat)
    requires q < |pools| && pools[q].parent < q
    ensures Below(pools, p, pools[q].parent) ==> Below(pools, p, q)
  {
  }

  /** Destroying a live pool destroys exactly what is below it, and bumps the counts that belong to it. */
  lemma DestroyKeeps(w: World, p: nat)
    requires Inv(w) && Live(w, p)
    ensures var v := Destroy(w, p);
            && Inv(v) && SameShape(w, v)
            && forall q :: 0 <= q < |w.pools| ==>
                 v.pools[q].destroys == if Below(w.pools, p, q) then 1 else w.pools[q].destroys
  {
    SweepKeeps(w, p, |w.pools|);
    var v := Destroy(w, p);
    forall q | 0 < q < |v.pools| && Live(v, q)
      ensures Live(v, v.pools[q].parent)
    {
      assert PoolOk(w, q) && Live(w, w.pools[q].parent);
      ChildrenAreBelow(w.pools, p, q);
    }
  }

  lemma FreeKeeps(w: World, h: nat)
    requires Inv(w) && h < |w.ssls| && w.ssls[h].handle && w.ssls[h].frees == 0
    ensures var v := FreeSsl(w, h);
            && Inv(v) && |v.ssls| == |w.ssls| && v.ssls[h].frees == 1 && v.ssls[h].handle
            && forall s :: 0 <= s < |w.ssls| && s != h ==>
                 v.ssls[s].frees == w.ssls[s].frees && v.ssls[s].handle == w.ssls[s].handle
  {
    assert SlotOk(w, h);
    var p := w.ssls[h].pool;
    assert PoolOk(w, p);
    var u := w;
    if w.pools[p].destroys == 0 {
      DestroyKeeps(w, p);
      u := Destroy(w, p);
      assert Below(w.pools, p, p);
    }
    assert SlotOk(u, h);
    var v := FreeSsl(w, h);
    forall s | 0 <= s < |v.ssls|
      ensures SlotOk(v, s)
    {
      assert SlotOk(u, s);
    }
    forall q | 0 <= q < |v.pools|
      ensures PoolOk(v, q)
    {
      assert PoolOk(u, q);
    }
    assert ParentsLive(u);
    assert v.pools == u.pools;
    assert forall q :: 0 < q < |v.pools| ==> Live(v, q) == Live(u, q);
  }

  /** Pools and slots added behind the old ones leave those in order. */
  lemma AddedKeeps(w: World, v: World)
    requires Inv(w) && !v.fault
    requires w.pools <= v.pools && w.ssls <= v.ssls
    requires forall s :: |w.ssls| <= s < |v.ssls| ==> SlotOk(v, s)
    requires forall q :: |w.pools| <= q < |v.pools| ==> PoolOk(v, q) && q > 0 && Live(v, v.pools[q].parent)
    ensures Inv(v)
  {
    forall s | 0 <= s < |v.ssls|
      ensures SlotOk(v, s)
    {
      if s < |w.ssls| {
        assert SlotOk(w, s);
      }
    }
    forall q | 0 <= q < |v.pools|
      ensures PoolOk(v, q)
    {
      if q < |w.pools| {
        assert PoolOk(w, q);
      }
    }
    forall q | 0 < q < |v.pools| && Live(v, q)
      ensures Live(v, v.pools[q].parent)
    {
      if q < |w.pools| {
        assert PoolOk(w, q) && Live(w, q);
      }
    }
  }

  lemma NewKeeps(w: World, e: Event)
    requires Inv(w) && Legal(w, e) && (e.NewPool? || e.NewSSL?) && !NamesDead(w, e)
    ensures var v := Step(w, e);
            && Inv(v) && w.ssls <= v.ssls
            && forall s :: |w.ssls| <= s < |v.ssls| ==> v.ssls[s].handle ==> v.ssls[s].frees == 0
  {
    AddedKeeps(w, Step(w, e));
  }

  predicate Freed(w: World, h: nat) {
    h < |w.ssls| && w.ssls[h].handle && w.ssls[h].frees > 0
  }

  /** Each step keeps the invariant, unless it frees a handle again or names a dead pool: then it faults. */
  lemma StepKeeps(w: World, e: Event)
    requires Inv(w) && Legal(w, e)
    ensures var v := Step(w, e);
            if NamesDead(w, e) || (e.FreeSSL? && Freed(w, e.h)) then v.fault
            else Inv(v) && forall h: nat :: Freed(v, h) <==> Freed(w, h) || e == FreeSSL(h)
  {
    var v := Step(w, e);
    match e
    case NewPool(_) =>
      if !NamesDead(w, e) {
        NewKeeps(w, e);
      }
    case NewSSL(_, _) =>
      if !NamesDead(w, e) {
        NewKeeps(w, e);
      }
    case DestroyPool(p) =>
      if !NamesDead(w, e) {
        DestroyKeeps(w, p);
      }
    case FreeSSL(h) =>
      if !Freed(w, h) {
        FreeKeeps(w, h);
        forall g: nat
          ensures Freed(v, g) <==> Freed(w, g) || e == FreeSSL(g)
        {
          if g < |w.ssls| && g != h {
            assert v.ssls[g].frees == w.ssls[g].frees;
          }
        }
      }
  }

  /** The same handle freed at two places, or freed once more. */
  ghost predicate FreedAgain(w: World, events: seq<Event>) {
    || (exists i :: 0 <= i < |events| && events[i].FreeSSL? && Freed(w, events[i].h))
    || (exists i, j :: 0 <= i < j < |events| && events[i].FreeSSL? && events[i] == events[j])
  }

  lemma {:induction false} FaultedStays(w: World, events: seq<Event>)
    requires w.fault
    ensures AllLegal(w, events) && Run(w, events) == w
    decreases |events|
  {
    if events != [] {
      FaultedStays(w, events[1..]);
    }
  }

  lemma {:induction false} FreedAgainSplits(w: World, v: World, events: seq<Event>)
    requires events != [] && !(events[0].FreeSSL? && Freed(w, events[0].h))
    requires forall h: nat :: Freed(v, h) <==> Freed(w, h) || events[0] == FreeSSL(h)
    ensures FreedAgain(w, events) <==> FreedAgain(v, events[1..])
  {
    var rest := events[1..];
    if FreedAgain(w, events) {
      if i :| 0 <= i < |events| && events[i].FreeSSL? && Freed(w, events[i].h) {
        assert rest[i - 1] == events[i];
      } else {
        var i, j :| 0 <= i < j < |events| && events[i].FreeSSL? && events[i] == events[j];
        assert rest[j - 1] == events[j];
        if i > 0 {
          assert rest[i - 1] == events[i];
        }
      }
    }
    if FreedAgain(v, rest) {
      if i :| 0 <= i < |rest| && rest[i].FreeSSL? && Freed(v, rest[i].h) {
        assert events[i + 1] == rest[i];
      } else {
        var i, j :| 0 <= i < j < |rest| && rest[i].FreeSSL? && rest[i] == rest[j];
        assert events[i + 1] == rest[i] && events[j + 1] == rest[j];
      }
    }
  }

  // ---------------------------------------------------------------------------------------------
  // The pools Java made, and which of them its own events destroyed
  // ---------------------------------------------------------------------------------------------

  /** Pools made by Java hang below pools made by Java. */
  predicate JavaAbove(pools: seq<Pool>) {
    forall q :: 0 < q < |pools| && pools[q].java ==> pools[q].parent < q && pools[pools[q].parent].java
  }

  predicate DestroysAbove(pools: seq<Pool>, e: Event, p: nat)
    requires p < |pools|
  {
    e.DestroyPool? && Below(pools, e.p, p)
  }

  lemma {:induction false} BelowGrows(a: seq<Pool>, b: seq<Pool>, p: nat, q: nat)
    requires q < |a| <= |b|
    requires forall r :: 0 <= r < |a| ==> a[r].parent == b[r].parent
    ensures Below(a, p, q) == Below(b, p, q)
    decreases q
  {
    if p < q && a[q].parent < q {
      BelowGrows(a, b, p, a[q].parent);
    }
  }

  /** No pool made by Java hangs below a connection's pool. */
  lemma {:induction false} ConnectionsAreLeaves(pools: seq<Pool>, p: nat, q: nat)
    requires JavaAbove(pools) && p < |pools| && q < |pools| && !pools[p].java && pools[q].java
    ensures !Below(pools, p, q)
    decreases q
  {
    if p < q {
      ConnectionsAreLeaves(pools, p, pools[q].parent);
    }
  }

  /** Freeing a connection leaves the pools of Java alone. */
  lemma FreeSpares(w: World, h: nat)
    requires Inv(w) && JavaAbove(w.pools) && h < |w.ssls| && w.ssls[h].handle && w.ssls[h].frees == 0
    ensures var v := FreeSsl(w, h);
            && SameShape(w, w.(pools := v.pools))
            && forall q :: 0 <= q < |w.pools| && w.pools[q].java ==> v.pools[q].destroys == w.pools[q].destroys
  {
    assert SlotOk(w, h);
    var p := w.ssls[h].pool;
    assert PoolOk(w, p);
    if w.pools[p].destroys == 0 {
      DestroyKeeps(w, p);
      forall q | 0 <= q < |w.pools| && w.pools[q].java
        ensures !Below(w.pools, p, q)
      {
        ConnectionsAreLeaves(w.pools, p, q);
      }
    }
  }

  /** A step keeps the tree of pools and adds to it, and only the destruction of one above it kills a pool
      made by Java. */
  ghost predicate JavaPoolsStep(w: World, v: World, e: Event) {
    && JavaAbove(v.pools) && |w.pools| <= |v.pools|
    && (forall q :: 0 <= q < |w.pools| ==>
          v.pools[q].parent == w.pools[q].parent && v.pools[q].java == w.pools[q].java)
    && (forall q :: 0 <= q < |w.pools| && w.pools[q].java ==>
          (Live(v, q) <==> Live(w, q) && !DestroysAbove(w.pools, e, q)))
  }

  lemma AppendOnPools(w: World, v: World, e: Event)
    requires JavaAbove(w.pools) && !e.DestroyPool? && w.pools <= v.pools
    requires forall q :: |w.pools| <= q < |v.pools| && v.pools[q].java ==>
               v.pools[q].parent < |w.pools| && w.pools[v.pools[q].parent].java
    ensures JavaPoolsStep(w, v, e)
  {
  }

  lemma DestroyOnPools(w: World, p: nat)
    requires Inv(w) && JavaAbove(w.pools) && Live(w, p)
    ensures JavaPoolsStep(w, Destroy(w, p), DestroyPool(p))
  {
    hide Below;
    DestroyKeeps(w, p);
  }

  lemma {:induction false} FreeOnPools(w: World, h: nat)
    requires Inv(w) && JavaAbove(w.pools) && h < |w.ssls| && w.ssls[h].handle && w.ssls[h].frees == 0
    ensures JavaPoolsStep(w, FreeSsl(w, h), FreeSSL(h)) && |FreeSsl(w, h).pools| == |w.pools|
  {
    hide Below, FreeSsl;
    FreeSpares(w, h);
  }

  lemma {:induction false} StepOnPools(w: World, e: Event)
    requires Inv(w) && JavaAbove(w.pools) && Legal(w, e) && !NamesDead(w, e) && !(e.FreeSSL? && Freed(w, e.h))
    ensures JavaPoolsStep(w, Step(w, e), e)
    ensures ParentsOf(Step(w, e).pools) == ParentsOf(w.pools) + Added(e)
  {
    hide Below, JavaPoolsStep, FreeSsl, Sweep;
    var v := Step(w, e);
    match e
    case NewPool(_) => AppendOnPools(w, v, e);
    case NewSSL(_, _) => AppendOnPools(w, v, e);
    case DestroyPool(p) =>
      DestroyOnPools(w, p);
      SameParents(w, v, e);
    case FreeSSL(h) =>
      FreeOnPools(w, h);
      SameParents(w, v, e);
  }

  lemma SameParents(w: World, v: World, e: Event)
    requires JavaPoolsStep(w, v, e) && |v.pools| == |w.pools|
    ensures ParentsOf(v.pools) == ParentsOf(w.pools) + []
  {
  }

  function ParentsOf(pools: seq<Pool>): (parents: seq<nat>)
    ensures |parents| == |pools|
  {
    seq(|pools|, q requires 0 <= q < |pools| => pools[q].parent)
  }

  /** The parents of the pools an event makes. */
  function Added(e: Event): seq<nat> {
    match e
    case NewPool(p) => [p]
    case NewSSL(ctx, outcome) => if outcome == ConFails || outcome == Created then [ctx] else []
    case _ => []
  }

  /** The tree of pools that events make, as the list of parents in the order of creation. */
  function Tree(events: seq<Event>): seq<nat> {
    if events == [] then [0] else Tree(events[..|events| - 1]) + Added(events[|events| - 1])
  }

  /** For each pool that events make, whether Java made it; the global pool counts as Java's. */
  function MadeByJava(events: seq<Event>): seq<bool> {
    if events == [] then [true]
    else
      MadeByJava(events[..|events| - 1]) +
      match events[|events| - 1]
      case NewPool(_) => [true]
      case NewSSL(_, outcome) => if outcome == ConFails || outcome == Created then [false] else []
      case _ => []
  }

  /** For each call of newSSL, whether Java was given a handle. */
  function HandedOut(events: seq<Event>): seq<bool> {
    if events == [] then []
    else
      HandedOut(events[..|events| - 1]) +
      match events[|events| - 1]
      case NewSSL(_, outcome) => [outcome == Created]
      case _ => []
  }

  /** The pools and handles of the world are those the events give. */
  ghost predicate Kinds(w: World, past: seq<Event>) {
    && |w.pools| == |MadeByJava(past)| && |w.ssls| == |HandedOut(past)|
    && (forall q :: 0 <= q < |w.pools| ==> w.pools[q].java == MadeByJava(past)[q])
    && (forall s :: 0 <= s < |w.ssls| ==> w.ssls[s].handle == HandedOut(past)[s])
  }

  /** `q` is `p` or below it in a tree. */
  predicate Under(tree: seq<nat>, p: nat, q: nat) {
    q < |tree| && (q == p || (p < q && tree[q] < q && Under(tree, p, tree[q])))
  }

  /** A path from `q` up to `p`, from each pool to its parent. */
  ghost predicate Climbs(tree: seq<nat>, path: seq<nat>, q: nat, p: nat) {
    && path != [] && path[0] == q < |tree| && path[|path| - 1] == p
    && forall i :: 0 <= i < |path| - 1 ==> path[i] < |tree| && path[i + 1] == tree[path[i]] < path[i]
  }

  lemma {:induction false} PathUp(tree: seq<nat>, p: nat, q: nat) returns (path: seq<nat>)
    requires Under(tree, p, q)
    ensures Climbs(tree, path, q, p)
    decreases q
  {
    path := [q];
    if q != p {
      var more := PathUp(tree, p, tree[q]);
      path := [q] + more;
    }
  }

  lemma {:induction false} PathMeansUnder(tree: seq<nat>, path: seq<nat>, q: nat, p: nat)
    requires Climbs(tree, path, q, p)
    ensures Under(tree, p, q) && p <= q
    decreases |path|
  {
    if |path| > 1 {
      assert path[1] == tree[path[0]];
      PathMeansUnder(tree, path[1..], path[1], p);
    }
  }

  lemma UnderExactly(tree: seq<nat>, p: nat, q: nat)
    ensures Under(tree, p, q) <==> exists path :: Climbs(tree, path, q, p)
  {
    if Under(tree, p, q) {
      var path := PathUp(tree, p, q);
    }
    if path :| Climbs(tree, path, q, p) {
      PathMeansUnder(tree, path, q, p);
    }
  }

  lemma {:induction false} UnderIsBelow(pools: seq<Pool>, p: nat, q: nat)
    requires q < |pools|
    ensures Under(ParentsOf(pools), p, q) == Below(pools, p, q)
    decreases q
  {
    if p < q && pools[q].parent < q {
      UnderIsBelow(pools, p, pools[q].parent);
    }
  }

  function NamedPool(e: Event): Option<nat> {
    match e
    case NewPool(p) => Some(p)
    case DestroyPool(p) => Some(p)
    case NewSSL(p, _) => Some(p)
    case FreeSSL(_) => None
  }

  /** One of the events in `past` destroys the pool `q`, or one above it. */
  ghost predicate Destroyed(past: seq<Event>, q: nat) {
    exists j :: 0 <= j < |past| && past[j].DestroyPool? && Under(Tree(past), past[j].p, q)
  }

  /** The event names a pool that `past` destroyed. */
  ghost predicate UsesDestroyed(past: seq<Event>, e: Event) {
    NamedPool(e).Some? && Destroyed(past, NamedPool(e).value)
  }

  /** A world in order after the events in `past`: its tree is theirs, and the dead among the pools Java
      made are those they destroyed. */
  ghost predicate InOrder(w: World, past: seq<Event>) {
    && Inv(w) && JavaAbove(w.pools) && Tree(past) == ParentsOf(w.pools) && Kinds(w, past)
    && (forall j :: 0 <= j < |past| && past[j].DestroyPool? ==> past[j].p < |w.pools|)
    && (forall q :: 0 <= q < |w.pools| && w.pools[q].java ==> (!Live(w, q) <==> Destroyed(past, q)))
  }

  lemma {:induction false} UnderGrows(tree: seq<nat>, more: seq<nat>, p: nat, q: nat)
    requires q < |tree|
    ensures Under(tree + more, p, q) == Under(tree, p, q)
    decreases q
  {
    if p < q && tree[q] < q {
      UnderGrows(tree, more, p, tree[q]);
    }
  }

  /** What is destroyed after one more event. */
  lemma DestroyedNext(past: seq<Event>, e: Event, q: nat)
    requires q < |Tree(past)|
    ensures Destroyed(past + [e], q) <==> Destroyed(past, q) || (e.DestroyPool? && Under(Tree(past), e.p, q))
  {
    var all := past + [e];
    assert all[..|past|] == past;
    assert Tree(all) == Tree(past) + Added(e);
    forall p: nat
      ensures Under(Tree(all), p, q) == Under(Tree(past), p, q)
    {
      UnderGrows(Tree(past), Added(e), p, q);
    }
    if Destroyed(past, q) {
      var j :| 0 <= j < |past| && past[j].DestroyPool? && Under(Tree(past), past[j].p, q);
      assert all[j] == past[j];
    }
    if e.DestroyPool? && Under(Tree(past), e.p, q) {
      assert all[|past|] == e;
    }
  }

  /** A pool just made below a live one is not destroyed. */
  lemma NewIsNotDestroyed(w: World, past: seq<Event>, parent: nat)
    requires InOrder(w, past) && Live(w, parent) && w.pools[parent].java
    ensures !Destroyed(past + [NewPool(parent)], |w.pools|)
  {
    var q, all := |w.pools|, past + [NewPool(parent)];
    assert all[..|past|] == past;
    var tree := Tree(past) + [parent];
    assert Tree(all) == tree;
    forall j | 0 <= j < |all| && all[j].DestroyPool?
      ensures !Under(tree, all[j].p, q)
    {
      assert all[j] == past[j];
      UnderGrows(Tree(past), [parent], past[j].p, parent);
    }
  }

  /** The pool that an event makes for Java. */
  lemma AddedPool(w: World, e: Event, q: nat)
    requires Inv(w) && Legal(w, e) && !NamesDead(w, e)
    requires ParentsOf(Step(w, e).pools) == ParentsOf(w.pools) + Added(e)
    requires |w.pools| <= q < |Step(w, e).pools| && Step(w, e).pools[q].java
    ensures e == NewPool(e.parent) && q == |w.pools| && Live(Step(w, e), q)
    ensures Live(w, e.parent) && w.pools[e.parent].java
  {
    hide Destroy, FreeSsl, SlotsOk, ParentsLive;
  }

  /** An older pool of Java after a step. */
  lemma DeadNext(w: World, v: World, past: seq<Event>, e: Event, q: nat)
    requires InOrder(w, past) && JavaPoolsStep(w, v, e) && q < |w.pools| && w.pools[q].java
    ensures !Live(v, q) <==> Destroyed(past + [e], q)
  {
    hide Inv, Below, Under, Destroyed, Tree, JavaAbove;
    DestroyedNext(past, e, q);
    if e.DestroyPool? {
      UnderIsBelow(w.pools, e.p, q);
    }
  }

  lemma LegalInOrder(w: World, past: seq<Event>, e: Event)
    requires InOrder(w, past) && Legal(w, e)
    ensures e.DestroyPool? ==> e.p < |w.pools|
  {
  }

  lemma DestroyKinds(w: World, p: nat, past: seq<Event>)
    requires Inv(w) && Live(w, p) && Kinds(w, past)
    ensures Kinds(Destroy(w, p), past)
  {
    hide Below, Destroy;
    DestroyKeeps(w, p);
  }

  lemma FreeKinds(w: World, h: nat, past: seq<Event>)
    requires Inv(w) && JavaAbove(w.pools) && Kinds(w, past)
    requires h < |w.ssls| && w.ssls[h].handle && w.ssls[h].frees == 0
    ensures Kinds(FreeSsl(w, h), past)
  {
    hide Below, FreeSsl, Inv, JavaAbove;
    FreeKeeps(w, h);
    FreeSpares(w, h);
  }

  lemma StepKinds(w: World, past: seq<Event>, e: Event)
    requires Inv(w) && JavaAbove(w.pools) && Kinds(w, past)
    requires Legal(w, e) && !NamesDead(w, e) && !(e.FreeSSL? && Freed(w, e.h))
    ensures Kinds(Step(w, e), past + [e])
  {
    hide Destroy, FreeSsl, SlotsOk, ParentsLive, JavaAbove;
    assert (past + [e])[..|past|] == past;
    assert !w.fault by {
      NoFault(w);
    }
    match e
    case NewPool(_) =>
    case NewSSL(_, _) =>
    case DestroyPool(p) =>
      DestroyKinds(w, p, past);
      SameKinds(Destroy(w, p), past, e);
    case FreeSSL(h) =>
      FreeKinds(w, h, past);
      SameKinds(FreeSsl(w, h), past, e);
  }

  lemma NoFault(w: World)
    requires Inv(w)
    ensures !w.fault
  {
  }

  lemma SameKinds(v: World, past: seq<Event>, e: Event)
    requires Kinds(v, past) && (e.DestroyPool? || e.FreeSSL?)
    ensures Kinds(v, past + [e])
  {
    assert (past + [e])[..|past|] == past;
    assert MadeByJava(past + [e]) == MadeByJava(past) + [];
    assert HandedOut(past + [e]) == HandedOut(past) + [];
  }

  lemma StepInOrder(w: World, past: seq<Event>, e: Event)
    requires InOrder(w, past) && Legal(w, e) && !NamesDead(w, e) && !(e.FreeSSL? && Freed(w, e.h))
    ensures InOrder(Step(w, e), past + [e])
  {
    hide Inv, Legal, NamesDead, Step, Live, Below, Under, Destroyed, Kinds;
    var v, all := Step(w, e), past + [e];
    StepKeeps(w, e);
    StepKinds(w, past, e);
    StepOnPools(w, e);
    LegalInOrder(w, past, e);
    assert all[..|past|] == past;
    assert Tree(all) == Tree(past) + Added(e);
    forall q | 0 <= q < |v.pools| && v.pools[q].java
      ensures !Live(v, q) <==> Destroyed(all, q)
    {
      if q < |w.pools| {
        DeadNext(w, v, past, e, q);
      } else {
        AddedPool(w, e, q);
        NewIsNotDestroyed(w, past, e.parent);
      }
    }
  }

  lemma StartInOrder()
    ensures InOrder(START, [])
  {
  }

  /** Some event of `rest` names a pool that the events before it destroyed. */
  ghost predicate NamesDestroyed(past: seq<Event>, rest: seq<Event>) {
    exists i :: 0 <= i < |rest| && UsesDestroyed(past + rest[..i], rest[i])
  }

  lemma NamesDestroyedSplits(past: seq<Event>, rest: seq<Event>)
    requires rest != []
    ensures NamesDestroyed(past, rest) <==>
            UsesDestroyed(past, rest[0]) || NamesDestroyed(past + [rest[0]], rest[1..])
  {
    var e, tail := rest[0], rest[1..];
    assert past + rest[..0] == past;
    forall i | 0 <= i < |tail|
      ensures past + [e] + tail[..i] == past + rest[..i + 1] && tail[i] == rest[i + 1]
    {
      assert rest[..i + 1] == [e] + tail[..i];
    }
    if NamesDestroyed(past, rest) && !UsesDestroyed(past, e) {
      var i :| 0 <= i < |rest| && UsesDestroyed(past + rest[..i], rest[i]);
      assert UsesDestroyed(past + [e] + tail[..i - 1], tail[i - 1]);
    }
    if NamesDestroyed(past + [e], tail) {
      var i :| 0 <= i < |tail| && UsesDestroyed(past + [e] + tail[..i], tail[i]);
      assert UsesDestroyed(past + rest[..i + 1], rest[i + 1]);
    }
    if UsesDestroyed(past, e) {
      assert UsesDestroyed(past + rest[..0], rest[0]);
    }
  }

  /** A run from a world in order stays in order, unless it frees a handle again or names a destroyed
      pool: then it faults. */
  lemma {:induction false} RunKeeps(w: World, past: seq<Event>, rest: seq<Event>)
    requires InOrder(w, past) && AllLegal(w, rest)
    ensures Run(w, rest).fault <==> FreedAgain(w, rest) || NamesDestroyed(past, rest)
    ensures !Run(w, rest).fault ==>
              && InOrder(Run(w, rest), past + rest)
              && forall h: nat :: Freed(Run(w, rest), h) <==> Freed(w, h) || FreeSSL(h) in rest
    decreases |rest|
  {
    hide InOrder, Inv, Legal, FreedAgain, UsesDestroyed, NamesDestroyed, Step;
    if rest == [] {
      NothingLeft(w, past);
    } else {
      var e, tail := rest[0], rest[1..];
      var v := Step(w, e);
      OrderMeansLive(w, past, e);
      NamesDestroyedSplits(past, rest);
      if NamesDead(w, e) || (e.FreeSSL? && Freed(w, e.h)) {
        FaultedStays(v, tail);
        FreedAgainAtOnce(w, rest);
      } else {
        StepInOrder(w, past, e);
        FreedAgainSplits(w, v, rest);
        RunKeeps(v, past + [e], tail);
        assert past + rest == past + [e] + tail;
      }
    }
  }

  lemma NothingLeft(w: World, past: seq<Event>)
    requires InOrder(w, past)
    ensures !w.fault && !FreedAgain(w, []) && !NamesDestroyed(past, []) && InOrder(w, past + [])
  {
    assert past + [] == past;
  }

  lemma FreedAgainAtOnce(w: World, rest: seq<Event>)
    requires rest != []
    ensures rest[0].FreeSSL? && Freed(w, rest[0].h) ==> FreedAgain(w, rest)
  {
  }

  /** In order, an event names a dead pool exactly when it names a destroyed one. */
  lemma OrderMeansLive(w: World, past: seq<Event>, e: Event)
    requires InOrder(w, past) && Legal(w, e)
    ensures Inv(w) && JavaAbove(w.pools)
    ensures NamesDead(w, e) <==> UsesDestroyed(past, e)
    ensures if NamesDead(w, e) || (e.FreeSSL? && Freed(w, e.h)) then Step(w, e).fault
            else forall h: nat :: Freed(Step(w, e), h) <==> Freed(w, h) || e == FreeSSL(h)
  {
    StepKeeps(w, e);
  }

  lemma FreedAgainFromStart(events: seq<Event>)
    ensures FreedAgain(START, events) <==>
            exists i, j :: 0 <= i < j < |events| && events[i].FreeSSL? && events[i] == events[j]
  {
  }

  lemma NamesDestroyedFromStart(events: seq<Event>)
    ensures NamesDestroyed([], events) <==>
            exists i :: 0 <= i < |events| && UsesDestroyed(events[..i], events[i])
  {
    hide UsesDestroyed;
    forall i | 0 <= i < |events|
      ensures [] + events[..i] == events[..i]
    {
    }
    if i :| 0 <= i < |events| && UsesDestroyed(events[..i], events[i]) {
      assert UsesDestroyed([] + events[..i], events[i]);
    }
  }

  /** From the start, a run uses given-back memory exactly when it frees some handle twice, or names a
      pool after destroying it or one above it. */
  lemma {:induction false} FaultExactlyOnMisuse(events: seq<Event>)
    requires AllLegal(START, events)
    ensures Run(START, events).fault <==>
            || (exists i, j :: 0 <= i < j < |events| && events[i].FreeSSL? && events[i] == events[j])
            || (exists i :: 0 <= i < |events| && UsesDestroyed(events[..i], events[i]))
  {
    hide InOrder, AllLegal, Run, FreedAgain, NamesDestroyed, UsesDestroyed;
    StartInOrder();
    RunKeeps(START, [], events);
    FreedAgainFromStart(events);
    NamesDestroyedFromStart(events);
  }

  // What Java can name, by the events alone

  /** The event names a pool that Java made by an event before, or the global one, or the handle of a
      newSSL before that succeeded. */
  predicate NamesOwn(past: seq<Event>, e: Event) {
    match e
    case NewPool(p) => p < |MadeByJava(past)| && MadeByJava(past)[p]
    case DestroyPool(p) => p < |MadeByJava(past)| && MadeByJava(past)[p]
    case NewSSL(p, _) => p < |MadeByJava(past)| && MadeByJava(past)[p]
    case FreeSSL(h) => h < |HandedOut(past)| && HandedOut(past)[h]
  }

  ghost predicate AllOwn(past: seq<Event>, rest: seq<Event>) {
    forall i :: 0 <= i < |rest| ==> NamesOwn(past + rest[..i], rest[i])
  }

  lemma AllOwnSplits(past: seq<Event>, rest: seq<Event>)
    requires rest != []
    ensures AllOwn(past, rest) <==> NamesOwn(past, rest[0]) && AllOwn(past + [rest[0]], rest[1..])
  {
    hide NamesOwn;
    var e, tail := rest[0], rest[1..];
    assert past + rest[..0] == past;
    forall i | 0 <= i < |tail|
      ensures past + [e] + tail[..i] == past + rest[..i + 1] && tail[i] == rest[i + 1]
    {
      assert rest[..i + 1] == [e] + tail[..i];
    }
    if NamesOwn(past, e) && AllOwn(past + [e], tail) {
      forall i | 0 <= i < |rest|
        ensures NamesOwn(past + rest[..i], rest[i])
      {
        if i > 0 {
          assert NamesOwn(past + [e] + tail[..i - 1], tail[i - 1]);
        }
      }
    }
    if AllOwn(past, rest) {
      assert NamesOwn(past + rest[..0], rest[0]);
      forall i | 0 <= i < |tail|
        ensures NamesOwn(past + [e] + tail[..i], tail[i])
      {
        assert NamesOwn(past + rest[..i + 1], rest[i + 1]);
      }
    }
  }

  lemma OwnIsLegal(w: World, past: seq<Event>, e: Event)
    requires InOrder(w, past)
    ensures Legal(w, e) <==> NamesOwn(past, e)
  {
  }

  /** From a world in order, naming only what events before gave is legal; and a legal run without a fault
      names nothing else. */
  lemma {:induction false} LegalByEvents(w: World, past: seq<Event>, rest: seq<Event>)
    requires InOrder(w, past)
    ensures AllOwn(past, rest) ==> AllLegal(w, rest)
    ensures AllLegal(w, rest) && !Run(w, rest).fault ==> AllOwn(past, rest)
    decreases |rest|
  {
    hide InOrder, Inv, Legal, NamesOwn, AllOwn, Step;
    if rest == [] {
      NothingOwned(past);
    } else {
      var e, tail := rest[0], rest[1..];
      AllOwnSplits(past, rest);
      OwnIsLegal(w, past, e);
      if Legal(w, e) {
        OrderMeansLive(w, past, e);
        if NamesDead(w, e) || (e.FreeSSL? && Freed(w, e.h)) {
          FaultedStays(Step(w, e), tail);
        } else {
          StepInOrder(w, past, e);
          LegalByEvents(Step(w, e), past + [e], tail);
        }
      }
    }
  }

  lemma NothingOwned(past: seq<Event>)
    ensures AllOwn(past, [])
  {
  }

  /** Over events alone: if every event names what events before it gave, the run uses given-back memory
      exactly when it frees some handle twice, or names a pool after destroying it or one above it. */
  lemma {:induction false} OwnEventsFaultExactlyOnMisuse(events: seq<Event>)
    requires forall i :: 0 <= i < |events| ==> NamesOwn(events[..i], events[i])
    ensures AllLegal(START, events)
    ensures Run(START, events).fault <==>
            || (exists i, j :: 0 <= i < j < |events| && events[i].FreeSSL? && events[i] == events[j])
            || (exists i :: 0 <= i < |events| && UsesDestroyed(events[..i], events[i]))
  {
    hide InOrder, AllLegal, Run, NamesOwn, UsesDestroyed;
    assert forall i :: 0 <= i < |events| ==> [] + events[..i] == events[..i];
    assert AllOwn([], events);
    StartInOrder();
    LegalByEvents(START, [], events);
    FaultExactlyOnMisuse(events);
  }

  /** A pool made for Java is live and Java's to name; a successful newSSL leaves a handle with a live pool
      below that of the context, which carries its cleanup, and with both counters at 0 and nothing freed;
      an error exit gives no handle and leaves no pool live. */
  lemma CreationLeaves(w: World, ctx: nat, outcome: Creation)
    requires Inv(w) && Live(w, ctx) && w.pools[ctx].java
    ensures var v := Step(w, NewPool(ctx));
            var q := |w.pools|;
            |v.pools| == q + 1 && Live(v, q) && v.pools[q].java && v.pools[q].parent == ctx
    ensures var v := Step(w, NewSSL(ctx, outcome));
            var s := |w.ssls|;
            |v.ssls| == s + 1 &&
            if outcome == Created then
              && v.ssls[s].handle && v.ssls[s].frees == 0
              && v.ssls[s].destroyCount == Counter(0, 0) && v.ssls[s].handshakeCount == Counter(0, 0)
              && v.ssls[s].pool == |w.pools| && |v.pools| == |w.pools| + 1
              && Live(v, v.ssls[s].pool) && !v.pools[v.ssls[s].pool].java
              && v.pools[v.ssls[s].pool].parent == ctx && v.pools[v.ssls[s].pool].cleanup == Some(s)
            else
              !v.ssls[s].handle && forall q: nat :: Live(v, q) <==> Live(w, q)
  {
  }

  lemma {:induction false} HandedOutGrows(events: seq<Event>, i: nat)
    requires i < |events| && events[i].NewSSL?
    ensures |HandedOut(events[..i])| < |HandedOut(events)|
    ensures HandedOut(events)[|HandedOut(events[..i])|] <==> events[i].outcome == Created
    decreases |events|
  {
    var before := events[..|events| - 1];
    if i < |before| {
      HandedOutGrows(before, i);
      assert before[..i] == events[..i];
    }
  }

  lemma UsableInOrder(w: World, past: seq<Event>, s: nat)
    requires InOrder(w, past) && s < |HandedOut(past)| && HandedOut(past)[s]
    ensures s < |w.ssls| && w.ssls[s].handle && Legal(w, FreeSSL(s))
    ensures !Freed(w, s) ==> w.ssls[s].frees == 0 && !Step(w, FreeSSL(s)).fault
  {
    hide SlotsOk, ParentsLive, JavaAbove, Step, HandedOut, MadeByJava, Tree, Destroyed;
    StepKeeps(w, FreeSSL(s));
    if !Freed(w, s) {
      NoFault(Step(w, FreeSSL(s)));
    }
  }

  /** In a run without misuse the slot of every successful newSSL has its handle; it may be freed, and the
      first time that is no misuse. */
  lemma {:induction false} CreatedIsUsable(events: seq<Event>, i: nat)
    requires AllLegal(START, events) && !Run(START, events).fault
    requires i < |events| && events[i].NewSSL? && events[i].outcome == Created
    ensures var w := Run(START, events);
            var s := |HandedOut(events[..i])|;
            && s < |w.ssls| && w.ssls[s].handle && Legal(w, FreeSSL(s))
            && (FreeSSL(s) !in events ==> w.ssls[s].frees == 0 && !Step(w, FreeSSL(s)).fault)
  {
    hide AllLegal, Run, InOrder, Inv, Legal, Step, Freed, HandedOut;
    StartInOrder();
    RunKeeps(START, [], events);
    assert [] + events == events;
    HandedOutGrows(events, i);
    UsableInOrder(Run(START, events), events, |HandedOut(events[..i])|);
    NothingFreedAtStart();
  }

  lemma NothingFreedAtStart()
    ensures forall h: nat :: !Freed(START, h)
  {
  }

  /** Without that, the pools dead to Java are exactly those it destroyed, themselves or by way of one
      above; connections take none of them along. */
  lemma DeadPoolWasDestroyed(events: seq<Event>, q: nat)
    requires AllLegal(START, events) && !Run(START, events).fault
    requires q < |Run(START, events).pools| && Run(START, events).pools[q].java
    ensures !Live(Run(START, events), q) <==> Destroyed(events, q)
  {
    StartInOrder();
    RunKeeps(START, [], events);
    assert [] + events == events;
  }

  lemma SlotInOrder(w: World, past: seq<Event>, s: nat)
    requires InOrder(w, past) && s < |w.ssls|
    ensures |HandedOut(past)| == |w.ssls| && (w.ssls[s].handle <==> HandedOut(past)[s])
    ensures var ssl := w.ssls[s];
            if !ssl.handle then
              && ssl.destroyCount.frees == 1 && ssl.handshakeCount.frees == 1
              && ssl.frees == (if ssl.created then 1 else 0)
              && (ssl.pool != 0 ==> ssl.pool < |w.pools| && w.pools[ssl.pool].destroys == 1)
            else
              && ssl.pool < |w.pools| && w.pools[ssl.pool].destroys <= 1
              && (ssl.destroyCount.value == 0 <==> Live(w, ssl.pool))
              && ssl.destroyCount.frees == ssl.handshakeCount.frees == ssl.frees
              && ssl.frees == (if Freed(w, s) then 1 else 0)
              && (Freed(w, s) ==> !Live(w, ssl.pool))
  {
    hide JavaAbove, HandedOut, MadeByJava, Tree, Destroyed, ParentsLive;
    assert SlotOk(w, s);
    if w.ssls[s].handle {
      assert PoolOk(w, w.ssls[s].pool);
    }
  }

  /** Without that, every connection pool is destroyed at most once, `destroyCount` is 0 exactly while the
      pool is live, and both counters and the SSL are freed once if the handle was freed and not before;
      an error exit of newSSL leaves nothing behind. */
  lemma LifetimesInOrder(events: seq<Event>, s: nat)
    requires AllLegal(START, events) && !Run(START, events).fault
    requires s < |Run(START, events).ssls|
    ensures var w := Run(START, events);
            var ssl := w.ssls[s];
            |HandedOut(events)| == |w.ssls| &&
            if !HandedOut(events)[s] then
              && ssl.destroyCount.frees == 1 && ssl.handshakeCount.frees == 1
              && ssl.frees == (if ssl.created then 1 else 0)
              && (ssl.pool != 0 ==> ssl.pool < |w.pools| && w.pools[ssl.pool].destroys == 1)
            else
              && ssl.pool < |w.pools| && w.pools[ssl.pool].destroys <= 1
              && (ssl.destroyCount.value == 0 <==> Live(w, ssl.pool))
              && ssl.destroyCount.frees == ssl.handshakeCount.frees == ssl.frees
              && ssl.frees == (if FreeSSL(s) in events then 1 else 0)
              && (FreeSSL(s) in events ==> !Live(w, ssl.pool))
  {
    hide AllLegal, Run, InOrder, Inv, SlotOk, PoolOk, Freed, HandedOut, Live;
    StartInOrder();
    RunKeeps(START, [], events);
    NothingFreedAtStart();
    assert [] + events == events;
    SlotInOrder(Run(START, events), events, s);
  }
}
