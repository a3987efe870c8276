/** src/db/ConnectionPool.cpp: the MySQL connection pool. `Core` is what the mutex guards;
    `Pool` adds the threads, so that runs interleave at every lock operation and at every
    read or write of the atomic flag `running_`. */
module ConnectionPool {
  import opened Strings

  /** An open connection and the time it was last used, in nanoseconds. */
  datatype Conn = Conn(id: nat, lastUse: int)

  datatype Config = Config(minSize: nat, maxSize: nat, idleSeconds: int)

  /** What configuration loading accepts. */
  predicate ValidConfig(cfg: Config) { 0 < cfg.minSize <= cfg.maxSize }

  /** Connections are numbered as they are opened; `held` are those out with clients and
      `deleted` counts how often each was deleted. */
  datatype Core = Core(
    queue: seq<Conn>, held: set<nat>, deleted: multiset<nat>, created: nat,
    active: nat, running: bool, initialized: bool)

  // ------------------------------------------------- the critical sections' effects

  function AddConnection(c: Core, now: int): Core {
    c.(queue := c.queue + [Conn(c.created, now)], created := c.created + 1)
  }

  function GetConnection(c: Core): Core {
    if !c.running || c.queue == [] then c
    else c.(queue := c.queue[1..], held := c.held + {c.queue[0].id}, active := c.active + 1)
  }

  /** The guard's deleter. */
  function ReturnConnection(c: Core, cfg: Config, id: nat, now: int): Core {
    var kept := c.running && |c.queue| < cfg.maxSize;
    c.(queue := if kept then c.queue + [Conn(id, now)] else c.queue,
       deleted := if kept then c.deleted else c.deleted + multiset{id},
       held := c.held - {id},
       active := if c.active > 0 then c.active - 1 else c.active)
  }

  function DeleteFront(c: Core): Core
    requires c.queue != []
  {
    c.(queue := c.queue[1..], deleted := c.deleted + multiset{c.queue[0].id})
  }

  /** Idle time in whole milliseconds against the limit in seconds. */
  predicate Expired(conn: Conn, now: int, idleSeconds: int) {
    (now - conn.lastUse) / 1_000_000 >= idleSeconds * 1000
  }

  predicate Recyclable(c: Core, cfg: Config, now: int) {
    |c.queue| > cfg.minSize && Expired(c.queue[0], now, cfg.idleSeconds)
  }

  /** One pass of the recycler, all at one time. */
  function RecyclePass(c: Core, cfg: Config, now: int): Core
    decreases |c.queue|
  {
    if Recyclable(c, cfg, now) then RecyclePass(DeleteFront(c), cfg, now) else c
  }

  function DeleteAll(c: Core): Core
    decreases |c.queue|
  {
    if c.queue == [] then c else DeleteAll(DeleteFront(c))
  }

  // --------------------------------------------------------- what every section keeps

  function Occurrences(queue: seq<Conn>, id: nat): nat {
    if queue == [] then 0 else (if queue[0].id == id then 1 else 0) + Occurrences(queue[1..], id)
  }

  /** How often a connection is queued, held and deleted together. */
  function Places(c: Core, id: nat): nat {
    Occurrences(c.queue, id) + (if id in c.held then 1 else 0) + c.deleted[id]
  }

  /** Every connection ever opened is in exactly one place, exactly once; no other is
      anywhere; the counter counts those held. */
  ghost predicate Accounted(c: Core) {
    && (forall id: nat :: Places(c, id) == if id < c.created then 1 else 0)
    && c.active == |c.held|
  }

  /** The queue is ordered by last use. */
  ghost predicate Ordered(queue: seq<Conn>, now: int) {
    && (forall i, j :: 0 <= i < j < |queue| ==> queue[i].lastUse <= queue[j].lastUse)
    && (forall i :: 0 <= i < |queue| ==> queue[i].lastUse <= now)
  }

  lemma {:induction false} OccurrencesAppend(queue: seq<Conn>, conn: Conn, id: nat)
    ensures Occurrences(queue + [conn], id) == Occurrences(queue, id) + if conn.id == id then 1 else 0
  {
    if queue != [] {
      assert (queue + [conn])[1..] == queue[1..] + [conn];
      OccurrencesAppend(queue[1..], conn, id);
    }
  }

  lemma AddKeeps(c: Core, now: int)
    requires Accounted(c)
    ensures Accounted(AddConnection(c, now))
  {
    var c' := AddConnection(c, now);
    forall id: nat ensures Places(c', id) == if id < c'.created then 1 else 0 {
      OccurrencesAppend(c.queue, Conn(c.created, now), id);
      assert Places(c, id) == if id < c.created then 1 else 0;
    }
  }

  lemma GetKeeps(c: Core)
    requires Accounted(c)
    ensures Accounted(GetConnection(c))
  {
    if c.running && c.queue != [] {
      var c', front := GetConnection(c), c.queue[0].id;
      assert Places(c, front) == if front < c.created then 1 else 0;
      assert front !in c.held;
      forall id: nat ensures Places(c', id) == if id < c'.created then 1 else 0 {
        assert Places(c, id) == if id < c.created then 1 else 0;
      }
    }
  }

  lemma ReturnKeeps(c: Core, cfg: Config, id: nat, now: int)
    requires Accounted(c) && id in c.held
    ensures Accounted(ReturnConnection(c, cfg, id, now))
  {
    var c' := ReturnConnection(c, cfg, id, now);
    forall k: nat ensures Places(c', k) == if k < c'.created then 1 else 0 {
      OccurrencesAppend(c.queue, Conn(id, now), k);
      assert Places(c, k) == if k < c.created then 1 else 0;
    }
  }

  lemma DeleteKeeps(c: Core)
    requires Accounted(c) && c.queue != []
    ensures Accounted(DeleteFront(c))
  {
    var c' := DeleteFront(c);
    forall id: nat ensures Places(c', id) == if id < c'.created then 1 else 0 {
      assert Places(c, id) == if id < c.created then 1 else 0;
    }
  }

  // ------------------------------------------------------------------ the recycler

  function CountExpired(queue: seq<Conn>, now: int, idleSeconds: int): nat {
    if queue == [] then 0
    else (if Expired(queue[0], now, idleSeconds) then 1 else 0) + CountExpired(queue[1..], now, idleSeconds)
  }

  function Surplus(c: Core, cfg: Config): nat { if |c.queue| > cfg.minSize then |c.queue| - cfg.minSize else 0 }

  lemma {:induction false} NoneExpired(queue: seq<Conn>, now: int, idleSeconds: int)
    requires Ordered(queue, now) && (queue != [] ==> !Expired(queue[0], now, idleSeconds))
    ensures CountExpired(queue, now, idleSeconds) == 0
  {
    if |queue| > 1 {
      LaterUseExpiresLater(queue[0], queue[1], now, idleSeconds);
      NoneExpired(queue[1..], now, idleSeconds);
    }
  }

  lemma LaterUseExpiresLater(a: Conn, b: Conn, now: int, idleSeconds: int)
    requires a.lastUse <= b.lastUse
    ensures Expired(b, now, idleSeconds) ==> Expired(a, now, idleSeconds)
  {}

  /** The connections of a queue, by number. */
  function Numbers(queue: seq<Conn>): multiset<nat> {
    if queue == [] then multiset{} else multiset{queue[0].id} + Numbers(queue[1..])
  }

  /** Stopping at the first unexpired connection is exact: a pass deletes the oldest
      min(surplus over the minimum, number expired) connections and does nothing else. */
  lemma {:induction false} RecyclerIsExact(c: Core, cfg: Config, now: int)
    requires Ordered(c.queue, now)
    ensures var k := Min(Surplus(c, cfg), CountExpired(c.queue, now, cfg.idleSeconds));
            var r := RecyclePass(c, cfg, now);
            && k <= |c.queue| && r == c.(queue := c.queue[k..], deleted := c.deleted + Numbers(c.queue[..k]))
            && (|c.queue| >= cfg.minSize ==> |r.queue| >= cfg.minSize)
    decreases |c.queue|
  {
    hide Expired, Numbers, CountExpired;
    if Recyclable(c, cfg, now) {
      assert Ordered(c.queue[1..], now);
      hide Ordered;
      RecyclerIsExact(DeleteFront(c), cfg, now);
      var k := Min(Surplus(DeleteFront(c), cfg), CountExpired(c.queue[1..], now, cfg.idleSeconds));
      FrontExpired(c, cfg, now, k);
      hide Recyclable, Surplus;
      assert c.deleted + multiset{c.queue[0].id} + Numbers(c.queue[1..][..k]) == c.deleted + Numbers(c.queue[..k + 1]);
    } else {
      FrontStays(c, cfg, now);
    }
  }

  lemma FrontExpired(c: Core, cfg: Config, now: int, k: nat)
    requires Recyclable(c, cfg, now) && k < |c.queue|
    ensures CountExpired(c.queue, now, cfg.idleSeconds) == 1 + CountExpired(c.queue[1..], now, cfg.idleSeconds)
    ensures Surplus(c, cfg) == 1 + Surplus(DeleteFront(c), cfg)
    ensures c.queue[1..][k..] == c.queue[k + 1..]
    ensures Numbers(c.queue[..k + 1]) == multiset{c.queue[0].id} + Numbers(c.queue[1..][..k])
  {
    assert c.queue[..k + 1][1..] == c.queue[1..][..k];
  }

  lemma FrontStays(c: Core, cfg: Config, now: int)
    requires Ordered(c.queue, now) && !Recyclable(c, cfg, now)
    ensures Min(Surplus(c, cfg), CountExpired(c.queue, now, cfg.idleSeconds)) == 0
    ensures c.queue[0..] == c.queue && c.deleted + Numbers(c.queue[..0]) == c.deleted
  {
    if |c.queue| > cfg.minSize { NoneExpired(c.queue, now, cfg.idleSeconds); }
  }

  // ------------------------------------------------------------------- the threads

  datatype Owner = Free | ByInit | ByProducer | ByRecycler | ByShutdown
  datatype Producer = PAbsent | PTop | PWaiting | PWoken | PCheck | PAdd | PDone
  datatype Recycler = RAbsent | RTop | RSleeping | RScan | RDone
  datatype Init = IIdle | IFill(index: nat) | IUndo
  datatype Shutdown = SIdle | SStored | SProducerJoined | SJoined | SDrain

  datatype Pool = Pool(
    core: Core, lock: Owner, producer: Producer, recycler: Recycler,
    init: Init, shutdown: Shutdown, now: int)

  /** What may happen next; the environment chooses the times, which guard is released and
      whether a connection attempt succeeds. */
  datatype Event =
    | Tick(dt: nat)
    | InitBegin | InitConnect(ok: bool) | InitUndo | InitFinish
    | Get | Return(id: nat)
    | ProducerTop | ProducerWake | ProducerEnter | ProducerCheck | ProducerAdd(ok: bool)
    | RecyclerTop | RecyclerWake | RecyclerScan
    | ShutdownBegin | JoinProducer | JoinRecycler | ShutdownLock | ShutdownDrain

  function Start(now: int): Pool {
    Pool(Core([], {}, multiset{}, 0, 0, false, false), Free, PAbsent, RAbsent, IIdle, SIdle, now)
  }

  /** One step; an event that is not enabled changes nothing. `overlap` says whether init and
      shutdown may be called while the other is still running. Starting the threads while old
      ones are joinable ends the process, so InitFinish is then never enabled. */
  function Step(s: Pool, e: Event, cfg: Config, overlap: bool): Pool {
    var c := s.core;
    match e
    case Tick(dt) => s.(now := s.now + dt)
    case InitBegin =>
      if s.init.IIdle? && s.lock.Free? && (overlap || s.shutdown.SIdle?) && !c.initialized then
        s.(lock := ByInit, init := IFill(0), core := c.(running := true))
      else s
    case InitConnect(ok) =>
      if s.init.IFill? && s.init.index < cfg.minSize then
        if ok then s.(core := AddConnection(c, s.now), init := IFill(s.init.index + 1))
        else s.(core := c.(running := false), init := IUndo)
      else s
    case InitUndo =>
      if s.init.IUndo? then
        if c.queue != [] then s.(core := DeleteFront(c)) else s.(init := IIdle, lock := Free)
      else s
    case InitFinish =>
      if s.init.IFill? && s.init.index >= cfg.minSize && s.producer.PAbsent? && s.recycler.RAbsent? then
        s.(core := c.(initialized := true), init := IIdle, lock := Free, producer := PTop, recycler := RTop)
      else s
    case Get => if s.lock.Free? then s.(core := GetConnection(c)) else s
    case Return(id) => if s.lock.Free? && id in c.held then s.(core := ReturnConnection(c, cfg, id, s.now)) else s
    case ProducerTop =>
      if s.producer.PTop? then s.(producer := if c.running then PWaiting else PDone) else s
    case ProducerWake =>
      if s.producer.PWaiting? && s.lock.Free? then s.(producer := PWoken, lock := ByProducer) else s
    case ProducerEnter =>
      if s.producer.PWoken? then
        if c.running then s.(producer := PCheck) else s.(producer := PDone, lock := Free)
      else s
    case ProducerCheck =>
      if s.producer.PCheck? then
        if c.running && |c.queue| < cfg.minSize then s.(producer := PAdd) else s.(producer := PTop, lock := Free)
      else s
    case ProducerAdd(ok) =>
      if s.producer.PAdd? then
        if ok then s.(core := AddConnection(c, s.now), producer := PCheck) else s.(producer := PTop, lock := Free)
      else s
    case RecyclerTop =>
      if s.recycler.RTop? then s.(recycler := if c.running then RSleeping else RDone) else s
    case RecyclerWake =>
      if s.recycler.RSleeping? && s.lock.Free? then s.(recycler := RScan, lock := ByRecycler) else s
    case RecyclerScan =>
      if s.recycler.RScan? then
        if Recyclable(c, cfg, s.now) then s.(core := DeleteFront(c)) else s.(recycler := RTop, lock := Free)
      else s
    case ShutdownBegin =>
      if s.shutdown.SIdle? && (overlap || s.init.IIdle?) then s.(core := c.(running := false), shutdown := SStored)
      else s
    case JoinProducer =>
      if s.shutdown.SStored? && (s.producer.PAbsent? || s.producer.PDone?) then
        s.(producer := PAbsent, shutdown := SProducerJoined)
      else s
    case JoinRecycler =>
      if s.shutdown.SProducerJoined? && (s.recycler.RAbsent? || s.recycler.RDone?) then
        s.(recycler := RAbsent, shutdown := SJoined)
      else s
    case ShutdownLock =>
      if s.shutdown.SJoined? && s.lock.Free? then s.(lock := ByShutdown, shutdown := SDrain) else s
    case ShutdownDrain =>
      if s.shutdown.SDrain? then
        if c.queue != [] then s.(core := DeleteFront(c))
        else s.(core := c.(initialized := false), shutdown := SIdle, lock := Free)
      else s
  }

  function Run(events: seq<Event>, start: int, cfg: Config, overlap: bool): Pool {
    if events == [] then Start(start)
    else Step(Run(events[..|events| - 1], start, cfg, overlap), events[|events| - 1], cfg, overlap)
  }

  // --------------------------------------------------- accounting, in every interleaving

  ghost predicate Sound(s: Pool) { Accounted(s.core) && Ordered(s.core.queue, s.now) }

  /** What any step does to the guarded data: at most one critical section's effect. */
  ghost predicate Effect(c: Core, c': Core, cfg: Config, now: int) {
    || c' == c.(running := c'.running, initialized := c'.initialized)
    || c' == AddConnection(c, now)
    || c' == GetConnection(c)
    || (c.queue != [] && c' == DeleteFront(c))
    || exists id :: id in c.held && c' == ReturnConnection(c, cfg, id, now)
  }

  lemma StepEffect(s: Pool, e: Event, cfg: Config, overlap: bool)
    ensures Effect(s.core, Step(s, e, cfg, overlap).core, cfg, s.now)
    ensures Step(s, e, cfg, overlap).now >= s.now
  {
    hide AddConnection, GetConnection, DeleteFront, ReturnConnection, Expired;
    match e
    case Return(id) =>
      if s.lock.Free? && id in s.core.held {
        assert Effect(s.core, ReturnConnection(s.core, cfg, id, s.now), cfg, s.now);
      }
    case _ =>
  }

  lemma EffectKeepsAccounts(c: Core, c': Core, cfg: Config, now: int)
    requires Accounted(c) && Effect(c, c', cfg, now)
    ensures Accounted(c')
  {
    hide Accounted, AddConnection, GetConnection, DeleteFront, ReturnConnection;
    AddKeeps(c, now);
    GetKeeps(c);
    FlagsKeep(c, c'.running, c'.initialized);
    if c.queue != [] { DeleteKeeps(c); }
    forall id | id in c.held ensures Accounted(ReturnConnection(c, cfg, id, now)) {
      ReturnKeeps(c, cfg, id, now);
    }
  }

  lemma EffectKeepsOrder(c: Core, c': Core, cfg: Config, now: int, later: int)
    requires Ordered(c.queue, now) && Effect(c, c', cfg, now) && now <= later
    ensures Ordered(c'.queue, later)
  {}

  lemma FlagsKeep(c: Core, running: bool, initialized: bool)
    requires Accounted(c)
    ensures Accounted(c.(running := running, initialized := initialized))
  {
    var c' := c.(running := running, initialized := initialized);
    forall id: nat ensures Places(c', id) == if id < c'.created then 1 else 0 {
      assert Places(c, id) == if id < c.created then 1 else 0;
    }
  }

  /** The recycler's turns from one wake-up to the release of the lock, no time passing. */
  function Scans(s: Pool, cfg: Config): Pool
    requires s.recycler.RScan?
    decreases |s.core.queue|
  {
    var s' := Step(s, RecyclerScan, cfg, false);
    if Recyclable(s.core, cfg, s.now) then Scans(s', cfg) else s'
  }

  /** Turn by turn, the recycler thread makes exactly one pass. */
  lemma {:induction false} ScansMakeAPass(s: Pool, cfg: Config)
    requires s.recycler.RScan?
    ensures Scans(s, cfg) == s.(core := RecyclePass(s.core, cfg, s.now), recycler := RTop, lock := Free)
    decreases |s.core.queue|
  {
    if Recyclable(s.core, cfg, s.now) { ScansMakeAPass(Step(s, RecyclerScan, cfg, false), cfg); }
  }

  /** Whatever the interleaving, even with init and shutdown overlapping: every connection
      opened is queued, held or deleted, in exactly one of these and exactly once; the active
      counter counts the guards alive; the queue is ordered by last use. */
  lemma {:induction false} EveryConnectionInOnePlace(events: seq<Event>, start: int, cfg: Config, overlap: bool)
    ensures Sound(Run(events, start, cfg, overlap))
    decreases |events|
  {
    if events != [] {
      EveryConnectionInOnePlace(events[..|events| - 1], start, cfg, overlap);
      var s, e := Run(events[..|events| - 1], start, cfg, overlap), events[|events| - 1];
      hide Step, Effect, Accounted, Ordered;
      StepEffect(s, e, cfg, overlap);
      var s' := Step(s, e, cfg, overlap);
      EffectKeepsAccounts(s.core, s'.core, cfg, s.now);
      EffectKeepsOrder(s.core, s'.core, cfg, s.now, s'.now);
    }
  }

  /** The lock belongs to the one thread that is inside its critical section. */
  ghost predicate Exclusive(s: Pool) {
    && (s.lock.ByInit? <==> !s.init.IIdle?)
    && (s.lock.ByProducer? <==> s.producer.PWoken? || s.producer.PCheck? || s.producer.PAdd?)
    && (s.lock.ByRecycler? <==> s.recycler.RScan?)
    && (s.lock.ByShutdown? <==> s.shutdown.SDrain?)
  }

  lemma ExclusiveStep(s: Pool, e: Event, cfg: Config, overlap: bool)
    requires Exclusive(s)
    ensures var t := Step(s, e, cfg, overlap);
            && Exclusive(t)
            && (t.core != s.core.(running := t.core.running) ==> !s.lock.Free? || e.Get? || e.Return?)
            && (!s.lock.Free? && !t.lock.Free? ==> t.lock == s.lock)
  {
    hide Recyclable;
  }

  /** Mutual exclusion on every interleaving: at most one thread is in a critical section,
      it is the one that holds the lock. */
  lemma {:induction false} AlwaysExclusive(events: seq<Event>, start: int, cfg: Config, overlap: bool)
    ensures Exclusive(Run(events, start, cfg, overlap))
    decreases |events|
  {
    hide Step;
    if events != [] {
      hide Exclusive;
      AlwaysExclusive(events[..|events| - 1], start, cfg, overlap);
      ExclusiveStep(Run(events[..|events| - 1], start, cfg, overlap), events[|events| - 1], cfg, overlap);
    }
  }

  /** While init fills the pool, what it has connected is in the queue. */
  ghost predicate Filling(s: Pool) { s.init.IFill? ==> s.init.index <= |s.core.queue| }

  lemma FillingStep(s: Pool, e: Event, cfg: Config, overlap: bool)
    requires Exclusive(s) && Filling(s)
    ensures Filling(Step(s, e, cfg, overlap))
  {
    hide Recyclable;
  }

  lemma {:induction false} AlwaysFilling(events: seq<Event>, start: int, cfg: Config, overlap: bool)
    ensures Filling(Run(events, start, cfg, overlap))
    decreases |events|
  {
    hide Step;
    if events != [] {
      hide Exclusive, Filling;
      var n := |events| - 1;
      AlwaysExclusive(events[..n], start, cfg, overlap);
      AlwaysFilling(events[..n], start, cfg, overlap);
      FillingStep(Run(events[..n], start, cfg, overlap), events[n], cfg, overlap);
    }
  }

  /** On every run, overlapping calls included: the pool is called initialized only with the
      minimum in the queue, its threads started and the lock given back. */
  lemma InitializedIsFull(events: seq<Event>, e: Event, start: int, cfg: Config, overlap: bool)
    ensures var s := Run(events, start, cfg, overlap);
            var t := Run(events + [e], start, cfg, overlap);
            !s.core.initialized && t.core.initialized ==>
              e.InitFinish? && |t.core.queue| >= cfg.minSize && t.producer.PTop? && t.recycler.RTop? && t.lock.Free?
  {
    AlwaysFilling(events, start, cfg, overlap);
    RunSnoc(events, e, start, cfg, overlap);
    hide Run, Recyclable;
  }

  /** On every run a client gets exactly the connection used least recently, which no other
      client holds; it leaves the queue and nothing else moves. Nothing is handed out while
      the lock is taken, the pool is stopped or the queue is empty. */
  lemma GetMovesFront(events: seq<Event>, start: int, cfg: Config, overlap: bool)
    ensures var s := Run(events, start, cfg, overlap);
            var t := Run(events + [Get], start, cfg, overlap);
            if s.lock.Free? && s.core.running && s.core.queue != [] then
              var conn := s.core.queue[0];
              && conn.id !in s.core.held && t.core.held == s.core.held + {conn.id}
              && t.core.queue == s.core.queue[1..] && t.core.active == s.core.active + 1
              && (forall c :: c in s.core.queue ==> conn.lastUse <= c.lastUse)
              && t == s.(core := s.core.(queue := t.core.queue, held := t.core.held, active := t.core.active))
            else t == s
  {
    EveryConnectionInOnePlace(events, start, cfg, overlap);
    var s := Run(events, start, cfg, overlap);
    RunSnoc(events, Get, start, cfg, overlap);
    hide Run;
    if s.core.queue != [] {
      assert Places(s.core, s.core.queue[0].id) <= 1;
    }
  }

  /** On every run a released guard's connection goes to the back of the queue, stamped with
      the time, or is deleted when the pool is stopped or the queue has its maximum. */
  lemma ReturnGoesBackOrAway(events: seq<Event>, id: nat, start: int, cfg: Config, overlap: bool)
    requires var s := Run(events, start, cfg, overlap); s.lock.Free? && id in s.core.held
    ensures var s := Run(events, start, cfg, overlap);
            var t := Run(events + [Return(id)], start, cfg, overlap);
            && t.core.held == s.core.held - {id} && t.core.active == s.core.active - 1
            && t.core.created == s.core.created && t.core.running == s.core.running
            && t == s.(core := t.core) && t.core.initialized == s.core.initialized
            && if s.core.running && |s.core.queue| < cfg.maxSize then
                 t.core.queue == s.core.queue + [Conn(id, s.now)] && t.core.deleted == s.core.deleted
               else
                 t.core.queue == s.core.queue && t.core.deleted == s.core.deleted + multiset{id}
  {
    EveryConnectionInOnePlace(events, start, cfg, overlap);
    RunSnoc(events, Return(id), start, cfg, overlap);
    hide Run;
  }

  /** On every run, when the recycler wakes up and takes the lock, its turns delete exactly
      the oldest connections that are expired and above the minimum, and free the lock. */
  lemma RecyclerIsExactOnRuns(events: seq<Event>, start: int, cfg: Config, overlap: bool)
    requires Run(events, start, cfg, overlap).recycler.RScan?
    ensures var s := Run(events, start, cfg, overlap);
            var c := s.core;
            var k := Min(Surplus(c, cfg), CountExpired(c.queue, s.now, cfg.idleSeconds));
            && k <= |c.queue|
            && Scans(s, cfg) == s.(core := c.(queue := c.queue[k..], deleted := c.deleted + Numbers(c.queue[..k])),
                                   recycler := RTop, lock := Free)
  {
    EveryConnectionInOnePlace(events, start, cfg, overlap);
    var s := Run(events, start, cfg, overlap);
    ScansMakeAPass(s, cfg);
    RecyclerIsExact(s.core, cfg, s.now);
    hide Run, Scans, RecyclePass, CountExpired, Numbers, Accounted, Ordered;
  }

  // ---------------------------------------- size bound and shutdown, calls not overlapping

  /** How the threads, the lock and the flags fit together. */
  ghost predicate Coordinated(s: Pool, cfg: Config) {
    && (s.lock.ByInit? <==> !s.init.IIdle?)
    && (s.lock.ByProducer? <==> s.producer.PWoken? || s.producer.PCheck? || s.producer.PAdd?)
    && (s.lock.ByRecycler? <==> s.recycler.RScan?)
    && (s.lock.ByShutdown? <==> s.shutdown.SDrain?)
    && (!s.init.IIdle? ==> s.shutdown.SIdle? && s.producer.PAbsent? && s.recycler.RAbsent? && !s.core.initialized)
    && (s.init.IUndo? ==> !s.core.running)
    && (!s.shutdown.SIdle? ==> !s.core.running)
    && (s.shutdown.SProducerJoined? || s.shutdown.SJoined? || s.shutdown.SDrain? ==> s.producer.PAbsent?)
    && (s.shutdown.SJoined? || s.shutdown.SDrain? ==> s.recycler.RAbsent?)
    && (!s.core.initialized ==> s.producer.PAbsent? && s.recycler.RAbsent?)
    && (s.init.IIdle? && !s.core.initialized ==> !s.core.running && s.core.queue == [])
    && (s.init.IFill? ==> |s.core.queue| == s.init.index <= cfg.minSize)
    && (s.producer.PAdd? ==> |s.core.queue| < cfg.minSize)
    && |s.core.queue| <= cfg.maxSize
  }

  lemma CoordinatedStep(s: Pool, e: Event, cfg: Config)
    requires ValidConfig(cfg) && Coordinated(s, cfg)
    ensures Coordinated(Step(s, e, cfg, false), cfg)
  {
    hide Expired;
    match e
    case Tick(dt) =>
    case InitBegin =>
    case InitConnect(ok) =>
    case InitUndo =>
    case InitFinish =>
    case Get =>
    case Return(id) =>
    case ProducerTop =>
    case ProducerWake =>
    case ProducerEnter =>
    case ProducerCheck =>
    case ProducerAdd(ok) =>
    case RecyclerTop =>
    case RecyclerWake =>
    case RecyclerScan =>
    case ShutdownBegin =>
    case JoinProducer =>
    case JoinRecycler =>
    case ShutdownLock =>
    case ShutdownDrain =>
  }

  lemma {:induction false} AlwaysCoordinated(events: seq<Event>, start: int, cfg: Config)
    requires ValidConfig(cfg)
    ensures Coordinated(Run(events, start, cfg, false), cfg)
    decreases |events|
  {
    if events != [] {
      hide Step, Coordinated;
      AlwaysCoordinated(events[..|events| - 1], start, cfg);
      CoordinatedStep(Run(events[..|events| - 1], start, cfg, false), events[|events| - 1], cfg);
    } else {
      assert Coordinated(Start(start), cfg);
    }
  }

  /** No call is under way, the pool is shut down and every guard is released. */
  ghost predicate ShutDown(s: Pool) {
    s.init.IIdle? && s.shutdown.SIdle? && !s.core.initialized && s.core.held == {}
  }

  /** Each connection ever opened has been deleted, exactly once. */
  ghost predicate AllDeleted(c: Core) {
    && c.queue == [] && c.active == 0
    && forall id: nat :: c.deleted[id] == if id < c.created then 1 else 0
  }

  /** After a shutdown that no other call overlapped, and the release of every guard,
      everything is deleted. */
  lemma ShutdownDeletesEverything(events: seq<Event>, start: int, cfg: Config)
    requires ValidConfig(cfg) && ShutDown(Run(events, start, cfg, false))
    ensures AllDeleted(Run(events, start, cfg, false).core)
  {
    AlwaysCoordinated(events, start, cfg);
    EveryConnectionInOnePlace(events, start, cfg, false);
    var c := Run(events, start, cfg, false).core;
    forall id: nat ensures c.deleted[id] == if id < c.created then 1 else 0 {
      assert Places(c, id) == if id < c.created then 1 else 0;
    }
  }

  lemma RunSnoc(events: seq<Event>, e: Event, start: int, cfg: Config, overlap: bool)
    ensures Run(events + [e], start, cfg, overlap) == Step(Run(events, start, cfg, overlap), e, cfg, overlap)
  {
    assert (events + [e])[..|events|] == events;
  }

  // ------------------------------------------------------------- what the threads reach

  /** One more event of a run. */
  lemma Next(events: seq<Event>, s: Pool, e: Event, start: int, cfg: Config, overlap: bool)
    returns (events': seq<Event>, s': Pool)
    requires s == Run(events, start, cfg, overlap)
    ensures events' == events + [e] && s' == Step(s, e, cfg, overlap) == Run(events', start, cfg, overlap)
  {
    events', s' := events + [e], Step(s, e, cfg, overlap);
    RunSnoc(events, e, start, cfg, overlap);
  }

  /** All connections of an init. */
  lemma ConnectAll(events: seq<Event>, s: Pool, start: int, cfg: Config, overlap: bool)
    returns (events': seq<Event>, s': Pool)
    requires s == Run(events, start, cfg, overlap) && s.init == IFill(0)
    ensures s' == Run(events', start, cfg, overlap) && |s'.core.queue| == |s.core.queue| + cfg.minSize
    ensures s' == s.(init := IFill(cfg.minSize), core := s.core.(queue := s'.core.queue, created := s'.core.created))
  {
    hide Run;
    events', s' := events, s;
    while s'.init.index < cfg.minSize
      invariant s' == Run(events', start, cfg, overlap) && s'.init.IFill? && s'.init.index <= cfg.minSize
      invariant |s'.core.queue| == |s.core.queue| + s'.init.index
      invariant s' == s.(init := s'.init, core := s.core.(queue := s'.core.queue, created := s'.core.created))
      decreases cfg.minSize - s'.init.index
    {
      events', s' := Next(events', s', InitConnect(true), start, cfg, overlap);
    }
  }

  /** Running and initialized, both threads at the top of their loops, nobody inside. */
  ghost predicate Up(s: Pool) {
    && s.lock.Free? && s.producer.PTop? && s.recycler.RTop? && s.init.IIdle? && s.shutdown.SIdle?
    && s.core.running && s.core.initialized
  }

  /** An init that starts when nothing is under way and gets its connections brings the pool
      up with exactly the minimum more. */
  lemma InitBringsUp(events: seq<Event>, s: Pool, start: int, cfg: Config) returns (events': seq<Event>, s': Pool)
    requires ValidConfig(cfg) && s == Run(events, start, cfg, false) && s.init.IIdle? && s.shutdown.SIdle?
    requires s.lock.Free? && !s.core.initialized
    ensures s' == Run(events', start, cfg, false) && Up(s') && |s'.core.queue| == cfg.minSize
  {
    AlwaysCoordinated(events, start, cfg);
    hide Run;
    events', s' := Next(events, s, InitBegin, start, cfg, false);
    events', s' := ConnectAll(events', s', start, cfg, false);
    events', s' := Next(events', s', InitFinish, start, cfg, false);
  }

  /** An init whose connection fails deletes what it has opened and leaves the pool down. */
  lemma FailedInitUndoes(events: seq<Event>, s: Pool, start: int, cfg: Config) returns (events': seq<Event>, s': Pool)
    requires ValidConfig(cfg) && s == Run(events, start, cfg, false) && s.init.IFill? && s.init.index < cfg.minSize
    ensures s' == Run(events', start, cfg, false) && s'.lock.Free? && s'.init.IIdle?
    ensures !s'.core.running && !s'.core.initialized && s'.core.queue == [] && s'.core.held == s.core.held
    ensures s'.core.created == s.core.created
  {
    AlwaysCoordinated(events, start, cfg);
    hide Run;
    events', s' := Next(events, s, InitConnect(false), start, cfg, false);
    while s'.core.queue != []
      invariant s' == Run(events', start, cfg, false) && s'.init.IUndo? && !s'.core.running && !s'.core.initialized
      invariant s'.core.held == s.core.held && s'.core.created == s.core.created
      decreases |s'.core.queue|
    {
      events', s' := Next(events', s', InitUndo, start, cfg, false);
    }
    events', s' := Next(events', s', InitUndo, start, cfg, false);
  }

  /** A producer that is not disturbed tops the queue up to the minimum and no further. */
  lemma ProducerTopsUp(events: seq<Event>, s: Pool, start: int, cfg: Config, overlap: bool)
    returns (events': seq<Event>, s': Pool)
    requires s == Run(events, start, cfg, overlap) && s.producer.PTop? && s.lock.Free? && s.core.running
    ensures s' == Run(events', start, cfg, overlap)
    ensures |s'.core.queue| == if |s.core.queue| < cfg.minSize then cfg.minSize else |s.core.queue|
    ensures s' == s.(core := s.core.(queue := s'.core.queue, created := s'.core.created))
    ensures s.core.queue <= s'.core.queue
  {
    hide Run;
    events', s' := Next(events, s, ProducerTop, start, cfg, overlap);
    events', s' := Next(events', s', ProducerWake, start, cfg, overlap);
    events', s' := Next(events', s', ProducerEnter, start, cfg, overlap);
    while |s'.core.queue| < cfg.minSize
      invariant s' == Run(events', start, cfg, overlap)
      invariant |s'.core.queue| <= cfg.minSize || s'.core.queue == s.core.queue
      invariant s.core.queue <= s'.core.queue && s'.producer.PCheck?
      invariant s'.(producer := PTop, lock := Free)
             == s.(core := s.core.(queue := s'.core.queue, created := s'.core.created))
      decreases cfg.minSize - |s'.core.queue|
    {
      events', s' := Next(events', s', ProducerCheck, start, cfg, overlap);
      events', s' := Next(events', s', ProducerAdd(true), start, cfg, overlap);
    }
    events', s' := Next(events', s', ProducerCheck, start, cfg, overlap);
  }

  /** A recycler that is not disturbed comes to hold the lock. */
  lemma RecyclerWakesUp(events: seq<Event>, s: Pool, start: int, cfg: Config, overlap: bool)
    returns (events': seq<Event>, s': Pool)
    requires s == Run(events, start, cfg, overlap) && s.recycler.RTop? && s.lock.Free? && s.core.running
    ensures s' == Run(events', start, cfg, overlap) && s' == s.(recycler := RScan, lock := ByRecycler)
  {
    hide Run;
    events', s' := Next(events, s, RecyclerTop, start, cfg, overlap);
    events', s' := Next(events', s', RecyclerWake, start, cfg, overlap);
  }

  /** A shutdown that nobody disturbs ends both threads and leaves an empty, uninitialized
      pool; what clients hold they keep. */
  lemma ShutdownEnds(events: seq<Event>, s: Pool, start: int, cfg: Config) returns (events': seq<Event>, s': Pool)
    requires s == Run(events, start, cfg, false) && Up(s)
    ensures s' == Run(events', start, cfg, false) && s'.lock.Free? && s'.init.IIdle? && s'.shutdown.SIdle?
    ensures s'.producer.PAbsent? && s'.recycler.RAbsent? && !s'.core.running && !s'.core.initialized
    ensures s'.core.queue == [] && s'.core.held == s.core.held && s'.core.created == s.core.created
  {
    hide Run;
    events', s' := Next(events, s, ShutdownBegin, start, cfg, false);
    events', s' := Next(events', s', ProducerTop, start, cfg, false);
    events', s' := Next(events', s', JoinProducer, start, cfg, false);
    events', s' := Next(events', s', RecyclerTop, start, cfg, false);
    events', s' := Next(events', s', JoinRecycler, start, cfg, false);
    events', s' := Next(events', s', ShutdownLock, start, cfg, false);
    while s'.core.queue != []
      invariant s' == Run(events', start, cfg, false) && s'.lock.ByShutdown? && s'.shutdown.SDrain? && s'.init.IIdle?
      invariant s'.producer.PAbsent? && s'.recycler.RAbsent? && !s'.core.running
      invariant s'.core.held == s.core.held && s'.core.created == s.core.created
      decreases |s'.core.queue|
    {
      events', s' := Next(events', s', ShutdownDrain, start, cfg, false);
    }
    events', s' := Next(events', s', ShutdownDrain, start, cfg, false);
  }

  // ------------------------------------------------- overlapping calls overfill the queue

  /** Threads at the top of their loops and nobody in a critical section; `initialized_` has
      been cleared although the pool runs. */
  ghost predicate Orphaned(s: Pool) {
    && s.lock.Free? && s.producer.PTop? && s.recycler.RTop? && s.init.IIdle? && s.shutdown.SIdle?
    && s.core.running && !s.core.initialized
  }

  /** Init brings a pool up while a shutdown that found no threads is still under way; the
      shutdown then drains the queue and clears `initialized_`, but the threads live on. */
  lemma Orphan(start: int, cfg: Config) returns (events: seq<Event>, s: Pool)
    requires ValidConfig(cfg)
    ensures s == Run(events, start, cfg, true) && Orphaned(s) && s.core.queue == [] && s.core.active == 0
  {
    events, s := [], Start(start);
    assert s == Run(events, start, cfg, true);
    hide Run;
    events, s := Next(events, s, ShutdownBegin, start, cfg, true);
    events, s := Next(events, s, JoinProducer, start, cfg, true);
    events, s := Next(events, s, JoinRecycler, start, cfg, true);
    events, s := Next(events, s, InitBegin, start, cfg, true);
    events, s := ConnectAll(events, s, start, cfg, true);
    events, s := Next(events, s, InitFinish, start, cfg, true);
    events, s := Next(events, s, ShutdownLock, start, cfg, true);
    while s.core.queue != []
      invariant s == Run(events, start, cfg, true)
      invariant s.lock.ByShutdown? && s.shutdown.SDrain? && s.producer.PTop? && s.recycler.RTop? && s.init.IIdle?
      invariant s.core.running && s.core.active == 0
      decreases |s.core.queue|
    {
      events, s := Next(events, s, ShutdownDrain, start, cfg, true);
    }
    events, s := Next(events, s, ShutdownDrain, start, cfg, true);
  }

  /** The producer fills the queue up to the minimum. */
  lemma Refill(events: seq<Event>, s: Pool, start: int, cfg: Config) returns (events': seq<Event>, s': Pool)
    requires s == Run(events, start, cfg, true) && Orphaned(s) && |s.core.queue| <= cfg.minSize
    ensures s' == Run(events', start, cfg, true) && Orphaned(s') && |s'.core.queue| == cfg.minSize
    ensures s'.core.active == s.core.active
  {
    hide Run;
    events', s' := Next(events, s, ProducerTop, start, cfg, true);
    events', s' := Next(events', s', ProducerWake, start, cfg, true);
    events', s' := Next(events', s', ProducerEnter, start, cfg, true);
    while |s'.core.queue| < cfg.minSize
      invariant s' == Run(events', start, cfg, true) && |s'.core.queue| <= cfg.minSize
      invariant s'.producer.PCheck? && Orphaned(s'.(producer := PTop, lock := Free)) && s'.core.active == s.core.active
      decreases cfg.minSize - |s'.core.queue|
    {
      events', s' := Next(events', s', ProducerCheck, start, cfg, true);
      events', s' := Next(events', s', ProducerAdd(true), start, cfg, true);
    }
    events', s' := Next(events', s', ProducerCheck, start, cfg, true);
  }

  /** Clients take connections and the producer replaces them until as many are out as the
      maximum exceeds the minimum; then all are returned. */
  lemma FillToMaximum(start: int, cfg: Config) returns (events: seq<Event>, s: Pool)
    requires ValidConfig(cfg)
    ensures s == Run(events, start, cfg, true) && Orphaned(s) && |s.core.queue| == cfg.maxSize
  {
    hide Run;
    events, s := Orphan(start, cfg);
    events, s := Refill(events, s, start, cfg);
    while s.core.active < cfg.maxSize - cfg.minSize
      invariant s == Run(events, start, cfg, true) && Orphaned(s)
      invariant |s.core.queue| == cfg.minSize && s.core.active <= cfg.maxSize - cfg.minSize
      decreases cfg.maxSize - s.core.active
    {
      events, s := Next(events, s, Get, start, cfg, true);
      events, s := Refill(events, s, start, cfg);
    }
    while s.core.active > 0
      invariant s == Run(events, start, cfg, true) && Orphaned(s)
      invariant |s.core.queue| + s.core.active == cfg.maxSize
      decreases s.core.active
    {
      EveryConnectionInOnePlace(events, start, cfg, true);
      var id :| id in s.core.held;
      events, s := Next(events, s, Return(id), start, cfg, true);
    }
  }

  /** With overlapping calls every configuration can be overfilled: a second shutdown joins
      the threads and, before it drains, a second init adds its connections to a full queue.
      The pool then runs, initialized, and nobody holds the lock. */
  lemma OverlapOverfills(start: int, cfg: Config) returns (events: seq<Event>)
    requires ValidConfig(cfg)
    ensures var s := Run(events, start, cfg, true);
            && |s.core.queue| == cfg.maxSize + cfg.minSize
            && s.lock.Free? && s.init.IIdle? && s.core.running && s.core.initialized
  {
    hide Run;
    var s;
    events, s := FillToMaximum(start, cfg);
    events, s := Next(events, s, ProducerTop, start, cfg, true);
    events, s := Next(events, s, ShutdownBegin, start, cfg, true);
    events, s := Next(events, s, ProducerWake, start, cfg, true);
    events, s := Next(events, s, ProducerEnter, start, cfg, true);
    events, s := Next(events, s, RecyclerTop, start, cfg, true);
    events, s := Next(events, s, JoinProducer, start, cfg, true);
    events, s := Next(events, s, JoinRecycler, start, cfg, true);
    events, s := Next(events, s, InitBegin, start, cfg, true);
    events, s := ConnectAll(events, s, start, cfg, true);
    events, s := Next(events, s, InitFinish, start, cfg, true);
  }

  /** For every configuration the queue stays within `max_size` on every run exactly when
      calls of init and shutdown do not overlap. */
  lemma QueueBoundedExactly(cfg: Config, overlap: bool)
    requires ValidConfig(cfg)
    ensures (forall events: seq<Event>, start: int :: |Run(events, start, cfg, overlap).core.queue| <= cfg.maxSize)
            <==> !overlap
  {
    if overlap {
      var events := OverlapOverfills(0, cfg);
    } else {
      forall events: seq<Event>, start: int ensures |Run(events, start, cfg, overlap).core.queue| <= cfg.maxSize {
        AlwaysCoordinated(events, start, cfg);
      }
    }
  }

  /** For every configuration shutdown leaves nothing undeleted on every run exactly when
      calls of init and shutdown do not overlap; otherwise a producer that outlived the
      shutdown opens new connections after it. */
  lemma ShutdownDeletesExactly(cfg: Config, overlap: bool)
    requires ValidConfig(cfg)
    ensures (forall events: seq<Event>, start: int | ShutDown(Run(events, start, cfg, overlap)) ::
               AllDeleted(Run(events, start, cfg, overlap).core))
            <==> !overlap
  {
    hide Run;
    if overlap {
      var events, s := Orphan(0, cfg);
      events, s := Refill(events, s, 0, cfg);
      EveryConnectionInOnePlace(events, 0, cfg, true);
      assert ShutDown(Run(events, 0, cfg, overlap)) && !AllDeleted(Run(events, 0, cfg, overlap).core);
    } else {
      forall events: seq<Event>, start: int | ShutDown(Run(events, start, cfg, overlap))
        ensures AllDeleted(Run(events, start, cfg, overlap).core)
      {
        ShutdownDeletesEverything(events, start, cfg);
      }
    }
  }

  // ---------------------------------------------------------------------- the class

  /** The guarded fields; connection attempts and the clock are supplied by the caller. */
  class ConnectionPool {
    var available: seq<Conn>
    var activeCount: nat
    var running: bool
    var initialized: bool
    const config: Config
    ghost var held: set<nat>
    ghost var deleted: multiset<nat>
    var created: nat

    ghost function View(): Core
      reads this
    {
      Core(available, held, deleted, created, activeCount, running, initialized)
    }

    constructor (config: Config)
      ensures View() == Start(0).core && this.config == config
      ensures available == [] && held == {} && deleted == multiset{} && created == activeCount == 0
      ensures !running && !initialized
    {
      this.config := config;
      available, activeCount, running, initialized := [], 0, false, false;
      held, deleted, created := {}, multiset{}, 0;
    }

    method AddConnectionLocked(connected: bool, now: int) returns (ok: bool)
      modifies this
      ensures ok == connected
      ensures View() == if connected then AddConnection(old(View()), now) else old(View())
      ensures connected ==> available == old(available) + [Conn(old(created), now)] && created == old(created) + 1
      ensures held == old(held) && deleted == old(deleted) && activeCount == old(activeCount)
      ensures running == old(running) && initialized == old(initialized)
    {
      if !connected {
        return false;
      }
      available := available + [Conn(created, now)];
      created := created + 1;
      ok := true;
    }

    method Acquire() returns (conn: seq<Conn>)
      modifies this
      ensures View() == GetConnection(old(View()))
      ensures conn == if old(running) && old(available) != [] then [old(available)[0]] else []
      ensures conn != [] ==> conn + available == old(available) && held == old(held) + {conn[0].id}
      ensures conn == [] ==> available == old(available) && held == old(held)
      ensures activeCount == old(activeCount) + |conn| && deleted == old(deleted) && created == old(created)
      ensures running == old(running) && initialized == old(initialized)
    {
      if !running || available == [] {
        return [];
      }
      conn := available[..1];
      available := available[1..];
      activeCount := activeCount + 1;
      held := held + {conn[0].id};
    }

    method Release(conn: Conn, now: int)
      modifies this
      ensures View() == ReturnConnection(old(View()), config, conn.id, now)
      ensures var kept := old(running) && |old(available)| < config.maxSize;
              && available == old(available) + (if kept then [Conn(conn.id, now)] else [])
              && deleted == old(deleted) + (if kept then multiset{} else multiset{conn.id})
      ensures held == old(held) - {conn.id} && created == old(created)
      ensures activeCount == if old(activeCount) > 0 then old(activeCount) - 1 else 0
      ensures running == old(running) && initialized == old(initialized)
    {
      var refreshed := conn.(lastUse := now);
      if running && |available| < config.maxSize {
        available := available + [refreshed];
      } else {
        deleted := deleted + multiset{conn.id};
      }
      if activeCount > 0 {
        activeCount := activeCount - 1;
      }
      held := held - {conn.id};
    }

    method DeleteFrontLocked()
      requires available != []
      modifies this
      ensures View() == DeleteFront(old(View()))
      ensures available == old(available)[1..] && deleted == old(deleted) + multiset{old(available)[0].id}
      ensures held == old(held) && created == old(created) && activeCount == old(activeCount)
      ensures running == old(running) && initialized == old(initialized)
    {
      deleted := deleted + multiset{available[0].id};
      available := available[1..];
    }

    method DrainLocked()
      modifies this
      ensures View() == DeleteAll(old(View()))
      ensures available == [] && deleted == old(deleted) + Numbers(old(available))
      ensures held == old(held) && created == old(created) && activeCount == old(activeCount)
      ensures running == old(running) && initialized == old(initialized)
    {
      while available != []
        invariant DeleteAll(View()) == DeleteAll(old(View()))
        invariant deleted + Numbers(available) == old(deleted) + Numbers(old(available))
        invariant held == old(held) && created == old(created) && activeCount == old(activeCount)
        invariant running == old(running) && initialized == old(initialized)
        decreases |available|
      {
        DeleteFrontLocked();
      }
    }

    /** The body of the recycler's loop: deleted is the longest front part of the queue that
        is above the minimum and has been idle long enough. */
    method RecycleLocked(now: int)
      modifies this
      ensures View() == RecyclePass(old(View()), config, now)
      ensures var k := |old(available)| - |available|;
              && k >= 0 && available == old(available)[k..] && deleted == old(deleted) + Numbers(old(available)[..k])
              && (k > 0 ==> |available| >= config.minSize)
              && forall i :: 0 <= i < k ==> now - old(available)[i].lastUse >= config.idleSeconds * 1_000_000_000
      ensures |available| <= config.minSize || now - available[0].lastUse < config.idleSeconds * 1_000_000_000
      ensures held == old(held) && created == old(created) && activeCount == old(activeCount)
      ensures running == old(running) && initialized == old(initialized)
    {
      hide Numbers, Expired;
      ghost var was := View();
      while |available| > config.minSize
        invariant RecyclePass(View(), config, now) == RecyclePass(was, config, now)
        decreases |available|
      {
        assert Expired(available[0], now, config.idleSeconds)
               == ((now - available[0].lastUse) / 1_000_000 >= config.idleSeconds * 1000) by {
          ExpiredInMilliseconds(available[0], now, config.idleSeconds);
        }
        if (now - available[0].lastUse) / 1_000_000 >= config.idleSeconds * 1000 {
          DeleteFrontLocked();
        } else {
          break;
        }
      }
      PassInSeconds(was, config, now);
      hide RecyclePass;
    }
  }

  lemma PassInSeconds(c: Core, cfg: Config, now: int)
    ensures var r := RecyclePass(c, cfg, now);
            var k := |c.queue| - |r.queue|;
            && k >= 0 && r == c.(queue := c.queue[k..], deleted := c.deleted + Numbers(c.queue[..k]))
            && (k > 0 ==> |r.queue| >= cfg.minSize)
            && (forall i :: 0 <= i < k ==> now - c.queue[i].lastUse >= cfg.idleSeconds * 1_000_000_000)
            && (|r.queue| <= cfg.minSize || now - r.queue[0].lastUse < cfg.idleSeconds * 1_000_000_000)
  {
    hide RecyclePass, Numbers, Expired, Removable;
    PassIsLongest(c, cfg, now);
    var r := RecyclePass(c, cfg, now);
    var k := |c.queue| - |r.queue|;
    forall i | 0 <= i < k ensures now - c.queue[i].lastUse >= cfg.idleSeconds * 1_000_000_000 {
      RemovableAt(c.queue, k, i, cfg, now);
      ExpiredAfterSeconds(c.queue[i], now, cfg.idleSeconds);
    }
    if k > 0 { RemovableAt(c.queue, k, 0, cfg, now); }
    if r.queue != [] { ExpiredAfterSeconds(r.queue[0], now, cfg.idleSeconds); }
  }

  lemma ExpiredInMilliseconds(conn: Conn, now: int, idleSeconds: int)
    ensures Expired(conn, now, idleSeconds) == ((now - conn.lastUse) / 1_000_000 >= idleSeconds * 1000)
  {}

  /** Idle for at least that many seconds. */
  lemma ExpiredAfterSeconds(conn: Conn, now: int, idleSeconds: int)
    ensures Expired(conn, now, idleSeconds) <==> now - conn.lastUse >= idleSeconds * 1_000_000_000
  {}

  /** The first `k` connections, taken off one by one, are above the minimum and expired. */
  predicate Removable(queue: seq<Conn>, k: nat, cfg: Config, now: int) {
    && k <= |queue| && (k > 0 ==> |queue| - k >= cfg.minSize)
    && forall i :: 0 <= i < k ==> Expired(queue[i], now, cfg.idleSeconds)
  }

  lemma RemovableAt(queue: seq<Conn>, k: nat, i: nat, cfg: Config, now: int)
    requires Removable(queue, k, cfg, now) && i < k
    ensures |queue| - k >= cfg.minSize && Expired(queue[i], now, cfg.idleSeconds)
  {
    hide Expired;
  }

  lemma RemovableCons(queue: seq<Conn>, k: nat, cfg: Config, now: int)
    requires queue != [] && |queue| > cfg.minSize && Expired(queue[0], now, cfg.idleSeconds)
    requires Removable(queue[1..], k, cfg, now)
    ensures Removable(queue, k + 1, cfg, now)
    ensures queue[1..][k..] == queue[k + 1..]
    ensures Numbers(queue[..k + 1]) == multiset{queue[0].id} + Numbers(queue[1..][..k])
  {
    hide Expired;
    assert queue[..k + 1][1..] == queue[1..][..k];
    forall i | 0 <= i < k + 1 ensures Expired(queue[i], now, cfg.idleSeconds) {
      if i > 0 { assert queue[i] == queue[1..][i - 1]; }
    }
  }

  /** A pass removes the longest front part of the queue that can be removed. */
  lemma {:induction false} PassIsLongest(c: Core, cfg: Config, now: int)
    ensures var r := RecyclePass(c, cfg, now);
            var k := |c.queue| - |r.queue|;
            && k >= 0 && r == c.(queue := c.queue[k..], deleted := c.deleted + Numbers(c.queue[..k]))
            && Removable(c.queue, k, cfg, now)
            && (|r.queue| <= cfg.minSize || !Expired(r.queue[0], now, cfg.idleSeconds))
    decreases |c.queue|
  {
    hide Expired, Removable, Numbers;
    if Recyclable(c, cfg, now) {
      PassIsLongest(DeleteFront(c), cfg, now);
      var k := |c.queue| - |RecyclePass(c, cfg, now).queue| - 1;
      RemovableCons(c.queue, k, cfg, now);
      assert c.deleted + multiset{c.queue[0].id} + Numbers(c.queue[1..][..k]) == c.deleted + Numbers(c.queue[..k + 1]);
    } else {
      NothingRemovable(c, cfg, now);
    }
  }

  lemma NothingRemovable(c: Core, cfg: Config, now: int)
    ensures Removable(c.queue, 0, cfg, now)
    ensures c == c.(queue := c.queue[0..], deleted := c.deleted + Numbers(c.queue[..0]))
  {
    assert c.queue[0..] == c.queue && c.queue[..0] == [];
  }
}
