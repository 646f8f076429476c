/** The rendezvous server of `internal/server/udp.go`: devices register slots, slots that want each other are paired by
    a route in each direction, relayed packets follow the routes, and cleanup removes what has gone quiet. */
module Rendezvous {
  import opened Basics

  type Addr = string

  /** Device `from` waits for device `want`; `lan` tells the two slot tables apart. */
  datatype Slot = Slot(lan: bool, from: string, want: string, profile: string)

  function Partner(s: Slot): Slot {
    s.(from := s.want, want := s.from)
  }

  datatype Entry = Entry(addr: Addr, lastSeen: int, sessionID: int)

  datatype Route = Route(dst: Addr, lastSeen: int, sessionID: int)

  datatype PairKey = PairKey(ids: set<string>, profile: string)

  function KeyOf(s: Slot): PairKey {
    PairKey({s.from, s.want}, s.profile)
  }

  datatype State = State(slots: map<Slot, Entry>, pairs: map<Addr, Route>, sessions: map<PairKey, int>)

  const EMPTY := State(map[], map[], map[])

  // ---------------------------------------------------------------------------------------------
  // Steps

  /** `started` is the id the store gives a new session, None if it fails. */
  function EnsureSession(sessions: map<PairKey, int>, key: PairKey, started: Option<int>): (map<PairKey, int>, int) {
    if key in sessions then (sessions, sessions[key])
    else match started
      case None => (sessions, 0)
      case Some(id) => (sessions[key := id], id)
  }

  /** The slot is filled; a route of the slot's previous socket is dropped. */
  function Enter(st: State, s: Slot, src: Addr, now: int): State {
    var pairs := if s in st.slots && st.slots[s].addr != src then st.pairs - {st.slots[s].addr} else st.pairs;
    State(st.slots[s := Entry(src, now, 0)], pairs, st.sessions)
  }

  /** Both slots are live: routes in both directions, under one session. */
  function Pair(st: State, s: Slot, now: int, started: Option<int>): State
    requires s in st.slots && Partner(s) in st.slots
  {
    var (sessions, id) := EnsureSession(st.sessions, KeyOf(s), started);
    var a, b := st.slots[s].addr, st.slots[Partner(s)].addr;
    var slots := st.slots[s := st.slots[s].(sessionID := id)];
    State(slots[Partner(s) := slots[Partner(s)].(sessionID := id)],
          st.pairs[a := Route(b, now, id)][b := Route(a, now, id)], sessions)
  }

  function Register(st: State, s: Slot, src: Addr, now: int, started: Option<int>): State {
    var entered := Enter(st, s, src, now);
    if Partner(s) in entered.slots then Pair(entered, s, now, started) else entered
  }

  /** A packet from `src` is forwarded if it has a route; `sent` says that the write succeeded. */
  function Relay(st: State, src: Addr, sent: bool, now: int): State {
    if src in st.pairs && sent then st.(pairs := st.pairs[src := st.pairs[src].(lastSeen := now)]) else st
  }

  predicate Expired(e: Entry, now: int, peerTTL: int) {
    now - e.lastSeen > peerTTL
  }

  /** Addresses of the expired slots outside `todo`. */
  function GoneAddrs(slots: map<Slot, Entry>, todo: set<Slot>, now: int, peerTTL: int): set<Addr> {
    set s | s in slots && s !in todo && Expired(slots[s], now, peerTTL) :: slots[s].addr
  }

  function Cleanup(st: State, now: int, peerTTL: int, pairTTL: int): State {
    var gone := GoneAddrs(st.slots, {}, now, peerTTL);
    State(
      map s | s in st.slots && !Expired(st.slots[s], now, peerTTL) :: st.slots[s],
      map a | a in st.pairs && a !in gone && now - st.pairs[a].lastSeen <= pairTTL :: st.pairs[a],
      st.sessions)
  }

  datatype Event =
    | EvRegister(slot: Slot, src: Addr, at: int, started: Option<int>)
    | EvRelay(from: Addr, sent: bool, at: int)
    | EvCleanup(at: int, peerTTL: int, pairTTL: int)

  function Step(st: State, e: Event): State {
    match e
    case EvRegister(s, src, now, started) => Register(st, s, src, now, started)
    case EvRelay(src, sent, now) => Relay(st, src, sent, now)
    case EvCleanup(now, peerTTL, pairTTL) => Cleanup(st, now, peerTTL, pairTTL)
  }

  function Run(events: seq<Event>): State {
    if events == [] then EMPTY else Step(Run(events[..|events| - 1]), events[|events| - 1])
  }

  // ---------------------------------------------------------------------------------------------
  // Every route key is the address of a live slot

  ghost predicate KeysLive(st: State) {
    forall a :: a in st.pairs ==> exists s :: s in st.slots && st.slots[s].addr == a
  }

  lemma EnterKeepsKeysLive(st: State, s: Slot, src: Addr, now: int)
    requires KeysLive(st)
    ensures KeysLive(Enter(st, s, src, now))
  {
    var st' := Enter(st, s, src, now);
    forall a | a in st'.pairs ensures exists t :: t in st'.slots && st'.slots[t].addr == a {
      var t :| t in st.slots && st.slots[t].addr == a;
      assert t in st'.slots && st'.slots[t].addr == a;
    }
  }

  lemma PairKeepsKeysLive(st: State, s: Slot, now: int, started: Option<int>)
    requires s in st.slots && Partner(s) in st.slots && KeysLive(st)
    ensures KeysLive(Pair(st, s, now, started))
  {
    var st' := Pair(st, s, now, started);
    assert forall t :: t in st.slots ==> t in st'.slots && st'.slots[t].addr == st.slots[t].addr;
    forall a | a in st'.pairs ensures exists t :: t in st'.slots && st'.slots[t].addr == a {
      if a == st.slots[s].addr {
        assert st'.slots[s].addr == a;
      } else if a == st.slots[Partner(s)].addr {
        assert st'.slots[Partner(s)].addr == a;
      } else {
        var t :| t in st.slots && st.slots[t].addr == a;
        assert st'.slots[t].addr == a;
      }
    }
  }

  lemma CleanupKeepsKeysLive(st: State, now: int, peerTTL: int, pairTTL: int)
    requires KeysLive(st)
    ensures KeysLive(Cleanup(st, now, peerTTL, pairTTL))
  {
    var st' := Cleanup(st, now, peerTTL, pairTTL);
    forall a | a in st'.pairs ensures exists t :: t in st'.slots && st'.slots[t].addr == a {
      var t :| t in st.slots && st.slots[t].addr == a;
      assert !Expired(st.slots[t], now, peerTTL);
      assert t in st'.slots && st'.slots[t].addr == a;
    }
  }

  lemma KeysLiveStep(st: State, e: Event)
    requires KeysLive(st)
    ensures KeysLive(Step(st, e))
  {
    match e
    case EvRegister(s, src, now, started) =>
      EnterKeepsKeysLive(st, s, src, now);
      var entered := Enter(st, s, src, now);
      if Partner(s) in entered.slots {
        PairKeepsKeysLive(entered, s, now, started);
      }
    case EvRelay(src, sent, now) =>
      var st' := Relay(st, src, sent, now);
      assert st'.slots == st.slots && st'.pairs.Keys == st.pairs.Keys;
    case EvCleanup(now, peerTTL, pairTTL) =>
      CleanupKeepsKeysLive(st, now, peerTTL, pairTTL);
  }

  /** In every reachable state, whatever sockets were used. */
  lemma {:induction false} RunKeepsKeysLive(events: seq<Event>)
    ensures KeysLive(Run(events))
  {
    if events != [] {
      var n := |events| - 1;
      RunKeepsKeysLive(events[..n]);
      var st := Run(events[..n]);
      KeysLiveStep(st, events[n]);
    }
  }

  // ---------------------------------------------------------------------------------------------
  // Routes lead to the partner

  /** The route kept for a live slot leads to the current address of its partner, when that is live. */
  predicate RouteAgrees(st: State, s: Slot) {
    s in st.slots && st.slots[s].addr in st.pairs && Partner(s) in st.slots ==>
      st.pairs[st.slots[s].addr].dst == st.slots[Partner(s)].addr
  }

  ghost predicate Agrees(st: State) {
    forall s :: RouteAgrees(st, s)
  }

  /** Registering `s` completes a pair. */
  predicate Pairs(st: State, s: Slot) {
    Partner(s) == s || Partner(s) in st.slots
  }

  function PartnerAddr(st: State, s: Slot, src: Addr): Addr
    requires Pairs(st, s)
  {
    if Partner(s) == s then src else st.slots[Partner(s)].addr
  }

  /** If registering `s` from `src` completes a pair, no other live pair has a slot on either of its two addresses,
      unless that slot's partner sits on the other one. */
  ghost predicate TakesNoRoute(st: State, s: Slot, src: Addr) {
    Pairs(st, s) ==>
      forall u :: u in st.slots && u != s && u != Partner(s) && Partner(u) in st.slots ==>
        && (st.slots[u].addr == src ==> st.slots[Partner(u)].addr == PartnerAddr(st, s, src))
        && (st.slots[u].addr == PartnerAddr(st, s, src) ==> st.slots[Partner(u)].addr == src)
  }

  /** Registering `s` from `src` gives address `a` a route. */
  predicate PairsOn(st: State, s: Slot, src: Addr, a: Addr) {
    Pairs(st, s) && (a == src || a == PartnerAddr(st, s, src))
  }

  /** Registering `s` from `src` moves the slot away from address `a`. */
  predicate Moves(st: State, s: Slot, src: Addr, a: Addr) {
    s in st.slots && st.slots[s].addr == a && a != src
  }

  /** The session of the pair: the one it has, otherwise the one just started, otherwise none. */
  function SessionOf(st: State, s: Slot, started: Option<int>): int {
    if KeyOf(s) in st.sessions then st.sessions[KeyOf(s)] else if started.Some? then started.value else 0
  }

  lemma EnterEffect(st: State, s: Slot, src: Addr, now: int)
    ensures
      var st' := Enter(st, s, src, now);
      && st'.slots.Keys == st.slots.Keys + {s} && st'.slots[s] == Entry(src, now, 0)
      && (forall u :: u in st.slots && u != s ==> st'.slots[u] == st.slots[u])
      && (forall a :: a in st'.pairs <==> a in st.pairs && !Moves(st, s, src, a))
      && (forall a :: a in st'.pairs ==> st'.pairs[a] == st.pairs[a])
      && st'.sessions == st.sessions
  {
  }

  lemma PairEffect(st: State, s: Slot, now: int, started: Option<int>)
    requires s in st.slots && Partner(s) in st.slots
    ensures
      var st' := Pair(st, s, now, started);
      var a, b, id := st.slots[s].addr, st.slots[Partner(s)].addr, SessionOf(st, s, started);
      && st'.slots.Keys == st.slots.Keys
      && (forall u :: u in st.slots ==>
            st'.slots[u] == if u == s || u == Partner(s) then st.slots[u].(sessionID := id) else st.slots[u])
      && st'.pairs.Keys == st.pairs.Keys + {a, b}
      && st'.pairs[a] == Route(b, now, id) && st'.pairs[b] == Route(a, now, id)
      && (forall c :: c in st.pairs && c != a && c != b ==> st'.pairs[c] == st.pairs[c])
      && (KeyOf(s) in st.sessions || started.None? ==> st'.sessions == st.sessions)
      && (KeyOf(s) !in st.sessions && started.Some? ==> st'.sessions == st.sessions[KeyOf(s) := started.value])
  {
  }

  /** A registration fills the slot, and changes no other slot but for its session. */
  lemma RegisterSlots(st: State, s: Slot, src: Addr, now: int, started: Option<int>)
    ensures
      var st' := Register(st, s, src, now, started);
      && st'.slots.Keys == st.slots.Keys + {s}
      && (forall u :: u in st'.slots ==> st'.slots[u].addr == if u == s then src else st.slots[u].addr)
      && (forall u :: u in st'.slots ==> st'.slots[u].lastSeen == if u == s then now else st.slots[u].lastSeen)
  {
    EnterEffect(st, s, src, now);
    var entered := Enter(st, s, src, now);
    if Partner(s) in entered.slots {
      PairEffect(entered, s, now, started);
    }
  }

  /** A route stays unless the slot moves away from its address; the two addresses of a completed pair get a route to
      each other. */
  lemma RegisterRoutes(st: State, s: Slot, src: Addr, now: int, started: Option<int>)
    ensures
      var st' := Register(st, s, src, now, started);
      && (forall a :: a in st'.pairs <==> PairsOn(st, s, src, a) || (a in st.pairs && !Moves(st, s, src, a)))
      && (forall a :: a in st'.pairs && !PairsOn(st, s, src, a) ==> st'.pairs[a] == st.pairs[a])
      && (Pairs(st, s) ==>
            var b, id := PartnerAddr(st, s, src), SessionOf(st, s, started);
            st'.pairs[src] == Route(b, now, id) && st'.pairs[b] == Route(src, now, id))
  {
    EnterEffect(st, s, src, now);
    var entered := Enter(st, s, src, now);
    assert Partner(s) in entered.slots <==> Pairs(st, s);
    if Pairs(st, s) {
      PairEffect(entered, s, now, started);
      assert entered.slots[s].addr == src && entered.slots[Partner(s)].addr == PartnerAddr(st, s, src);
      assert SessionOf(entered, s, started) == SessionOf(st, s, started);
    }
  }

  /** The sessions afterwards: a pair without one gets the session just started. */
  lemma RegisterSessions(st: State, s: Slot, src: Addr, now: int, started: Option<int>)
    ensures
      var st' := Register(st, s, src, now, started);
      && (forall u :: u in st'.slots && u != s && !(Pairs(st, s) && u == Partner(s)) ==>
            st'.slots[u].sessionID == st.slots[u].sessionID)
      && (Pairs(st, s) ==> st'.slots[Partner(s)].sessionID == SessionOf(st, s, started))
      && st'.slots[s].sessionID == (if Pairs(st, s) then SessionOf(st, s, started) else 0)
      && (forall key :: key in st'.sessions <==>
            key in st.sessions || (key == KeyOf(s) && Pairs(st, s) && started.Some?))
      && (forall key :: key in st'.sessions ==>
            st'.sessions[key] == if key in st.sessions then st.sessions[key] else SessionOf(st, s, started))
  {
    EnterEffect(st, s, src, now);
    var entered := Enter(st, s, src, now);
    if Partner(s) in entered.slots {
      PairEffect(entered, s, now, started);
    }
  }

  /** Relaying changes nothing but when the route was last used. */
  lemma RelayEffect(st: State, src: Addr, sent: bool, now: int)
    ensures
      var st' := Relay(st, src, sent, now);
      && st'.slots == st.slots && st'.sessions == st.sessions && st'.pairs.Keys == st.pairs.Keys
      && (forall a :: a in st.pairs && !(a == src && sent) ==> st'.pairs[a] == st.pairs[a])
      && (src in st.pairs && sent ==> st'.pairs[src] == Route(st.pairs[src].dst, now, st.pairs[src].sessionID))
  {
  }

  /** Some slot on address `a` has not registered for longer than `peerTTL`. */
  ghost predicate HasExpired(st: State, a: Addr, now: int, peerTTL: int) {
    exists s :: s in st.slots && st.slots[s].addr == a && now - st.slots[s].lastSeen > peerTTL
  }

  /** Cleanup removes the expired slots, the routes of their addresses and the idle routes, and nothing else. */
  lemma CleanupEffect(st: State, now: int, peerTTL: int, pairTTL: int)
    ensures
      var st' := Cleanup(st, now, peerTTL, pairTTL);
      && (forall s :: s in st'.slots <==> s in st.slots && now - st.slots[s].lastSeen <= peerTTL)
      && (forall s :: s in st'.slots ==> st'.slots[s] == st.slots[s])
      && (forall a :: a in st'.pairs <==>
            a in st.pairs && !HasExpired(st, a, now, peerTTL) && now - st.pairs[a].lastSeen <= pairTTL)
      && (forall a :: a in st'.pairs ==> st'.pairs[a] == st.pairs[a])
      && st'.sessions == st.sessions
  {
  }

  /** Sessions are shared exactly by the same two devices, in either role, under the same profile. */
  lemma SameSession(s: Slot, t: Slot)
    ensures KeyOf(s) == KeyOf(t) <==>
      s.profile == t.profile && ((s.from == t.from && s.want == t.want) || (s.from == t.want && s.want == t.from))
  {
    if KeyOf(s) == KeyOf(t) {
      assert s.from in KeyOf(t).ids && s.want in KeyOf(t).ids && t.from in KeyOf(s).ids && t.want in KeyOf(s).ids;
    }
  }

  lemma TakingNoRouteAgrees(st: State, s: Slot, src: Addr, now: int, started: Option<int>, u: Slot)
    requires Agrees(st) && TakesNoRoute(st, s, src)
    ensures RouteAgrees(Register(st, s, src, now, started), u)
  {
    RegisterSlots(st, s, src, now, started);
    RegisterRoutes(st, s, src, now, started);
    assert Partner(Partner(u)) == u;
    assert RouteAgrees(st, u);
  }

  lemma AgreeingTakesNoRoute(st: State, s: Slot, src: Addr, now: int, started: Option<int>)
    requires Agrees(Register(st, s, src, now, started))
    ensures TakesNoRoute(st, s, src)
  {
    var st' := Register(st, s, src, now, started);
    RegisterSlots(st, s, src, now, started);
    RegisterRoutes(st, s, src, now, started);
    if Pairs(st, s) {
      forall u | u in st.slots && u != s && u != Partner(s) && Partner(u) in st.slots
        ensures st.slots[u].addr == src ==> st.slots[Partner(u)].addr == PartnerAddr(st, s, src)
        ensures st.slots[u].addr == PartnerAddr(st, s, src) ==> st.slots[Partner(u)].addr == src
      {
        assert Partner(Partner(u)) == u;
        assert RouteAgrees(st', u);
      }
    }
  }

  /** A registration keeps every route leading to the partner exactly when it takes no route of another pair. */
  lemma RegisterAgreesExactly(st: State, s: Slot, src: Addr, now: int, started: Option<int>)
    requires Agrees(st)
    ensures Agrees(Register(st, s, src, now, started)) <==> TakesNoRoute(st, s, src)
  {
    if TakesNoRoute(st, s, src) {
      forall u ensures RouteAgrees(Register(st, s, src, now, started), u) {
        TakingNoRouteAgrees(st, s, src, now, started, u);
      }
    }
    if Agrees(Register(st, s, src, now, started)) {
      AgreeingTakesNoRoute(st, s, src, now, started);
    }
  }

  lemma RelayAgrees(st: State, src: Addr, sent: bool, now: int)
    requires Agrees(st)
    ensures Agrees(Relay(st, src, sent, now))
  {
    var st' := Relay(st, src, sent, now);
    forall u ensures RouteAgrees(st', u) {
      assert RouteAgrees(st, u);
    }
  }

  lemma CleanupAgrees(st: State, now: int, peerTTL: int, pairTTL: int)
    requires Agrees(st)
    ensures Agrees(Cleanup(st, now, peerTTL, pairTTL))
  {
    var st' := Cleanup(st, now, peerTTL, pairTTL);
    forall u ensures RouteAgrees(st', u) {
      assert RouteAgrees(st, u);
    }
  }

  lemma RunSnoc(events: seq<Event>, e: Event)
    ensures Run(events + [e]) == Step(Run(events), e)
  {
    assert (events + [e])[..|events|] == events;
  }

  /** The run's step `k` takes no route of another pair. */
  ghost predicate StepTakesNoRoute(events: seq<Event>, k: nat)
    requires k < |events|
  {
    events[k].EvRegister? ==> TakesNoRoute(Run(events[..k]), events[k].slot, events[k].src)
  }

  lemma StepAgreesExactly(st: State, e: Event)
    requires Agrees(st)
    ensures Agrees(Step(st, e)) <==> (e.EvRegister? ==> TakesNoRoute(st, e.slot, e.src))
  {
    match e
    case EvRegister(s, src, now, started) => RegisterAgreesExactly(st, s, src, now, started);
    case EvRelay(src, sent, now) => RelayAgrees(st, src, sent, now);
    case EvCleanup(now, peerTTL, pairTTL) => CleanupAgrees(st, now, peerTTL, pairTTL);
  }

  lemma NextRunState(events: seq<Event>, k: nat)
    requires k < |events|
    ensures Run(events[..k + 1]) == Step(Run(events[..k]), events[k])
  {
    RunSnoc(events[..k], events[k]);
    assert events[..k] + [events[k]] == events[..k + 1];
  }

  lemma {:induction false} AgreesAlong(events: seq<Event>, n: nat)
    requires n <= |events| && forall k :: 0 <= k < n ==> StepTakesNoRoute(events, k)
    ensures Agrees(Run(events[..n]))
  {
    if n > 0 {
      AgreesAlong(events, n - 1);
      NextRunState(events, n - 1);
      StepAgreesExactly(Run(events[..n - 1]), events[n - 1]);
      assert StepTakesNoRoute(events, n - 1);
    }
  }

  /** All along a run every route leads to the partner exactly when no registration of the run takes a route of another
      pair. */
  lemma RunAgreesExactly(events: seq<Event>)
    ensures (forall n :: 0 <= n <= |events| ==> Agrees(Run(events[..n]))) <==>
      forall k :: 0 <= k < |events| ==> StepTakesNoRoute(events, k)
  {
    if forall k :: 0 <= k < |events| ==> StepTakesNoRoute(events, k) {
      forall n | 0 <= n <= |events| ensures Agrees(Run(events[..n])) {
        AgreesAlong(events, n);
      }
    }
    if forall n :: 0 <= n <= |events| ==> Agrees(Run(events[..n])) {
      forall k | 0 <= k < |events| ensures StepTakesNoRoute(events, k) {
        assert Agrees(Run(events[..k])) && Agrees(Run(events[..k + 1]));
        NextRunState(events, k);
        StepAgreesExactly(Run(events[..k]), events[k]);
      }
    }
  }

  /** The other end of the last pairing made on address `a` in the run, if there was one. */
  ghost function LastPairing(events: seq<Event>, a: Addr): Option<Addr> {
    if events == [] then None
    else
      var before, e := events[..|events| - 1], events[|events| - 1];
      if !e.EvRegister? || !Pairs(Run(before), e.slot) then LastPairing(before, a)
      else if a == PartnerAddr(Run(before), e.slot, e.src) then Some(e.src)
      else if a == e.src then Some(PartnerAddr(Run(before), e.slot, e.src))
      else LastPairing(before, a)
  }

  /** Whatever sockets are shared, the route of an address leads to the other end of the last pairing made on it. */
  lemma {:induction false} RouteIsLastPairing(events: seq<Event>, a: Addr)
    requires a in Run(events).pairs
    ensures LastPairing(events, a) == Some(Run(events).pairs[a].dst)
  {
    if events != [] {
      var before, e := events[..|events| - 1], events[|events| - 1];
      if e.EvRegister? {
        RegisterRoutes(Run(before), e.slot, e.src, e.at, e.started);
      }
      if a in Run(before).pairs {
        RouteIsLastPairing(before, a);
      }
    }
  }

  // ---------------------------------------------------------------------------------------------
  // Which slots and routes a run leaves

  predicate RegisteredAt(events: seq<Event>, k: nat, s: Slot)
    requires k < |events|
  {
    events[k].EvRegister? && events[k].slot == s
  }

  /** `s` registered at event `k`, and among the first `n` events none after it registered it again or found that
      registration expired. */
  ghost predicate LiveSince(events: seq<Event>, k: nat, n: nat, s: Slot)
    requires n <= |events|
  {
    && k < n && RegisteredAt(events, k, s)
    && forall j :: k < j < n ==>
         !RegisteredAt(events, j, s) &&
         !(events[j].EvCleanup? && events[j].at - events[k].at > events[j].peerTTL)
  }

  ghost predicate IsLive(events: seq<Event>, n: nat, s: Slot)
    requires n <= |events|
  {
    exists k: nat :: LiveSince(events, k, n, s)
  }

  lemma NextSlot(st: State, e: Event, s: Slot)
    ensures
      var st' := Step(st, e);
      if e.EvRegister? && e.slot == s then s in st'.slots && st'.slots[s].addr == e.src && st'.slots[s].lastSeen == e.at
      else
        && (s in st'.slots <==> s in st.slots && !(e.EvCleanup? && e.at - st.slots[s].lastSeen > e.peerTTL))
        && (s in st'.slots ==>
              st'.slots[s].addr == st.slots[s].addr && st'.slots[s].lastSeen == st.slots[s].lastSeen)
  {
    match e
    case EvRegister(t, src, now, started) => RegisterSlots(st, t, src, now, started);
    case EvRelay(src, sent, now) => RelayEffect(st, src, sent, now);
    case EvCleanup(now, peerTTL, pairTTL) => CleanupEffect(st, now, peerTTL, pairTTL);
  }

  /** The slots of a run are the registrations that have neither been repeated nor expired, with the socket and the
      time of the last one. */
  lemma {:induction false} SlotIsLastRegistration(events: seq<Event>, n: nat, s: Slot)
    requires n <= |events|
    ensures s in Run(events[..n]).slots <==> IsLive(events, n, s)
    ensures forall k: nat :: LiveSince(events, k, n, s) && s in Run(events[..n]).slots ==>
      Run(events[..n]).slots[s].addr == events[k].src && Run(events[..n]).slots[s].lastSeen == events[k].at
  {
    if n > 0 {
      var m, e := n - 1, events[n - 1];
      SlotIsLastRegistration(events, m, s);
      NextRunState(events, m);
      NextSlot(Run(events[..m]), e, s);
      if RegisteredAt(events, m, s) {
        assert LiveSince(events, m, n, s);
      } else {
        forall k: nat ensures LiveSince(events, k, n, s) <==>
          LiveSince(events, k, m, s) && !(e.EvCleanup? && e.at - events[k].at > e.peerTTL)
        {
        }
      }
    }
  }

  /** Event `k` completes a pair with address `a`. */
  ghost predicate PairedAt(events: seq<Event>, k: nat, a: Addr)
    requires k < |events|
  {
    events[k].EvRegister? && PairsOn(Run(events[..k]), events[k].slot, events[k].src, a)
  }

  /** When address `a` was last paired or last relayed a packet, among the first `n` events. */
  ghost function LastUse(events: seq<Event>, n: nat, a: Addr): Option<int>
    requires n <= |events|
  {
    if n == 0 then None
    else
      var e := events[n - 1];
      if PairedAt(events, n - 1, a) || (e.EvRelay? && e.from == a && e.sent) then Some(e.at)
      else LastUse(events, n - 1, a)
  }

  /** At event `k` a slot moves away from `a`, or cleanup finds that a slot on `a` has expired or that `a` has not been
      used for longer than the routes' time to live. */
  ghost predicate DroppedAt(events: seq<Event>, k: nat, a: Addr)
    requires k < |events|
  {
    var st := Run(events[..k]);
    match events[k]
    case EvRegister(s, src, _, _) => Moves(st, s, src, a)
    case EvRelay(_, _, _) => false
    case EvCleanup(now, peerTTL, pairTTL) =>
      var used := LastUse(events, k, a);
      HasExpired(st, a, now, peerTTL) || (used.Some? && now - used.value > pairTTL)
  }

  ghost function Pairings(events: seq<Event>, a: Addr): nat -> bool {
    (k: nat) => k < |events| && PairedAt(events, k, a)
  }

  ghost function Drops(events: seq<Event>, a: Addr): nat -> bool {
    (k: nat) => k < |events| && DroppedAt(events, k, a)
  }

  /** A pairing was made on `a`, and nothing has dropped its route since. */
  ghost predicate RouteHeld(events: seq<Event>, n: nat, a: Addr) {
    HeldSince(n, Pairings(events, a), Drops(events, a))
  }

  lemma NextRouteHeld(events: seq<Event>, n: nat, a: Addr)
    requires n < |events|
    ensures RouteHeld(events, n + 1, a) <==>
      PairedAt(events, n, a) || (RouteHeld(events, n, a) && !DroppedAt(events, n, a))
  {
    NextHeld(n, Pairings(events, a), Drops(events, a));
  }

  /** Whatever sockets are shared: an address has a route exactly when a pairing was made on it and since then no slot
      has moved away from it, no slot on it has expired and it has not gone idle. The route is as old as its last
      use. */
  lemma {:induction false} RoutesAreKept(events: seq<Event>, n: nat, a: Addr)
    requires n <= |events|
    ensures a in Run(events[..n]).pairs <==> RouteHeld(events, n, a)
    ensures a in Run(events[..n]).pairs ==> LastUse(events, n, a) == Some(Run(events[..n]).pairs[a].lastSeen)
  {
    if n > 0 {
      var m, st := n - 1, Run(events[..n - 1]);
      RoutesAreKept(events, m, a);
      NextRunState(events, m);
      NextRouteHeld(events, m, a);
      match events[m]
      case EvRegister(s, src, now, started) => RegisterRoutes(st, s, src, now, started);
      case EvRelay(src, sent, now) => RelayEffect(st, src, sent, now);
      case EvCleanup(now, peerTTL, pairTTL) => CleanupEffect(st, now, peerTTL, pairTTL);
    }
  }

  /** A device that is paired through a socket it also uses for a second slot, as LAN clients do: as soon as the second
      partner arrives the route of the first slot leads to that partner. */
  lemma SharedSocketBreaksAgreement(st: State, ab: Slot, ac: Slot, c: Addr, now: int, started: Option<int>)
    requires ab in st.slots && Partner(ab) in st.slots && ac in st.slots && st.slots[ab].addr == st.slots[ac].addr
    requires Partner(ac) !in {ac, ab, Partner(ab)} && st.slots[Partner(ab)].addr != c
    ensures !RouteAgrees(Register(st, Partner(ac), c, now, started), ab)
  {
    RegisterSlots(st, Partner(ac), c, now, started);
    RegisterRoutes(st, Partner(ac), c, now, started);
  }

  /** `slots` after a registration, as far as addresses go. */
  lemma RegisterPlaces(st: State, s: Slot, src: Addr, now: int, started: Option<int>)
    ensures s in Step(st, EvRegister(s, src, now, started)).slots
    ensures Step(st, EvRegister(s, src, now, started)).slots[s].addr == src
    ensures forall u :: u in st.slots && u != s ==>
      u in Step(st, EvRegister(s, src, now, started)).slots &&
      Step(st, EvRegister(s, src, now, started)).slots[u].addr == st.slots[u].addr
  {
    RegisterSlots(st, s, src, now, started);
  }

  /** Such a state is reached by three registrations. */
  lemma SharedSocketIsReachable(ab: Slot, ac: Slot, a: Addr, b: Addr)
    requires ab.want != ac.want && ab == ac.(want := ab.want) && ab.from !in {ab.want, ac.want}
    ensures
      var st := Run([EvRegister(ab, a, 0, None), EvRegister(Partner(ab), b, 0, None), EvRegister(ac, a, 0, None)]);
      && ab in st.slots && Partner(ab) in st.slots && ac in st.slots
      && st.slots[ab].addr == st.slots[ac].addr == a && st.slots[Partner(ab)].addr == b
      && Partner(ac) !in {ac, ab, Partner(ab)}
  {
    var e1, e2, e3 := EvRegister(ab, a, 0, None), EvRegister(Partner(ab), b, 0, None), EvRegister(ac, a, 0, None);
    assert [] + [e1] == [e1] && [e1] + [e2] == [e1, e2] && [e1, e2] + [e3] == [e1, e2, e3];
    RunSnoc([], e1);
    RunSnoc([e1], e2);
    RunSnoc([e1, e2], e3);
    RegisterPlaces(Run([]), ab, a, 0, None);
    RegisterPlaces(Run([e1]), Partner(ab), b, 0, None);
    RegisterPlaces(Run([e1, e2]), ac, a, 0, None);
  }

  // ---------------------------------------------------------------------------------------------
  // Runs in which live slots never share a socket

  predicate OwnSocket(st: State, s: Slot, src: Addr) {
    forall u :: u in st.slots && u != s ==> st.slots[u].addr != src
  }

  ghost predicate Distinct(st: State) {
    forall s, t :: s in st.slots && t in st.slots && s != t ==> st.slots[s].addr != st.slots[t].addr
  }

  predicate SessionMatches(st: State, s: Slot) {
    s in st.slots && Partner(s) in st.slots ==>
      var a, b := st.slots[s].addr, st.slots[Partner(s)].addr;
      a in st.pairs && b in st.pairs ==> st.pairs[a].sessionID == st.pairs[b].sessionID
  }

  ghost predicate SessionsMatch(st: State) {
    forall s :: SessionMatches(st, s)
  }

  ghost predicate Inv(st: State) {
    KeysLive(st) && Distinct(st) && Agrees(st) && SessionsMatch(st)
  }

  /** Each registration of the run comes from a socket that no other live slot uses. */
  ghost predicate OwnSockets(events: seq<Event>) {
    events == [] ||
    var n := |events| - 1;
    OwnSockets(events[..n]) && (events[n].EvRegister? ==> OwnSocket(Run(events[..n]), events[n].slot, events[n].src))
  }

  lemma OwnSocketTakesNoRoute(st: State, s: Slot, src: Addr)
    requires Distinct(st) && OwnSocket(st, s, src)
    ensures TakesNoRoute(st, s, src)
  {
  }

  lemma RegisterKeepsDistinct(st: State, s: Slot, src: Addr, now: int, started: Option<int>)
    requires Distinct(st) && OwnSocket(st, s, src)
    ensures Distinct(Register(st, s, src, now, started))
  {
    RegisterSlots(st, s, src, now, started);
  }

  lemma RegisterKeepsSession(st: State, s: Slot, src: Addr, now: int, started: Option<int>, u: Slot)
    requires Distinct(st) && OwnSocket(st, s, src) && SessionMatches(st, u)
    ensures SessionMatches(Register(st, s, src, now, started), u)
  {
    RegisterSlots(st, s, src, now, started);
    RegisterRoutes(st, s, src, now, started);
    assert Partner(Partner(u)) == u;
  }

  lemma StepKeepsInv(st: State, e: Event)
    requires Inv(st) && (e.EvRegister? ==> OwnSocket(st, e.slot, e.src))
    ensures Distinct(Step(st, e)) && Agrees(Step(st, e)) && SessionsMatch(Step(st, e))
  {
    var st' := Step(st, e);
    match e
    case EvRegister(s, src, now, started) =>
      RegisterKeepsDistinct(st, s, src, now, started);
      OwnSocketTakesNoRoute(st, s, src);
      RegisterAgreesExactly(st, s, src, now, started);
      forall u ensures SessionMatches(st', u) {
        assert SessionMatches(st, u);
        RegisterKeepsSession(st, s, src, now, started, u);
      }
    case EvRelay(src, sent, now) =>
      RelayAgrees(st, src, sent, now);
      forall u ensures SessionMatches(st', u) {
        assert SessionMatches(st, u);
      }
    case EvCleanup(now, peerTTL, pairTTL) =>
      CleanupAgrees(st, now, peerTTL, pairTTL);
      forall u ensures SessionMatches(st', u) {
        assert SessionMatches(st, u);
      }
  }

  lemma {:induction false} RunKeepsInv(events: seq<Event>)
    requires OwnSockets(events)
    ensures Inv(Run(events))
  {
    RunKeepsKeysLive(events);
    if events != [] {
      var n := |events| - 1;
      RunKeepsInv(events[..n]);
      StepKeepsInv(Run(events[..n]), events[n]);
    }
  }

  /** Partners' surviving routes are mutual inverses under one session. */
  lemma RoutesAreInverse(events: seq<Event>, s: Slot)
    requires OwnSockets(events)
    requires s in Run(events).slots && Partner(s) in Run(events).slots
    ensures
      var st := Run(events);
      var a, b := st.slots[s].addr, st.slots[Partner(s)].addr;
      && (a in st.pairs ==> st.pairs[a].dst == b)
      && (b in st.pairs ==> st.pairs[b].dst == a)
      && (a in st.pairs && b in st.pairs ==>
            st.pairs[st.pairs[a].dst].dst == a && st.pairs[a].sessionID == st.pairs[b].sessionID)
  {
    RunKeepsInv(events);
    var st := Run(events);
    assert Partner(Partner(s)) == s;
    assert RouteAgrees(st, s) && RouteAgrees(st, Partner(s)) && SessionMatches(st, s);
  }

  // ---------------------------------------------------------------------------------------------
  // Sessions

  lemma SessionIsKept(st: State, e: Event, key: PairKey)
    requires key in st.sessions
    ensures key in Step(st, e).sessions && Step(st, e).sessions[key] == st.sessions[key]
  {
  }

  /** Once two devices have a session for a profile, every later pairing of theirs uses it. */
  lemma {:induction false} SessionIsPermanent(events: seq<Event>, more: seq<Event>, key: PairKey)
    requires key in Run(events).sessions
    ensures key in Run(events + more).sessions && Run(events + more).sessions[key] == Run(events).sessions[key]
  {
    if more == [] {
      assert events + more == events;
    } else {
      var n := |more| - 1;
      SessionIsPermanent(events, more[..n], key);
      assert events + more == events + more[..n] + [more[n]];
      RunSnoc(events + more[..n], more[n]);
      SessionIsKept(Run(events + more[..n]), more[n], key);
    }
  }

  // ---------------------------------------------------------------------------------------------
  // The server object

  lemma GoneGrows(slots: map<Slot, Entry>, todo: set<Slot>, s: Slot, now: int, peerTTL: int)
    requires s in todo && s in slots
    ensures GoneAddrs(slots, todo - {s}, now, peerTTL) ==
      GoneAddrs(slots, todo, now, peerTTL) + if Expired(slots[s], now, peerTTL) then {slots[s].addr} else {}
  {
  }

  /** A packet relayed from the socket of a live slot goes to the current socket of the slot's partner. */
  lemma RelayReachesPartner(st: State, s: Slot)
    requires Agrees(st) && s in st.slots && Partner(s) in st.slots && st.slots[s].addr in st.pairs
    ensures st.pairs[st.slots[s].addr].dst == st.slots[Partner(s)].addr
  {
    assert RouteAgrees(st, s);
  }

  class Server {
    var slots: map<Slot, Entry>
    var pairs: map<Addr, Route>
    var sessions: map<PairKey, int>

    ghost function View(): State
      reads this
    {
      State(slots, pairs, sessions)
    }

    /** Every route key is the address of a live slot. */
    ghost predicate Valid()
      reads this
    {
      KeysLive(View())
    }

    constructor ()
      ensures Valid() && View() == EMPTY
    {
      slots, pairs, sessions := map[], map[], map[];
    }

    /** A pair keeps its session; 0 stands for none, when the store fails. */
    method EnsurePairSession(key: PairKey, started: Option<int>) returns (id: int)
      modifies this`sessions
      ensures (sessions, id) == EnsureSession(old(sessions), key, started)
      ensures forall k :: k in old(sessions) ==> k in sessions && sessions[k] == old(sessions)[k]
      ensures key in sessions ==> id == sessions[key]
      ensures key !in sessions ==> id == 0 && started.None?
    {
      if key in sessions {
        return sessions[key];
      }
      match started
      case None =>
        return 0;
      case Some(newID) =>
        sessions := sessions[key := newID];
        return newID;
    }

    method Enrol(s: Slot, src: Addr, now: int, started: Option<int>)
      modifies this
      ensures View() == Register(old(View()), s, src, now, started)
    {
      if s in slots && slots[s].addr != src {
        pairs := pairs - {slots[s].addr};
      }
      var self := Entry(src, now, 0);
      slots := slots[s := self];
      var t := Partner(s);
      if t !in slots {
        return;
      }
      var other := slots[t];
      var id := EnsurePairSession(KeyOf(s), started);
      slots := slots[s := slots[s].(sessionID := id)];
      slots := slots[t := slots[t].(sessionID := id)];
      pairs := pairs[self.addr := Route(other.addr, now, id)];
      pairs := pairs[other.addr := Route(self.addr, now, id)];
    }

    /** Routes stay, except that of the address the slot leaves and those of the two addresses of a completed pair. They
        go on leading to partners exactly when no route of another pair is taken; a socket of the slot's own takes
        none. */
    method HandleRegister(s: Slot, src: Addr, now: int, started: Option<int>)
      requires Valid()
      modifies this
      ensures Valid() && View() == Register(old(View()), s, src, now, started)
      ensures forall a :: a in pairs <==>
        PairsOn(old(View()), s, src, a) || (a in old(pairs) && !Moves(old(View()), s, src, a))
      ensures forall a :: a in pairs && !PairsOn(old(View()), s, src, a) ==> pairs[a] == old(pairs)[a]
      ensures old(Agrees(View())) ==> (Agrees(View()) <==> old(TakesNoRoute(View(), s, src)))
      ensures old(Inv(View())) && old(OwnSocket(View(), s, src)) ==> Inv(View())
    {
      ghost var e := EvRegister(s, src, now, started);
      KeysLiveStep(View(), e);
      RegisterRoutes(View(), s, src, now, started);
      if Agrees(View()) {
        RegisterAgreesExactly(View(), s, src, now, started);
      }
      if Inv(View()) && OwnSocket(View(), s, src) {
        StepKeepsInv(View(), e);
      }
      Enrol(s, src, now, started);
    }

    /** Where the packet goes: nowhere without a route, and while routes agree, to the partner of every live slot on
        the sending socket. */
    method HandleRelay(src: Addr, sent: bool, now: int) returns (to: Option<Addr>)
      requires Valid()
      modifies this`pairs
      ensures Valid() && View() == Relay(old(View()), src, sent, now)
      ensures to == if src in old(pairs) then Some(old(pairs)[src].dst) else None
      ensures to.Some? ==> exists s :: s in slots && slots[s].addr == src
      ensures to.Some? && old(Agrees(View())) ==>
        forall s :: s in slots && slots[s].addr == src && Partner(s) in slots ==> to.value == slots[Partner(s)].addr
      ensures old(Inv(View())) ==> Inv(View())
    {
      KeysLiveStep(View(), EvRelay(src, sent, now));
      if Inv(View()) {
        StepKeepsInv(View(), EvRelay(src, sent, now));
      }
      if src !in pairs {
        return None;
      }
      var route := pairs[src];
      if Agrees(View()) {
        forall s | s in slots && slots[s].addr == src && Partner(s) in slots
          ensures route.dst == slots[Partner(s)].addr
        {
          RelayReachesPartner(View(), s);
        }
      }
      if sent {
        pairs := pairs[src := route.(lastSeen := now)];
      }
      return Some(route.dst);
    }

    method CleanupExpiredPeers(now: int, peerTTL: int)
      modifies this
      ensures slots == map s | s in old(slots) && !Expired(old(slots)[s], now, peerTTL) :: old(slots)[s]
      ensures pairs == old(pairs) - GoneAddrs(old(slots), {}, now, peerTTL)
      ensures sessions == old(sessions)
    {
      ghost var before := slots;
      var todo := slots.Keys;
      while todo != {}
        invariant todo <= before.Keys && sessions == old(sessions)
        invariant forall s :: s in slots <==> s in before && (s in todo || !Expired(before[s], now, peerTTL))
        invariant forall s :: s in slots ==> slots[s] == before[s]
        invariant pairs == old(pairs) - GoneAddrs(before, todo, now, peerTTL)
      {
        var s :| s in todo;
        GoneGrows(before, todo, s, now, peerTTL);
        todo := todo - {s};
        if now - slots[s].lastSeen > peerTTL {
          pairs := pairs - {slots[s].addr};
          slots := slots - {s};
        }
      }
    }

    method CleanupExpiredPairs(now: int, pairTTL: int)
      modifies this`pairs
      ensures pairs == map a | a in old(pairs) && now - old(pairs)[a].lastSeen <= pairTTL :: old(pairs)[a]
    {
      ghost var before := pairs;
      var todo := pairs.Keys;
      while todo != {}
        invariant todo <= before.Keys
        invariant forall a :: a in pairs <==> a in before && (a in todo || now - before[a].lastSeen <= pairTTL)
        invariant forall a :: a in pairs ==> pairs[a] == before[a]
      {
        var a :| a in todo;
        todo := todo - {a};
        if now - pairs[a].lastSeen > pairTTL {
          pairs := pairs - {a};
        }
      }
    }

    method Sweep(now: int, peerTTL: int, pairTTL: int)
      modifies this
      ensures View() == Cleanup(old(View()), now, peerTTL, pairTTL)
    {
      CleanupExpiredPeers(now, peerTTL);
      CleanupExpiredPairs(now, pairTTL);
    }

    method CleanupOnce(now: int, peerTTL: int, pairTTL: int)
      requires Valid()
      modifies this
      ensures Valid() && View() == Cleanup(old(View()), now, peerTTL, pairTTL)
      ensures old(Agrees(View())) ==> Agrees(View())
      ensures old(Inv(View())) ==> Inv(View())
    {
      ghost var e := EvCleanup(now, peerTTL, pairTTL);
      KeysLiveStep(View(), e);
      if Agrees(View()) {
        CleanupAgrees(View(), now, peerTTL, pairTTL);
      }
      if Inv(View()) {
        StepKeepsInv(View(), e);
      }
      Sweep(now, peerTTL, pairTTL);
    }

    /** Any sequence of calls on a new server is a run of the model, and with a socket per live slot it ends with
        partners' routes leading to each other. */
    method Serve(events: seq<Event>)
      requires View() == EMPTY
      modifies this
      ensures Valid() && View() == Run(events)
      ensures OwnSockets(events) ==> Inv(View())
    {
      for i := 0 to |events|
        invariant Valid() && View() == Run(events[..i])
      {
        RunSnoc(events[..i], events[i]);
        assert events[..i] + [events[i]] == events[..i + 1];
        match events[i]
        case EvRegister(s, src, now, started) => HandleRegister(s, src, now, started);
        case EvRelay(src, sent, now) => var _ := HandleRelay(src, sent, now);
        case EvCleanup(now, peerTTL, pairTTL) => CleanupOnce(now, peerTTL, pairTTL);
      }
      assert events[..|events|] == events;
      if OwnSockets(events) {
        RunKeepsInv(events);
      }
    }
  }
}
