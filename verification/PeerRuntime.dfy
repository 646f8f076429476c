/** The objects of the path state machine in `cmd/UDPTunnelLAN/packet_runtime.go`: a peer whose handlers update its
    flags in place, and the runtime that owns the peers. */
module PeerRuntime {
  import opened Basics
  import opened PeerPath

  // ---------------------------------------------------------------------------------------------
  // The peer object and its handlers

  /** The event takes the peer from `p` to `q`; `rotates` asks for a new socket, `calls` says that the tunnel library
      is called. */
  predicate Handled(c: Config, p: Peer, e: Event, q: Peer, rotates: bool, calls: bool) {
    && q == OnPeer(c, p, e)
    && rotates == (e.EvOpenFailed? && AsksRotation(c, p, e.rotate))
    && calls == (e.EvOpenBegin? && OpensTunnel(c, p))
  }

  class LanPeer {
    var addr: Option<Addr>
    var punched: bool
    var punching: bool
    var datagramReady: bool
    var connected: bool
    var isRelay: bool
    var longPunching: bool
    var signals: Signals
    var codecs: Codecs
    var kcp: Option<nat>
    var retryFlag: bool
    var jobs: Jobs

    ghost function View(): Peer
      reads this
    {
      Peer(addr, punched, punching, datagramReady, connected, isRelay, longPunching, signals, codecs, kcp,
           retryFlag, jobs)
    }

    constructor ()
      ensures View() == NEW_PEER
    {
      addr, kcp := None, None;
      punched, punching, datagramReady, connected, isRelay, longPunching := false, false, false, false, false, false;
      signals, codecs, retryFlag, jobs := NO_SIGNALS, Codecs(false, false), false, Jobs(0, 0, 0);
    }

    method TakeDatagramPath(c: Config) returns (taken: bool)
      modifies this
      ensures taken == DatagramUsable(c, old(View()))
      ensures View() == if taken then old(View()).(isRelay := false) else old(View())
    {
      if !datagramReady || !codecs.tx || !codecs.rx {
        return false;
      }
      if isRelay && c.IsRelayOnly() {
        return false;
      }
      if addr.None? {
        return false;
      }
      isRelay := false;
      return true;
    }

    method OpenUnlessReady(c: Config)
      modifies this
      ensures View() == OpenUnlessDatagramReady(c, old(View()))
    {
      if c.IsRelayOnly() {
        return;
      }
      var taken := TakeDatagramPath(c);
      if taken {
        return;
      }
      jobs := jobs.(spawned := jobs.spawned + 1);
    }

    method StoreAddr(c: Config, a: Addr)
      modifies this
      ensures View() == MoveTo(c, old(View()), a)
    {
      if !isRelay || !c.IsRelayOnly() {
        addr := Some(a);
      }
    }

    method EnsureCodecs(keyOk: bool)
      modifies this
      ensures View() == LearnKey(old(View()), keyOk)
    {
      if codecs.Both() {
        return;
      }
      if keyOk {
        codecs := Codecs(true, true);
      }
    }

    method StartPunching(c: Config)
      modifies this
      ensures View() == OpenAfterInfo(c, old(View()))
    {
      punching := true;
      if !isRelay && punched && !connected {
        OpenUnlessReady(c);
      }
    }

    method HandlePeerInfo(c: Config, announced: Option<Addr>, keyOk: bool)
      modifies this
      ensures View() == PeerInfo(c, old(View()), announced, keyOk)
    {
      EnsureCodecs(keyOk);
      if announced.None? {
        return;
      }
      StoreAddr(c, announced.value);
      StartPunching(c);
    }

    method MarkSignal(ack: bool) returns (confirmed: bool)
      modifies this
      ensures View() == MarkPunchSignal(old(View()), ack) && confirmed == TwoWayConfirmed(View())
    {
      if ack {
        signals := signals.(ack := true);
      } else {
        signals := signals.(incoming := true);
      }
      if !codecs.tx || !codecs.rx {
        return false;
      }
      if !signals.Both() {
        return false;
      }
      datagramReady := true;
      return true;
    }

    method OpenIfPunched(c: Config, confirmed: bool)
      modifies this
      ensures View() == OpenAfterPunch(c, old(View()), confirmed)
    {
      if !punched {
        punched := true;
        OpenUnlessReady(c);
      } else if isRelay && confirmed && !c.IsRelayOnly() {
        OpenUnlessReady(c);
      }
    }

    method HandlePunch(c: Config, src: Addr, ack: bool, ready: bool)
      modifies this
      ensures View() == Punched(c, old(View()), src, ack, ready)
    {
      StoreAddr(c, src);
      var confirmed := false;
      if ready {
        confirmed := MarkSignal(ack);
      }
      OpenIfPunched(c, confirmed);
    }

    method EnableLongPunching()
      modifies this
      ensures View() == LongPunch(old(View()))
    {
      if datagramReady || connected {
        return;
      }
      longPunching := true;
      isRelay := false;
      punched := false;
      punching := true;
    }

    method EnableRelayMode(c: Config)
      modifies this
      ensures View() == RelayMode(c, old(View()))
    {
      if !c.HasRelay() {
        EnableLongPunching();
        return;
      }
      if punched {
        return;
      }
      longPunching := false;
      addr := Some(c.server);
      isRelay := true;
      punched := true;
      if !c.IsRelayOnly() {
        jobs := jobs.(spawned := jobs.spawned + 1);
      }
    }

    method TryUseHotPath(c: Config, hot: Option<Addr>)
      modifies this
      ensures View() ==
        var p := old(View());
        if hot.Some? && !c.IsRelayOnly() && !p.datagramReady && !p.connected
        then p.(addr := hot, longPunching := false, punched := false, punching := true)
        else p
    {
      if c.IsRelayOnly() || hot.None? {
        return;
      }
      if !datagramReady && !connected {
        addr := hot;
        longPunching := false;
        punched := false;
        punching := true;
      }
    }

    method RecordSessionIntent(c: Config, hot: Option<Addr>)
      modifies this
      ensures View() == SessionIntent(c, old(View()), hot)
    {
      TryUseHotPath(c, hot);
      if !datagramReady && !connected && !c.IsRelayOnly() {
        if !c.HasRelay() {
          longPunching := true;
        }
        punched := false;
        punching := true;
      }
    }

    method PreheatLearnedPath(c: Config, learned: Addr)
      modifies this
      ensures View() == Preheat(c, old(View()), learned)
    {
      if datagramReady || c.IsRelayOnly() {
        return;
      }
      addr := Some(learned);
      punched := false;
      punching := true;
    }

    method StopIdlePunching()
      modifies this
      ensures View() == PunchLoopIdle(old(View()))
    {
      if longPunching {
        longPunching := false;
        punching := false;
      }
    }

    method OpenTunnelBegin(c: Config) returns (calls: bool)
      modifies this
      ensures View() == OpenBegin(c, old(View())) && calls == OpensTunnel(c, old(View()))
    {
      if jobs.spawned == 0 {
        return false;
      }
      jobs := jobs.(spawned := jobs.spawned - 1);
      var taken := TakeDatagramPath(c);
      if taken || connected {
        return false;
      }
      connected := true;
      jobs := jobs.(opening := jobs.opening + 1);
      return true;
    }

    method OpenTunnelReady(conn: nat)
      modifies this
      ensures View() == OpenReady(old(View()), conn)
    {
      if jobs.opening > 0 {
        jobs := jobs.(opening := jobs.opening - 1);
        kcp := Some(conn);
      }
    }

    method KeepRelay(c: Config, rotates: bool)
      modifies this
      ensures View() ==
        var r := old(View()).(addr := Some(c.server), punched := true, punching := false);
        if rotates then r else ScheduleRetry(r)
    {
      addr := Some(c.server);
      punched := true;
      punching := false;
      if !rotates && !retryFlag {
        retryFlag := true;
        jobs := jobs.(retries := jobs.retries + 1);
      }
    }

    method ForgetPunch()
      modifies this
      ensures View() == old(View()).(punched := false, punching := false, datagramReady := false,
                                     signals := NO_SIGNALS)
    {
      punched := false;
      punching := false;
      datagramReady := false;
      signals := NO_SIGNALS;
    }

    method CloseFailed(conn: Option<nat>)
      requires jobs.opening > 0
      modifies this
      ensures View() ==
        var p := old(View());
        p.(jobs := p.jobs.(opening := p.jobs.opening - 1), kcp := if p.kcp == conn then None else p.kcp,
           connected := false)
    {
      jobs := jobs.(opening := jobs.opening - 1);
      if kcp == conn {
        kcp := None;
      }
      connected := false;
    }

    method ResetAfterOpenFailure(c: Config, conn: Option<nat>, rotate: bool) returns (rotates: bool)
      modifies this
      ensures rotates == AsksRotation(c, old(View()), rotate)
      ensures View() == OpenFailed(c, old(View()), conn, rotates)
    {
      if jobs.opening == 0 {
        return false;
      }
      rotates := rotate && isRelay && c.HasRelay();
      CloseFailed(conn);
      if isRelay {
        KeepRelay(c, rotates);
      } else {
        ForgetPunch();
      }
    }

    method TunnelReadFailed(conn: nat)
      modifies this
      ensures View() == KcpReadFailed(old(View()), conn)
    {
      if kcp == Some(conn) {
        kcp := None;
        connected := false;
        isRelay := false;
        ForgetPunch();
      }
    }

    method RetryTimerFires(c: Config)
      modifies this
      ensures View() == RetryFires(c, old(View()))
    {
      if jobs.retries == 0 {
        return;
      }
      jobs := jobs.(retries := jobs.retries - 1);
      retryFlag := false;
      if connected || !punched {
        return;
      }
      var taken := TakeDatagramPath(c);
      if taken {
        return;
      }
      jobs := jobs.(spawned := jobs.spawned + 1);
    }

    method ResetAfterRotation()
      modifies this
      ensures View() == Reset(old(View()))
    {
      ForgetPunch();
      retryFlag := false;
      kcp := None;
      connected := false;
      isRelay := false;
      longPunching := false;
      addr := None;
    }

    method Handle(c: Config, e: Event) returns (rotates: bool, calls: bool)
      modifies this
      ensures Handled(c, old(View()), e, View(), rotates, calls)
    {
      rotates, calls := false, false;
      match e
      case EvPeerInfo(announced, keyOk) => HandlePeerInfo(c, announced, keyOk);
      case EvPunch(src, ack, ready) => HandlePunch(c, src, ack, ready);
      case EvEnableRelay => EnableRelayMode(c);
      case EvSessionIntent(hot) => RecordSessionIntent(c, hot);
      case EvPreheat(learned) => PreheatLearnedPath(c, learned);
      case EvPunchLoopIdle => StopIdlePunching();
      case EvOpenBegin => calls := OpenTunnelBegin(c);
      case EvOpenReady(conn) => OpenTunnelReady(conn);
      case EvOpenFailed(conn, rotate) => rotates := ResetAfterOpenFailure(c, conn, rotate);
      case EvKcpReadFailed(conn) => TunnelReadFailed(conn);
      case EvRetryFires => RetryTimerFires(c);
      case EvUpsert =>
      case EvRotate(_) =>
    }
  }

  // ---------------------------------------------------------------------------------------------
  // The runtime object

  /** The runtime's counters follow a peer's step. */
  function Counted(s: Runtime, rotates: bool, calls: bool): Runtime {
    Runtime(s.peers, if rotates then s.rotations + 1 else s.rotations, if calls then s.tunnels + 1 else s.tunnels)
  }

  lemma StepOfPeer(c: Config, s: Runtime, id: string, e: Event, q: Peer, rotates: bool, calls: bool)
    requires id in s.peers && Handled(c, s.peers[id], e, q, rotates, calls)
    ensures PeerStep(c, s, id, e) == Counted(s.(peers := s.peers[id := q]), rotates, calls)
  {
  }

  class LanRuntime {
    const c: Config
    var peers: map<string, LanPeer>
    var rotations: nat
    var tunnels: nat
    ghost var views: map<string, Peer>

    ghost function View(): Runtime
      reads this
    {
      Runtime(views, rotations, tunnels)
    }

    /** No two ids share an object, and `views` holds the state of every peer. */
    ghost predicate Linked()
      reads this`peers, this`views, peers.Values
    {
      && (forall i, j :: i in peers && j in peers && i != j ==> peers[i] != peers[j])
      && views.Keys == peers.Keys
      && (forall id :: id in peers ==> peers[id].View() == views[id])
    }

    /** The state is moreover one that runs can reach. */
    ghost predicate Valid()
      reads this, peers.Values
    {
      Linked() && Inv(c, View())
    }

    constructor (c: Config)
      ensures Valid() && this.c == c && peers == map[] && View() == START
    {
      this.c := c;
      peers, rotations, tunnels, views := map[], 0, 0, map[];
    }

    /** The loop over all peers after a socket rotation. */
    method ResetAllPeers()
      requires Linked()
      modifies this`views, peers.Values
      ensures Linked() && views == map id | id in old(views) :: Reset(old(views)[id])
    {
      var todo := peers.Keys;
      while todo != {}
        invariant todo <= peers.Keys && views == old(views)
        invariant forall id :: id in peers ==>
          peers[id].View() == if id in todo then old(views)[id] else Reset(old(views)[id])
      {
        var id :| id in todo;
        peers[id].ResetAfterRotation();
        todo := todo - {id};
      }
      views := map id | id in views :: Reset(views[id]);
    }

    method Rotate(carriedOut: bool)
      requires Linked()
      modifies this`rotations, this`views, peers.Values
      ensures Linked() && View() == RotateStep(old(View()), carriedOut)
    {
      if rotations == 0 {
        return;
      }
      rotations := rotations - 1;
      if carriedOut {
        ResetAllPeers();
      }
    }

    method Upsert(id: string)
      requires Linked()
      modifies this`peers, this`views
      ensures Linked() && View() == UpsertStep(old(View()), id)
      ensures forall i :: i in old(peers) ==> i in peers && peers[i] == old(peers)[i]
      ensures forall i :: i in peers && i !in old(peers) ==> fresh(peers[i])
    {
      if id !in peers {
        var p := new LanPeer();
        peers, views := peers[id := p], views[id := NEW_PEER];
      }
    }

    method Touch(id: string, e: Event) returns (rotates: bool, calls: bool)
      requires Linked() && id in peers
      modifies this`views, peers[id]
      ensures Linked() && views == old(views)[id := views[id]]
      ensures Handled(c, old(views)[id], e, views[id], rotates, calls)
    {
      rotates, calls := peers[id].Handle(c, e);
      views := views[id := peers[id].View()];
    }

    method TouchAndStep(id: string, e: Event) returns (rotates: bool, calls: bool)
      requires Linked() && id in peers
      modifies this`views, peers[id]
      ensures Linked() && Counted(View(), rotates, calls) == PeerStep(c, old(View()), id, e)
    {
      rotates, calls := Touch(id, e);
      StepOfPeer(c, old(View()), id, e, views[id], rotates, calls);
    }

    method Count(rotates: bool, calls: bool)
      requires Linked()
      modifies this`rotations, this`tunnels
      ensures Linked() && View() == Counted(old(View()), rotates, calls)
    {
      if rotates {
        rotations := rotations + 1;
      }
      if calls {
        tunnels := tunnels + 1;
      }
    }

    method HandlePeer(id: string, e: Event)
      requires Linked() && id in peers
      modifies this`rotations, this`tunnels, this`views, peers[id]
      ensures Linked() && View() == PeerStep(c, old(View()), id, e)
    {
      var rotates, calls := TouchAndStep(id, e);
      Count(rotates, calls);
    }

    /** One step of the runtime, whatever it is, keeps what every run keeps; objects stay with their ids. */
    method Handle(id: string, e: Event)
      requires Valid()
      modifies this`peers, this`rotations, this`tunnels, this`views, peers.Values
      ensures Valid() && View() == Step(c, old(View()), id, e)
      ensures forall i :: i in old(peers) ==> i in peers && peers[i] == old(peers)[i]
      ensures forall i :: i in peers && i !in old(peers) ==> fresh(peers[i])
    {
      StepKeepsInv(c, View(), id, e);
      if e.EvRotate? {
        Rotate(e.carriedOut);
      } else if e.EvUpsert? {
        Upsert(id);
      } else if id in peers {
        HandlePeer(id, e);
      }
    }

    /** Any sequence of events on a new runtime is a run of the model: in whatever state it ends, the invariant holds,
        and under `relay_only` no tunnel has been opened. */
    method Drive(events: seq<(string, Event)>)
      requires Valid() && peers == map[] && View() == START
      modifies this`peers, this`rotations, this`tunnels, this`views
      ensures Valid() && View() == Run(c, events)
      ensures c.IsRelayOnly() ==> tunnels == 0 && rotations == 0
    {
      for i := 0 to |events|
        invariant Valid() && View() == Run(c, events[..i])
        invariant forall p :: p in peers.Values ==> fresh(p)
      {
        RunSnoc(c, events[..i], events[i].0, events[i].1);
        assert events[..i] + [(events[i].0, events[i].1)] == events[..i + 1];
        Handle(events[i].0, events[i].1);
      }
      assert events[..|events|] == events;
    }
  }
}
