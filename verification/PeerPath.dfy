/** The peer path state machine of `cmd/UDPTunnelLAN/packet_runtime.go`: punching, relay mode, long punching, the
    datagram path and KCP tunnels. Every handler, timer and goroutine segment is one atomic step; what has been spawned
    and has not run yet is part of the state. */
module PeerPath {
  import opened Basics

  datatype Addr = Addr(ip: int, port: int)

  datatype PolicyName = Auto | PreferP2P | PreferRelay | RelayOnly

  /** Fixed when the runtime starts. */
  datatype Config = Config(policy: PolicyName, relayEnabled: bool, server: Addr) {
    predicate IsRelayOnly() { policy.RelayOnly? }
    predicate PrefersRelay() { policy.PreferRelay? || policy.RelayOnly? }
    predicate HasRelay() { relayEnabled }
  }

  /** The punch signals seen since the last reset. */
  datatype Signals = Signals(incoming: bool, ack: bool) {
    predicate Both() { incoming && ack }
  }

  /** Which codecs exist. */
  datatype Codecs = Codecs(tx: bool, rx: bool) {
    predicate Both() { tx && rx }
  }

  /** Goroutines of a peer: tunnel openings spawned and not started, openings inside the handshake, retry timers. */
  datatype Jobs = Jobs(spawned: nat, opening: nat, retries: nat)

  datatype Peer = Peer(
    addr: Option<Addr>,
    punched: bool, punching: bool, datagramReady: bool, connected: bool, isRelay: bool, longPunching: bool,
    signals: Signals, codecs: Codecs,
    kcp: Option<nat>,                       // the KCP connection in use
    retryFlag: bool, jobs: Jobs)

  const NO_SIGNALS := Signals(false, false)

  const NEW_PEER :=
    Peer(None, false, false, false, false, false, false, NO_SIGNALS, Codecs(false, false), None, false, Jobs(0, 0, 0))

  // ---------------------------------------------------------------------------------------------
  // Handlers, as functions of one peer

  /** The datagram path carries the peer; taking it leaves relay mode. */
  predicate DatagramUsable(c: Config, p: Peer) {
    p.datagramReady && p.codecs.Both() && !(p.isRelay && c.IsRelayOnly()) && p.addr.Some?
  }

  predicate TwoWayConfirmed(p: Peer) {
    p.codecs.Both() && p.signals.Both()
  }

  function OpenUnlessDatagramReady(c: Config, p: Peer): Peer {
    if c.IsRelayOnly() then p
    else if DatagramUsable(c, p) then p.(isRelay := false)
    else p.(jobs := p.jobs.(spawned := p.jobs.spawned + 1))
  }

  function LongPunch(p: Peer): Peer {
    if p.datagramReady || p.connected then p
    else p.(longPunching := true, isRelay := false, punched := false, punching := true)
  }

  function RelayMode(c: Config, p: Peer): Peer {
    if !c.HasRelay() then LongPunch(p)
    else if p.punched then p
    else
      p.(longPunching := false, addr := Some(c.server), isRelay := true, punched := true,
         jobs := if c.IsRelayOnly() then p.jobs else p.jobs.(spawned := p.jobs.spawned + 1))
  }

  /** A new address is taken, except in relay mode under `relay_only`. */
  function MoveTo(c: Config, p: Peer, addr: Addr): Peer {
    if !p.isRelay || !c.IsRelayOnly() then p.(addr := Some(addr)) else p
  }

  function LearnKey(p: Peer, keyOk: bool): Peer {
    if keyOk then p.(codecs := Codecs(true, true)) else p
  }

  function OpenAfterInfo(c: Config, p: Peer): Peer {
    var q := p.(punching := true);
    if !q.isRelay && q.punched && !q.connected then OpenUnlessDatagramReady(c, q) else q
  }

  /** `addr` is None when the announced address does not resolve; `keyOk` says that the announced key yields codecs. */
  function PeerInfo(c: Config, p: Peer, addr: Option<Addr>, keyOk: bool): Peer {
    var q := LearnKey(p, keyOk);
    if addr.None? then q else OpenAfterInfo(c, MoveTo(c, q, addr.value))
  }

  function MarkPunchSignal(p: Peer, ack: bool): Peer {
    var q := p.(signals := if ack then p.signals.(ack := true) else p.signals.(incoming := true));
    if TwoWayConfirmed(q) then q.(datagramReady := true) else q
  }

  function OpenAfterPunch(c: Config, p: Peer, confirmed: bool): Peer {
    if !p.punched || (p.isRelay && confirmed && !c.IsRelayOnly())
    then OpenUnlessDatagramReady(c, p.(punched := true))
    else p
  }

  /** A punch (`ack` false) or its acknowledgement; `ready` says that it carries the datagram marker. */
  function Punched(c: Config, p: Peer, src: Addr, ack: bool, ready: bool): Peer {
    var q := MoveTo(c, p, src);
    var r := if ready then MarkPunchSignal(q, ack) else q;
    OpenAfterPunch(c, r, ready && TwoWayConfirmed(r))
  }

  /** A TCP SYN towards the peer; `hot` is the learned address for its port, if any. */
  function SessionIntent(c: Config, p: Peer, hot: Option<Addr>): Peer {
    if c.IsRelayOnly() || p.datagramReady || p.connected then p
    else
      var q := if hot.Some? then p.(addr := hot, longPunching := false) else p;
      q.(longPunching := if c.HasRelay() then q.longPunching else true, punched := false, punching := true)
  }

  function Preheat(c: Config, p: Peer, addr: Addr): Peer {
    if p.datagramReady || c.IsRelayOnly() then p else p.(addr := Some(addr), punched := false, punching := true)
  }

  function PunchLoopIdle(p: Peer): Peer {
    if p.longPunching then p.(longPunching := false, punching := false) else p
  }

  /** An openTunnel goroutine that starts now reaches the call of tunnel.Open. */
  predicate OpensTunnel(c: Config, p: Peer) {
    p.jobs.spawned > 0 && !DatagramUsable(c, p) && !p.connected
  }

  function OpenBegin(c: Config, p: Peer): Peer {
    if p.jobs.spawned == 0 then p
    else if DatagramUsable(c, p) then p.(jobs := p.jobs.(spawned := p.jobs.spawned - 1), isRelay := false)
    else if p.connected then p.(jobs := p.jobs.(spawned := p.jobs.spawned - 1))
    else p.(jobs := p.jobs.(spawned := p.jobs.spawned - 1, opening := p.jobs.opening + 1), connected := true)
  }

  function OpenReady(p: Peer, conn: nat): Peer {
    if p.jobs.opening == 0 then p else p.(jobs := p.jobs.(opening := p.jobs.opening - 1), kcp := Some(conn))
  }

  function ScheduleRetry(p: Peer): Peer {
    if p.retryFlag then p else p.(retryFlag := true, jobs := p.jobs.(retries := p.jobs.retries + 1))
  }

  /** `conn` is the connection whose handshake failed, None if tunnel.Open itself failed; `rotate` says that the
      failure asks for a new socket instead of a retry. */
  function OpenFailed(c: Config, p: Peer, conn: Option<nat>, rotate: bool): Peer {
    if p.jobs.opening == 0 then p
    else
      var q := p.(jobs := p.jobs.(opening := p.jobs.opening - 1), kcp := if p.kcp == conn then None else p.kcp,
                  connected := false);
      if q.isRelay then
        var r := q.(addr := Some(c.server), punched := true, punching := false);
        if rotate then r else ScheduleRetry(r)
      else q.(punched := false, punching := false, datagramReady := false, signals := NO_SIGNALS)
  }

  function KcpReadFailed(p: Peer, conn: nat): Peer {
    if p.kcp != Some(conn) then p
    else p.(kcp := None, connected := false, punched := false, punching := false, isRelay := false,
            datagramReady := false, signals := NO_SIGNALS)
  }

  function RetryFires(c: Config, p: Peer): Peer {
    if p.jobs.retries == 0 then p
    else
      var q := p.(jobs := p.jobs.(retries := p.jobs.retries - 1), retryFlag := false);
      if q.connected || !q.punched then q
      else if DatagramUsable(c, q) then q.(isRelay := false)
      else q.(jobs := q.jobs.(spawned := q.jobs.spawned + 1))
  }

  function Reset(p: Peer): Peer {
    p.(addr := None, kcp := None, connected := false, punched := false, punching := false, isRelay := false,
       datagramReady := false, longPunching := false, signals := NO_SIGNALS, retryFlag := false)
  }

  // ---------------------------------------------------------------------------------------------
  // The runtime

  /** `tunnels` counts the calls of tunnel.Open; `rotations` the socket rotations asked for and not yet carried out. */
  datatype Runtime = Runtime(peers: map<string, Peer>, rotations: nat, tunnels: nat)

  const START := Runtime(map[], 0, 0)

  datatype Event =
    | EvUpsert
    | EvPeerInfo(addr: Option<Addr>, keyOk: bool)
    | EvPunch(src: Addr, ack: bool, ready: bool)
    | EvEnableRelay                          // path policy, bad NAT, or the fallback timer
    | EvSessionIntent(hot: Option<Addr>)
    | EvPreheat(learned: Addr)
    | EvPunchLoopIdle
    | EvOpenBegin
    | EvOpenReady(conn: nat)
    | EvOpenFailed(failed: Option<nat>, rotate: bool)
    | EvKcpReadFailed(lost: nat)
    | EvRetryFires
    | EvRotate(carriedOut: bool)             // false: within the cooldown, or no new socket

  /** Relay failure asks for a rotation only in relay mode with the relay available. */
  predicate AsksRotation(c: Config, p: Peer, rotate: bool) {
    rotate && p.jobs.opening > 0 && p.isRelay && c.HasRelay()
  }

  function OnPeer(c: Config, p: Peer, e: Event): Peer {
    match e
    case EvPeerInfo(addr, keyOk) => PeerInfo(c, p, addr, keyOk)
    case EvPunch(src, ack, ready) => Punched(c, p, src, ack, ready)
    case EvEnableRelay => RelayMode(c, p)
    case EvSessionIntent(hot) => SessionIntent(c, p, hot)
    case EvPreheat(addr) => Preheat(c, p, addr)
    case EvPunchLoopIdle => PunchLoopIdle(p)
    case EvOpenBegin => OpenBegin(c, p)
    case EvOpenReady(conn) => OpenReady(p, conn)
    case EvOpenFailed(conn, rotate) => OpenFailed(c, p, conn, AsksRotation(c, p, rotate))
    case EvKcpReadFailed(conn) => KcpReadFailed(p, conn)
    case EvRetryFires => RetryFires(c, p)
    case EvUpsert => p
    case EvRotate(_) => p
  }

  /** Socket rotation: every peer starts over. */
  function RotateStep(s: Runtime, carriedOut: bool): Runtime {
    if s.rotations == 0 then s
    else if !carriedOut then s.(rotations := s.rotations - 1)
    else Runtime(map i | i in s.peers :: Reset(s.peers[i]), s.rotations - 1, s.tunnels)
  }

  function UpsertStep(s: Runtime, id: string): Runtime {
    if id in s.peers then s else s.(peers := s.peers[id := NEW_PEER])
  }

  function PeerStep(c: Config, s: Runtime, id: string, e: Event): Runtime {
    if id !in s.peers then s
    else
      var p := s.peers[id];
      Runtime(
        s.peers[id := OnPeer(c, p, e)],
        s.rotations + (if e.EvOpenFailed? && AsksRotation(c, p, e.rotate) then 1 else 0),
        s.tunnels + (if e.EvOpenBegin? && OpensTunnel(c, p) then 1 else 0))
  }

  function Step(c: Config, s: Runtime, id: string, e: Event): Runtime {
    if e.EvRotate? then RotateStep(s, e.carriedOut)
    else if e.EvUpsert? then UpsertStep(s, id)
    else PeerStep(c, s, id, e)
  }

  function Run(c: Config, events: seq<(string, Event)>): Runtime {
    if events == [] then START
    else
      var n := |events| - 1;
      Step(c, Run(c, events[..n]), events[n].0, events[n].1)
  }

  // ---------------------------------------------------------------------------------------------
  // What every step keeps

  predicate PeerInv(c: Config, p: Peer) {
    && (p.datagramReady ==> p.signals.Both() && p.codecs.Both() && p.addr.Some?)
    && (p.isRelay ==> c.HasRelay())
    && (p.longPunching ==> !c.HasRelay())
    && (p.connected ==> p.jobs.opening > 0 || p.kcp.Some?)
    && (c.IsRelayOnly() ==>
          && p.jobs.spawned == 0 && p.jobs.opening == 0 && p.jobs.retries == 0 && p.kcp.None? && !p.connected
          && (p.isRelay ==> p.punched && p.addr == Some(c.server)))
  }

  ghost predicate Inv(c: Config, s: Runtime) {
    && (forall id :: id in s.peers ==> PeerInv(c, s.peers[id]))
    && (c.IsRelayOnly() ==> s.rotations == 0 && s.tunnels == 0)
  }

  /** The step kept the invariant, and left relay mode only where that is allowed. */
  predicate Kept(c: Config, before: Peer, after: Peer) {
    PeerInv(c, after) && (c.IsRelayOnly() && before.isRelay ==> after.isRelay)
  }

  /** In reachable states the checks of codecs and address are implied: a ready datagram path is usable unless the
      peer is in relay mode under `relay_only`. */
  lemma ReadyIsUsable(c: Config, p: Peer)
    requires PeerInv(c, p)
    ensures DatagramUsable(c, p) <==> p.datagramReady && !(p.isRelay && c.IsRelayOnly())
  {
  }

  /** An opening is spawned exactly when direct paths are allowed and the datagram path is not ready. */
  lemma OpenUnlessKeeps(c: Config, p: Peer)
    requires PeerInv(c, p)
    ensures
      var q := OpenUnlessDatagramReady(c, p);
      && Kept(c, p, q)
      && (q.jobs.spawned > p.jobs.spawned <==> !c.IsRelayOnly() && !p.datagramReady)
      && (p.isRelay && !q.isRelay ==> p.datagramReady)
  {
    ReadyIsUsable(c, p);
  }

  lemma MoveToKeeps(c: Config, p: Peer, addr: Addr)
    requires PeerInv(c, p)
    ensures
      var q := MoveTo(c, p, addr);
      Kept(c, p, q) && q.addr.Some? && q == p.(addr := q.addr)
  {
  }

  /** One kind of signal is added, and then the datagram path is ready exactly when both signals and both codecs are
      there. */
  lemma SignalKeeps(c: Config, p: Peer, ack: bool)
    requires PeerInv(c, p) && p.addr.Some?
    ensures
      var q := MarkPunchSignal(p, ack);
      && Kept(c, p, q) && q == p.(signals := q.signals, datagramReady := q.datagramReady)
      && (q.signals.incoming <==> p.signals.incoming || !ack) && (q.signals.ack <==> p.signals.ack || ack)
      && (q.datagramReady <==> q.signals.Both() && q.codecs.Both())
  {
  }

  lemma OpenAfterPunchKeeps(c: Config, p: Peer, r: Peer, confirmed: bool)
    requires Kept(c, p, r) && r.isRelay == p.isRelay
    ensures
      var q := OpenAfterPunch(c, r, confirmed);
      && Kept(c, p, q) && q.punched && (q.isRelay ==> p.isRelay)
      && (p.isRelay && !q.isRelay ==> q.datagramReady && !c.IsRelayOnly())
  {
    OpenUnlessKeeps(c, r.(punched := true));
  }

  /** A punch or an acknowledgement leaves the peer punched; it takes the peer out of relay mode only onto a ready
      datagram path, and never under `relay_only`. */
  lemma PunchedKeeps(c: Config, p: Peer, src: Addr, ack: bool, ready: bool)
    requires PeerInv(c, p)
    ensures
      var q := Punched(c, p, src, ack, ready);
      && Kept(c, p, q) && q.punched && (q.isRelay ==> p.isRelay)
      && (p.isRelay && !q.isRelay ==> q.datagramReady && !c.IsRelayOnly())
  {
    var q := MoveTo(c, p, src);
    MoveToKeeps(c, p, src);
    if ready {
      SignalKeeps(c, q, ack);
    }
    var r := if ready then MarkPunchSignal(q, ack) else q;
    OpenAfterPunchKeeps(c, p, r, ready && TwoWayConfirmed(r));
  }

  lemma OpenAfterInfoKeeps(c: Config, p: Peer, r: Peer)
    requires Kept(c, p, r)
    ensures
      var q := OpenAfterInfo(c, r);
      Kept(c, p, q) && q.isRelay == r.isRelay && q.punched == r.punched && q.datagramReady == r.datagramReady &&
      q.codecs == r.codecs
  {
    OpenUnlessKeeps(c, r.(punching := true));
  }

  lemma LearnKeyKeeps(c: Config, p: Peer, keyOk: bool)
    requires PeerInv(c, p)
    ensures Kept(c, p, LearnKey(p, keyOk))
  {
  }

  /** An announcement teaches the key and the address; it neither punches nor readies nor changes the mode. */
  lemma PeerInfoKeeps(c: Config, p: Peer, addr: Option<Addr>, keyOk: bool)
    requires PeerInv(c, p)
    ensures
      var q := PeerInfo(c, p, addr, keyOk);
      && Kept(c, p, q) && q.isRelay == p.isRelay && q.punched == p.punched && q.datagramReady == p.datagramReady
      && (keyOk ==> q.codecs.Both())
  {
    var q := LearnKey(p, keyOk);
    LearnKeyKeeps(c, p, keyOk);
    if addr.Some? {
      MoveToKeeps(c, q, addr.value);
      OpenAfterInfoKeeps(c, p, MoveTo(c, q, addr.value));
    }
  }

  /** The tunnel library is called only where direct paths are allowed and the datagram path is not ready; the peer
      then counts as connected, so no second opening can start. */
  lemma OpenBeginKeeps(c: Config, p: Peer)
    requires PeerInv(c, p)
    ensures
      var q := OpenBegin(c, p);
      && Kept(c, p, q) && (OpensTunnel(c, p) ==> !c.IsRelayOnly() && !p.datagramReady && q.connected)
      && (OpensTunnel(c, p) ==> !OpensTunnel(c, q))
  {
  }

  /** A handshake that succeeds puts its connection in use and changes nothing else of the path. */
  lemma OpenReadyKeeps(c: Config, p: Peer, conn: nat)
    requires PeerInv(c, p)
    ensures
      var q := OpenReady(p, conn);
      && Kept(c, p, q) && q == p.(kcp := q.kcp, jobs := q.jobs)
      && (p.jobs.opening > 0 ==> q.kcp == Some(conn) && !c.IsRelayOnly())
  {
  }

  /** A failed opening leaves the peer unconnected: back at the server in relay mode, else with everything to be
      punched anew. */
  lemma OpenFailedKeeps(c: Config, p: Peer, conn: Option<nat>, rotate: bool)
    requires PeerInv(c, p)
    ensures
      var q := OpenFailed(c, p, conn, rotate);
      && Kept(c, p, q) && q.isRelay == p.isRelay
      && (p.jobs.opening > 0 ==>
            && !q.connected
            && (q.isRelay ==> q.punched && q.addr == Some(c.server))
            && (!q.isRelay ==> !q.punched && !q.datagramReady && q.signals == NO_SIGNALS))
  {
  }

  /** Losing the connection in use resets the path; losing any other changes nothing. */
  lemma KcpReadFailedKeeps(c: Config, p: Peer, conn: nat)
    requires PeerInv(c, p)
    ensures
      var q := KcpReadFailed(p, conn);
      && Kept(c, p, q) && (p.kcp != Some(conn) ==> q == p)
      && (p.kcp == Some(conn) ==> q.kcp.None? && !q.connected && !q.punched && !q.isRelay && q.signals == NO_SIGNALS)
  {
  }

  /** A retry spawns an opening exactly when the peer is punched, unconnected and has no ready datagram path. */
  lemma RetryFiresKeeps(c: Config, p: Peer)
    requires PeerInv(c, p) && p.jobs.retries > 0
    ensures
      var q := RetryFires(c, p);
      && Kept(c, p, q) && !q.retryFlag
      && (q.jobs.spawned > p.jobs.spawned <==> p.punched && !p.connected && !p.datagramReady)
  {
  }

  /** Relay mode is entered exactly by peers that have not been punched; without a relay the peer is punched for
      longer. */
  lemma RelayModeKeeps(c: Config, p: Peer)
    requires PeerInv(c, p)
    ensures
      var q := RelayMode(c, p);
      && Kept(c, p, q)
      && (c.HasRelay() ==> (q.isRelay <==> p.isRelay || !p.punched))
      && (!c.HasRelay() ==> !q.isRelay && (q.longPunching || p.datagramReady || p.connected))
  {
  }

  /** A SYN towards the peer never changes the mode or a working path; otherwise punching starts anew. */
  lemma SessionIntentKeeps(c: Config, p: Peer, hot: Option<Addr>)
    requires PeerInv(c, p)
    ensures
      var q := SessionIntent(c, p, hot);
      && Kept(c, p, q) && q.isRelay == p.isRelay && q.datagramReady == p.datagramReady && q.connected == p.connected
      && (c.IsRelayOnly() || p.datagramReady || p.connected ==> q == p)
      && (q != p ==> !q.punched && q.punching)
  {
  }

  /** A learned path never replaces a ready one, nor anything under `relay_only`. */
  lemma PreheatKeeps(c: Config, p: Peer, addr: Addr)
    requires PeerInv(c, p)
    ensures
      var q := Preheat(c, p, addr);
      && Kept(c, p, q) && q.isRelay == p.isRelay
      && (c.IsRelayOnly() || p.datagramReady ==> q == p)
  {
  }

  /** A rotation leaves of a peer only its codecs and what has been spawned. */
  lemma ResetKeeps(c: Config, p: Peer)
    requires PeerInv(c, p) && !c.IsRelayOnly()
    ensures PeerInv(c, Reset(p)) && Reset(p) == NEW_PEER.(codecs := p.codecs, jobs := p.jobs)
  {
  }

  lemma OnPeerKeepsInv(c: Config, p: Peer, e: Event)
    requires PeerInv(c, p)
    ensures Kept(c, p, OnPeer(c, p, e))
  {
    match e
    case EvPeerInfo(addr, keyOk) => PeerInfoKeeps(c, p, addr, keyOk);
    case EvPunch(src, ack, ready) => PunchedKeeps(c, p, src, ack, ready);
    case EvEnableRelay => RelayModeKeeps(c, p);
    case EvSessionIntent(hot) => SessionIntentKeeps(c, p, hot);
    case EvPreheat(addr) => PreheatKeeps(c, p, addr);
    case EvPunchLoopIdle =>
    case EvOpenBegin => OpenBeginKeeps(c, p);
    case EvOpenReady(conn) => OpenReadyKeeps(c, p, conn);
    case EvOpenFailed(conn, rotate) => OpenFailedKeeps(c, p, conn, AsksRotation(c, p, rotate));
    case EvKcpReadFailed(conn) => KcpReadFailedKeeps(c, p, conn);
    case EvRetryFires =>
      if p.jobs.retries > 0 {
        RetryFiresKeeps(c, p);
      }
    case EvUpsert =>
    case EvRotate(_) =>
  }

  lemma StepKeepsInv(c: Config, s: Runtime, id: string, e: Event)
    requires Inv(c, s)
    ensures Inv(c, Step(c, s, id, e))
  {
    if e.EvRotate? && s.rotations > 0 {
      forall i | i in s.peers ensures PeerInv(c, Reset(s.peers[i])) {
        ResetKeeps(c, s.peers[i]);
      }
    }
    if id in s.peers {
      OnPeerKeepsInv(c, s.peers[id], e);
    }
  }

  lemma {:induction false} RunKeepsInv(c: Config, events: seq<(string, Event)>)
    ensures Inv(c, Run(c, events))
  {
    if events != [] {
      var n := |events| - 1;
      RunKeepsInv(c, events[..n]);
      StepKeepsInv(c, Run(c, events[..n]), events[n].0, events[n].1);
    }
  }

  /** In every run the two modes never coexist, the datagram path rests on both punch signals, both codecs and an
      address, and a peer marked connected has a tunnel or is opening one. */
  lemma PathsAreSound(c: Config, events: seq<(string, Event)>, id: string)
    requires id in Run(c, events).peers
    ensures
      var p := Run(c, events).peers[id];
      && !(p.isRelay && p.longPunching)
      && (p.isRelay ==> c.HasRelay())
      && (p.longPunching ==> !c.HasRelay())
      && (p.datagramReady ==> p.signals.Both() && p.codecs.Both() && p.addr.Some?)
      && (p.connected ==> p.jobs.opening > 0 || p.kcp.Some?)
  {
    RunKeepsInv(c, events);
  }

  /** Under `relay_only` no run ever opens a KCP tunnel, starts one, or asks for a new socket. */
  lemma RelayOnlyOpensNothing(c: Config, events: seq<(string, Event)>)
    requires c.IsRelayOnly()
    ensures Run(c, events).tunnels == 0 && Run(c, events).rotations == 0
    ensures forall id :: id in Run(c, events).peers ==>
      Run(c, events).peers[id].kcp.None? && !Run(c, events).peers[id].connected
  {
    RunKeepsInv(c, events);
  }

  lemma RelayOnlyStepIsSticky(c: Config, s: Runtime, id: string, e: Event, peer: string)
    requires c.IsRelayOnly() && Inv(c, s) && peer in s.peers && s.peers[peer].isRelay
    ensures peer in Step(c, s, id, e).peers && Step(c, s, id, e).peers[peer].isRelay
  {
    if id in s.peers {
      OnPeerKeepsInv(c, s.peers[id], e);
    }
  }

  /** Under `relay_only` a peer that entered relay mode stays in it, addressed to the server, however the run goes on.
      */
  lemma {:induction false} RelayOnlyIsSticky(
    c: Config, events: seq<(string, Event)>, more: seq<(string, Event)>, peer: string)
    requires c.IsRelayOnly()
    requires peer in Run(c, events).peers && Run(c, events).peers[peer].isRelay
    ensures
      var s := Run(c, events + more);
      peer in s.peers && s.peers[peer].isRelay && s.peers[peer].addr == Some(c.server)
  {
    RunKeepsInv(c, events + more);
    if more == [] {
      assert events + more == events;
    } else {
      var n := |more| - 1;
      var before := events + more[..n];
      RelayOnlyIsSticky(c, events, more[..n], peer);
      RunKeepsInv(c, before);
      assert (events + more)[..|events + more| - 1] == before;
      RelayOnlyStepIsSticky(c, Run(c, before), more[n].0, more[n].1, peer);
    }
  }

  /** The peer was known before event `k`. */
  predicate Known(events: seq<(string, Event)>, k: nat, id: string)
    requires k <= |events|
  {
    exists i :: 0 <= i < k && events[i] == (id, EvUpsert)
  }

  /** Event `k` is a punch for a known peer, or the order to use the relay. */
  predicate Decides(events: seq<(string, Event)>, k: nat, id: string)
    requires k < |events|
  {
    events[k].0 == id && (events[k].1.EvPunch? || events[k].1.EvEnableRelay?) && Known(events, k, id)
  }

  predicate Undecided(events: seq<(string, Event)>, n: nat, id: string)
    requires n <= |events|
  {
    forall k :: 0 <= k < n ==> !Decides(events, k, id)
  }

  /** The first of those events is the order to use the relay. */
  predicate RelayFirst(events: seq<(string, Event)>, id: string) {
    exists j :: 0 <= j < |events| && Decides(events, j, id) && events[j].1.EvEnableRelay? && Undecided(events, j, id)
  }

  lemma DecidesInPrefix(events: seq<(string, Event)>, n: nat, id: string)
    requires n <= |events|
    ensures forall k :: 0 <= k < n ==> (Decides(events[..n], k, id) <==> Decides(events, k, id))
    ensures forall k :: 0 <= k <= n ==> (Known(events[..n], k, id) <==> Known(events, k, id))
    ensures forall k :: 0 <= k <= n ==> (Undecided(events[..n], k, id) <==> Undecided(events, k, id))
  {
    var before := events[..n];
    forall k | 0 <= k <= n ensures Known(before, k, id) <==> Known(events, k, id) {
      assert forall i :: 0 <= i < k ==> before[i] == events[i];
    }
  }

  lemma LastDecides(events: seq<(string, Event)>, id: string)
    requires events != []
    ensures
      var n := |events| - 1;
      var now := Undecided(events, n, id) && Decides(events, n, id) && events[n].1.EvEnableRelay?;
      RelayFirst(events, id) <==> RelayFirst(events[..n], id) || now
  {
    var n := |events| - 1;
    DecidesInPrefix(events, n, id);
    assert forall k :: 0 <= k < n ==> events[..n][k] == events[k];
  }

  /** Under `relay_only` nothing but a punch or the order to use the relay decides the mode of a peer. */
  lemma OnlyTheseDecide(c: Config, p: Peer, e: Event)
    requires PeerInv(c, p) && c.IsRelayOnly() && c.HasRelay()
    ensures OnPeer(c, p, e).punched <==> p.punched || e.EvPunch? || e.EvEnableRelay?
    ensures OnPeer(c, p, e).isRelay <==> p.isRelay || (!p.punched && e.EvEnableRelay?)
  {
    match e
    case EvPeerInfo(addr, keyOk) => PeerInfoKeeps(c, p, addr, keyOk);
    case EvPunch(src, ack, ready) => PunchedKeeps(c, p, src, ack, ready);
    case EvEnableRelay => RelayModeKeeps(c, p);
    case EvSessionIntent(hot) => SessionIntentKeeps(c, p, hot);
    case EvPreheat(addr) => PreheatKeeps(c, p, addr);
    case _ =>
  }

  /** The peer's mode after the run, in terms of the run's events. */
  predicate ModeDecided(c: Config, events: seq<(string, Event)>, id: string) {
    var s := Run(c, events);
    && (id in s.peers <==> Known(events, |events|, id))
    && (id in s.peers ==> (s.peers[id].punched <==> !Undecided(events, |events|, id)))
    && (id in s.peers ==> (s.peers[id].isRelay <==> RelayFirst(events, id)))
    && (id !in s.peers ==> Undecided(events, |events|, id))
  }

  lemma StepOnOne(c: Config, s: Runtime, id: string, to: string, e: Event)
    requires c.IsRelayOnly() && c.HasRelay() && Inv(c, s)
    ensures
      var s' := Step(c, s, to, e);
      var decides := to == id && id in s.peers && (e.EvPunch? || e.EvEnableRelay?);
      && (id in s'.peers <==> id in s.peers || (to == id && e.EvUpsert?))
      && (id in s.peers ==> (s'.peers[id].punched <==> s.peers[id].punched || decides))
      && (id in s.peers ==>
            (s'.peers[id].isRelay <==> s.peers[id].isRelay || (!s.peers[id].punched && decides && e.EvEnableRelay?)))
      && (id in s'.peers && id !in s.peers ==> !s'.peers[id].punched && !s'.peers[id].isRelay)
  {
    if to == id && id in s.peers {
      OnlyTheseDecide(c, s.peers[id], e);
    }
  }

  lemma ModeStep(c: Config, events: seq<(string, Event)>, id: string)
    requires c.IsRelayOnly() && c.HasRelay() && events != [] && ModeDecided(c, events[..|events| - 1], id)
    ensures ModeDecided(c, events, id)
  {
    var n := |events| - 1;
    var before, e := events[..n], events[n];
    var s := Run(c, before);
    RunKeepsInv(c, before);
    DecidesInPrefix(events, n, id);
    LastDecides(events, id);
    assert Known(events, |events|, id) <==> Known(events, n, id) || e == (id, EvUpsert);
    assert Undecided(events, |events|, id) <==> Undecided(events, n, id) && !Decides(events, n, id);
    StepOnOne(c, s, id, e.0, e.1);
  }

  /** Under `relay_only` with the relay available, a peer is in relay mode exactly when the first event that concerned
      it, of punches and orders to use the relay, was such an order: a punch that comes first keeps it out for good.
      */
  lemma {:induction false} FirstEventDecides(c: Config, events: seq<(string, Event)>, id: string)
    requires c.IsRelayOnly() && c.HasRelay()
    ensures ModeDecided(c, events, id)
  {
    if events != [] {
      FirstEventDecides(c, events[..|events| - 1], id);
      ModeStep(c, events, id);
    }
  }

  /** Both orders occur. */
  lemma PunchFirstMissesRelay(c: Config, id: string, src: Addr, ack: bool, ready: bool)
    requires c.IsRelayOnly() && c.HasRelay()
    ensures
      var early := [(id, EvUpsert), (id, EvPunch(src, ack, ready)), (id, EvEnableRelay)];
      id in Run(c, early).peers && !Run(c, early).peers[id].isRelay
    ensures
      var late := [(id, EvUpsert), (id, EvEnableRelay), (id, EvPunch(src, ack, ready))];
      id in Run(c, late).peers && Run(c, late).peers[id].isRelay
  {
    var early := [(id, EvUpsert), (id, EvPunch(src, ack, ready)), (id, EvEnableRelay)];
    var late := [(id, EvUpsert), (id, EvEnableRelay), (id, EvPunch(src, ack, ready))];
    FirstEventDecides(c, early, id);
    FirstEventDecides(c, late, id);
    assert early[0] == (id, EvUpsert) && late[0] == (id, EvUpsert);
    assert Known(early, 3, id) && Known(late, 3, id) && Known(early, 1, id) && Known(late, 1, id);
    assert Decides(early, 1, id) && !Decides(early, 0, id) && Decides(late, 1, id) && !Decides(late, 0, id);
    assert Undecided(late, 1, id);
  }

  // ---------------------------------------------------------------------------------------------
  // Sending and reporting

  datatype SendResult = Unavailable | ViaFastPath | ViaDatagram(to: Option<Addr>) | ViaKcp

  /** Send: which way a payload leaves. `fastAccepts`, `datagramAccepts` and `kcpAccepts` are the outcomes of the
      writes. */
  function Send(c: Config, p: Peer, fastAccepts: bool, datagramAccepts: bool, kcpAccepts: bool): SendResult {
    if c.IsRelayOnly() then Unavailable
    else if c.PrefersRelay() && !p.datagramReady then Unavailable
    else if !p.datagramReady && fastAccepts then ViaFastPath
    else if p.datagramReady && datagramAccepts then ViaDatagram(p.addr)
    else if !p.connected || p.kcp.None? || !kcpAccepts then Unavailable
    else ViaKcp
  }

  /** In every run: each way out exactly when it is taken. Nothing is sent directly under `relay_only`, and under
      `prefer_relay` only with a ready datagram path; a datagram goes to the known address, sealed, after both punch
      signals; the tunnel carries what neither the fast path nor the datagram path takes. */
  lemma SendIsSound(
    c: Config, events: seq<(string, Event)>, id: string, fastAccepts: bool, datagramAccepts: bool, kcpAccepts: bool)
    requires id in Run(c, events).peers
    ensures
      var p := Run(c, events).peers[id];
      var r := Send(c, p, fastAccepts, datagramAccepts, kcpAccepts);
      var direct := if p.datagramReady then !c.policy.RelayOnly? else c.policy.Auto? || c.policy.PreferP2P?;
      && (r.ViaFastPath? <==> direct && !p.datagramReady && fastAccepts)
      && (r.ViaDatagram? <==> direct && p.datagramReady && datagramAccepts)
      && (r.ViaDatagram? ==> r.to.Some? && r.to == p.addr && p.signals.Both() && p.codecs.Both())
      && (r.ViaKcp? <==>
            direct && !r.ViaFastPath? && !r.ViaDatagram? && p.connected && p.kcp.Some? && kcpAccepts)
  {
    RunKeepsInv(c, events);
  }

  datatype DataPath = NoPath | P2PDatagram | P2PKcp | RelayUdp

  datatype Reason = P2PReady | RelayInUse | KcpConnected | RelayDisabled | P2PTimeout | LongPunching | OneWay
                  | PunchedWaiting | Unreachable | Connecting

  function PeerDataPath(c: Config, p: Peer, activeTraffic: bool): (DataPath, Reason) {
    if p.datagramReady && !p.isRelay then (P2PDatagram, P2PReady)
    else if p.connected then if p.isRelay then (RelayUdp, RelayInUse) else (P2PKcp, KcpConnected)
    else if p.isRelay then if !c.HasRelay() then (NoPath, RelayDisabled) else (RelayUdp, P2PTimeout)
    else if p.longPunching then (NoPath, LongPunching)
    else if p.punched then if p.signals != NO_SIGNALS then (NoPath, OneWay) else (NoPath, PunchedWaiting)
    else if !c.HasRelay() && !activeTraffic then (NoPath, Unreachable)
    else (NoPath, Connecting)
  }

  /** Some outcome of the writes gets a payload out. */
  ghost predicate CanSend(c: Config, p: Peer) {
    exists fast, datagram, kcp :: Send(c, p, fast, datagram, kcp) != Unavailable
  }

  /** The reported path in every run, each exactly when it is reported: the relay in relay mode, which needs the relay
      to be available; the datagram path when it is ready, after a two-way punch, and then Send can take it exactly when
      the policy is not `relay_only`; KCP, never under `relay_only`, when only it is connected. */
  lemma ReportIsSound(c: Config, events: seq<(string, Event)>, id: string, activeTraffic: bool)
    requires id in Run(c, events).peers
    ensures
      var p := Run(c, events).peers[id];
      var path := PeerDataPath(c, p, activeTraffic).0;
      && (path == RelayUdp <==> p.isRelay)
      && (path == P2PDatagram <==> p.datagramReady && !p.isRelay)
      && (path == P2PKcp <==> p.connected && !p.datagramReady && !p.isRelay)
      && (path == RelayUdp ==> c.HasRelay())
      && (path == P2PDatagram ==> p.signals.Both() && p.codecs.Both())
      && (path == P2PDatagram ==> (CanSend(c, p) <==> !c.IsRelayOnly()))
      && (path == P2PKcp ==> !c.IsRelayOnly())
  {
    RunKeepsInv(c, events);
    var p := Run(c, events).peers[id];
    if p.datagramReady && !c.IsRelayOnly() {
      assert Send(c, p, false, true, false) == ViaDatagram(p.addr);
    }
  }

  /** The reported reason: `relay_disabled` never, and every other exactly in its own case. */
  lemma ReasonIsExact(c: Config, events: seq<(string, Event)>, id: string, activeTraffic: bool)
    requires id in Run(c, events).peers
    ensures
      var p := Run(c, events).peers[id];
      var (path, reason) := PeerDataPath(c, p, activeTraffic);
      var waiting := path == NoPath && !p.longPunching;
      && reason != RelayDisabled
      && (reason == P2PReady <==> path == P2PDatagram) && (reason == KcpConnected <==> path == P2PKcp)
      && (reason == RelayInUse <==> path == RelayUdp && p.connected)
      && (reason == P2PTimeout <==> path == RelayUdp && !p.connected)
      && (reason == LongPunching <==> path == NoPath && p.longPunching)
      && (reason == OneWay <==> waiting && p.punched && (p.signals.incoming || p.signals.ack))
      && (reason == PunchedWaiting <==> waiting && p.punched && !p.signals.incoming && !p.signals.ack)
      && (reason == Unreachable <==> waiting && !p.punched && !c.relayEnabled && !activeTraffic)
      && (reason == Connecting <==> waiting && !p.punched && (c.relayEnabled || activeTraffic))
      && (reason == LongPunching ==> !c.relayEnabled)
  {
    RunKeepsInv(c, events);
  }

  lemma RunSnoc(c: Config, events: seq<(string, Event)>, id: string, e: Event)
    ensures Run(c, events + [(id, e)]) == Step(c, Run(c, events), id, e)
  {
    assert (events + [(id, e)])[..|events|] == events;
  }

  /** Under `relay_only` a peer that announces its key and is punched both ways is reported as a ready datagram path,
      which Send never takes. */
  lemma RelayOnlyReportsDirect(c: Config, id: string, src: Addr, activeTraffic: bool)
    requires c.IsRelayOnly()
    ensures
      var events := [(id, EvUpsert), (id, EvPeerInfo(Some(src), true)), (id, EvPunch(src, false, true)),
                     (id, EvPunch(src, true, true))];
      && id in Run(c, events).peers && !CanSend(c, Run(c, events).peers[id])
      && PeerDataPath(c, Run(c, events).peers[id], activeTraffic) == (P2PDatagram, P2PReady)
  {
    var e1, e2 := EvPeerInfo(Some(src), true), EvPunch(src, false, true);
    var e3 := EvPunch(src, true, true);
    assert [] + [(id, EvUpsert)] == [(id, EvUpsert)];
    RunSnoc(c, [], id, EvUpsert);
    var known := [(id, EvUpsert)];
    assert Run(c, known) == START.(peers := map[id := NEW_PEER]);
    RunSnoc(c, known, id, e1);
    RunSnoc(c, known + [(id, e1)], id, e2);
    RunSnoc(c, known + [(id, e1)] + [(id, e2)], id, e3);
    assert known + [(id, e1)] + [(id, e2)] + [(id, e3)] == [(id, EvUpsert), (id, e1), (id, e2), (id, e3)];
  }
}
