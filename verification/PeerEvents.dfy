/** The path state machine the other way round: for each field of a peer, which events change it and to what; and over
    whole runs, what the signals, the codecs, the datagram path and the address say about the events of the run. */
module PeerEvents {
  import opened Basics
  import opened PeerPath

  type Events = seq<(string, Event)>

  // ---------------------------------------------------------------------------------------------
  // Field by field

  /** A punch that carries the datagram marker. */
  predicate IsSignal(e: Event, ack: bool) {
    e.EvPunch? && e.ready && e.ack == ack
  }

  /** The event ends what the peer has punched: the connection in use is lost, or an opening fails outside relay
      mode. */
  predicate EndsPunch(p: Peer, e: Event) {
    || (e.EvKcpReadFailed? && p.kcp == Some(e.lost))
    || (e.EvOpenFailed? && p.jobs.opening > 0 && !p.isRelay)
  }

  /** Direct paths are allowed and none works. */
  predicate IsOpenToPunching(c: Config, p: Peer) {
    !c.IsRelayOnly() && !p.datagramReady && !p.connected
  }

  function OneIf(b: bool): nat {
    if b then 1 else 0
  }

  function NewSignals(p: Peer, e: Event): Signals {
    Signals(IsSignal(e, false) || (p.signals.incoming && !EndsPunch(p, e)),
            IsSignal(e, true) || (p.signals.ack && !EndsPunch(p, e)))
  }

  function NewCodecs(p: Peer, e: Event): Codecs {
    if e.EvPeerInfo? && e.keyOk then Codecs(true, true) else p.codecs
  }

  predicate NewReady(p: Peer, e: Event) {
    || (p.datagramReady && !EndsPunch(p, e))
    || ((IsSignal(e, false) || IsSignal(e, true)) && p.codecs.Both() && NewSignals(p, e).Both())
  }

  /** The address the event gives the peer, if it gives one. */
  function GivenAddr(c: Config, p: Peer, e: Event): Option<Addr> {
    match e
    case EvPeerInfo(addr, _) => if p.isRelay && c.IsRelayOnly() then None else addr
    case EvPunch(src, _, _) => if p.isRelay && c.IsRelayOnly() then None else Some(src)
    case EvEnableRelay => if c.HasRelay() && !p.punched then Some(c.server) else None
    case EvSessionIntent(hot) => if IsOpenToPunching(c, p) then hot else None
    case EvPreheat(learned) => if p.datagramReady || c.IsRelayOnly() then None else Some(learned)
    case EvOpenFailed(_, _) => if p.jobs.opening > 0 && p.isRelay then Some(c.server) else None
    case _ => None
  }

  function NewAddr(c: Config, p: Peer, e: Event): Option<Addr> {
    if GivenAddr(c, p, e).Some? then GivenAddr(c, p, e) else p.addr
  }

  predicate NewRelay(c: Config, p: Peer, e: Event) {
    match e
    case EvPunch(_, _, ready) => p.isRelay && !(!c.IsRelayOnly() && NewReady(p, e) && (ready || !p.punched))
    case EvEnableRelay => p.isRelay || (c.HasRelay() && !p.punched)
    case EvOpenBegin => p.isRelay && !(p.jobs.spawned > 0 && p.datagramReady)
    case EvRetryFires => p.isRelay && !(p.jobs.retries > 0 && p.punched && !p.connected && p.datagramReady)
    case EvKcpReadFailed(lost) => p.isRelay && p.kcp != Some(lost)
    case _ => p.isRelay
  }

  predicate NewPunched(c: Config, p: Peer, e: Event) {
    match e
    case EvPunch(_, _, _) => true
    case EvEnableRelay => c.HasRelay() || (p.punched && (p.datagramReady || p.connected))
    case EvSessionIntent(_) => p.punched && !IsOpenToPunching(c, p)
    case EvPreheat(_) => p.punched && (p.datagramReady || c.IsRelayOnly())
    case EvOpenFailed(_, _) => if p.jobs.opening > 0 then p.isRelay else p.punched
    case EvKcpReadFailed(lost) => p.punched && p.kcp != Some(lost)
    case _ => p.punched
  }

  predicate NewPunching(c: Config, p: Peer, e: Event) {
    match e
    case EvPeerInfo(addr, _) => p.punching || addr.Some?
    case EvEnableRelay => p.punching || (!c.HasRelay() && !p.datagramReady && !p.connected)
    case EvSessionIntent(_) => p.punching || IsOpenToPunching(c, p)
    case EvPreheat(_) => p.punching || !(p.datagramReady || c.IsRelayOnly())
    case EvPunchLoopIdle => p.punching && !p.longPunching
    case EvOpenFailed(_, _) => p.punching && p.jobs.opening == 0
    case EvKcpReadFailed(lost) => p.punching && p.kcp != Some(lost)
    case _ => p.punching
  }

  predicate NewLongPunching(c: Config, p: Peer, e: Event) {
    match e
    case EvEnableRelay =>
      if c.HasRelay() then p.longPunching && p.punched else p.longPunching || !(p.datagramReady || p.connected)
    case EvSessionIntent(hot) =>
      if !IsOpenToPunching(c, p) then p.longPunching
      else if c.HasRelay() then p.longPunching && hot.None?
      else true
    case EvPunchLoopIdle => false
    case _ => p.longPunching
  }

  predicate NewConnected(p: Peer, e: Event) {
    match e
    case EvOpenBegin => p.connected || (p.jobs.spawned > 0 && !p.datagramReady)
    case EvOpenFailed(_, _) => p.connected && p.jobs.opening == 0
    case EvKcpReadFailed(lost) => p.connected && p.kcp != Some(lost)
    case _ => p.connected
  }

  function NewKcp(p: Peer, e: Event): Option<nat> {
    match e
    case EvOpenReady(conn) => if p.jobs.opening > 0 then Some(conn) else p.kcp
    case EvOpenFailed(failed, _) => if p.jobs.opening > 0 && p.kcp == failed then None else p.kcp
    case EvKcpReadFailed(lost) => if p.kcp == Some(lost) then None else p.kcp
    case _ => p.kcp
  }

  /** A failed opening in relay mode is tried again, unless it asks for a new socket. */
  predicate TriesAgain(p: Peer, e: Event) {
    e.EvOpenFailed? && p.jobs.opening > 0 && p.isRelay && !e.rotate
  }

  /** Openings that wait to start. */
  function NewSpawned(c: Config, p: Peer, e: Event): nat {
    match e
    case EvPeerInfo(addr, _) =>
      p.jobs.spawned + OneIf(addr.Some? && IsOpenToPunching(c, p) && !p.isRelay && p.punched)
    case EvPunch(_, _, _) => p.jobs.spawned + OneIf(!c.IsRelayOnly() && !p.punched && !NewReady(p, e))
    case EvEnableRelay => p.jobs.spawned + OneIf(c.HasRelay() && !c.IsRelayOnly() && !p.punched)
    case EvOpenBegin => p.jobs.spawned - OneIf(p.jobs.spawned > 0)
    case EvRetryFires => p.jobs.spawned + OneIf(p.jobs.retries > 0 && p.punched && !p.connected && !p.datagramReady)
    case _ => p.jobs.spawned
  }

  /** Openings under way. */
  function NewOpening(p: Peer, e: Event): nat {
    match e
    case EvOpenBegin => p.jobs.opening + OneIf(p.jobs.spawned > 0 && !p.connected && !p.datagramReady)
    case EvOpenReady(_) => p.jobs.opening - OneIf(p.jobs.opening > 0)
    case EvOpenFailed(_, _) => p.jobs.opening - OneIf(p.jobs.opening > 0)
    case _ => p.jobs.opening
  }

  function NewRetries(p: Peer, e: Event): nat {
    match e
    case EvOpenFailed(_, _) => p.jobs.retries + OneIf(TriesAgain(p, e) && !p.retryFlag)
    case EvRetryFires => p.jobs.retries - OneIf(p.jobs.retries > 0)
    case _ => p.jobs.retries
  }

  predicate NewRetryFlag(p: Peer, e: Event) {
    if e.EvRetryFires? then p.retryFlag && p.jobs.retries == 0 else p.retryFlag || TriesAgain(p, e)
  }

  /** The peer after the event, field by field. */
  function ByField(c: Config, p: Peer, e: Event): Peer {
    Peer(NewAddr(c, p, e), NewPunched(c, p, e), NewPunching(c, p, e), NewReady(p, e), NewConnected(p, e),
         NewRelay(c, p, e), NewLongPunching(c, p, e), NewSignals(p, e), NewCodecs(p, e), NewKcp(p, e),
         NewRetryFlag(p, e), Jobs(NewSpawned(c, p, e), NewOpening(p, e), NewRetries(p, e)))
  }

  /** The datagram path of a peer in a reachable state is complete. */
  predicate IsSound(p: Peer) {
    p.datagramReady ==> p.codecs.Both() && p.signals.Both() && p.addr.Some?
  }

  lemma MoveAtOnce(c: Config, p: Peer, src: Addr, m: Peer)
    requires m == MoveTo(c, p, src)
    ensures m == p.(addr := if p.isRelay && c.IsRelayOnly() then p.addr else Some(src))
  {
  }

  lemma InfoOpens(c: Config, r: Peer, q: Peer)
    requires IsSound(r) && q == OpenAfterInfo(c, r)
    ensures q == r.(punching := true, jobs := q.jobs)
    ensures q.jobs == r.jobs.(spawned := r.jobs.spawned + OneIf(IsOpenToPunching(c, r) && !r.isRelay && r.punched))
  {
  }

  /** The parts of an announcement with an address, put together. */
  lemma InfoTogether(c: Config, p: Peer, addr: Addr, keyOk: bool, r: Peer, q: Peer)
    requires PeerInv(c, p)
    requires r == p.(addr := if p.isRelay && c.IsRelayOnly() then p.addr else Some(addr),
                     codecs := if keyOk then Codecs(true, true) else p.codecs)
    requires q == r.(punching := true, jobs := q.jobs)
    requires q.jobs == r.jobs.(spawned := r.jobs.spawned + OneIf(IsOpenToPunching(c, r) && !r.isRelay && r.punched))
    ensures q == ByField(c, p, EvPeerInfo(Some(addr), keyOk))
  {
  }

  lemma InfoWithoutAddr(c: Config, p: Peer, keyOk: bool)
    ensures LearnKey(p, keyOk) == ByField(c, p, EvPeerInfo(None, keyOk))
  {
  }

  lemma InfoByField(c: Config, p: Peer, addr: Option<Addr>, keyOk: bool, q: Peer)
    requires PeerInv(c, p) && q == PeerInfo(c, p, addr, keyOk)
    ensures q == ByField(c, p, EvPeerInfo(addr, keyOk))
  {
    match addr
    case None => InfoWithoutAddr(c, p, keyOk);
    case Some(a) =>
      var l := LearnKey(p, keyOk);
      var r := MoveTo(c, l, a);
      MoveAtOnce(c, l, a, r);
      InfoOpens(c, r, q);
      InfoTogether(c, p, a, keyOk, r, q);
  }

  lemma SignalAtOnce(p: Peer, ack: bool, q: Peer)
    requires q == MarkPunchSignal(p, ack)
    ensures q == p.(signals := Signals(p.signals.incoming || !ack, p.signals.ack || ack),
                    datagramReady := p.datagramReady || (p.codecs.Both() && q.signals.Both()))
  {
  }

  lemma PunchOpens(c: Config, r: Peer, confirmed: bool, q: Peer)
    requires IsSound(r) && r.addr.Some? && q == OpenAfterPunch(c, r, confirmed)
    requires confirmed ==> r.datagramReady
    ensures q == r.(punched := true, isRelay := q.isRelay, jobs := q.jobs)
    ensures q.isRelay <==>
      r.isRelay && !(!c.IsRelayOnly() && r.datagramReady && (confirmed || !r.punched))
    ensures q.jobs == r.jobs.(spawned := r.jobs.spawned + OneIf(!c.IsRelayOnly() && !r.punched && !r.datagramReady))
  {
  }

  /** The three parts of a punch, put together. */
  lemma PunchTogether(c: Config, p: Peer, src: Addr, ack: bool, ready: bool, r: Peer, q: Peer)
    requires PeerInv(c, p)
    requires r == p.(addr := if p.isRelay && c.IsRelayOnly() then p.addr else Some(src),
                     signals := NewSignals(p, EvPunch(src, ack, ready)),
                     datagramReady := NewReady(p, EvPunch(src, ack, ready)))
    requires q == r.(punched := true, isRelay := q.isRelay, jobs := q.jobs)
    requires q.isRelay <==> r.isRelay && !(!c.IsRelayOnly() && r.datagramReady && (ready || !r.punched))
    requires q.jobs ==
      r.jobs.(spawned := r.jobs.spawned + OneIf(!c.IsRelayOnly() && !r.punched && !r.datagramReady))
    ensures q == ByField(c, p, EvPunch(src, ack, ready))
  {
  }

  /** The marks of a punch: signals and readiness. */
  lemma PunchMarks(p: Peer, m: Peer, src: Addr, ack: bool, ready: bool, r: Peer)
    requires m == p.(addr := m.addr) && r == if ready then MarkPunchSignal(m, ack) else m
    ensures r == m.(signals := NewSignals(p, EvPunch(src, ack, ready)),
                    datagramReady := NewReady(p, EvPunch(src, ack, ready)))
  {
    if ready {
      SignalAtOnce(m, ack, r);
    }
  }

  lemma PunchByField(c: Config, p: Peer, src: Addr, ack: bool, ready: bool, q: Peer)
    requires PeerInv(c, p) && q == Punched(c, p, src, ack, ready)
    ensures q == ByField(c, p, EvPunch(src, ack, ready))
  {
    var m := MoveTo(c, p, src);
    var r := if ready then MarkPunchSignal(m, ack) else m;
    MoveAtOnce(c, p, src, m);
    PunchMarks(p, m, src, ack, ready, r);
    var confirmed := ready && TwoWayConfirmed(r);
    PunchOpens(c, r, confirmed, q);
    assert r.datagramReady && ready ==> confirmed;
    PunchTogether(c, p, src, ack, ready, r, q);
  }

  lemma RelayByField(c: Config, p: Peer, q: Peer)
    requires PeerInv(c, p) && q == RelayMode(c, p)
    ensures q == ByField(c, p, EvEnableRelay)
  {
  }

  lemma IntentByField(c: Config, p: Peer, hot: Option<Addr>, q: Peer)
    requires PeerInv(c, p) && q == SessionIntent(c, p, hot)
    ensures q == ByField(c, p, EvSessionIntent(hot))
  {
  }

  lemma PreheatByField(c: Config, p: Peer, learned: Addr, q: Peer)
    requires PeerInv(c, p) && q == Preheat(c, p, learned)
    ensures q == ByField(c, p, EvPreheat(learned))
  {
  }

  lemma IdleByField(c: Config, p: Peer, q: Peer)
    requires PeerInv(c, p) && q == PunchLoopIdle(p)
    ensures q == ByField(c, p, EvPunchLoopIdle)
  {
  }

  lemma OpenBeginByField(c: Config, p: Peer, q: Peer)
    requires PeerInv(c, p) && q == OpenBegin(c, p)
    ensures q == ByField(c, p, EvOpenBegin)
  {
  }

  lemma OpenReadyByField(c: Config, p: Peer, conn: nat, q: Peer)
    requires PeerInv(c, p) && q == OpenReady(p, conn)
    ensures q == ByField(c, p, EvOpenReady(conn))
  {
  }

  lemma OpenFailedByField(c: Config, p: Peer, failed: Option<nat>, rotate: bool, q: Peer)
    requires PeerInv(c, p) && q == OpenFailed(c, p, failed, AsksRotation(c, p, rotate))
    ensures q == ByField(c, p, EvOpenFailed(failed, rotate))
  {
  }

  lemma KcpReadFailedByField(c: Config, p: Peer, lost: nat, q: Peer)
    requires PeerInv(c, p) && q == KcpReadFailed(p, lost)
    ensures q == ByField(c, p, EvKcpReadFailed(lost))
  {
  }

  lemma RetryByField(c: Config, p: Peer, q: Peer)
    requires PeerInv(c, p) && q == RetryFires(c, p)
    ensures q == ByField(c, p, EvRetryFires)
  {
  }

  lemma OthersByField(c: Config, p: Peer, e: Event)
    requires e.EvUpsert? || e.EvRotate?
    ensures p == ByField(c, p, e)
  {
  }

  /** In reachable states every event has, on every field, the effect that the field's own table says. */
  lemma EventByField(c: Config, p: Peer, e: Event, q: Peer)
    requires PeerInv(c, p) && q == OnPeer(c, p, e)
    ensures q == ByField(c, p, e)
  {
    match e
    case EvPeerInfo(addr, keyOk) => InfoByField(c, p, addr, keyOk, q);
    case EvPunch(src, ack, ready) => PunchByField(c, p, src, ack, ready, q);
    case EvEnableRelay => RelayByField(c, p, q);
    case EvSessionIntent(hot) => IntentByField(c, p, hot, q);
    case EvPreheat(learned) => PreheatByField(c, p, learned, q);
    case EvPunchLoopIdle => IdleByField(c, p, q);
    case EvOpenBegin => OpenBeginByField(c, p, q);
    case EvOpenReady(conn) => OpenReadyByField(c, p, conn, q);
    case EvOpenFailed(failed, rotate) => OpenFailedByField(c, p, failed, rotate, q);
    case EvKcpReadFailed(lost) => KcpReadFailedByField(c, p, lost, q);
    case EvRetryFires => RetryByField(c, p, q);
    case EvUpsert => OthersByField(c, p, e);
    case EvRotate(_) => OthersByField(c, p, e);
  }

  /** What one event adds to and takes from the rotations waiting to be carried out, and the calls of tunnel.Open. */
  lemma CountersByEvent(c: Config, s: Runtime, id: string, e: Event)
    requires Inv(c, s)
    ensures
      var s' := Step(c, s, id, e);
      var known := id in s.peers;
      var asks := known && e.EvOpenFailed? && e.rotate && s.peers[id].isRelay && s.peers[id].jobs.opening > 0;
      var opens := known && e.EvOpenBegin? && s.peers[id].jobs.spawned > 0 && !s.peers[id].connected &&
        !s.peers[id].datagramReady;
      && s'.rotations == s.rotations + OneIf(asks) - OneIf(e.EvRotate? && s.rotations > 0)
      && s'.tunnels == s.tunnels + OneIf(opens)
  {
    if id in s.peers {
      assert PeerInv(c, s.peers[id]);
    }
  }

  // ---------------------------------------------------------------------------------------------
  // Over whole runs

  /** Event `k` makes peer `id` start over, or ends what it has punched. */
  ghost predicate ResetsAt(c: Config, events: Events, k: nat, id: string)
    requires k < |events|
  {
    var s, e := Run(c, events[..k]), events[k].1;
    || (e.EvRotate? && e.carriedOut && s.rotations > 0)
    || (events[k].0 == id && id in s.peers && EndsPunch(s.peers[id], e))
  }

  /** Event `k` is a punch of that kind, with the datagram marker, that reaches the known peer. */
  predicate SignalAt(events: Events, k: nat, id: string, ack: bool)
    requires k < |events|
  {
    events[k].0 == id && IsSignal(events[k].1, ack) && Known(events, k, id)
  }

  ghost function Resets(c: Config, events: Events, id: string): nat -> bool {
    (j: nat) => j < |events| && ResetsAt(c, events, j, id)
  }

  /** Among the first `n` events there was such a punch, and no reset since. */
  ghost predicate Signalled(c: Config, events: Events, n: nat, id: string, ack: bool) {
    HeldSince(n, (k: nat) => k < |events| && SignalAt(events, k, id, ack), Resets(c, events, id))
  }

  /** Event `k` announces a good key of the known peer. */
  predicate KeyAt(events: Events, k: nat, id: string)
    requires k < |events|
  {
    events[k].0 == id && events[k].1.EvPeerInfo? && events[k].1.keyOk && Known(events, k, id)
  }

  predicate KeyKnown(events: Events, n: nat, id: string)
    requires n <= |events|
  {
    exists k :: 0 <= k < n && KeyAt(events, k, id)
  }

  /** Event `k` is a punch with the marker, at which both kinds have come and the key is known. */
  ghost predicate ConfirmsAt(c: Config, events: Events, k: nat, id: string)
    requires k < |events|
  {
    && (SignalAt(events, k, id, false) || SignalAt(events, k, id, true)) && KeyKnown(events, k, id)
    && Signalled(c, events, k + 1, id, false) && Signalled(c, events, k + 1, id, true)
  }

  ghost predicate Confirmed(c: Config, events: Events, n: nat, id: string) {
    HeldSince(n, (k: nat) => k < |events| && ConfirmsAt(c, events, k, id), Resets(c, events, id))
  }

  lemma NextState(c: Config, events: Events, n: nat)
    requires n < |events|
    ensures Run(c, events[..n + 1]) == Step(c, Run(c, events[..n]), events[n].0, events[n].1)
  {
    assert events[..n + 1][..n] == events[..n];
  }

  lemma NextSignalled(c: Config, events: Events, n: nat, id: string, ack: bool)
    requires n < |events|
    ensures Signalled(c, events, n + 1, id, ack) <==>
      SignalAt(events, n, id, ack) || (Signalled(c, events, n, id, ack) && !ResetsAt(c, events, n, id))
  {
    NextHeld(n, (k: nat) => k < |events| && SignalAt(events, k, id, ack), Resets(c, events, id));
  }

  lemma NextKeyKnown(events: Events, n: nat, id: string)
    requires n < |events|
    ensures KeyKnown(events, n + 1, id) <==> KeyAt(events, n, id) || KeyKnown(events, n, id)
  {
  }

  lemma NextConfirmed(c: Config, events: Events, n: nat, id: string)
    requires n < |events|
    ensures Confirmed(c, events, n + 1, id) <==>
      ConfirmsAt(c, events, n, id) || (Confirmed(c, events, n, id) && !ResetsAt(c, events, n, id))
  {
    NextHeld(n, (k: nat) => k < |events| && ConfirmsAt(c, events, k, id), Resets(c, events, id));
  }

  lemma NextKnown(events: Events, n: nat, id: string)
    requires n < |events|
    ensures Known(events, n + 1, id) <==> events[n] == (id, EvUpsert) || Known(events, n, id)
  {
  }

  /** Exactly the peers that were introduced are known. */
  lemma {:induction false} PeersAreKnown(c: Config, events: Events, n: nat, id: string)
    requires n <= |events|
    ensures id in Run(c, events[..n]).peers <==> Known(events, n, id)
  {
    if n > 0 {
      PeersAreKnown(c, events, n - 1, id);
      NextState(c, events, n - 1);
      NextKnown(events, n - 1, id);
    }
  }

  /** The peer after one more event, as far as signals, codecs and readiness go. */
  lemma NextPeer(c: Config, s: Runtime, to: string, e: Event, id: string)
    requires id in Step(c, s, to, e).peers
    ensures
      var q := Step(c, s, to, e).peers[id];
      if id !in s.peers then q == NEW_PEER
      else if e.EvRotate? && e.carriedOut && s.rotations > 0 then q == Reset(s.peers[id])
      else if e.EvRotate? || e.EvUpsert? || to != id then q == s.peers[id]
      else q == OnPeer(c, s.peers[id], e)
  {
  }

  /** What the fields say, in terms of events alone. */
  ghost predicate FieldsTell(c: Config, events: Events, n: nat, id: string)
    requires n <= |events|
  {
    var s := Run(c, events[..n]);
    id in s.peers ==>
      var p := s.peers[id];
      && p.signals == Signals(Signalled(c, events, n, id, false), Signalled(c, events, n, id, true))
      && p.codecs == Codecs(KeyKnown(events, n, id), KeyKnown(events, n, id))
      && (p.datagramReady <==> Confirmed(c, events, n, id))
  }

  /** Nothing has reached a peer before it is introduced. */
  lemma UnknownIsBlank(c: Config, events: Events, n: nat, id: string)
    requires n <= |events| && !Known(events, n, id)
    ensures !Signalled(c, events, n, id, false) && !Signalled(c, events, n, id, true)
    ensures !KeyKnown(events, n, id) && !Confirmed(c, events, n, id)
  {
    assert forall k :: 0 <= k <= n ==> !Known(events, k, id);
  }

  /** Signals, codecs and readiness after one more event on a known peer. */
  lemma FieldsAfter(c: Config, events: Events, n: nat, id: string, p: Peer, q: Peer)
    requires n < |events| && Known(events, n, id)
    requires p.signals == Signals(Signalled(c, events, n, id, false), Signalled(c, events, n, id, true))
    requires p.codecs == Codecs(KeyKnown(events, n, id), KeyKnown(events, n, id))
    requires p.datagramReady <==> Confirmed(c, events, n, id)
    requires id in Run(c, events[..n]).peers && Run(c, events[..n]).peers[id] == p
    requires events[n].0 == id && q.signals == NewSignals(p, events[n].1)
    requires q.codecs == NewCodecs(p, events[n].1) && q.datagramReady == NewReady(p, events[n].1)
    requires !events[n].1.EvRotate?
    ensures q.signals == Signals(Signalled(c, events, n + 1, id, false), Signalled(c, events, n + 1, id, true))
    ensures q.codecs == Codecs(KeyKnown(events, n + 1, id), KeyKnown(events, n + 1, id))
    ensures q.datagramReady <==> Confirmed(c, events, n + 1, id)
  {
    NextSignalled(c, events, n, id, false);
    NextSignalled(c, events, n, id, true);
    NextKeyKnown(events, n, id);
    NextConfirmed(c, events, n, id);
  }

  lemma NextFieldsTell(c: Config, events: Events, n: nat, id: string)
    requires n < |events| && FieldsTell(c, events, n, id)
    ensures FieldsTell(c, events, n + 1, id)
  {
    var s, to, e := Run(c, events[..n]), events[n].0, events[n].1;
    NextState(c, events, n);
    RunKeepsInv(c, events[..n]);
    PeersAreKnown(c, events, n, id);
    if id in Step(c, s, to, e).peers {
      NextPeer(c, s, to, e, id);
      if id in s.peers && to == id && !e.EvRotate? && !e.EvUpsert? {
        var p, q := s.peers[id], OnPeer(c, s.peers[id], e);
        EventByField(c, p, e, q);
        FieldsAfter(c, events, n, id, p, q);
      } else {
        NextSignalled(c, events, n, id, false);
        NextSignalled(c, events, n, id, true);
        NextKeyKnown(events, n, id);
        NextConfirmed(c, events, n, id);
        if id !in s.peers {
          UnknownIsBlank(c, events, n, id);
        }
      }
    }
  }

  /** In every run: a signal is set exactly when a punch of its kind has come since the last reset; the codecs exist
      exactly when a good key has been announced; the datagram path is ready exactly when, since the last reset, a punch
      came at which both kinds had come and the key was known. */
  lemma {:induction false} FieldsTellEvents(c: Config, events: Events, n: nat, id: string)
    requires n <= |events|
    ensures FieldsTell(c, events, n, id)
  {
    if n > 0 {
      FieldsTellEvents(c, events, n - 1, id);
      NextFieldsTell(c, events, n - 1, id);
    }
  }

  /** So a payload leaves as a datagram only after both kinds of punch have come since the last reset. */
  lemma DatagramNeedsBothPunches(
    c: Config, events: Events, id: string, fastAccepts: bool, datagramAccepts: bool, kcpAccepts: bool)
    requires id in Run(c, events).peers
    requires Send(c, Run(c, events).peers[id], fastAccepts, datagramAccepts, kcpAccepts).ViaDatagram?
    ensures Signalled(c, events, |events|, id, false) && Signalled(c, events, |events|, id, true)
    ensures KeyKnown(events, |events|, id)
  {
    assert events[..|events|] == events;
    FieldsTellEvents(c, events, |events|, id);
    RunKeepsInv(c, events);
  }

  // ---------------------------------------------------------------------------------------------
  // The address over whole runs

  /** The address that event `k` gives the peer, if it gives one. */
  ghost function AddrGivenAt(c: Config, events: Events, k: nat, id: string): Option<Addr>
    requires k < |events|
  {
    var s := Run(c, events[..k]);
    if events[k].0 == id && id in s.peers then GivenAddr(c, s.peers[id], events[k].1) else None
  }

  ghost predicate RotatesAt(c: Config, events: Events, k: nat)
    requires k < |events|
  {
    events[k].1.EvRotate? && events[k].1.carriedOut && Run(c, events[..k]).rotations > 0
  }

  /** `a` was given at event `k`, and among the first `n` events none after it gave another or rotated the socket. */
  ghost predicate IsLastGiven(c: Config, events: Events, k: nat, n: nat, id: string, a: Addr)
    requires n <= |events|
  {
    && k < n && AddrGivenAt(c, events, k, id) == Some(a)
    && forall j :: k < j < n ==> !RotatesAt(c, events, j) && AddrGivenAt(c, events, j, id).None?
  }

  ghost predicate HasLastGiven(c: Config, events: Events, n: nat, id: string, a: Addr)
    requires n <= |events|
  {
    exists k: nat :: IsLastGiven(c, events, k, n, id, a)
  }

  lemma NothingGivenBefore(c: Config, events: Events, n: nat, id: string)
    requires n <= |events| && id !in Run(c, events[..n]).peers
    ensures forall k :: 0 <= k < n ==> AddrGivenAt(c, events, k, id).None?
  {
    PeersAreKnown(c, events, n, id);
    forall k | 0 <= k < n ensures AddrGivenAt(c, events, k, id).None? {
      PeersAreKnown(c, events, k, id);
    }
  }

  lemma NextLastGiven(c: Config, events: Events, n: nat, id: string, a: Addr)
    requires n < |events|
    ensures HasLastGiven(c, events, n + 1, id, a) <==>
      || AddrGivenAt(c, events, n, id) == Some(a)
      || (AddrGivenAt(c, events, n, id).None? && !RotatesAt(c, events, n) &&
          HasLastGiven(c, events, n, id, a))
  {
    if AddrGivenAt(c, events, n, id) == Some(a) {
      assert IsLastGiven(c, events, n, n + 1, id, a);
    }
    if HasLastGiven(c, events, n + 1, id, a) {
      var k: nat :| IsLastGiven(c, events, k, n + 1, id, a);
      assert k < n ==> IsLastGiven(c, events, k, n, id, a);
    }
    if AddrGivenAt(c, events, n, id).None? && !RotatesAt(c, events, n) {
      if HasLastGiven(c, events, n, id, a) {
        var k: nat :| IsLastGiven(c, events, k, n, id, a);
        assert IsLastGiven(c, events, k, n + 1, id, a);
      }
    }
  }

  /** In every run the peer's address is the last one it was given since the last socket rotation. */
  lemma {:induction false} AddressIsLastGiven(c: Config, events: Events, n: nat, id: string, a: Addr)
    requires n <= |events| && id in Run(c, events[..n]).peers
    ensures Run(c, events[..n]).peers[id].addr == Some(a) <==> HasLastGiven(c, events, n, id, a)
  {
    if n > 0 {
      var m := n - 1;
      var s, to, e := Run(c, events[..m]), events[m].0, events[m].1;
      NextState(c, events, m);
      NextPeer(c, s, to, e, id);
      NextLastGiven(c, events, m, id, a);
      if id in s.peers {
        AddressIsLastGiven(c, events, m, id, a);
        RunKeepsInv(c, events[..m]);
        EventByField(c, s.peers[id], e, OnPeer(c, s.peers[id], e));
      } else {
        NothingGivenBefore(c, events, m, id);
      }
    }
  }
}
