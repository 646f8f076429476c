/** The agent's rule table: `groupRulesByPeer` and the `syncRules` reconciliation of `cmd/client/main.go`, over the
    rows that `RulesForDevice` of `internal/controlstore/store.go` hands to a device. */
module AgentRules {
  import opened Basics
  import opened RuleSignature

  type DeviceID = Bytes

  datatype Rule = Rule(
    id: int, name: string, enabled: bool, source: DeviceID, target: DeviceID, profile: string,
    localPort: int, targetHost: string, targetPort: int)

  /** Profiles are stored trimmed and in lower case; the empty one means interactive. */
  function NormalizeProfile(profile: string): string {
    if profile == "" then "interactive" else profile
  }

  /** Only the empty profile and "interactive" are taken for the same. */
  lemma SameProfile(p: string, q: string)
    ensures NormalizeProfile(p) == NormalizeProfile(q) <==>
      p == q || {p, q} <= {"", "interactive"}
  {
    assert p in {p, q} && q in {p, q};
  }

  /** The tunnel to `peer` for one profile. */
  datatype Key = Key(peer: DeviceID, profile: string)

  datatype RuleSet = RuleSet(
    peer: DeviceID, profile: string, forwards: seq<Forward>, ruleIDs: seq<int>, localPorts: seq<int>)

  // ---------------------------------------------------------------------------------------------
  // Grouping

  /** The rule makes `device` run the tunnel `key`, on either end. */
  predicate Involves(device: DeviceID, r: Rule, key: Key) {
    && r.enabled && key.profile == NormalizeProfile(r.profile)
    && (if r.source == device then key.peer == r.target else r.target == device && key.peer == r.source)
  }

  /** The rules that `device` forwards through `key`, in table order. */
  function Ingress(device: DeviceID, rules: seq<Rule>, key: Key): seq<Rule> {
    if rules == [] then []
    else
      var n := |rules| - 1;
      var before := Ingress(device, rules[..n], key);
      if rules[n].source == device && Involves(device, rules[n], key) then before + [rules[n]] else before
  }

  function ForwardOf(r: Rule): Forward {
    Forward(r.localPort, r.targetHost, r.targetPort, r.name, NormalizeProfile(r.profile))
  }

  /** What the grouping holds for one key: the tunnel's peer and profile, and one entry per forwarded rule. */
  function SetFor(device: DeviceID, rules: seq<Rule>, key: Key): RuleSet {
    var ingress := Ingress(device, rules, key);
    RuleSet(key.peer, key.profile,
            seq(|ingress|, i requires 0 <= i < |ingress| => ForwardOf(ingress[i])),
            seq(|ingress|, i requires 0 <= i < |ingress| => ingress[i].id),
            seq(|ingress|, i requires 0 <= i < |ingress| => ingress[i].localPort))
  }

  ghost predicate HasTunnel(device: DeviceID, rules: seq<Rule>, key: Key) {
    exists i :: 0 <= i < |rules| && Involves(device, rules[i], key)
  }

  ghost predicate IsGrouping(device: DeviceID, rules: seq<Rule>, grouped: map<Key, RuleSet>) {
    && (forall key :: key in grouped <==> HasTunnel(device, rules, key))
    && (forall key :: key in grouped ==> grouped[key] == SetFor(device, rules, key))
  }

  /** The rule is enabled, leads from `device` to the key's peer and has the key's profile. */
  predicate Forwards(device: DeviceID, r: Rule, key: Key) {
    && r.enabled && r.source == device && r.target == key.peer
    && (r.profile == key.profile != "" || (r.profile == "" && key.profile == "interactive"))
  }

  /** A tunnel is kept for the enabled rules that lead to its peer, and for those that come from it. */
  lemma TunnelExactly(device: DeviceID, rules: seq<Rule>, key: Key)
    ensures HasTunnel(device, rules, key) <==>
      exists r :: r in rules &&
        (Forwards(device, r, key) || Forwards(key.peer, r, key.(peer := device)))
  {
    forall r: Rule
      ensures Involves(device, r, key) <==>
        Forwards(device, r, key) || Forwards(key.peer, r, key.(peer := device))
    {
    }
    if HasTunnel(device, rules, key) {
      var i :| 0 <= i < |rules| && Involves(device, rules[i], key);
      assert rules[i] in rules;
    }
  }

  lemma SetForExtends(device: DeviceID, rules: seq<Rule>, r: Rule, key: Key)
    ensures
      var before := SetFor(device, rules, key);
      SetFor(device, rules + [r], key) ==
        if r.source == device && Involves(device, r, key)
        then before.(forwards := before.forwards + [ForwardOf(r)], ruleIDs := before.ruleIDs + [r.id],
                     localPorts := before.localPorts + [r.localPort])
        else before
  {
    assert (rules + [r])[..|rules|] == rules;
  }

  /** What is forwarded through a tunnel, in table order: of one rule after others, its own entry if it leads to the
      peer. */
  lemma SetForExactly(device: DeviceID, rules: seq<Rule>, r: Rule, key: Key)
    ensures SetFor(device, [], key) == RuleSet(key.peer, key.profile, [], [], [])
    ensures
      var before, after := SetFor(device, rules, key), SetFor(device, rules + [r], key);
      after ==
        if Forwards(device, r, key)
        then RuleSet(key.peer, key.profile,
          before.forwards + [Forward(r.localPort, r.targetHost, r.targetPort, r.name, key.profile)],
          before.ruleIDs + [r.id], before.localPorts + [r.localPort])
        else before
  {
    SetForExtends(device, rules, r, key);
  }

  lemma HasTunnelExtends(device: DeviceID, rules: seq<Rule>, r: Rule, key: Key)
    ensures HasTunnel(device, rules + [r], key) <==> HasTunnel(device, rules, key) || Involves(device, r, key)
  {
    var longer := rules + [r];
    if HasTunnel(device, rules, key) {
      var i :| 0 <= i < |rules| && Involves(device, rules[i], key);
      assert longer[i] == rules[i];
    }
    assert longer[|rules|] == r;
  }

  lemma {:induction false} NoTunnelNoIngress(device: DeviceID, rules: seq<Rule>, key: Key)
    requires !HasTunnel(device, rules, key)
    ensures Ingress(device, rules, key) == []
  {
    if rules != [] {
      assert rules[..|rules| - 1] + [rules[|rules| - 1]] == rules;
      HasTunnelExtends(device, rules[..|rules| - 1], rules[|rules| - 1], key);
      NoTunnelNoIngress(device, rules[..|rules| - 1], key);
    }
  }

  /** One more rule, with the grouping changed the way the source changes it. */
  lemma GroupOne(device: DeviceID, rules: seq<Rule>, r: Rule, grouped: map<Key, RuleSet>, grouped': map<Key, RuleSet>)
    requires IsGrouping(device, rules, grouped)
    requires forall key :: key in grouped' <==> key in grouped || Involves(device, r, key)
    requires forall key :: key in grouped' && !Involves(device, r, key) ==> grouped'[key] == grouped[key]
    requires forall key :: key in grouped' && Involves(device, r, key) ==>
      var set0 := if key in grouped then grouped[key] else RuleSet(key.peer, key.profile, [], [], []);
      grouped'[key] ==
        if r.source == device
        then set0.(forwards := set0.forwards + [ForwardOf(r)], ruleIDs := set0.ruleIDs + [r.id],
                   localPorts := set0.localPorts + [r.localPort])
        else set0
    ensures IsGrouping(device, rules + [r], grouped')
  {
    forall key ensures key in grouped' <==> HasTunnel(device, rules + [r], key) {
      HasTunnelExtends(device, rules, r, key);
    }
    forall key | key in grouped' ensures grouped'[key] == SetFor(device, rules + [r], key) {
      SetForExtends(device, rules, r, key);
      if key !in grouped {
        NoTunnelNoIngress(device, rules, key);
      }
    }
  }

  /** The loop body of the grouping. */
  method GroupRule(device: DeviceID, r: Rule, grouped: map<Key, RuleSet>, ghost rules: seq<Rule>)
    returns (after: map<Key, RuleSet>)
    requires IsGrouping(device, rules, grouped)
    ensures IsGrouping(device, rules + [r], after)
  {
    after := grouped;
    if r.enabled {
      var profile := NormalizeProfile(r.profile);
      if device == r.source {
        var key := Key(r.target, profile);
        var s := if key in grouped then grouped[key] else RuleSet(key.peer, key.profile, [], [], []);
        after := grouped[key := s.(forwards := s.forwards + [ForwardOf(r)], ruleIDs := s.ruleIDs + [r.id],
                                   localPorts := s.localPorts + [r.localPort])];
      } else if device == r.target {
        var key := Key(r.source, profile);
        if key !in grouped {
          after := grouped[key := RuleSet(r.source, profile, [], [], [])];
        }
      }
    }
    GroupOne(device, rules, r, grouped, after);
  }

  method GroupRulesByPeer(device: DeviceID, rules: seq<Rule>) returns (grouped: map<Key, RuleSet>)
    ensures IsGrouping(device, rules, grouped)
  {
    grouped := map[];
    for i := 0 to |rules|
      invariant IsGrouping(device, rules[..i], grouped)
    {
      grouped := GroupRule(device, rules[i], grouped, rules[..i]);
      assert rules[..i + 1] == rules[..i] + [rules[i]];
    }
    assert rules[..|rules|] == rules;
  }

  // ---------------------------------------------------------------------------------------------
  // Two devices over one table

  /** The rows a device pulls: enabled, and with the device on one of the ends. */
  function RulesForDevice(table: seq<Rule>, d: DeviceID): seq<Rule> {
    if table == [] then []
    else
      var n := |table| - 1;
      var before := RulesForDevice(table[..n], d);
      if table[n].enabled && (table[n].source == d || table[n].target == d) then before + [table[n]] else before
  }

  /** These are all of them, and in table order: a longer table adds its last row if that concerns the device. */
  lemma {:induction false} RowsExactly(table: seq<Rule>, d: DeviceID, r: Rule)
    ensures r in RulesForDevice(table, d) <==> r in table && r.enabled && d in {r.source, r.target}
    ensures RulesForDevice(table + [r], d) ==
      RulesForDevice(table, d) + if r.enabled && d in {r.source, r.target} then [r] else []
  {
    assert (table + [r])[..|table|] == table;
    if table != [] {
      var n := |table| - 1;
      RowsExactly(table[..n], d, r);
      assert table == table[..n] + [table[n]];
    }
  }

  /** A device's own rows say everything the whole table says about it. */
  lemma {:induction false} OwnRowsSuffice(table: seq<Rule>, d: DeviceID, key: Key)
    ensures HasTunnel(d, RulesForDevice(table, d), key) <==> HasTunnel(d, table, key)
    ensures SetFor(d, RulesForDevice(table, d), key) == SetFor(d, table, key)
  {
    if table != [] {
      var n := |table| - 1;
      OwnRowsSuffice(table[..n], d, key);
      assert table[..n] + [table[n]] == table;
      HasTunnelExtends(d, table[..n], table[n], key);
      HasTunnelExtends(d, RulesForDevice(table[..n], d), table[n], key);
      SetForExtends(d, table[..n], table[n], key);
      SetForExtends(d, RulesForDevice(table[..n], d), table[n], key);
    }
  }

  lemma TunnelIsMutualOneWay(table: seq<Rule>, a: DeviceID, b: DeviceID, profile: string)
    requires a != b && HasTunnel(a, table, Key(b, profile))
    ensures HasTunnel(b, table, Key(a, profile))
  {
    var i :| 0 <= i < |table| && Involves(a, table[i], Key(b, profile));
    assert Involves(b, table[i], Key(a, profile));
  }

  /** Over one table, A runs the tunnel to B exactly when B runs the tunnel to A, from the rows each of them pulls, and
      exactly one of the two is the listener. */
  lemma TunnelsAreMutual(
    table: seq<Rule>, a: DeviceID, b: DeviceID, profile: string, atA: map<Key, RuleSet>, atB: map<Key, RuleSet>)
    requires a != b
    requires IsGrouping(a, RulesForDevice(table, a), atA) && IsGrouping(b, RulesForDevice(table, b), atB)
    ensures Key(b, profile) in atA <==> Key(a, profile) in atB
    ensures Less(a, b) <==> !Less(b, a)
  {
    OwnRowsSuffice(table, a, Key(b, profile));
    OwnRowsSuffice(table, b, Key(a, profile));
    if HasTunnel(a, table, Key(b, profile)) {
      TunnelIsMutualOneWay(table, a, b, profile);
    }
    if HasTunnel(b, table, Key(a, profile)) {
      TunnelIsMutualOneWay(table, b, a, profile);
    }
    LessIsTotal(a, b);
  }

  // ---------------------------------------------------------------------------------------------
  // Reconciliation

  /** The forwarded rules of a set, with their ids. */
  function Entries(s: RuleSet): seq<Entry> {
    seq(|s.forwards|, i requires 0 <= i < |s.forwards| =>
      Entry(if i < |s.ruleIDs| then s.ruleIDs[i] else 0, s.forwards[i]))
  }

  function SignatureOf(s: RuleSet): string {
    Text(Entries(s))
  }

  /** Ids and forwards in step; a missing id is 0. */
  method CollectEntries(s: RuleSet) returns (es: seq<Entry>)
    ensures es == Entries(s)
  {
    es := [];
    for i := 0 to |s.forwards|
      invariant es == Entries(s)[..i]
    {
      var ruleID := 0;
      if i < |s.ruleIDs| {
        ruleID := s.ruleIDs[i];
      }
      es := es + [Entry(ruleID, s.forwards[i])];
    }
  }

  method ForwardRulesSignature(s: RuleSet) returns (signature: string)
    ensures signature == SignatureOf(s)
  {
    var es := CollectEntries(s);
    var parts := WriteAll(es, Write());
    signature := Join(Sort(parts));
  }

  lemma {:induction false} IngressProfile(device: DeviceID, rules: seq<Rule>, key: Key, i: nat)
    requires i < |Ingress(device, rules, key)|
    ensures NormalizeProfile(Ingress(device, rules, key)[i].profile) == key.profile
  {
    var n := |rules| - 1;
    if i < |Ingress(device, rules[..n], key)| {
      IngressProfile(device, rules[..n], key, i);
    }
  }

  /** Every forward of the set has the profile. */
  ghost predicate HasProfile(s: RuleSet, profile: string) {
    forall e :: e in Entries(s) ==> e.forward.profile == profile
  }

  lemma SetHasProfile(device: DeviceID, rules: seq<Rule>, key: Key)
    ensures HasProfile(SetFor(device, rules, key), key.profile)
  {
    var s := SetFor(device, rules, key);
    forall i | 0 <= i < |Entries(s)| ensures Entries(s)[i].forward.profile == key.profile {
      IngressProfile(device, rules, key, i);
    }
  }

  /** No '>' in the names and no ',' in the hosts of the set's rules. */
  predicate IsPlain(s: RuleSet) {
    forall e :: e in Entries(s) ==> Plain(e)
  }

  /** The same rules, in any order. */
  ghost predicate SameRules(s: RuleSet, t: RuleSet) {
    multiset(Entries(s)) == multiset(Entries(t))
  }

  /** Unchanged rules keep their signature; where names and hosts are plain, changed rules change it. */
  lemma SignatureTellsRules(s: RuleSet, t: RuleSet, profile: string)
    requires HasProfile(s, profile) && HasProfile(t, profile)
    ensures SameRules(s, t) ==> SignatureOf(s) == SignatureOf(t)
    ensures IsPlain(s) && IsPlain(t) ==> (SignatureOf(s) == SignatureOf(t) <==> SameRules(s, t))
  {
    if SameRules(s, t) {
      SameRulesSameText(Entries(s), Entries(t));
    }
    if IsPlain(s) && IsPlain(t) {
      TextTellsRules(Entries(s), Entries(t), profile);
    }
  }

  function Signer(): RuleSet -> string {
    (s: RuleSet) => SignatureOf(s)
  }

  /** `sign` is the signature that the source computes. */
  ghost predicate IsSigner(sign: RuleSet -> string) {
    forall s {:trigger SignatureOf(s)} :: sign(s) == SignatureOf(s)
  }

  ghost predicate PlainPair(s: RuleSet, t: RuleSet) {
    IsPlain(s) && IsPlain(t)
  }

  /** `sign` does not change with the order of rules, and where names and hosts are plain it tells sets of rules
      apart. */
  ghost predicate Tells(sign: RuleSet -> string) {
    forall s, t, profile :: HasProfile(s, profile) && HasProfile(t, profile) ==>
      && (SameRules(s, t) ==> sign(s) == sign(t))
      && (PlainPair(s, t) ==> (sign(s) == sign(t) <==> SameRules(s, t)))
  }

  lemma SignerTells()
    ensures Tells(Signer())
  {
    forall s, t, profile | HasProfile(s, profile) && HasProfile(t, profile)
      ensures SameRules(s, t) ==> SignatureOf(s) == SignatureOf(t)
      ensures PlainPair(s, t) ==> (SignatureOf(s) == SignatureOf(t) <==> SameRules(s, t))
    {
      SignatureTellsRules(s, t, profile);
    }
  }

  /** A running tunnel session; `instance` tells sessions apart. */
  datatype Running = Running(sig: string, instance: nat)

  /** The session is still wanted, as far as its signature tells. */
  predicate Unchanged(sign: RuleSet -> string, run: Running, grouped: map<Key, RuleSet>, key: Key) {
    key in grouped && run.sig == sign(grouped[key])
  }

  /** Each session has the signature of the rules it was started with. */
  ghost predicate Matches(sign: RuleSet -> string, sessions: map<Key, Running>, started: map<Key, RuleSet>) {
    && sessions.Keys == started.Keys
    && forall key :: key in sessions ==>
      HasProfile(started[key], key.profile) && sessions[key].sig == sign(started[key])
  }

  ghost predicate ProfilesFit(grouped: map<Key, RuleSet>) {
    forall key :: key in grouped ==> HasProfile(grouped[key], key.profile)
  }

  lemma GroupingFits(device: DeviceID, rules: seq<Rule>, grouped: map<Key, RuleSet>)
    requires IsGrouping(device, rules, grouped)
    ensures ProfilesFit(grouped)
  {
    forall key | key in grouped ensures HasProfile(grouped[key], key.profile) {
      SetHasProfile(device, rules, key);
    }
  }

  /** The session of `key` goes on running. */
  predicate Survives(sessions: map<Key, Running>, sessions': map<Key, Running>, key: Key) {
    key in sessions && key in sessions' && sessions'[key] == sessions[key]
  }

  /** Where names and hosts are plain, a session has the signature of the wanted rules exactly when it runs them. */
  lemma PlainSignatures(
    sign: RuleSet -> string, sessions: map<Key, Running>, started: map<Key, RuleSet>, grouped: map<Key, RuleSet>)
    requires Tells(sign) && Matches(sign, sessions, started) && ProfilesFit(grouped)
    ensures forall key :: key in sessions && key in grouped && PlainPair(started[key], grouped[key]) ==>
      (sessions[key].sig == sign(grouped[key]) <==> SameRules(started[key], grouped[key]))
  {
    forall key | key in sessions && key in grouped && PlainPair(started[key], grouped[key])
      ensures sessions[key].sig == sign(grouped[key]) <==> SameRules(started[key], grouped[key])
    {
      assert HasProfile(started[key], key.profile) && HasProfile(grouped[key], key.profile);
    }
  }

  class Agent {
    const device: DeviceID
    ghost const sign: RuleSet -> string
    var sessions: map<Key, Running>
    var instances: nat
    ghost var started: map<Key, RuleSet>

    /** Sessions carry the signatures of the rules they were started with, and instances below the counter. */
    ghost predicate Consistent()
      reads this
    {
      && IsSigner(sign) && Matches(sign, sessions, started)
      && forall key :: key in sessions ==> sessions[key].instance < instances
    }

    ghost predicate Valid()
      reads this
    {
      Consistent() && Tells(sign)
    }

    /** The signature of a set, by the function that the source calls. */
    method Sign(s: RuleSet) returns (signature: string)
      requires Consistent()
      ensures signature == sign(s)
    {
      signature := ForwardRulesSignature(s);
    }

    constructor (device: DeviceID)
      ensures Valid() && this.device == device && sessions == map[]
    {
      SignerTells();
      this.device, sign := device, Signer();
      sessions, instances, started := map[], 0, map[];
    }

    method StopChanged(grouped: map<Key, RuleSet>)
      requires Consistent()
      modifies this`sessions, this`started
      ensures Consistent()
      ensures forall key :: key in sessions <==>
        key in old(sessions) && Unchanged(sign, old(sessions)[key], grouped, key)
      ensures forall key :: key in sessions ==>
        sessions[key] == old(sessions)[key] && started[key] == old(started)[key]
    {
      ghost var before := sessions;
      var todo := sessions.Keys;
      while todo != {}
        invariant Consistent() && todo <= before.Keys
        invariant forall key :: key in sessions <==>
          key in before && (key in todo || Unchanged(sign, before[key], grouped, key))
        invariant forall key :: key in sessions ==> sessions[key] == before[key] && started[key] == old(started)[key]
      {
        var key :| key in todo;
        todo := todo - {key};
        if key in grouped {
          var signature := Sign(grouped[key]);
          if sessions[key].sig == signature {
            continue;
          }
        }
        sessions, started := sessions - {key}, started - {key};
      }
    }

    method StartOne(key: Key, rules: RuleSet)
      requires Consistent() && HasProfile(rules, key.profile)
      modifies this
      ensures Consistent() && instances == old(instances) + 1
      ensures sessions == old(sessions)[key := Running(sign(rules), old(instances))]
      ensures started == old(started)[key := rules]
    {
      var signature := Sign(rules);
      sessions := sessions[key := Running(signature, instances)];
      started := started[key := rules];
      instances := instances + 1;
    }

    method StartMissing(grouped: map<Key, RuleSet>)
      requires Consistent() && ProfilesFit(grouped)
      modifies this
      ensures Consistent() && sessions.Keys == old(sessions).Keys + grouped.Keys
      ensures forall key :: key in old(sessions) ==>
        sessions[key] == old(sessions)[key] && started[key] == old(started)[key]
      ensures forall key :: key in grouped && key !in old(sessions) ==>
        started[key] == grouped[key] && sessions[key].instance >= old(instances)
    {
      var todo := grouped.Keys;
      while todo != {}
        invariant todo <= grouped.Keys && instances >= old(instances) && Consistent()
        invariant forall key :: key in sessions <==> key in old(sessions) || (key in grouped && key !in todo)
        invariant forall key :: key in old(sessions) ==>
          sessions[key] == old(sessions)[key] && started[key] == old(started)[key]
        invariant forall key :: key in grouped && key !in old(sessions) && key !in todo ==>
          started[key] == grouped[key] && sessions[key].instance >= old(instances)
      {
        var key :| key in todo;
        todo := todo - {key};
        if key !in sessions {
          StartOne(key, grouped[key]);
        }
      }
    }

    /** Both loops: a session goes on exactly when its tunnel is wanted with an unchanged signature, and every other
        wanted tunnel is started as a new instance. */
    method Reconcile(grouped: map<Key, RuleSet>)
      requires Consistent() && ProfilesFit(grouped)
      modifies this
      ensures Consistent() && sessions.Keys == grouped.Keys
      ensures forall key :: key in sessions ==> sessions[key].sig == sign(grouped[key])
      ensures forall key :: key in old(sessions) ==>
        (Survives(old(sessions), sessions, key) <==> Unchanged(sign, old(sessions)[key], grouped, key))
    {
      StopChanged(grouped);
      StartMissing(grouped);
    }

    /** After a successful sync the running sessions are exactly the grouped keys, each with the signature of its
        rules. A session goes on running exactly when its tunnel is wanted and the signature of its rules is
        unchanged; where names and hosts are plain, this is exactly when its rules are unchanged, and what runs is
        what is wanted. */
    method SyncRules(rules: seq<Rule>) returns (grouped: map<Key, RuleSet>)
      requires Valid()
      modifies this
      ensures Valid() && IsGrouping(device, rules, grouped) && sessions.Keys == grouped.Keys
      ensures forall key :: key in sessions ==> sessions[key].sig == sign(grouped[key])
      ensures forall key :: key in old(sessions) ==>
        (Survives(old(sessions), sessions, key) <==> Unchanged(sign, old(sessions)[key], grouped, key))
      ensures forall key :: key in old(sessions) && key in grouped && PlainPair(old(started)[key], grouped[key]) ==>
        (Survives(old(sessions), sessions, key) <==> SameRules(old(started)[key], grouped[key]))
      ensures forall key :: key in sessions && PlainPair(started[key], grouped[key]) ==>
        SameRules(started[key], grouped[key])
    {
      grouped := GroupRulesByPeer(device, rules);
      GroupingFits(device, rules, grouped);
      PlainSignatures(sign, sessions, started, grouped);
      Reconcile(grouped);
      PlainSignatures(sign, sessions, started, grouped);
    }
  }
}
