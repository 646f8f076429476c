/** Access rules: the server compiles rules over devices, groups and wildcards into rules over device pairs
    (`internal/server/handlers_lan.go`), and the client's router evaluates the compiled list
    (`internal/packet/router.go`). */
module Acl {

  /** Only "deny" has an effect; "allow", the empty action and anything else leave the default, which is to allow. */
  datatype Action = Allow | Deny | Other

  datatype ProtocolSpec = AnyProtocol | Protocol(number: nat) | UnknownProtocol

  /** An empty device or group means that the field is not set. */
  datatype Rule = Rule(
    networkID: int, enabled: bool, action: Action,
    sourceDevice: string, targetDevice: string, sourceGroup: string, targetGroup: string,
    protocol: ProtocolSpec, portStart: int, portEnd: int)

  /** What a rule can see of a packet. */
  datatype Traffic = Traffic(protocol: nat, destPort: int)

  // ---------------------------------------------------------------------------------------------
  // The router's evaluation

  predicate MatchesTraffic(r: Rule, t: Traffic) {
    && (match r.protocol
        case AnyProtocol => true
        case Protocol(n) => n == t.protocol
        case UnknownProtocol => false)
    && (|| (r.portStart <= 0 && r.portEnd <= 0)
        || (&& t.destPort > 0
            && (if r.portStart <= 0 then r.portEnd else r.portStart) <= t.destPort
            && t.destPort <= (if r.portEnd <= 0 then r.portStart else r.portEnd)))
  }

  /** Without bounds every port matches, even none; with one bound just that port; with both the range between them. */
  lemma TrafficExactly(r: Rule, t: Traffic)
    ensures MatchesTraffic(r, t) <==>
      && (r.protocol == AnyProtocol || r.protocol == Protocol(t.protocol))
      && (if r.portStart <= 0 && r.portEnd <= 0 then true
          else if r.portStart <= 0 then t.destPort == r.portEnd
          else if r.portEnd <= 0 then t.destPort == r.portStart
          else r.portStart <= t.destPort <= r.portEnd)
  {
  }

  /** `networkName` is the network's number written in decimal. */
  predicate MatchesRule(r: Rule, networkName: string, src: string, dst: string, t: Traffic) {
    && (r.sourceDevice == "" || r.sourceDevice == src)
    && (r.targetDevice == "" || r.targetDevice == dst)
    && (r.sourceGroup == "" || r.sourceGroup == networkName)
    && (r.targetGroup == "" || r.targetGroup == networkName)
    && MatchesTraffic(r, t)
  }

  /** Each field that is set has to be met: devices by the two devices, groups only by the network's own number. */
  lemma RuleExactly(r: Rule, networkName: string, src: string, dst: string, t: Traffic)
    ensures MatchesRule(r, networkName, src, dst, t) <==>
      && r.sourceDevice in {"", src} && r.targetDevice in {"", dst}
      && {r.sourceGroup, r.targetGroup} <= {"", networkName} && MatchesTraffic(r, t)
  {
    assert r.sourceGroup in {r.sourceGroup, r.targetGroup} && r.targetGroup in {r.sourceGroup, r.targetGroup};
  }

  predicate Denies(r: Rule, networkID: int, networkName: string, src: string, dst: string, t: Traffic) {
    r.enabled && r.networkID == networkID && r.action == Deny && MatchesRule(r, networkName, src, dst, t)
  }

  /** Some rule of the list denies the packet. */
  ghost predicate Denied(rules: seq<Rule>, networkID: int, networkName: string, src: string, dst: string, t: Traffic) {
    exists r :: r in rules && Denies(r, networkID, networkName, src, dst, t)
  }

  method AllowACL(rules: seq<Rule>, networkID: int, networkName: string, src: string, dst: string, t: Traffic)
    returns (allowed: bool)
    ensures allowed <==> !Denied(rules, networkID, networkName, src, dst, t)
  {
    allowed := true;
    for i := 0 to |rules|
      invariant allowed
      invariant forall k :: 0 <= k < i ==> !Denies(rules[k], networkID, networkName, src, dst, t)
    {
      var rule := rules[i];
      if !rule.enabled || rule.networkID != networkID || !MatchesRule(rule, networkName, src, dst, t) {
        continue;
      }
      if rule.action == Deny {
        assert rule in rules && Denies(rule, networkID, networkName, src, dst, t);
        return false;
      }
      if rule.action == Allow {
        allowed := true;
      }
    }
  }

  // ---------------------------------------------------------------------------------------------
  // What the rules mean before compilation

  type Membership = (string, string)   // group, device

  /** A device field wins over a group field; with neither, every device of the network is meant. */
  predicate InScope(device: string, group: string, members: seq<Membership>, d: string) {
    if device != "" then d == device
    else if group != "" then (group, d) in members
    else true
  }

  /** Deny overrides: some enabled rule of the network that denies applies to the two devices and the packet. */
  ghost predicate DeniedByGroups(
    rules: seq<Rule>, members: seq<Membership>, networkID: int, src: string, dst: string, t: Traffic)
  {
    exists r :: r in rules && r.enabled && r.networkID == networkID && r.action == Deny &&
                InScope(r.sourceDevice, r.sourceGroup, members, src) &&
                InScope(r.targetDevice, r.targetGroup, members, dst) && MatchesTraffic(r, t)
  }

  // ---------------------------------------------------------------------------------------------
  // Compilation

  function Expanded(r: Rule, src: string, dst: string): Rule {
    r.(sourceDevice := src, targetDevice := dst, sourceGroup := "", targetGroup := "")
  }

  /** The devices a field expands to. */
  ghost predicate ExpandsTo(device: string, group: string, members: seq<Membership>, known: set<string>, d: string) {
    if device != "" then d == device
    else if group != "" then (group, d) in members
    else d in known
  }

  ghost predicate IsExpansion(
    rules: seq<Rule>, members: seq<Membership>, known: set<string>, out: seq<Rule>)
  {
    forall e :: e in out <==>
      exists r, src, dst {:trigger Expanded(r, src, dst)} :: r in rules && e == Expanded(r, src, dst) &&
        ExpandsTo(r.sourceDevice, r.sourceGroup, members, known, src) &&
        ExpandsTo(r.targetDevice, r.targetGroup, members, known, dst)
  }

  method GroupMembers(members: seq<Membership>) returns (byGroup: map<string, seq<string>>)
    ensures forall g, d :: (g in byGroup && d in byGroup[g]) <==> (g, d) in members
  {
    byGroup := map[];
    for i := 0 to |members|
      invariant forall g, d :: (g in byGroup && d in byGroup[g]) <==> (g, d) in members[..i]
    {
      var (g, d) := members[i];
      assert members[..i + 1] == members[..i] + [(g, d)];
      byGroup := byGroup[g := (if g in byGroup then byGroup[g] else []) + [d]];
    }
    assert members[..|members|] == members;
  }

  method AclDevices(
    device: string, group: string, byGroup: map<string, seq<string>>, known: set<string>,
    ghost members: seq<Membership>)
    returns (devices: seq<string>)
    requires forall g, d :: (g in byGroup && d in byGroup[g]) <==> (g, d) in members
    ensures forall d :: d in devices <==> ExpandsTo(device, group, members, known, d)
  {
    if device != "" {
      return [device];
    }
    if group != "" {
      return if group in byGroup then byGroup[group] else [];
    }
    devices := [];
    var todo := known;
    while todo != {}
      invariant todo <= known
      invariant forall d :: d in devices <==> d in known && d !in todo
    {
      var d :| d in todo;
      devices := devices + [d];
      todo := todo - {d};
    }
  }

  method ExpandRule(rule: Rule, srcs: seq<string>, dsts: seq<string>) returns (out: seq<Rule>)
    ensures forall e :: e in out <==>
      exists src, dst {:trigger Expanded(rule, src, dst)} :: src in srcs && dst in dsts && e == Expanded(rule, src, dst)
  {
    out := [];
    for i := 0 to |srcs|
      invariant forall e :: e in out <==>
        exists src, dst {:trigger Expanded(rule, src, dst)} ::
          src in srcs[..i] && dst in dsts && e == Expanded(rule, src, dst)
    {
      ghost var before := out;
      for j := 0 to |dsts|
        invariant forall e :: e in out <==>
          || e in before
          || exists dst {:trigger Expanded(rule, srcs[i], dst)} ::
               dst in dsts[..j] && e == Expanded(rule, srcs[i], dst)
      {
        out := out + [Expanded(rule, srcs[i], dsts[j])];
        assert dsts[..j + 1] == dsts[..j] + [dsts[j]];
      }
      assert dsts[..|dsts|] == dsts;
      assert srcs[..i + 1] == srcs[..i] + [srcs[i]];
    }
    assert srcs[..|srcs|] == srcs;
  }

  method ExpandRules(rules: seq<Rule>, members: seq<Membership>, known: set<string>) returns (out: seq<Rule>)
    ensures IsExpansion(rules, members, known, out)
  {
    var byGroup := GroupMembers(members);
    out := [];
    for i := 0 to |rules|
      invariant IsExpansion(rules[..i], members, known, out)
    {
      var rule := rules[i];
      var srcs := AclDevices(rule.sourceDevice, rule.sourceGroup, byGroup, known, members);
      var dsts := AclDevices(rule.targetDevice, rule.targetGroup, byGroup, known, members);
      var own := ExpandRule(rule, srcs, dsts);
      assert rules[..i + 1] == rules[..i] + [rule];
      out := out + own;
    }
    assert rules[..|rules|] == rules;
  }

  lemma ExpansionDenies(
    rules: seq<Rule>, members: seq<Membership>, known: set<string>, out: seq<Rule>,
    networkID: int, networkName: string, src: string, dst: string, t: Traffic)
    requires IsExpansion(rules, members, known, out) && src in known && dst in known
    requires DeniedByGroups(rules, members, networkID, src, dst, t)
    ensures Denied(out, networkID, networkName, src, dst, t)
  {
    var r :| r in rules && r.enabled && r.networkID == networkID && r.action == Deny &&
             InScope(r.sourceDevice, r.sourceGroup, members, src) &&
             InScope(r.targetDevice, r.targetGroup, members, dst) && MatchesTraffic(r, t);
    var e := Expanded(r, src, dst);
    assert e in out && Denies(e, networkID, networkName, src, dst, t);
  }

  /** A field expands to `d` only if `d` is in its scope, and an expanded rule names its devices. */
  lemma ExpandedScope(
    device: string, group: string, members: seq<Membership>, known: set<string>, d: string, actual: string)
    requires ExpandsTo(device, group, members, known, d) && forall m :: m in members ==> m.1 != ""
    requires d == "" || d == actual
    ensures InScope(device, group, members, actual)
  {
  }

  lemma ExpansionDeniesNoMore(
    rules: seq<Rule>, members: seq<Membership>, known: set<string>, out: seq<Rule>,
    networkID: int, networkName: string, src: string, dst: string, t: Traffic)
    requires IsExpansion(rules, members, known, out) && forall m :: m in members ==> m.1 != ""
    requires Denied(out, networkID, networkName, src, dst, t)
    ensures DeniedByGroups(rules, members, networkID, src, dst, t)
  {
    var e :| e in out && Denies(e, networkID, networkName, src, dst, t);
    var r, s, d :| r in rules && e == Expanded(r, s, d) &&
      ExpandsTo(r.sourceDevice, r.sourceGroup, members, known, s) &&
      ExpandsTo(r.targetDevice, r.targetGroup, members, known, d);
    ExpandedScope(r.sourceDevice, r.sourceGroup, members, known, s, src);
    ExpandedScope(r.targetDevice, r.targetGroup, members, known, d, dst);
    assert MatchesTraffic(e, t) <==> MatchesTraffic(r, t);
  }

  /** Compilation preserves meaning: for two devices of the network, the router's verdict on any expansion, in any
      order, is the verdict of the rules as written. Group members are non-empty ids, as the server stores them. */
  lemma ExpansionPreservesMeaning(
    rules: seq<Rule>, members: seq<Membership>, known: set<string>, out: seq<Rule>,
    networkID: int, networkName: string, src: string, dst: string, t: Traffic)
    requires IsExpansion(rules, members, known, out)
    requires src in known && dst in known
    requires forall m :: m in members ==> m.1 != ""
    ensures Denied(out, networkID, networkName, src, dst, t) <==> DeniedByGroups(rules, members, networkID, src, dst, t)
  {
    if DeniedByGroups(rules, members, networkID, src, dst, t) {
      ExpansionDenies(rules, members, known, out, networkID, networkName, src, dst, t);
    }
    if Denied(out, networkID, networkName, src, dst, t) {
      ExpansionDeniesNoMore(rules, members, known, out, networkID, networkName, src, dst, t);
    }
  }
}
