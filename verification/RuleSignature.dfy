/** The text by which the agent recognises an unchanged rule set: `forwardRulesSignature` of `cmd/client/main.go`. One
    part per forwarded rule, sorted and joined with commas. */
module RuleSignature {
  import opened Basics

  datatype Forward = Forward(localPort: int, host: string, port: int, name: string, profile: string)

  /** A forwarded rule with its id. */
  datatype Entry = Entry(id: int, forward: Forward)

  // ---------------------------------------------------------------------------------------------
  // Decimal numbers

  function Digit(n: nat): char
    requires n < 10
  {
    '0' + n as char
  }

  function Digits(n: nat): (s: string)
    ensures |s| >= 1 && (|s| == 1 <==> n < 10)
  {
    if n < 10 then [Digit(n)] else Digits(n / 10) + [Digit(n % 10)]
  }

  function Decimal(n: int): string {
    if n < 0 then ['-'] + Digits(-n) else Digits(n)
  }

  predicate IsDigit(c: char) {
    '0' <= c <= '9'
  }

  lemma {:induction false} DigitsAreDigits(n: nat)
    ensures forall c :: c in Digits(n) ==> IsDigit(c)
  {
    if n >= 10 {
      DigitsAreDigits(n / 10);
    }
  }

  lemma DecimalChars(n: int)
    ensures forall c :: c in Decimal(n) ==> IsDigit(c) || c == '-'
  {
    DigitsAreDigits(if n < 0 then -n else n);
  }

  lemma {:induction false} DigitsInjective(m: nat, n: nat)
    requires Digits(m) == Digits(n)
    ensures m == n
  {
    var s := Digits(m);
    assert s[|s| - 1] == Digit(m % 10) == Digit(n % 10);
    if |s| > 1 {
      assert Digits(m / 10) == s[..|s| - 1] == Digits(n / 10);
      DigitsInjective(m / 10, n / 10);
    }
  }

  lemma DecimalSign(n: int)
    ensures n < 0 <==> Decimal(n)[0] == '-'
  {
    var k := if n < 0 then -n else n;
    DigitsAreDigits(k);
    assert Digits(k)[0] in Digits(k);
  }

  lemma DecimalInjective(m: int, n: int)
    requires Decimal(m) == Decimal(n)
    ensures m == n
  {
    DecimalSign(m);
    DecimalSign(n);
    if m < 0 {
      assert Decimal(m)[1..] == Digits(-m) && Decimal(n)[1..] == Digits(-n);
      DigitsInjective(-m, -n);
    } else {
      DigitsInjective(m, n);
    }
  }

  // ---------------------------------------------------------------------------------------------
  // Parts

  /** Name and local port of a part. */
  function Local(f: Forward): string {
    f.name + [':'] + Decimal(f.localPort) + ['-']
  }

  function Target(f: Forward): string {
    f.host + [':'] + Decimal(f.port)
  }

  function Part(e: Entry): string {
    ['#'] + (Decimal(e.id) + [':'] + (e.forward.profile + ([':'] + (Local(e.forward) + ['>'] + Target(e.forward)))))
  }

  /** What an administrator has to see to: no '>' in the name of a rule and no ',' in its target host. */
  predicate Plain(e: Entry) {
    '>' !in e.forward.name && ',' !in e.forward.host
  }

  lemma NoneAfterLast(c: char, y: string, b: string, k: nat)
    requires c !in b && k < |y + [c] + b| && (y + [c] + b)[k] == c
    ensures k <= |y|
  {
    var s := y + [c] + b;
    assert forall i :: |y| < i < |s| ==> s[i] == b[i - |y| - 1] && s[i] in b;
  }

  /** A text is cut at the last `c`. */
  lemma CutLast(c: char, x: string, a: string, y: string, b: string)
    requires c !in a && c !in b && x + [c] + a == y + [c] + b
    ensures x == y && a == b
  {
    var s, t := x + [c] + a, y + [c] + b;
    assert s[|x|] == c && t[|y|] == c;
    NoneAfterLast(c, y, b, |x|);
    NoneAfterLast(c, x, a, |y|);
    assert x == s[..|x|] && y == t[..|y|] && a == s[|x| + 1..] && b == t[|y| + 1..];
  }

  /** Nothing, or a comma and more. */
  predicate IsTail(t: string) {
    t == "" || t[0] == ','
  }

  lemma CutAtComma(a: string, t: string, b: string, u: string)
    requires ',' !in a && ',' !in b && IsTail(t) && IsTail(u) && a + t == b + u
    ensures a == b && t == u
  {
    var s := a + t;
    assert s == b + u;
    assert forall i :: 0 <= i < |a| ==> s[i] == a[i] && s[i] in a;
    assert forall i :: 0 <= i < |b| ==> s[i] == b[i] && s[i] in b;
    assert (|a| < |s| ==> s[|a|] == ',') && (|b| < |s| ==> s[|b|] == ',');
    assert |a| == |b|;
    assert a == s[..|a|] && b == s[..|b|] && t == s[|a|..] && u == s[|b|..];
  }

  lemma DropPrefix(p: string, x: string, y: string)
    requires p + x == p + y
    ensures x == y
  {
    assert x == (p + x)[|p|..] && y == (p + y)[|p|..];
  }

  lemma LocalInjective(f: Forward, g: Forward)
    requires Local(f) == Local(g)
    ensures f.name == g.name && f.localPort == g.localPort
  {
    DecimalChars(f.localPort);
    DecimalChars(g.localPort);
    var s, t := f.name + [':'] + Decimal(f.localPort), g.name + [':'] + Decimal(g.localPort);
    assert s == Local(f)[..|Local(f)| - 1] && t == Local(g)[..|Local(g)| - 1];
    CutLast(':', f.name, Decimal(f.localPort), g.name, Decimal(g.localPort));
    DecimalInjective(f.localPort, g.localPort);
  }

  lemma TargetInjective(f: Forward, g: Forward)
    requires Target(f) == Target(g)
    ensures f.host == g.host && f.port == g.port
  {
    DecimalChars(f.port);
    DecimalChars(g.port);
    CutLast(':', f.host, Decimal(f.port), g.host, Decimal(g.port));
    DecimalInjective(f.port, g.port);
  }

  lemma LocalHasNoArrow(f: Forward)
    requires '>' !in f.name
    ensures '>' !in Local(f)
  {
    DecimalChars(f.localPort);
  }

  lemma TargetHasNoComma(f: Forward)
    requires ',' !in f.host
    ensures ',' !in Target(f)
  {
    DecimalChars(f.port);
  }

  /** What follows the id in a part and the text after it. */
  function AfterID(e: Entry, tail: string): string {
    e.forward.profile + ([':'] + (Local(e.forward) + ['>'] + (Target(e.forward) + tail)))
  }

  lemma PartAndTail(e: Entry, tail: string)
    ensures Part(e) + tail == ['#'] + (Decimal(e.id) + [':'] + AfterID(e, tail))
  {
    var f := e.forward;
    var rest := Local(f) + ['>'] + Target(f);
    assert rest + tail == Local(f) + ['>'] + (Target(f) + tail);
    assert [':'] + rest + tail == [':'] + (rest + tail);
    assert f.profile + ([':'] + rest) + tail == AfterID(e, tail);
  }

  lemma AfterIDInjective(d: Entry, e: Entry, t: string, u: string)
    requires Plain(d) && Plain(e) && d.forward.profile == e.forward.profile && IsTail(t) && IsTail(u)
    requires AfterID(d, t) == AfterID(e, u)
    ensures d.forward == e.forward && t == u
  {
    var f, g := d.forward, e.forward;
    DropPrefix(f.profile, [':'] + (Local(f) + ['>'] + (Target(f) + t)), [':'] + (Local(g) + ['>'] + (Target(g) + u)));
    DropPrefix([':'], Local(f) + ['>'] + (Target(f) + t), Local(g) + ['>'] + (Target(g) + u));
    LocalHasNoArrow(f);
    LocalHasNoArrow(g);
    CutFirst('>', Local(f), Target(f) + t, Local(g), Target(g) + u);
    TargetHasNoComma(f);
    TargetHasNoComma(g);
    CutAtComma(Target(f), t, Target(g), u);
    LocalInjective(f, g);
    TargetInjective(f, g);
  }

  /** The first part of a text, and what follows it, can be read off. */
  lemma PartIsReadable(d: Entry, e: Entry, t: string, u: string)
    requires Plain(d) && Plain(e) && d.forward.profile == e.forward.profile && IsTail(t) && IsTail(u)
    requires Part(d) + t == Part(e) + u
    ensures d == e && t == u
  {
    PartAndTail(d, t);
    PartAndTail(e, u);
    DropPrefix(['#'], Decimal(d.id) + [':'] + AfterID(d, t), Decimal(e.id) + [':'] + AfterID(e, u));
    DecimalChars(d.id);
    DecimalChars(e.id);
    CutFirst(':', Decimal(d.id), AfterID(d, t), Decimal(e.id), AfterID(e, u));
    DecimalInjective(d.id, e.id);
    AfterIDInjective(d, e, t, u);
  }

  // ---------------------------------------------------------------------------------------------
  // Joining, for any way `f` of writing one item

  function Parts<T>(es: seq<T>, f: T -> string): seq<string> {
    if es == [] then [] else [f(es[0])] + Parts(es[1..], f)
  }

  /** `strings.Join` with a comma: the text after the first part. */
  function Rest(parts: seq<string>): (t: string)
    ensures IsTail(t)
  {
    if parts == [] then "" else [','] + (parts[0] + Rest(parts[1..]))
  }

  function Join(parts: seq<string>): string {
    if parts == [] then "" else parts[0] + Rest(parts[1..])
  }

  /** The items that `ok` admits can be read off the front of a text. */
  ghost predicate Readable<T(!new)>(f: T -> string, ok: T -> bool) {
    && (forall d :: ok(d) ==> f(d) != "")
    && (forall d, e, t, u :: ok(d) && ok(e) && IsTail(t) && IsTail(u) && f(d) + t == f(e) + u ==> d == e && t == u)
  }

  ghost predicate All<T(!new)>(es: seq<T>, ok: T -> bool) {
    forall e :: e in es ==> ok(e)
  }

  lemma FirstIsReadable<T(!new)>(f: T -> string, ok: T -> bool, d: T, e: T, t: string, u: string)
    requires Readable(f, ok) && ok(d) && ok(e) && IsTail(t) && IsTail(u) && f(d) + t == f(e) + u
    ensures d == e && t == u
  {
  }

  lemma {:induction false} RestIsReadable<T(!new)>(a: seq<T>, b: seq<T>, f: T -> string, ok: T -> bool)
    requires Readable(f, ok) && All(a, ok) && All(b, ok) && Rest(Parts(a, f)) == Rest(Parts(b, f))
    ensures a == b
  {
    if a != [] && b != [] {
      var t, u := Rest(Parts(a[1..], f)), Rest(Parts(b[1..], f));
      assert Parts(a, f)[1..] == Parts(a[1..], f) && Parts(b, f)[1..] == Parts(b[1..], f);
      DropPrefix([','], f(a[0]) + t, f(b[0]) + u);
      FirstIsReadable(f, ok, a[0], b[0], t, u);
      RestIsReadable(a[1..], b[1..], f, ok);
      assert a == [a[0]] + a[1..] && b == [b[0]] + b[1..];
    }
  }

  lemma JoinOfParts<T>(a: seq<T>, f: T -> string)
    requires a != []
    ensures Join(Parts(a, f)) == f(a[0]) + Rest(Parts(a[1..], f))
  {
    assert Parts(a, f)[1..] == Parts(a[1..], f);
  }

  /** A joined text determines its items. */
  lemma JoinIsReadable<T(!new)>(a: seq<T>, b: seq<T>, f: T -> string, ok: T -> bool)
    requires Readable(f, ok) && All(a, ok) && All(b, ok) && Join(Parts(a, f)) == Join(Parts(b, f))
    ensures a == b
  {
    if a != [] && b != [] {
      var t, u := Rest(Parts(a[1..], f)), Rest(Parts(b[1..], f));
      JoinOfParts(a, f);
      JoinOfParts(b, f);
      FirstIsReadable(f, ok, a[0], b[0], t, u);
      RestIsReadable(a[1..], b[1..], f, ok);
      assert a == [a[0]] + a[1..] && b == [b[0]] + b[1..];
    }
  }

  // ---------------------------------------------------------------------------------------------
  // Sorting

  function Codes(s: string): seq<int> {
    seq(|s|, i requires 0 <= i < |s| => s[i] as int)
  }

  lemma CodesInjective(a: string, b: string)
    requires Codes(a) == Codes(b)
    ensures a == b
  {
    assert |a| == |Codes(a)| == |b|;
    forall i | 0 <= i < |a| ensures a[i] == b[i] {
      assert Codes(a)[i] == Codes(b)[i];
    }
  }

  predicate AtMost(a: string, b: string) {
    a == b || Less(Codes(a), Codes(b))
  }

  lemma AtMostIsTotal(a: string, b: string)
    ensures AtMost(a, b) || AtMost(b, a)
    ensures AtMost(a, b) && AtMost(b, a) ==> a == b
  {
    if Codes(a) == Codes(b) {
      CodesInjective(a, b);
    } else {
      LessIsTotal(Codes(a), Codes(b));
    }
  }

  lemma AtMostIsTransitive(a: string, b: string, c: string)
    requires AtMost(a, b) && AtMost(b, c)
    ensures AtMost(a, c)
  {
    if a != b && b != c {
      LessIsTransitive(Codes(a), Codes(b), Codes(c));
    }
  }

  ghost predicate IsSorted(ts: seq<string>) {
    forall i, j :: 0 <= i < j < |ts| ==> AtMost(ts[i], ts[j])
  }

  function Insert(t: string, ts: seq<string>): seq<string> {
    if ts == [] then [t]
    else if AtMost(t, ts[0]) then [t] + ts
    else [ts[0]] + Insert(t, ts[1..])
  }

  /** `sort.Strings`. */
  function Sort(ts: seq<string>): seq<string> {
    if ts == [] then [] else Insert(ts[0], Sort(ts[1..]))
  }

  lemma {:induction false} InsertKeepsTexts(t: string, ts: seq<string>)
    ensures multiset(Insert(t, ts)) == multiset(ts) + multiset{t}
  {
    if ts != [] && !AtMost(t, ts[0]) {
      InsertKeepsTexts(t, ts[1..]);
      assert ts == [ts[0]] + ts[1..];
    }
  }

  lemma {:induction false} SortKeepsTexts(ts: seq<string>)
    ensures multiset(Sort(ts)) == multiset(ts)
  {
    if ts != [] {
      SortKeepsTexts(ts[1..]);
      InsertKeepsTexts(ts[0], Sort(ts[1..]));
      assert ts == [ts[0]] + ts[1..];
    }
  }

  ghost predicate IsLeast(t: string, ts: seq<string>) {
    forall x :: x in ts ==> AtMost(t, x)
  }

  lemma PrependSorted(t: string, ts: seq<string>)
    requires IsSorted(ts) && IsLeast(t, ts)
    ensures IsSorted([t] + ts)
  {
    assert forall j :: 0 <= j < |ts| ==> ts[j] in ts;
  }

  lemma FirstIsLeast(t: string, ts: seq<string>)
    requires IsSorted(ts) && ts != [] && AtMost(t, ts[0])
    ensures IsLeast(t, ts)
  {
    forall x | x in ts ensures AtMost(t, x) {
      var k :| 0 <= k < |ts| && ts[k] == x;
      if k > 0 {
        AtMostIsTransitive(t, ts[0], x);
      }
    }
  }

  lemma {:induction false} InsertMembers(t: string, ts: seq<string>)
    ensures forall x :: x in Insert(t, ts) <==> x == t || x in ts
  {
    if ts != [] && !AtMost(t, ts[0]) {
      InsertMembers(t, ts[1..]);
      assert ts == [ts[0]] + ts[1..];
    }
  }

  lemma {:induction false} InsertKeepsSorted(t: string, ts: seq<string>)
    requires IsSorted(ts)
    ensures IsSorted(Insert(t, ts))
  {
    if ts != [] {
      AtMostIsTotal(t, ts[0]);
      if AtMost(t, ts[0]) {
        FirstIsLeast(t, ts);
        PrependSorted(t, ts);
      } else {
        FirstIsLeast(ts[0], ts);
        InsertKeepsSorted(t, ts[1..]);
        InsertMembers(t, ts[1..]);
        PrependSorted(ts[0], Insert(t, ts[1..]));
      }
    }
  }

  lemma {:induction false} SortIsSorted(ts: seq<string>)
    ensures IsSorted(Sort(ts))
  {
    if ts != [] {
      SortIsSorted(ts[1..]);
      InsertKeepsSorted(ts[0], Sort(ts[1..]));
    }
  }

  lemma WithoutAt<T>(s: seq<T>, k: nat)
    requires k < |s|
    ensures multiset(s) == multiset(s[..k] + s[k + 1..]) + multiset{s[k]}
  {
    assert s == s[..k] + [s[k]] + s[k + 1..];
  }

  lemma WithoutFirst<T>(s: seq<T>)
    requires s != []
    ensures multiset(s[1..]) == multiset(s) - multiset{s[0]}
  {
    assert s == [s[0]] + s[1..];
  }

  lemma SameFirst(a: seq<string>, b: seq<string>)
    requires IsSorted(a) && IsSorted(b) && a != [] && b != [] && a[0] in b && b[0] in a
    ensures a[0] == b[0]
  {
    FirstIsLeast(a[0], a);
    FirstIsLeast(b[0], b);
    AtMostIsTotal(a[0], b[0]);
  }

  lemma SameMembers<T>(a: seq<T>, b: seq<T>)
    requires multiset(a) == multiset(b)
    ensures |a| == |b| && forall i :: 0 <= i < |a| ==> a[i] in b
  {
    assert |a| == |multiset(a)| == |multiset(b)| == |b|;
    forall i | 0 <= i < |a| ensures a[i] in b {
      assert a[i] in multiset(a);
      assert a[i] in multiset(b);
    }
  }

  /** Sorted lists with the same members are the same. */
  lemma {:induction false} SortedIsUnique(a: seq<string>, b: seq<string>)
    requires IsSorted(a) && IsSorted(b) && multiset(a) == multiset(b)
    ensures a == b
  {
    SameMembers(a, b);
    SameMembers(b, a);
    if a != [] {
      SameFirst(a, b);
      WithoutFirst(a);
      WithoutFirst(b);
      SortedIsUnique(a[1..], b[1..]);
      assert a == [a[0]] + a[1..] && b == [b[0]] + b[1..];
    }
  }

  // ---------------------------------------------------------------------------------------------
  // Sorted and joined, for any way `f` of writing one item

  lemma {:induction false} PartsConcat<T>(a: seq<T>, b: seq<T>, f: T -> string)
    ensures Parts(a + b, f) == Parts(a, f) + Parts(b, f)
  {
    if a == [] {
      assert a + b == b;
    } else {
      PartsConcat(a[1..], b, f);
      assert (a + b)[1..] == a[1..] + b && (a + b)[0] == a[0];
      assert Parts(a + b, f) == [f(a[0])] + (Parts(a[1..], f) + Parts(b, f));
    }
  }

  lemma MiddleMember<T>(p: seq<T>, x: T, q: seq<T>)
    ensures multiset(p + ([x] + q)) == multiset(p + q) + multiset{x}
  {
  }

  lemma PartsWithoutAt<T>(s: seq<T>, k: nat, f: T -> string)
    requires k < |s|
    ensures multiset(Parts(s, f)) == multiset(Parts(s[..k] + s[k + 1..], f)) + multiset{f(s[k])}
  {
    var a, b, tail := s[..k], s[k + 1..], s[k..];
    assert s == a + tail && tail[1..] == b;
    PartsConcat(a, tail, f);
    PartsConcat(a, b, f);
    MiddleMember(Parts(a, f), f(s[k]), Parts(b, f));
  }

  lemma WithoutShared<T>(a: seq<T>, b: seq<T>, k: nat)
    requires multiset(a) == multiset(b) && a != [] && k < |b| && b[k] == a[0]
    ensures multiset(a[1..]) == multiset(b[..k] + b[k + 1..])
  {
    WithoutFirst(a);
    WithoutAt(b, k);
  }

  lemma {:induction false} PartsFollow<T>(a: seq<T>, b: seq<T>, f: T -> string)
    requires multiset(a) == multiset(b)
    ensures multiset(Parts(a, f)) == multiset(Parts(b, f))
  {
    SameMembers(a, b);
    if a != [] {
      var k :| 0 <= k < |b| && b[k] == a[0];
      var rest := b[..k] + b[k + 1..];
      WithoutShared(a, b, k);
      PartsFollow(a[1..], rest, f);
      PartsWithoutAt(b, k, f);
      assert multiset(Parts(a, f)) == multiset{f(a[0])} + multiset(Parts(a[1..], f));
    }
  }

  lemma SameItemsSameText<T>(a: seq<T>, b: seq<T>, f: T -> string)
    requires multiset(a) == multiset(b)
    ensures Join(Sort(Parts(a, f))) == Join(Sort(Parts(b, f)))
  {
    PartsFollow(a, b, f);
    SortKeepsTexts(Parts(a, f));
    SortKeepsTexts(Parts(b, f));
    SortIsSorted(Parts(a, f));
    SortIsSorted(Parts(b, f));
    SortedIsUnique(Sort(Parts(a, f)), Sort(Parts(b, f)));
  }

  function InsertItem<T>(e: T, es: seq<T>, f: T -> string): seq<T> {
    if es == [] then [e]
    else if AtMost(f(e), f(es[0])) then [e] + es
    else [es[0]] + InsertItem(e, es[1..], f)
  }

  /** The items in the order of their sorted texts. */
  function SortItems<T>(es: seq<T>, f: T -> string): seq<T> {
    if es == [] then [] else InsertItem(es[0], SortItems(es[1..], f), f)
  }

  lemma PartsPrepend<T>(e: T, es: seq<T>, f: T -> string)
    ensures Parts([e] + es, f) == [f(e)] + Parts(es, f)
  {
    assert ([e] + es)[1..] == es;
  }

  lemma {:induction false} InsertItemParts<T>(e: T, es: seq<T>, f: T -> string)
    ensures Parts(InsertItem(e, es, f), f) == Insert(f(e), Parts(es, f))
  {
    if es != [] {
      var rest := es[1..];
      assert Parts(es, f)[1..] == Parts(rest, f) && Parts(es, f)[0] == f(es[0]);
      if AtMost(f(e), f(es[0])) {
        PartsPrepend(e, es, f);
      } else {
        InsertItemParts(e, rest, f);
        PartsPrepend(es[0], InsertItem(e, rest, f), f);
      }
    }
  }

  lemma {:induction false} InsertItemMembers<T>(e: T, es: seq<T>, f: T -> string)
    ensures multiset(InsertItem(e, es, f)) == multiset(es) + multiset{e}
  {
    if es != [] {
      assert es == [es[0]] + es[1..];
      if !AtMost(f(e), f(es[0])) {
        InsertItemMembers(e, es[1..], f);
      }
    }
  }

  lemma {:induction false} SortItemsParts<T>(es: seq<T>, f: T -> string)
    ensures Parts(SortItems(es, f), f) == Sort(Parts(es, f))
    ensures multiset(SortItems(es, f)) == multiset(es)
  {
    if es != [] {
      assert Parts(es, f)[1..] == Parts(es[1..], f) && es == [es[0]] + es[1..];
      SortItemsParts(es[1..], f);
      InsertItemParts(es[0], SortItems(es[1..], f), f);
      InsertItemMembers(es[0], SortItems(es[1..], f), f);
    }
  }

  /** Where items are readable, the text of a list tells exactly whether its members have changed. */
  lemma TextTellsItems<T(!new)>(a: seq<T>, b: seq<T>, f: T -> string, ok: T -> bool)
    requires Readable(f, ok) && All(a, ok) && All(b, ok)
    ensures Join(Sort(Parts(a, f))) == Join(Sort(Parts(b, f))) <==> multiset(a) == multiset(b)
  {
    if multiset(a) == multiset(b) {
      SameItemsSameText(a, b, f);
    }
    if Join(Sort(Parts(a, f))) == Join(Sort(Parts(b, f))) {
      SortItemsParts(a, f);
      SortItemsParts(b, f);
      SameMembers(SortItems(a, f), a);
      SameMembers(SortItems(b, f), b);
      JoinIsReadable(SortItems(a, f), SortItems(b, f), f, ok);
    }
  }

  method WriteAll<T>(es: seq<T>, f: T -> string) returns (parts: seq<string>)
    ensures parts == Parts(es, f)
  {
    parts := [];
    for i := 0 to |es|
      invariant parts == Parts(es[..i], f)
    {
      PartsConcat(es[..i], [es[i]], f);
      PartsPrepend(es[i], [], f);
      assert es[..i + 1] == es[..i] + [es[i]] && [es[i]] + [] == [es[i]];
      parts := parts + [f(es[i])];
    }
    assert es[..|es|] == es;
  }

  // ---------------------------------------------------------------------------------------------
  // The signature

  function Write(): Entry -> string {
    (e: Entry) => Part(e)
  }

  function Text(es: seq<Entry>): string {
    Join(Sort(Parts(es, Write())))
  }

  predicate AllPlain(es: seq<Entry>, profile: string) {
    forall e :: e in es ==> Plain(e) && e.forward.profile == profile
  }

  lemma PartsAreReadable(profile: string)
    ensures Readable(Write(), (e: Entry) => Plain(e) && e.forward.profile == profile)
  {
    forall d: Entry, e: Entry, t, u
      | Plain(d) && Plain(e) && d.forward.profile == e.forward.profile && IsTail(t) && IsTail(u) &&
        Part(d) + t == Part(e) + u
      ensures d == e && t == u
    {
      PartIsReadable(d, e, t, u);
    }
  }

  /** An unchanged rule set has an unchanged text, in whatever order its rules come. */
  lemma SameRulesSameText(a: seq<Entry>, b: seq<Entry>)
    requires multiset(a) == multiset(b)
    ensures Text(a) == Text(b)
  {
    SameItemsSameText(a, b, Write());
  }

  /** Where names and hosts are plain, the text of a rule set tells exactly whether its rules have changed. */
  lemma TextTellsRules(a: seq<Entry>, b: seq<Entry>, profile: string)
    requires AllPlain(a, profile) && AllPlain(b, profile)
    ensures Text(a) == Text(b) <==> multiset(a) == multiset(b)
  {
    var ok := (e: Entry) => Plain(e) && e.forward.profile == profile;
    PartsAreReadable(profile);
    TextTellsItems(a, b, Write(), ok);
  }

  // ---------------------------------------------------------------------------------------------
  // Neither half of the condition can be dropped

  /** Two plain rules of one tunnel. */
  function TwoRules(profile: string): seq<Entry> {
    [Entry(1, Forward(7, "h", 1, "m", profile)), Entry(2, Forward(8, "h", 2, "n", profile))]
  }

  /** One rule whose name spells the rest of the first part and the beginning of the second. */
  function LongName(profile: string): Entry {
    Entry(1, Forward(8, "h", 2, "m:7->h:1,#2:" + profile + ":n", profile))
  }

  /** One rule whose host does. */
  function LongHost(profile: string): Entry {
    Entry(1, Forward(7, "h:1,#2:" + profile + ":n:8->h", 2, "m", profile))
  }

  lemma SmallNumbers()
    ensures Decimal(1) == "1" && Decimal(2) == "2" && Decimal(7) == "7" && Decimal(8) == "8"
  {
  }

  lemma PartOne(profile: string)
    ensures Part(TwoRules(profile)[0]) == "#1:" + (profile + ":m:7->h:1")
    ensures Part(TwoRules(profile)[1]) == "#2:" + (profile + ":n:8->h:2")
  {
    SmallNumbers();
  }

  lemma Regroup(a: string, p: string, b: string, c: string)
    ensures a + p + b + c == a + (p + (b + c))
  {
  }

  /** A part from its fields as texts. */
  lemma PartFrom(e: Entry, profile: string, mid: string)
    requires e.id == 1 && e.forward.profile == profile && Local(e.forward) + ['>'] + Target(e.forward) == mid
    ensures Part(e) == "#1:" + (profile + (":" + mid))
  {
    SmallNumbers();
    assert "#1:" + (profile + (":" + mid)) == ['#'] + ("1" + [':'] + (profile + ([':'] + mid)));
  }

  lemma PartOfLongName(profile: string)
    ensures Part(LongName(profile)) == "#1:" + (profile + (":" + ("m:7->h:1,#2:" + (profile + ":n:8->h:2"))))
  {
    SmallNumbers();
    var f := LongName(profile).forward;
    assert Local(f) + ['>'] + Target(f) == "m:7->h:1,#2:" + profile + ":n" + ":8->h:2";
    Regroup("m:7->h:1,#2:", profile, ":n", ":8->h:2");
    assert ":n" + ":8->h:2" == ":n:8->h:2";
    PartFrom(LongName(profile), profile, "m:7->h:1,#2:" + (profile + ":n:8->h:2"));
  }

  lemma PartOfLongHost(profile: string)
    ensures Part(LongHost(profile)) == "#1:" + (profile + (":" + ("m:7->h:1,#2:" + (profile + ":n:8->h:2"))))
  {
    SmallNumbers();
    var f := LongHost(profile).forward;
    assert Local(f) + ['>'] + Target(f) == "m:7->" + ("h:1,#2:" + profile + ":n:8->h" + ":2");
    Regroup("h:1,#2:", profile, ":n:8->h", ":2");
    assert ":n:8->h" + ":2" == ":n:8->h:2";
    assert "m:7->" + ("h:1,#2:" + (profile + ":n:8->h:2")) == "m:7->h:1,#2:" + (profile + ":n:8->h:2");
    PartFrom(LongHost(profile), profile, "m:7->h:1,#2:" + (profile + ":n:8->h:2"));
  }

  lemma OneBeforeTwo(x: string, y: string)
    ensures AtMost("#1:" + x, "#2:" + y)
  {
    var a, b := Codes("#1:" + x), Codes("#2:" + y);
    assert a[0] == b[0] && a[1] < b[1];
    assert Less(a[1..], b[1..]);
  }

  lemma TextOfOne(e: Entry)
    ensures Text([e]) == Part(e)
  {
    assert Parts([e], Write()) == [Part(e)];
    assert Sort([Part(e)]) == [Part(e)];
    assert Part(e) + "" == Part(e);
  }

  lemma TextOfPair(x: string, y: string)
    requires AtMost(x, y)
    ensures Join(Sort([x, y])) == x + ([','] + y)
  {
    assert [x, y][1..] == [y] && [y][1..] == [];
    assert Sort([y]) == Insert(y, Sort([])) == [y];
    assert Sort([x, y]) == Insert(x, Sort([y])) == [x, y];
    assert Rest([y]) == [','] + (y + Rest([])) && y + "" == y;
  }

  lemma TwoParts<T>(d: T, e: T, f: T -> string)
    ensures Parts([d, e], f) == [f(d), f(e)]
  {
    assert [d, e][1..] == [e] && [e][1..] == [];
    assert Parts([e], f) == [f(e)] + Parts([], f);
  }

  lemma AcrossTheComma(p: string, b: string)
    ensures "#1:" + (p + ":m:7->h:1") + ([','] + ("#2:" + b)) == "#1:" + (p + (":" + ("m:7->h:1,#2:" + b)))
  {
    assert ":m:7->h:1" + ([','] + ("#2:" + b)) == ":" + ("m:7->h:1,#2:" + b);
    Regroup("#1:", p, ":m:7->h:1", [','] + ("#2:" + b));
  }

  lemma TextOfTwo(profile: string)
    ensures Text(TwoRules(profile)) == "#1:" + (profile + (":" + ("m:7->h:1,#2:" + (profile + ":n:8->h:2"))))
  {
    var d, e := TwoRules(profile)[0], TwoRules(profile)[1];
    PartOne(profile);
    OneBeforeTwo(profile + ":m:7->h:1", profile + ":n:8->h:2");
    TwoParts(d, e, Write());
    TextOfPair(Part(d), Part(e));
    AcrossTheComma(profile, profile + ":n:8->h:2");
  }

  /** Two rules and a single one with '>' in its name, but no ',' in its host, have the same text: the agent takes the
      one set for the other and keeps the old tunnels running. */
  lemma NameCollision(profile: string)
    ensures AllPlain(TwoRules(profile), profile) && ',' !in LongName(profile).forward.host
    ensures Text(TwoRules(profile)) == Text([LongName(profile)])
  {
    TextOfTwo(profile);
    TextOfOne(LongName(profile));
    PartOfLongName(profile);
  }

  /** The same with ',' in the host, but no '>' in the name. */
  lemma HostCollision(profile: string)
    ensures AllPlain(TwoRules(profile), profile) && '>' !in LongHost(profile).forward.name
    ensures Text(TwoRules(profile)) == Text([LongHost(profile)])
  {
    TextOfTwo(profile);
    TextOfOne(LongHost(profile));
    PartOfLongHost(profile);
  }
}
