/** The flood tracker of flood.c, on a hash table of recent senders. */
module Flood {
  import opened Ircaux
  import opened Chain
  import opened HashTable
  import opened NickTable

  const FLOOD_HASHSIZE := 31

  /** The kinds of message that are watched. */
  datatype Kind = Msg | Public | Notice | Wall | Wallop | Ctcp | Invite | Action

  /** What the table holds under a nickname. */
  datatype Flooder = Flooder(kinds: set<Kind>, cnt: nat, start: int, flood: bool)

  type FloodTable = Table<Flooder>

  ghost function Size(t: FloodTable): nat
    reads t`chains
  {
    |Flat(t.chains, 0)|
  }

  lemma {:induction false} EmptyChains<N>(chains: seq<seq<N>>, b: nat)
    requires b <= |chains| && forall c :: b <= c < |chains| ==> chains[c] == []
    ensures Flat(chains, b) == []
    decreases |chains| - b
  {
    if b < |chains| { EmptyChains(chains, b + 1); }
  }

  /** Frees the entry that a search for the name of the i-th node of bucket x finds. */
  method Free(t: FloodTable, ptr: Node<Flooder>, x: nat, ghost i: nat) returns (next: Node?<Flooder>, ghost k: nat)
    requires t.Valid() && x < |t.chains| && i < |t.chains[x]| && ptr == t.chains[x][i]
    modifies t`chains, t`repr, t.entries, t.repr`next
    ensures t.Valid() && t.repr <= old(t.repr) && next == null && k <= i
    ensures t.chains == old(t.chains)[x := Without(old(t.chains[x]), k)] && Size(t) == old(Size(t)) - 1
    ensures old(NamesDiffer(t.chains[x])) ==> k == i
  {
    var found;
    ghost var j;
    ghost var before: seq<seq<Node<Flooder>>> := t.chains;
    assert SameName(ptr.name, before[x][i].name);
    found, j := t.Find(ptr.name, true);
    k := j;
    next := found.next;
    FlatSize(before, 0, x, Without(before[x], k));
  }

  /** add_name_to_floodlist. */
  method AddName(t: FloodTable, name: CString, data: Flooder) returns (node: Node<Flooder>)
    requires t.Valid()
    modifies t`chains, t`repr, t.entries
    ensures t.Valid() && fresh(node) && node.name == name && node.data == data
    ensures t.repr == old(t.repr) + {node} && Size(t) == old(Size(t)) + 1
  {
    node := new Node(name, data);
    ghost var chains, h := t.chains, Hash(name, t.entries.Length);
    t.Add(node);
    FlatSize(chains, 0, h, [node] + chains[h]);
  }

  ghost predicate Fresh(n: Node<Flooder>, now: int, timet: int)
    reads n`data
  {
    n.data.start + timet > now
  }

  ghost predicate AllFresh(chain: seq<Node<Flooder>>, now: int, timet: int)
    reads chain`data
  {
    forall i :: 0 <= i < |chain| ==> Fresh(chain[i], now, timet)
  }

  /** The entries of the chain that began less than timet ago, in their order. */
  ghost function Young(chain: seq<Node<Flooder>>, now: int, timet: int): seq<Node<Flooder>>
    reads chain`data
  {
    if chain == [] then []
    else (if now - chain[0].data.start < timet then [chain[0]] else []) + Young(chain[1..], now, timet)
  }

  /** No two entries of the chain are of one nick. */
  ghost predicate NamesDiffer(chain: seq<Node<Flooder>>)
    reads chain`name
  {
    forall i, j :: 0 <= i < j < |chain| ==> !SameName(chain[i].name, chain[j].name) && !SameName(chain[j].name, chain[i].name)
  }

  lemma {:induction false} AllYoung(chain: seq<Node<Flooder>>, now: int, timet: int)
    requires AllFresh(chain, now, timet)
    ensures Young(chain, now, timet) == chain
  {
    if chain != [] { AllYoung(chain[1..], now, timet); }
  }

  lemma {:induction false} YoungWithout(chain: seq<Node<Flooder>>, k: nat, now: int, timet: int)
    requires k < |chain| && !Fresh(chain[k], now, timet)
    ensures Young(Without(chain, k), now, timet) == Young(chain, now, timet)
  {
    var rest := Without(chain, k);
    if k == 0 {
      assert rest == chain[1..];
    } else {
      assert rest[1..] == Without(chain[1..], k - 1) && rest[0] == chain[0];
      YoungWithout(chain[1..], k - 1, now, timet);
    }
  }

  /** The entries the bucket loop has left are the old ones without some that have expired, if no
      nick is there twice. */
  ghost predicate Thinned(young: seq<Node<Flooder>>, differ: bool, chain: seq<Node<Flooder>>, now: int, timet: int)
    reads chain`name, chain`data
  {
    differ ==> NamesDiffer(chain) && Young(chain, now, timet) == young
  }

  lemma WithoutIsThinned(chain: seq<Node<Flooder>>, i: nat, k: nat, now: int, timet: int)
    requires i < |chain| && k < |chain| && !Fresh(chain[i], now, timet) && (NamesDiffer(chain) ==> k == i)
    ensures Thinned(Young(chain, now, timet), NamesDiffer(chain), Without(chain, k), now, timet)
  {
    if NamesDiffer(chain) { YoungWithout(chain, i, now, timet); }
  }

  /** One turn of the loop below: the first entry with the name of an expired one goes. */
  method FreeExpired(t: FloodTable, ptr: Node<Flooder>, x: nat, ghost i: nat, now: int, timet: int)
    requires t.Valid() && x < |t.chains| && i < |t.chains[x]| && ptr == t.chains[x][i] && !Fresh(ptr, now, timet)
    modifies t`chains, t`repr, t.entries, t.repr`next
    ensures t.Valid() && t.repr <= old(t.repr) && Size(t) == old(Size(t)) - 1
    ensures |t.chains| == |old(t.chains)| && forall b :: 0 <= b < |t.chains| && b != x ==> t.chains[b] == old(t.chains)[b]
    ensures |t.chains[x]| == |old(t.chains[x])| - 1
    ensures Thinned(old(Young(t.chains[x], now, timet)), old(NamesDiffer(t.chains[x])), t.chains[x], now, timet)
  {
    ghost var chain := t.chains[x];
    ghost var k;
    var next;
    next, k := Free(t, ptr, x, i);
    WithoutIsThinned(chain, i, k, now, timet);
  }

  lemma LinksFollow(t: FloodTable, x: nat, i: nat)
    requires t.Valid() && x < |t.chains|
    ensures t.entries[x].list == NodeAt(t.chains[x], 0)
    ensures i < |t.chains[x]| ==> t.chains[x][i].next == NodeAt(t.chains[x], i + 1)
  {
    assert Heads(t.entries[x], t.chains[x]);
  }

  /** One bucket of the first half of remove_oldest_flood_hashlist: everything that has expired goes. */
  method RemoveExpiredIn(t: FloodTable, x: nat, now: int, timet: int) returns (total: nat)
    requires t.Valid() && x < |t.chains| && forall n :: n in t.repr ==> n.name != ""
    modifies t`chains, t`repr, t.entries, t.repr`next
    ensures t.Valid() && t.repr <= old(t.repr) && Size(t) == old(Size(t)) - total
    ensures AllFresh(t.chains[x], now, timet)
    ensures |t.chains| == |old(t.chains)| && forall b :: 0 <= b < |t.chains| && b != x ==> t.chains[b] == old(t.chains)[b]
    ensures old(NamesDiffer(t.chains[x])) ==> t.chains[x] == old(Young(t.chains[x], now, timet))
  {
    total := 0;
    LinksFollow(t, x, 0);
    var ptr := t.entries[x].list;
    if ptr == null || ptr.name == "" { return; }
    ghost var i := 0;
    while ptr != null
      invariant t.Valid() && t.repr <= old(t.repr) && Size(t) == old(Size(t)) - total
      invariant |t.chains| == |old(t.chains)| && forall b :: 0 <= b < |t.chains| && b != x ==> t.chains[b] == old(t.chains)[b]
      invariant i <= |t.chains[x]| && ptr == NodeAt(t.chains[x], i)
      invariant forall j :: 0 <= j < i ==> Fresh(t.chains[x][j], now, timet)
      invariant Thinned(old(Young(t.chains[x], now, timet)), old(NamesDiffer(t.chains[x])), t.chains[x], now, timet)
      decreases |t.chains[x]|, |t.chains[x]| - i
    {
      if ptr.data.start + timet <= now {
        FreeExpired(t, ptr, x, i, now, timet);
        total := total + 1;
        LinksFollow(t, x, 0);
        ptr, i := t.entries[x].list, 0;
      } else {
        LinksFollow(t, x, i);
        ptr, i := ptr.next, i + 1;
      }
    }
    AllYoung(t.chains[x], now, timet);
  }

  /** What is left of a bucket once the expired entries have gone. */
  twostate predicate OnlyYoung(chain: seq<Node<Flooder>>, new left: seq<Node<Flooder>>, now: int, timet: int)
    reads left`data
  {
    AllFresh(left, now, timet) && (old(NamesDiffer(chain)) ==> left == old(Young(chain, now, timet)))
  }

  method RemoveExpired(t: FloodTable, now: int, timet: int) returns (total: nat)
    requires t.Valid() && forall n :: n in t.repr ==> n.name != ""
    modifies t`chains, t`repr, t.entries, t.repr`next
    ensures t.Valid() && t.repr <= old(t.repr) && Size(t) == old(Size(t)) - total
    ensures |t.chains| == |old(t.chains)|
    ensures forall b :: 0 <= b < |t.chains| ==> OnlyYoung(old(t.chains)[b], t.chains[b], now, timet)
  {
    total := 0;
    for x := 0 to t.entries.Length
      invariant t.Valid() && t.repr <= old(t.repr) && Size(t) == old(Size(t)) - total
      invariant |t.chains| == |old(t.chains)| && forall b :: x <= b < |t.chains| ==> t.chains[b] == old(t.chains)[b]
      invariant forall b :: 0 <= b < x ==> AllFresh(t.chains[b], now, timet)
      invariant forall b :: 0 <= b < x && old(NamesDiffer(t.chains[b])) ==> t.chains[b] == old(Young(t.chains[b], now, timet))
    {
      ghost var chain := t.chains[x];
      assert Young(chain, now, timet) == old(Young(chain, now, timet)) && NamesDiffer(chain) == old(NamesDiffer(chain));
      var n := RemoveExpiredIn(t, x, now, timet);
      total := total + n;
    }
  }

  lemma HeadHasStarted(t: FloodTable, now: int, b: nat)
    requires t.Valid() && b < |t.chains| && forall n :: n in t.repr ==> n.data.start <= now
    ensures |t.chains[b]| > 0 ==> !Fresh(t.chains[b][0], now, 0)
  {
  }

  /** Once everything that started by now has gone, nothing is left. */
  lemma NothingIsFresh(t: FloodTable, now: int)
    requires t.Valid() && forall n :: n in t.repr ==> n.data.start <= now
    requires forall b :: 0 <= b < |t.chains| ==> AllFresh(t.chains[b], now, 0)
    ensures Size(t) == 0
  {
    forall b | 0 <= b < |t.chains| ensures t.chains[b] == [] {
      HeadHasStarted(t, now, b);
      assert AllFresh(t.chains[b], now, 0);
    }
    EmptyChains(t.chains, 0);
  }

  ghost predicate AllEmpty<N>(chains: seq<seq<N>>, x: nat) {
    x <= |chains| && forall c :: 0 <= c < x ==> chains[c] == []
  }

  /** One bucket of the other half. */
  method RemoveSomeIn(t: FloodTable, x: nat, limit: int) returns (total: nat)
    requires t.Valid() && x < t.entries.Length && forall n :: n in t.repr ==> n.name != ""
    modifies t`chains, t`repr, t.entries, t.repr`next
    ensures t.Valid() && t.repr <= old(t.repr) && Size(t) == old(Size(t)) - total
    ensures total == if limit != 0 && old(t.chains[x]) != [] then 1 else 0
    ensures t.chains == if total == 0 then old(t.chains) else old(t.chains)[x := Without(old(t.chains[x]), 0)]
    ensures total == 0 && limit != 0 && old(AllEmpty(t.chains, x)) ==> AllEmpty(t.chains, x + 1)
  {
    total := 0;
    assert Heads(t.entries[x], t.chains[x]);
    var ptr := t.entries[x].list;
    if ptr == null || ptr.name == "" { return; }
    while ptr != null && limit - total != 0
      invariant t.Valid() && t.repr <= old(t.repr) && Size(t) == old(Size(t)) - total
      invariant if ptr == null then total == 1 && limit != 0 && t.chains == old(t.chains)[x := Without(old(t.chains[x]), 0)] else total == 0 && t.chains == old(t.chains) && ptr == t.chains[x][0]
      decreases ptr != null
    {
      ghost var k;
      ptr, k := Free(t, ptr, x, 0);
      total := total + 1;
    }
  }

  /** The other half: one entry from each bucket, as long as the count lasts. The link of a freed
      entry is already null, so a chain is never followed further. */
  method RemoveSome(t: FloodTable, limit: int) returns (total: nat)
    requires t.Valid() && limit != 0 && forall n :: n in t.repr ==> n.name != ""
    modifies t`chains, t`repr, t.entries, t.repr`next
    ensures t.Valid() && t.repr <= old(t.repr) && Size(t) == old(Size(t)) - total
    ensures limit > 0 ==> total <= limit
    ensures old(Size(t)) > 0 ==> total > 0
  {
    total := 0;
    for x := 0 to t.entries.Length
      invariant t.Valid() && t.repr <= old(t.repr) && Size(t) == old(Size(t)) - total
      invariant limit > 0 ==> total <= limit
      invariant total == 0 ==> AllEmpty(t.chains, x)
    {
      var n := RemoveSomeIn(t, x, limit - total);
      total := total + n;
    }
    if total == 0 { EmptyChains(t.chains, 0); }
  }

  method RemoveOldest(t: FloodTable, now: int, timet: int, count: int) returns (total: nat)
    requires t.Valid() && forall n :: n in t.repr ==> n.name != ""
    modifies t`chains, t`repr, t.entries, t.repr`next
    ensures t.Valid() && t.repr <= old(t.repr) && Size(t) == old(Size(t)) - total
    ensures count == 0 ==> |t.chains| == |old(t.chains)| &&
                           forall b :: 0 <= b < |t.chains| ==> OnlyYoung(old(t.chains)[b], t.chains[b], now, timet)
    ensures count > 0 ==> total <= count
    ensures count != 0 && old(Size(t)) > 0 ==> total > 0
  {
    if count == 0 { total := RemoveExpired(t, now, timet); } else { total := RemoveSome(t, count); }
  }

  /** What the settings say for the kind of message at hand (get_flood_count, get_flood_rate). */
  datatype Limits = Limits(count: nat, rate: nat)

  /** More messages in the time since the first one than the limits allow, compared as quotients. */
  predicate TooFast(cnt: nat, elapsed: int, limits: Limits)
    requires limits.rate > 0
  {
    elapsed == 0 || cnt as real / elapsed as real > limits.count as real / limits.rate as real
  }

  /** What one more message does to an entry, and whether it is the one that raises the alarm. */
  function Count(d: Flooder, kind: Kind, now: int, limits: Limits): (Flooder, bool) {
    if kind !in d.kinds then (d.(kinds := d.kinds + {kind}), false)
    else if limits.count == 0 || limits.rate == 0 then (d, false)
    else
      var d' := d.(cnt := d.cnt + 1);
      if d'.cnt <= limits.count then (d', false)
      else if TooFast(d'.cnt, now - d.start, limits) then (d'.(flood := true), !d.flood)
      else (d'.(flood := false, cnt := 1, start := now), false)
  }

  /** The branch of check_flooding for a sender that is in the table. */
  method CountMessage(tmp: Node<Flooder>, kind: Kind, now: int, limits: Limits, prot: bool) returns (r: int)
    modifies tmp`data
    ensures tmp.data == Count(old(tmp.data), kind, now, limits).0
    ensures r == if Count(old(tmp.data), kind, now, limits).1 && prot && kind in {Msg, Notice, Ctcp, Action} then 0 else 1
  {
    if kind !in tmp.data.kinds {
      tmp.data := tmp.data.(kinds := tmp.data.kinds + {kind});
      return 1;
    }
    if limits.count == 0 || limits.rate == 0 { return 1; }
    tmp.data := tmp.data.(cnt := tmp.data.cnt + 1);
    if tmp.data.cnt > limits.count {
      if TooFast(tmp.data.cnt, now - tmp.data.start, limits) {
        if !tmp.data.flood {
          tmp.data := tmp.data.(flood := true);
          if kind in {Msg, Notice, Ctcp, Action} && prot { return 0; }
        }
        return 1;
      }
      tmp.data := tmp.data.(flood := false, cnt := 1, start := now);
    }
    return 1;
  }

  // ----- What an alarm means over a run of messages to one entry

  datatype Message = Message(kind: Kind, now: int)

  function AfterMessages(d: Flooder, run: seq<Message>, settings: Kind -> Limits): Flooder
    decreases |run|
  {
    if run == [] then d else AfterMessages(Count(d, run[0].kind, run[0].now, settings(run[0].kind)).0, run[1..], settings)
  }

  predicate RaisesAlarm(d: Flooder, m: Message, settings: Kind -> Limits) {
    Count(d, m.kind, m.now, settings(m.kind)).1
  }

  /** No kind of message that is counted has a limit below n. */
  predicate AllowsAtLeast(settings: Kind -> Limits, n: nat) {
    forall kind :: settings(kind).count == 0 || settings(kind).rate == 0 || settings(kind).count >= n
  }

  /** The least number of further messages up to and including the next alarm. */
  function Needed(d: Flooder, n: nat): int {
    if d.flood then n + 1 else n + 1 - d.cnt
  }

  lemma {:induction false} NoAlarmBefore(d: Flooder, run: seq<Message>, m: Message, settings: Kind -> Limits, n: nat)
    requires AllowsAtLeast(settings, n) && RaisesAlarm(AfterMessages(d, run, settings), m, settings)
    ensures |run| + 1 >= Needed(d, n)
    decreases |run|
  {
    if run == [] {
      assert settings(m.kind).count >= n;
    } else {
      NoAlarmBefore(Count(d, run[0].kind, run[0].now, settings(run[0].kind)).0, run[1..], m, settings, n);
    }
  }

  /** After an alarm the next one takes more messages than the limit allows: the sender first has to
      fall below the rate, and then to exceed the limit anew. This holds whatever the times. */
  lemma AlarmsAreApart(d: Flooder, first: Message, between: seq<Message>, second: Message, settings: Kind -> Limits, n: nat)
    requires AllowsAtLeast(settings, n) && RaisesAlarm(d, first, settings)
    requires var d' := AfterMessages(d, [first], settings); RaisesAlarm(AfterMessages(d', between, settings), second, settings)
    ensures |between| + 1 >= n + 1
  {
    var d' := AfterMessages(d, [first], settings);
    assert d' == Count(d, first.kind, first.now, settings(first.kind)).0;
    NoAlarmBefore(d', between, second, settings, n);
  }

  lemma {:induction false} Burst(d: Flooder, m: Message, k: nat, settings: Kind -> Limits)
    requires m.kind in d.kinds && settings(m.kind).rate > 0 && d.cnt + k <= settings(m.kind).count
    ensures AfterMessages(d, seq(k, _ => m), settings) == d.(cnt := d.cnt + k)
    decreases k
  {
    if k > 0 {
      assert seq(k, _ => m)[1..] == seq(k - 1, _ => m);
      Burst(d.(cnt := d.cnt + 1), m, k - 1, settings);
    }
  }

  /** The bound is met for every limit and rate: a late burst of one message more than allowed. */
  lemma AlarmsCanBeThatClose(d: Flooder, first: Message, settings: Kind -> Limits)
    returns (between: seq<Message>, second: Message)
    requires RaisesAlarm(d, first, settings)
    ensures |between| + 1 == settings(first.kind).count + 1
    ensures var d' := AfterMessages(d, [first], settings); RaisesAlarm(AfterMessages(d', between, settings), second, settings)
  {
    var limits, kind := settings(first.kind), first.kind;
    var d' := AfterMessages(d, [first], settings);
    assert d' == Count(d, kind, first.now, limits).0;
    second := Message(kind, d'.start + (d'.cnt + 1) * limits.rate);
    SlowEnough(d'.cnt + 1, limits);
    var d2 := Count(d', kind, second.now, limits).0;
    assert d2 == d'.(flood := false, cnt := 1, start := second.now);
    var burst := seq(limits.count - 1, _ => second);
    between := [second] + burst;
    assert between[1..] == burst;
    Burst(d2, second, limits.count - 1, settings);
  }

  lemma SlowEnough(cnt: nat, limits: Limits)
    requires cnt > 0 && limits.rate > 0 && limits.count > 0
    ensures !TooFast(cnt, cnt * limits.rate, limits)
  {
    var c, r, x := cnt as real, limits.rate as real, 1.0 / limits.rate as real;
    assert (cnt * limits.rate) as real == c * r && cnt * limits.rate > 0;
    assert x * r == 1.0;
    assert c == c * (x * r) == x * (c * r);
    assert c / (c * r) == x;
    QuotientGrows(limits.count as real, r);
  }

  lemma QuotientGrows(a: real, r: real)
    requires a >= 1.0 && r > 0.0
    ensures a / r >= 1.0 / r
  {
    assert (a / r - 1.0 / r) * r == a - 1.0;
  }

  function KindsOf(run: seq<Message>): set<Kind> {
    set i | 0 <= i < |run| :: run[i].kind
  }

  /** The first message of each kind is remembered and does not count. */
  predicate AllNew(kinds: set<Kind>, run: seq<Message>)
    decreases |run|
  {
    run == [] || (run[0].kind !in kinds && AllNew(kinds + {run[0].kind}, run[1..]))
  }

  lemma {:induction false} KindsAreKept(d: Flooder, run: seq<Message>, settings: Kind -> Limits)
    ensures AfterMessages(d, run, settings).kinds == d.kinds + KindsOf(run)
    ensures AllNew(d.kinds, run) ==> AfterMessages(d, run, settings) == d.(kinds := d.kinds + KindsOf(run))
    decreases |run|
  {
    if run == [] {
      assert KindsOf(run) == {} && d.kinds + {} == d.kinds;
    } else {
      var d' := Count(d, run[0].kind, run[0].now, settings(run[0].kind)).0;
      KindsAreKept(d', run[1..], settings);
      KindsOfMore(run);
      assert d'.kinds == d.kinds + {run[0].kind};
      assert d'.kinds + KindsOf(run[1..]) == d.kinds + KindsOf(run);
    }
  }

  lemma KindsOfMore(run: seq<Message>)
    requires run != []
    ensures KindsOf(run) == {run[0].kind} + KindsOf(run[1..])
  {
    assert forall i :: 1 <= i < |run| ==> run[1..][i - 1] == run[i];
    forall kind | kind in KindsOf(run) ensures kind in {run[0].kind} + KindsOf(run[1..]) {
      var i :| 0 <= i < |run| && run[i].kind == kind;
      if i > 0 { assert run[1..][i - 1].kind == kind; }
    }
  }

  // ----- When the alarm is raised

  lemma QuotientsCompare(a: nat, b: nat, c: nat, d: nat)
    requires b > 0 && d > 0
    ensures a as real / b as real > c as real / d as real <==> a * d > c * b
  {
    var x, y, e, f := a as real / b as real, c as real / d as real, b as real, d as real;
    assert x * e == a as real && y * f == c as real;
    assert (a * d) as real == a as real * f == x * e * f == x * (e * f);
    assert (c * b) as real == c as real * e == y * f * e == y * (e * f);
    Scaled(x, y, e * f);
  }

  lemma Scaled(x: real, y: real, f: real)
    requires f > 0.0
    ensures x > y <==> x * f > y * f
  {
    assert (x - y) * f == x * f - y * f;
  }

  /** The alarm is raised exactly by a message of a kind the sender has used before, that is counted,
      exceeds the limit, comes faster than the limit in the rate, and finds the flag down. */
  lemma AlarmIsExact(d: Flooder, m: Message, settings: Kind -> Limits)
    requires d.start <= m.now
    ensures RaisesAlarm(d, m, settings) <==>
            var limits, elapsed := settings(m.kind), m.now - d.start;
            && m.kind in d.kinds && limits.count > 0 && limits.rate > 0 && !d.flood && d.cnt + 1 > limits.count
            && (elapsed == 0 || (d.cnt + 1) * limits.rate > limits.count * elapsed)
  {
    var limits, elapsed := settings(m.kind), m.now - d.start;
    if limits.rate > 0 && elapsed > 0 { QuotientsCompare(d.cnt + 1, elapsed, limits.count, limits.rate); }
  }

  /** The messages are of kinds the sender has used before, and have these limits. */
  predicate Counted(d: Flooder, run: seq<Message>, settings: Kind -> Limits, limits: Limits) {
    && limits.count > 0 && limits.rate > 0
    && forall i :: 0 <= i < |run| ==> run[i].kind in d.kinds && settings(run[i].kind) == limits
  }

  /** One message more than the limit within the time of the rate raises the alarm, at the last of them. */
  lemma {:induction false} BurstRaisesAlarm(d: Flooder, run: seq<Message>, m: Message, settings: Kind -> Limits, limits: Limits)
    requires Counted(d, run + [m], settings, limits) && !d.flood && d.cnt + |run| == limits.count
    requires forall i :: 0 <= i <= |run| ==> d.start <= (run + [m])[i].now <= d.start + limits.rate
    ensures RaisesAlarm(AfterMessages(d, run, settings), m, settings)
    decreases |run|
  {
    var all := run + [m];
    assert all[|run|] == m;
    if run == [] {
      AlarmIsExact(d, m, settings);
      InTime(d.cnt + 1, m.now - d.start, limits);
    } else {
      assert all[0] == run[0] && all[1..] == run[1..] + [m];
      var d' := Count(d, run[0].kind, run[0].now, limits).0;
      assert d' == d.(cnt := d.cnt + 1);
      assert forall i :: 0 <= i < |run| ==> all[1..][i] == all[i + 1];
      BurstRaisesAlarm(d', run[1..], m, settings, limits);
    }
  }

  lemma InTime(cnt: nat, elapsed: nat, limits: Limits)
    requires cnt > limits.count && limits.rate > 0 && elapsed <= limits.rate
    ensures cnt * limits.rate > limits.count * elapsed
  {
    assert limits.count * elapsed <= limits.count * limits.rate < cnt * limits.rate;
  }

  /** The messages come at least gap apart, the first that long after `last`. */
  predicate Spaced(run: seq<Message>, last: int, gap: nat) {
    run != [] ==> run[0].now >= last + gap && Spaced(run[1..], run[0].now, gap)
  }

  /** What an entry comes to under a slow sender: the count has not run up in less time than the gaps take. */
  predicate Slow(d: Flooder, last: int, gap: nat, limits: Limits) {
    !d.flood && 1 <= d.cnt <= limits.count && d.start + (d.cnt - 1) * gap <= last
  }

  /** A sender whose messages keep far enough apart never raises the alarm. */
  lemma {:induction false} SlowSenderIsSpared(d: Flooder, run: seq<Message>, m: Message, last: int, gap: nat,
                                              settings: Kind -> Limits, limits: Limits)
    requires limits.count > 0 && limits.rate > 0 && forall kind :: settings(kind) == limits
    requires limits.count * (limits.count * gap) >= (limits.count + 1) * limits.rate
    requires Slow(d, last, gap, limits) && Spaced(run + [m], last, gap)
    ensures !RaisesAlarm(AfterMessages(d, run, settings), m, settings)
    decreases |run|
  {
    var first := (run + [m])[0];
    var d' := Count(d, first.kind, first.now, limits).0;
    SlowStep(d, first, last, gap, settings, limits);
    if run != [] {
      assert (run + [m])[1..] == run[1..] + [m];
      SlowSenderIsSpared(d', run[1..], m, first.now, gap, settings, limits);
    }
  }

  lemma SlowStep(d: Flooder, m: Message, last: int, gap: nat, settings: Kind -> Limits, limits: Limits)
    requires limits.count > 0 && limits.rate > 0 && settings(m.kind) == limits
    requires limits.count * (limits.count * gap) >= (limits.count + 1) * limits.rate
    requires Slow(d, last, gap, limits) && m.now >= last + gap
    ensures !RaisesAlarm(d, m, settings) && Slow(Count(d, m.kind, m.now, limits).0, m.now, gap, limits)
  {
    OneGapMore(d.cnt, d.start, last, m.now, gap);
    if d.cnt == limits.count { InTimeIsNotTooFast(m.now - d.start, gap, limits); }
  }

  lemma OneGapMore(cnt: nat, start: int, last: int, now: int, gap: nat)
    requires cnt > 0 && start + (cnt - 1) * gap <= last && last + gap <= now
    ensures start + cnt * gap <= now && start + (cnt - 1) * gap <= now && start <= now
  {
    assert cnt * gap == (cnt - 1) * gap + gap && (cnt - 1) * gap >= 0;
  }

  lemma InTimeIsNotTooFast(elapsed: nat, gap: nat, limits: Limits)
    requires limits.count > 0 && limits.rate > 0 && limits.count * gap <= elapsed
    requires limits.count * (limits.count * gap) >= (limits.count + 1) * limits.rate
    ensures elapsed > 0 && !TooFast(limits.count + 1, elapsed, limits)
  {
    assert (limits.count + 1) * limits.rate > 0;
    assert limits.count * (limits.count * gap) <= limits.count * elapsed;
    if elapsed > 0 { QuotientsCompare(limits.count + 1, elapsed, limits.count, limits.rate); }
  }

  /** Every entry has a name and began in the past. */
  ghost predicate Started(nodes: set<Node<Flooder>>, clock: int)
    reads nodes`name, nodes`data
  {
    forall n :: n in nodes ==> n.name != "" && n.data.start <= clock
  }

  /** The state of check_flooding: the table, the static `pos`, and the time of the latest call. */
  class Tracker {
    const users: nat
    var table: FloodTable
    var pos: int
    ghost var clock: int

    /** `pos` drifts from the number of entries, since the periodic clean-up does not lower it; but
        while it is within the limit it bounds them, and once it is past there is at most one. */
    ghost predicate Valid()
      reads this, table, table.entries, table.repr
    {
      && users >= 1
      && table.Valid() && table.entries.Length == FLOOD_HASHSIZE
      && Started(table.repr, clock)
      && (pos <= users ==> Size(table) <= pos)
      && (pos > users ==> Size(table) <= 1)
    }

    constructor (users: nat, now: int)
      requires users >= 1
      ensures Valid() && fresh(table) && fresh(table.entries) && table.repr == {} && this.users == users && clock == now
    {
      this.users, clock, pos := users, now, 0;
      table := new Table<Flooder>(FLOOD_HASHSIZE);
      new;
      EmptyChains(table.chains, 0);
    }

    /** Room for one more entry: afterwards `pos` is within the limit, or the table is empty. */
    method MakeRoom(now: int)
      requires Valid() && now == clock
      modifies this`pos, table`chains, table`repr, table.entries, table.repr`next
      ensures Valid() && (pos < users || Size(table) == 0) && table.repr <= old(table.repr)
    {
      if pos >= users {
        var total := RemoveOldest(table, now, 0, users + 1 - pos);
        if pos == users + 1 { NothingIsFresh(table, now); }
        pos := pos - total;
      }
    }

    method Enter(nick: CString, kind: Kind, now: int) returns (node: Node<Flooder>)
      requires Valid() && nick != "" && now == clock && (pos < users || Size(table) == 0)
      modifies this`pos, table`chains, table`repr, table.entries, table.repr`next
      ensures Valid() && Size(table) <= users
      ensures node.name == nick && node.data == Flooder({kind}, 1, now, false)
    {
      node := AddName(table, nick, Flooder({kind}, 1, now, false));
      pos := pos + 1;
    }

    method AddSender(nick: CString, kind: Kind, now: int) returns (node: Node<Flooder>)
      requires Valid() && nick != "" && now == clock
      modifies this`pos, table`chains, table`repr, table.entries, table.repr`next
      ensures Valid() && Size(table) <= users
      ensures node.name == nick && node.data == Flooder({kind}, 1, now, false)
    {
      MakeRoom(now);
      node := Enter(nick, kind, now);
    }

    method FindSender(nick: CString) returns (tmp: Node?<Flooder>)
      requires Valid()
      modifies table`chains, table`repr, table.entries, table.repr`next
      ensures Valid() && table.repr == old(table.repr) && Size(table) == old(Size(table))
      ensures tmp != null ==> tmp in table.repr && SameName(nick, tmp.name)
      ensures tmp == null <==> old(IsFound(table.chains[Hash(nick, |table.chains|)], nick, -1))
    {
      ghost var chains: seq<seq<Node<Flooder>>>, h := table.chains, Hash(nick, table.entries.Length);
      ghost var k;
      tmp, k := table.Find(nick, false);
      if tmp != null { FlatSize(chains, 0, h, ToFront(chains[h], k)); }
    }

    method CountAgain(tmp: Node<Flooder>, kind: Kind, now: int, limits: Limits, prot: bool) returns (r: int)
      requires Valid() && tmp in table.repr && now == clock
      modifies tmp`data
      ensures Valid() && tmp.data == Count(old(tmp.data), kind, now, limits).0
      ensures r == if Count(old(tmp.data), kind, now, limits).1 && prot && kind in {Msg, Notice, Ctcp, Action} then 0 else 1
    {
      r := CountMessage(tmp, kind, now, limits, prot);
    }

    /** check_flooding for a sender that is watched. */
    method CheckSender(nick: CString, kind: Kind, now: int, limits: Limits, prot: bool)
      returns (r: int, entry: Node<Flooder>, ghost before: Option<Flooder>)
      requires Valid() && clock == now && nick != ""
      modifies this`pos, table`chains, table`repr, table.entries, table.repr`next, table.repr`data
      ensures Valid() && Size(table) <= users && SameName(nick, entry.name)
      ensures before == None <==> old(IsFound(table.chains[Hash(nick, |table.chains|)], nick, -1))
      ensures before == None ==> r == 1 && entry.data == Flooder({kind}, 1, now, false)
      ensures before.Some? ==>
        && entry in old(table.repr) && before.value == old(entry.data)
        && entry.data == Count(before.value, kind, now, limits).0
        && r == if Count(before.value, kind, now, limits).1 && prot && kind in {Msg, Notice, Ctcp, Action} then 0 else 1
    {
      var tmp := FindSender(nick);
      if tmp == null {
        entry := AddSender(nick, kind, now);
        return 1, entry, None;
      }
      entry, before := tmp, Some(tmp.data);
      r := CountAgain(tmp, kind, now, limits, prot);
    }

    /** check_flooding. The entry it leaves for the sender is returned with what it held before, if
        it was there; 0 means that the alarm was raised and flood_prot dealt with it. */
    method CheckFlooding(nick: CString, kind: Kind, now: int, exempt: bool, limits: Limits, prot: bool)
      returns (r: int, ghost entry: Node?<Flooder>, ghost before: Option<Flooder>)
      requires Valid() && clock <= now && nick != ""
      modifies this`pos, this`clock, table`chains, table`repr, table.entries, table.repr`next, table.repr`data
      ensures Valid() && clock == now && Size(table) <= users
      ensures exempt ==> r == 1 && entry == null
      ensures !exempt ==> entry != null && SameName(nick, entry.name) && (before == None <==> old(IsFound(table.chains[Hash(nick, |table.chains|)], nick, -1)))
      ensures !exempt && before == None ==> r == 1 && entry.data == Flooder({kind}, 1, now, false)
      ensures !exempt && before.Some? ==>
        && entry in old(table.repr) && before.value == old(entry.data)
        && entry.data == Count(before.value, kind, now, limits).0
        && r == if Count(before.value, kind, now, limits).1 && prot && kind in {Msg, Notice, Ctcp, Action} then 0 else 1
    {
      r, entry, before := 1, null, None;
      clock := now;
      if exempt { return; }
      var tmp;
      r, tmp, before := CheckSender(nick, kind, now, limits, prot);
      entry := tmp;
    }

    /** clean_flood_list, which leaves `pos` alone. */
    method Clean(now: int, rate: nat)
      requires Valid() && clock <= now
      modifies this`clock, table`chains, table`repr, table.entries, table.repr`next
      ensures Valid() && clock == now && Size(table) <= users && pos == old(pos)
      ensures |table.chains| == |old(table.chains)|
      ensures forall b :: 0 <= b < |table.chains| ==> OnlyYoung(old(table.chains)[b], table.chains[b], now, rate + 1)
    {
      clock := now;
      var total := RemoveOldest(table, now, rate + 1, 0);
    }
  }
}
