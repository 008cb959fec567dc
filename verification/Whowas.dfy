/** The whowas tables of hash.c: the hash is of host and channel together, and each table counts the
    entries that came and went. */
module Whowas {
  import opened Ircaux
  import opened Chain
  import opened HashTable
  import opened NickTable

  datatype Record = Record(host: CString, channel: CString, time: int)

  predicate IsKey(r: Record, host: string, channel: string) {
    SameName(host, r.host) && SameName(channel, r.channel)
  }

  /** The first record of the chain with that key, or -1. */
  predicate IsFirst(chain: seq<Record>, host: string, channel: string, k: int) {
    if k == -1 then forall i :: 0 <= i < |chain| ==> !IsKey(chain[i], host, channel)
    else 0 <= k < |chain| && IsKey(chain[k], host, channel) && forall i :: 0 <= i < k ==> !IsKey(chain[i], host, channel)
  }

  predicate Fresh(r: Record, now: int, timet: int) {
    r.time + timet > now
  }

  predicate AllFresh(chain: seq<Record>, now: int, timet: int) {
    forall i :: 0 <= i < |chain| ==> Fresh(chain[i], now, timet)
  }

  /** The records of the chain that are younger than timet, in their order. */
  function Young(chain: seq<Record>, now: int, timet: int): seq<Record> {
    if chain == [] then [] else (if now - chain[0].time < timet then [chain[0]] else []) + Young(chain[1..], now, timet)
  }

  /** No two records of the chain are of one host and channel. */
  predicate KeysDiffer(chain: seq<Record>) {
    forall i, j :: 0 <= i < |chain| && 0 <= j < |chain| && i != j ==> !IsKey(chain[i], chain[j].host, chain[j].channel)
  }

  lemma {:induction false} AllYoung(chain: seq<Record>, now: int, timet: int)
    requires AllFresh(chain, now, timet)
    ensures Young(chain, now, timet) == chain
  {
    if chain != [] { AllYoung(chain[1..], now, timet); }
  }

  lemma {:induction false} YoungWithout(chain: seq<Record>, k: nat, now: int, timet: int)
    requires k < |chain| && !Fresh(chain[k], now, timet)
    ensures Young(Without(chain, k), now, timet) == Young(chain, now, timet)
  {
    var rest := Without(chain, k);
    if k == 0 {
      assert rest == chain[1..];
    } else {
      assert rest[1..] == Without(chain[1..], k - 1) && rest[0] == chain[0];
      YoungWithout(chain[1..], k - 1, now, timet);
    }
  }

  /** The second chain is the first without some of what is old, if no key is there twice. */
  predicate Thinned(chain: seq<Record>, thinner: seq<Record>, now: int, timet: int) {
    KeysDiffer(chain) ==> KeysDiffer(thinner) && Young(thinner, now, timet) == Young(chain, now, timet)
  }

  lemma WithoutIsThinned(chain: seq<Record>, i: nat, k: nat, now: int, timet: int)
    requires i < |chain| && !Fresh(chain[i], now, timet) && IsFirst(chain, chain[i].host, chain[i].channel, k)
    ensures Thinned(chain, Without(chain, k), now, timet)
  {
    if KeysDiffer(chain) {
      assert k == i;
      YoungWithout(chain, i, now, timet);
    }
  }

  lemma {:induction false} HashOfTwo(host: string, channel: string, n: nat)
    requires n <= |host|
    ensures HashPrefix(host + channel, n) == HashPrefix(host, n)
  {
    if n > 0 { HashOfTwo(host, channel, n - 1); }
  }

  /** hash_userhost_channel: two loops that hash the two strings as one. */
  method HashUserhostChannel(host: string, channel: string, size: nat) returns (h: nat)
    requires size > 0
    ensures h == Hash(host + channel, size)
  {
    h := 0;
    for i := 0 to |host|
      invariant h == HashPrefix(host, i)
    {
      h := HashStep(h, host[i]);
    }
    HashOfTwo(host, channel, |host|);
    for i := 0 to |channel|
      invariant h == HashPrefix(host + channel, |host| + i)
    {
      assert (host + channel)[|host| + i] == channel[i];
      h := HashStep(h, channel[i]);
    }
    h := h % size;
  }

  method Search(chain: seq<Record>, host: CString, channel: CString) returns (k: int)
    ensures IsFirst(chain, host, channel, k)
  {
    for i := 0 to |chain|
      invariant forall j :: 0 <= j < i ==> !IsKey(chain[j], host, channel)
    {
      var c := MyStricmp(host, chain[i].host);
      var d := MyStricmp(channel, chain[i].channel);
      if c == 0 && d == 0 { return i; }
    }
    return -1;
  }

  class Cache {
    var chains: seq<seq<Record>>
    var links: seq<int>
    var totalHits: nat
    var totalLinks: nat
    var totalUnlinks: nat

    /** Every record is in the bucket of its key, each bucket counts its chain, and what came less
        what went is what is there. */
    ghost predicate Valid()
      reads this
    {
      && |chains| == |links| > 0
      && (forall b, i :: 0 <= b < |chains| && 0 <= i < |chains[b]| ==>
            Hash(chains[b][i].host + chains[b][i].channel, |chains|) == b)
      && (forall b :: 0 <= b < |chains| ==> links[b] == |chains[b]|)
      && totalLinks - totalUnlinks == |Flat(chains, 0)|
    }

    constructor (size: nat)
      requires size > 0
      ensures Valid() && chains == seq(size, _ => [])
    {
      chains, links := seq(size, _ => []), seq(size, _ => 0);
      totalHits, totalLinks, totalUnlinks := 0, 0, 0;
      new;
      NothingYet(size, 0);
    }

    static lemma {:induction false} NothingYet(size: nat, b: nat)
      requires b <= size
      ensures Flat(seq<seq<Record>>(size, _ => []), b) == []
      decreases size - b
    {
      if b < size { NothingYet(size, b + 1); }
    }

    /** add_whowas_userhost_channel */
    method Add(r: Record)
      requires Valid()
      modifies this
      ensures Valid() && totalUnlinks == old(totalUnlinks) && totalLinks == old(totalLinks) + 1
      ensures var h := Hash(r.host + r.channel, |old(chains)|); chains == old(chains)[h := [r] + old(chains[h])]
    {
      var h := HashUserhostChannel(r.host, r.channel, |chains|);
      FlatSize(chains, 0, h, [r] + chains[h]);
      chains := chains[h := [r] + chains[h]];
      links := links[h := links[h] + 1];
      totalLinks := totalLinks + 1;
    }

    /** find_userhost_channel: the first record of its bucket with that key goes to the top of its
        chain, or out of the table. */
    method Find(host: CString, channel: CString, remove: bool) returns (found: Option<Record>, ghost k: int)
      requires Valid()
      modifies this
      ensures Valid() && totalLinks == old(totalLinks)
      ensures var h := Hash(host + channel, |old(chains)|); var chain := old(chains[h]);
              && IsFirst(chain, host, channel, k)
              && (k == -1 ==> found == None && chains == old(chains))
              && (k != -1 ==> found == Some(chain[k]) &&
                              chains == old(chains)[h := if remove then Without(chain, k) else ToFront(chain, k)])
      ensures totalUnlinks == old(totalUnlinks) + if found.Some? && remove then 1 else 0
      ensures totalHits == old(totalHits) + if found.Some? then 1 else 0
    {
      var h := HashUserhostChannel(host, channel, |chains|);
      var chain := chains[h];
      var i := Search(chain, host, channel);
      if i == -1 { return None, -1; }
      FlatSize(chains, 0, h, ToFront(chain, i));
      FlatSize(chains, 0, h, Without(chain, i));
      totalHits := totalHits + 1;
      if remove {
        chains := chains[h := Without(chain, i)];
        links := links[h := links[h] - 1];
        totalUnlinks := totalUnlinks + 1;
      } else {
        chains := chains[h := ToFront(chain, i)];
      }
      return Some(chain[i]), i;
    }

    /** One turn of the loop below: the first record with the key of an old one goes. */
    method RemoveOld(x: nat, i: nat, now: int, timet: int)
      requires Valid() && x < |chains| && i < |chains[x]| && !Fresh(chains[x][i], now, timet)
      modifies this
      ensures Valid() && |chains| == |old(chains)| && |chains[x]| == |old(chains[x])| - 1
      ensures forall b :: 0 <= b < |chains| && b != x ==> chains[b] == old(chains[b])
      ensures totalLinks == old(totalLinks) && totalUnlinks == old(totalUnlinks) + 1
      ensures Thinned(old(chains[x]), chains[x], now, timet)
    {
      var r := chains[x][i];
      SameAsItself(r);
      ghost var chain := chains[x];
      var found, k := Find(r.host, r.channel, true);
      WithoutIsThinned(chain, i, k, now, timet);
    }

    /** The loop of remove_oldest_whowas_hashlist over one bucket. An old record is taken out by its
        key, so that newer ones of the same key further up go first; in the end nothing old is left,
        and if no key is there twice, nothing young has gone. */
    method RemoveOldIn(x: nat, now: int, timet: int) returns (total: nat)
      requires Valid() && x < |chains|
      modifies this
      ensures Valid() && |chains| == |old(chains)| && AllFresh(chains[x], now, timet)
      ensures forall b :: 0 <= b < |chains| && b != x ==> chains[b] == old(chains[b])
      ensures totalLinks == old(totalLinks) && totalUnlinks == old(totalUnlinks) + total
      ensures AllFresh(old(chains[x]), now, timet) <==> total == 0
      ensures KeysDiffer(old(chains[x])) ==> chains[x] == Young(old(chains[x]), now, timet)
    {
      total := 0;
      var i := 0;
      while i < |chains[x]|
        invariant Valid() && |chains| == |old(chains)| && i <= |chains[x]|
        invariant forall j :: 0 <= j < i ==> Fresh(chains[x][j], now, timet)
        invariant forall b :: 0 <= b < |chains| && b != x ==> chains[b] == old(chains[b])
        invariant totalLinks == old(totalLinks) && totalUnlinks == old(totalUnlinks) + total
        invariant if total == 0 then chains == old(chains) else !AllFresh(old(chains[x]), now, timet)
        invariant Thinned(old(chains[x]), chains[x], now, timet)
        decreases |chains[x]|, |chains[x]| - i
      {
        if Fresh(chains[x][i], now, timet) {
          i := i + 1;
        } else {
          RemoveOld(x, i, now, timet);
          total, i := total + 1, 0;
        }
      }
      AllYoung(chains[x], now, timet);
    }

    static lemma SameAsItself(r: Record)
      ensures IsKey(r, r.host, r.channel)
    {
    }

    /** remove_oldest_whowas_hashlist without a count. */
    method RemoveOldest(now: int, timet: int) returns (total: nat)
      requires Valid()
      modifies this
      ensures Valid() && |chains| == |old(chains)| && forall b :: 0 <= b < |chains| ==> AllFresh(chains[b], now, timet)
      ensures forall b :: 0 <= b < |chains| && KeysDiffer(old(chains)[b]) ==> chains[b] == Young(old(chains)[b], now, timet)
      ensures totalLinks == old(totalLinks) && totalUnlinks == old(totalUnlinks) + total
    {
      total := 0;
      var x := 0;
      while x < |chains|
        invariant Valid() && x <= |chains| == |old(chains)|
        invariant forall b :: 0 <= b < x ==> AllFresh(chains[b], now, timet)
        invariant forall b :: x <= b < |chains| ==> chains[b] == old(chains)[b]
        invariant forall b :: 0 <= b < x && KeysDiffer(old(chains)[b]) ==> chains[b] == Young(old(chains)[b], now, timet)
        invariant totalLinks == old(totalLinks) && totalUnlinks == old(totalUnlinks) + total
        decreases |chains| - x
      {
        var t := RemoveOldIn(x, now, timet);
        total, x := total + t, x + 1;
      }
    }

    /** next_userhost from NULL: the first bucket that has something. */
    method FirstBucket() returns (hvalue: nat)
      requires Valid()
      ensures hvalue <= |chains| && forall b :: 0 <= b < hvalue ==> chains[b] == []
      ensures if hvalue < |chains| then chains[hvalue] != [] else Flat(chains, 0) == []
    {
      hvalue := 0;
      while hvalue < |chains| && chains[hvalue] == []
        invariant hvalue <= |chains| && forall b :: 0 <= b < hvalue ==> chains[b] == []
        invariant Flat(chains, 0) == Flat(chains, hvalue)
      {
        hvalue := hvalue + 1;
      }
    }

    /** One turn of the other half: the first record of all, looked up by its key, is itself. */
    method RemoveFirst() returns (gone: bool)
      requires Valid()
      modifies this
      ensures Valid() && totalLinks == old(totalLinks) && totalUnlinks == old(totalUnlinks) + if gone then 1 else 0
      ensures if gone then |old(Flat(chains, 0))| > 0 && Flat(chains, 0) == old(Flat(chains, 0))[1..]
              else Flat(chains, 0) == old(Flat(chains, 0)) == []
    {
      var x: nat := FirstBucket();
      if x == |chains| { return false; }
      FirstRemoved(chains, x);
      var r := chains[x][0];
      SameAsItself(r);
      var found, k := Find(r.host, r.channel, true);
      return true;
    }

    /** remove_oldest_whowas_hashlist with a count: that many records go, in the order of a walk, or
        all of them if there are no more or the count is negative. */
    method RemoveSome(limit: int) returns (total: nat)
      requires Valid() && limit != 0
      modifies this
      ensures Valid() && totalLinks == old(totalLinks) && totalUnlinks == old(totalUnlinks) + total
      ensures total == if 0 < limit < |old(Flat(chains, 0))| then limit else |old(Flat(chains, 0))|
      ensures Flat(chains, 0) == old(Flat(chains, 0))[total..]
    {
      total := 0;
      ghost var all := Flat(chains, 0);
      while limit - total != 0
        invariant Valid() && totalLinks == old(totalLinks) && totalUnlinks == old(totalUnlinks) + total
        invariant total <= |all| && Flat(chains, 0) == all[total..] && (limit > 0 ==> total <= limit)
        decreases |all| - total
      {
        var gone := RemoveFirst();
        if !gone { break; }
        assert all[total..][1..] == all[total + 1..];
        total := total + 1;
      }
    }
  }
}
