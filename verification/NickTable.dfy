/** The chained tables of hash.c as a heap structure: an array of chains, each with a count of its
    links and hits, where finding an entry moves it to the top of its chain. */
module NickTable {
  import opened Ircaux
  import opened Chain
  import opened HashTable

  datatype HashEntry<T> = HashEntry(list: Node?<T>, hits: int, links: int)

  /** The first node of that name, or -1. */
  ghost predicate IsFound<T>(chain: seq<Node<T>>, name: string, k: int)
    reads chain`name
  {
    if k == -1 then forall i :: 0 <= i < |chain| ==> !SameName(name, chain[i].name)
    else 0 <= k < |chain| && SameName(name, chain[k].name) && forall i :: 0 <= i < k ==> !SameName(name, chain[i].name)
  }

  /** Every node of a chain belongs to the table and sits in the bucket of its hash. */
  ghost predicate Placed<T>(chains: seq<seq<Node<T>>>, repr: set<Node<T>>)
    reads repr`name
  {
    forall b, i :: 0 <= b < |chains| && 0 <= i < |chains[b]| ==> chains[b][i] in repr && Hash(chains[b][i].name, |chains|) == b
  }

  /** The entry heads the chain and counts its links. */
  ghost predicate Heads<T>(entry: HashEntry<T>, chain: seq<Node<T>>)
    reads chain`next
  {
    IsChain(entry.list, chain) && entry.links == |chain|
  }

  /** move_link_to_top on the chain of one bucket; the new head is tmp. */
  method LinkToTop<T>(head: Node?<T>, tmp: Node<T>, prev: Node<T>, ghost chain: seq<Node<T>>, ghost k: nat)
    requires IsChain(head, chain) && 0 < k < |chain| && tmp == chain[k] && prev == chain[k - 1]
    modifies chain`next
    ensures IsChain(tmp, ToFront(chain, k))
  {
    prev.next := tmp.next;
    tmp.next := head;
    Moved(tmp, chain, k);
  }

  method LinkBefore<T>(head: Node?<T>, node: Node<T>, ghost chain: seq<Node<T>>)
    requires IsChain(head, chain) && node !in chain
    modifies node`next
    ensures IsChain(node, [node] + chain)
  {
    node.next := head;
    Inserted(node, chain, 0, node);
    assert Insert(chain, 0, node) == [node] + chain;
  }

  /** remove_link_from_list on the chain of one bucket; the node's next becomes null. */
  method Unlink<T>(head: Node?<T>, tmp: Node<T>, prev: Node?<T>, ghost chain: seq<Node<T>>, ghost k: nat)
    returns (head': Node?<T>)
    requires IsChain(head, chain) && k < |chain| && tmp == chain[k] && prev == if k == 0 then null else chain[k - 1]
    modifies chain`next
    ensures IsChain(head', Without(chain, k)) && tmp.next == null
  {
    head' := head;
    if prev != null { prev.next := tmp.next; } else { head' := tmp.next; }
    tmp.next := null;
    Removed(head', chain, k);
  }

  /** The nodes of the buckets from b on, in the order of a walk. */
  ghost function Flat<N>(chains: seq<seq<N>>, b: nat): seq<N>
    requires b <= |chains|
    decreases |chains| - b
  {
    if b == |chains| then [] else chains[b] + Flat(chains, b + 1)
  }

  /** The node is in one of the buckets from b on. */
  ghost predicate InSome<N>(chains: seq<seq<N>>, b: nat, n: N) {
    exists c: nat :: b <= c < |chains| && n in chains[c]
  }

  lemma Regroup<N>(a: seq<N>, b: seq<N>, c: seq<N>)
    ensures a + (b + c) == a + b + c
  {
  }

  lemma {:induction false} FlatHolds<N>(chains: seq<seq<N>>, b: nat, n: N)
    requires b <= |chains|
    ensures n in Flat(chains, b) <==> InSome(chains, b, n)
    decreases |chains| - b
  {
    if b < |chains| {
      FlatHolds(chains, b + 1, n);
      assert n in Flat(chains, b) <==> n in chains[b] || n in Flat(chains, b + 1);
    }
  }

  /** A walk passes no node twice. */
  lemma {:induction false} FlatOnce<T>(chains: seq<seq<Node<T>>>, repr: set<Node<T>>, b: nat)
    requires b <= |chains| && Placed(chains, repr) && forall c :: 0 <= c < |chains| ==> Distinct(chains[c])
    ensures Distinct(Flat(chains, b))
    decreases |chains| - b
  {
    if b < |chains| {
      FlatOnce(chains, repr, b + 1);
      var here, later := chains[b], Flat(chains, b + 1);
      forall i, j | 0 <= i < |here| && 0 <= j < |later| ensures here[i] != later[j] {
        FlatHolds(chains, b + 1, later[j]);
      }
    }
  }

  lemma {:induction false} FlatChange<N>(chains: seq<seq<N>>, b: nat, h: nat, chain: seq<N>)
    requires b <= |chains| && h < |chains|
    ensures h < b ==> Flat(chains[h := chain], b) == Flat(chains, b)
    ensures b <= h && (forall c :: b <= c < h ==> chains[c] == []) ==> Flat(chains[h := chain], b) == chain + Flat(chains, h + 1)
    decreases |chains| - b
  {
    if b < |chains| {
      FlatChange(chains, b + 1, h, chain);
      if b == h { FlatChange(chains, b + 1, h, chain); }
    }
  }

  /** Taking out the first node of all. */
  lemma FirstRemoved<N>(chains: seq<seq<N>>, b: nat)
    requires b < |chains| && chains[b] != [] && forall c :: 0 <= c < b ==> chains[c] == []
    ensures Flat(chains, 0) == [chains[b][0]] + Flat(chains[b := Without(chains[b], 0)], 0)
  {
    var rest := Without(chains[b], 0);
    assert chains[b := chains[b]] == chains && chains[b] == [chains[b][0]] + rest;
    FlatChange(chains, 0, b, chains[b]);
    FlatChange(chains, 0, b, rest);
  }

  /** Changing one chain changes the size by as much. */
  lemma {:induction false} FlatSize<N>(chains: seq<seq<N>>, b: nat, h: nat, chain: seq<N>)
    requires b <= h < |chains|
    ensures |Flat(chains[h := chain], b)| == |Flat(chains, b)| - |chains[h]| + |chain|
    decreases |chains| - b
  {
    if b == h { FlatChange(chains, b + 1, h, chain); } else { FlatSize(chains, b + 1, h, chain); }
  }

  lemma {:induction false} InReplaced<N>(chains: seq<seq<N>>, b: nat, h: nat, chain: seq<N>, n: N)
    requires b <= h < |chains|
    ensures n in Flat(chains[h := chain], b) <==> n in chain || n in Flat(chains[h := []], b)
    decreases |chains| - b
  {
    if b == h {
      FlatChange(chains, b + 1, h, chain);
      FlatChange(chains, b + 1, h, []);
    } else {
      InReplaced(chains, b + 1, h, chain, n);
    }
  }

  lemma InMoved<N>(xs: seq<N>, k: nat, n: N)
    requires k < |xs| && Distinct(xs)
    ensures n in ToFront(xs, k) <==> n in xs
    ensures n in Without(xs, k) <==> n in xs && n != xs[k]
  {
    assert xs == xs[..k] + [xs[k]] + xs[k + 1..];
  }

  lemma InToFront<N>(xs: seq<N>, k: nat)
    requires k < |xs| && Distinct(xs)
    ensures forall n :: n in ToFront(xs, k) ==> n in xs
  {
    forall n ensures n in ToFront(xs, k) ==> n in xs { InMoved(xs, k, n); }
  }

  lemma InWithout<N>(xs: seq<N>, k: nat)
    requires k < |xs| && Distinct(xs)
    ensures forall n :: n in Without(xs, k) ==> n in xs && n != xs[k]
  {
    forall n ensures n in Without(xs, k) ==> n in xs && n != xs[k] { InMoved(xs, k, n); }
  }

  /** Against a plain set of nodes: finding changes nothing, removing and adding change one node. */
  lemma TableIsASet<T>(chains: seq<seq<Node<T>>>, repr: set<Node<T>>, h: nat, k: nat, node: Node<T>, n: Node<T>)
    requires Placed(chains, repr) && h < |chains| && k < |chains[h]| && Distinct(chains[h])
    ensures n in Flat(chains[h := ToFront(chains[h], k)], 0) <==> n in Flat(chains, 0)
    ensures n in Flat(chains[h := Without(chains[h], k)], 0) <==> n in Flat(chains, 0) && n != chains[h][k]
    ensures n in Flat(chains[h := [node] + chains[h]], 0) <==> n in Flat(chains, 0) || n == node
  {
    assert chains[h := chains[h]] == chains;
    InReplaced(chains, 0, h, chains[h], n);
    InReplaced(chains, 0, h, ToFront(chains[h], k), n);
    InReplaced(chains, 0, h, Without(chains[h], k), n);
    InReplaced(chains, 0, h, [node] + chains[h], n);
    InMoved(chains[h], k, n);
    FlatHolds(chains[h := []], 0, chains[h][k]);
  }

  /** What looking in the bucket of a name finds: nothing exactly if every entry of that name has
      another hash. An entry spelled like it up to the case of letters is never missed. */
  lemma LookupSeesItsBucket<T>(chains: seq<seq<Node<T>>>, repr: set<Node<T>>, name: string, k: int)
    requires |chains| > 0 && Placed(chains, repr) && IsFound(chains[Hash(name, |chains|)], name, k)
    ensures k == -1 <==>
            forall n :: n in Flat(chains, 0) && SameName(name, n.name) ==> Hash(n.name, |chains|) != Hash(name, |chains|)
    ensures k == -1 ==> forall n :: n in Flat(chains, 0) ==> !SameLetters(name, n.name)
  {
    var h := Hash(name, |chains|);
    if k == -1 {
      forall n | n in Flat(chains, 0)
        ensures SameName(name, n.name) ==> Hash(n.name, |chains|) != h
        ensures !SameLetters(name, n.name)
      {
        FlatHolds(chains, 0, n);
        if SameLetters(name, n.name) { LettersAreOneName(name, n.name); HashIgnoresCase(name, n.name, |name|); }
      }
    } else {
      FlatHolds(chains, 0, chains[h][k]);
    }
  }

  /** Where all spellings of a name share a bucket, looking there is looking in the whole table. */
  lemma LookupIsComplete<T>(chains: seq<seq<Node<T>>>, repr: set<Node<T>>, name: string, k: int)
    requires |chains| > 0 && Placed(chains, repr) && OneBucket(name, |chains|)
    requires IsFound(chains[Hash(name, |chains|)], name, k)
    ensures k == -1 <==> forall n :: n in Flat(chains, 0) ==> !SameName(name, n.name)
  {
    LookupSeesItsBucket(chains, repr, name, k);
  }

  lemma LettersAreOneName(a: string, b: string)
    requires SameLetters(a, b)
    ensures SameName(a, b)
  {
  }

  class Table<T> {
    const entries: array<HashEntry<T>>
    ghost var chains: seq<seq<Node<T>>>
    ghost var repr: set<Node<T>>

    ghost predicate Valid()
      reads this, entries, repr`next, repr`name
    {
      && |chains| == entries.Length > 0
      && Placed(chains, repr)
      && forall b :: 0 <= b < |chains| ==> Heads(entries[b], chains[b])
    }

    constructor (size: nat)
      requires size > 0
      ensures Valid() && fresh(entries) && entries.Length == size && repr == {} && chains == seq(size, _ => [])
    {
      entries := new HashEntry<T>[size](_ => HashEntry(null, 0, 0));
      chains := seq(size, _ => []);
      repr := {};
    }

    /** The names in the buckets. */
    ghost predicate HasNames(names: seq<seq<CString>>)
      requires Valid()
      reads this, entries, repr`next, repr`name
    {
      |names| == |chains| && forall b :: 0 <= b < |chains| ==> Named(chains[b], names[b])
    }

    /** A lookup in a table misses a name just when it misses it in the layout of its names. */
    lemma LookupMisses(names: seq<seq<CString>>, name: string)
      requires Valid() && HasNames(names)
      ensures IsLayout(names)
      ensures Misses(names, name) <==>
              IsFound(chains[Hash(name, |chains|)], name, -1) && exists n :: n in Flat(chains, 0) && SameName(name, n.name)
    {
      if n :| n in Flat(chains, 0) && SameName(name, n.name) { var b, i := NameIsListed(names, n); }
      if b, i :| 0 <= b < |names| && 0 <= i < |names[b]| && SameName(name, names[b][i]) {
        FlatHolds(chains, 0, chains[b][i]);
        assert SameName(name, chains[b][i].name);
      }
    }

    lemma NameIsListed(names: seq<seq<CString>>, n: Node<T>) returns (b: nat, i: nat)
      requires Valid() && HasNames(names) && n in Flat(chains, 0)
      ensures b < |names| && i < |names[b]| && names[b][i] == n.name
    {
      FlatHolds(chains, 0, n);
      b :| b < |chains| && n in chains[b];
      i :| i < |chains[b]| && chains[b][i] == n;
    }

    /** The search of the find functions: the first node of that name in its bucket, and the one before it. */
    method Search(name: CString) returns (tmp: Node?<T>, prev: Node?<T>, h: nat, ghost k: int)
      requires Valid()
      ensures h == Hash(name, entries.Length) && IsFound(chains[h], name, k)
      ensures tmp == (if k == -1 then null else chains[h][k])
      ensures k != -1 ==> prev == if k == 0 then null else chains[h][k - 1]
    {
      h := HashNickname(name, entries.Length);
      ghost var chain := chains[h];
      tmp, prev, k := entries[h].list, null, 0;
      while tmp != null
        invariant 0 <= k <= |chain| && tmp == NodeAt(chain, k) && (prev == if k == 0 then null else chain[k - 1])
        invariant forall i :: 0 <= i < k ==> !SameName(name, chain[i].name)
        decreases |chain| - k
      {
        var differs := MyStricmp(name, tmp.name);
        if differs == 0 { return; }
        prev, tmp, k := tmp, tmp.next, k + 1;
      }
      k := -1;
    }

    /** Bucket h has that many more hits, and the others have as many as before. */
    twostate predicate Hits(h: nat, more: nat)
      reads entries
    {
      forall b :: 0 <= b < entries.Length ==> entries[b].hits == old(entries[b].hits) + if b == h then more else 0
    }

    /** Nothing but bucket h changed: its entry, its chain, and the links of its nodes. */
    twostate predicate OnlyBucket(h: nat)
      requires h < entries.Length
      reads *
    {
      && |chains| == entries.Length == |old(chains)|
      && (forall b :: 0 <= b < entries.Length && b != h ==> entries[b] == old(entries[b]) && chains[b] == old(chains)[b])
      && (forall n :: n in old(repr) && n !in old(chains)[h] ==> n in repr && n.next == old(n.next) && n.name == old(n.name))
      && (forall n :: n in chains[h] ==> n in repr && Hash(n.name, entries.Length) == h)
    }

    twostate lemma StillHeads(h: nat)
      requires old(Valid()) && h < entries.Length && OnlyBucket(h)
      ensures forall b :: 0 <= b < entries.Length && b != h ==> Heads(entries[b], chains[b])
    {
      forall b | 0 <= b < entries.Length && b != h ensures Heads(entries[b], chains[b]) {
        var chain := chains[b];
        assert old(Heads(entries[b], chain));
        forall i | 0 <= i < |chain| ensures chain[i].next == old(chain[i].next) {
          assert Hash(old(chain[i].name), entries.Length) == b;
        }
      }
    }

    twostate lemma StillPlaced(h: nat)
      requires old(Valid()) && h < entries.Length && OnlyBucket(h)
      ensures Placed(chains, repr)
    {
    }

    twostate lemma StillValid(h: nat)
      requires old(Valid()) && h < entries.Length && OnlyBucket(h) && Heads(entries[h], chains[h])
      ensures Valid()
    {
      StillPlaced(h);
      StillHeads(h);
    }

    method MoveLinkToTop(h: nat, tmp: Node<T>, prev: Node?<T>, ghost k: nat)
      requires Valid() && h < entries.Length && k < |chains[h]| && tmp == chains[h][k]
      requires prev == if k == 0 then null else chains[h][k - 1]
      modifies this`chains, entries, repr`next
      ensures Valid() && chains == old(chains)[h := ToFront(old(chains[h]), k)] && Hits(h, 0)
    {
      ghost var chain := chains[h];
      if prev == null {
        assert ToFront(chain, 0) == chain;
        return;
      }
      Relink(h, tmp, prev, k);
      StillValid(h);
    }

    method Relink(h: nat, tmp: Node<T>, prev: Node<T>, ghost k: nat)
      requires Valid() && h < entries.Length && 0 < k < |chains[h]| && tmp == chains[h][k] && prev == chains[h][k - 1]
      modifies this`chains, entries, repr`next
      ensures chains == old(chains)[h := ToFront(old(chains[h]), k)] && OnlyBucket(h) && Heads(entries[h], chains[h])
      ensures Hits(h, 0)
    {
      ghost var chain := chains[h];
      LinkToTop(entries[h].list, tmp, prev, chain, k);
      entries[h] := entries[h].(list := tmp);
      chains := chains[h := ToFront(chain, k)];
      InToFront(chain, k);
    }

    method RemoveLink(h: nat, tmp: Node<T>, prev: Node?<T>, ghost k: nat)
      requires Valid() && h < entries.Length && k < |chains[h]| && tmp == chains[h][k]
      requires prev == if k == 0 then null else chains[h][k - 1]
      modifies this`chains, this`repr, entries, repr`next
      ensures Valid() && chains == old(chains)[h := Without(old(chains[h]), k)] && repr == old(repr) - {tmp}
      ensures tmp.next == null && Hits(h, 0)
    {
      CutOut(h, tmp, prev, k);
      StillValid(h);
    }

    method CutOut(h: nat, tmp: Node<T>, prev: Node?<T>, ghost k: nat)
      requires Valid() && h < entries.Length && k < |chains[h]| && tmp == chains[h][k]
      requires prev == if k == 0 then null else chains[h][k - 1]
      modifies this`chains, this`repr, entries, repr`next
      ensures chains == old(chains)[h := Without(old(chains[h]), k)] && repr == old(repr) - {tmp}
      ensures OnlyBucket(h) && Heads(entries[h], chains[h]) && tmp.next == null && Hits(h, 0)
    {
      ghost var chain := chains[h];
      InBucket(h);
      InWithout(chain, k);
      var head := Unlink(entries[h].list, tmp, prev, chain, k);
      entries[h] := entries[h].(list := head, links := entries[h].links - 1);
      chains, repr := chains[h := Without(chain, k)], repr - {tmp};
    }

    lemma InBucket(h: nat)
      requires Valid() && h < entries.Length
      ensures Heads(entries[h], chains[h]) && Distinct(chains[h])
      ensures forall n :: n in chains[h] ==> n in repr && Hash(n.name, entries.Length) == h
    {
    }

    /** find_nicklist_in_channellist and its siblings: the first node of that name in its bucket is
        moved to the top, or taken out. */
    method Find(name: CString, remove: bool) returns (found: Node?<T>, ghost k: int)
      requires Valid()
      modifies this`chains, this`repr, entries, repr`next
      ensures Valid() && repr == (if found != null && remove then old(repr) - {found} else old(repr))
      ensures old(IsFound(chains[Hash(name, entries.Length)], name, k))
      ensures var h := Hash(name, entries.Length);
              if k == -1 then found == null && chains == old(chains)
              else found == old(chains)[h][k] &&
                   chains == old(chains)[h := if remove then Without(old(chains)[h], k) else ToFront(old(chains)[h], k)]
      ensures found != null && remove ==> found.next == null
      ensures Hits(0, 0)
    {
      var prev, h;
      found, prev, h, k := Search(name);
      if found != null {
        if !remove { MoveLinkToTop(h, found, prev, k); } else { RemoveLink(h, found, prev, k); }
      }
    }

    /** add_nicklist_to_channellist and its siblings: the node goes to the top of its chain. */
    method Add(node: Node<T>)
      requires Valid() && node !in repr
      modifies this`chains, this`repr, entries, node`next
      ensures Valid() && repr == old(repr) + {node}
      ensures var h := Hash(node.name, entries.Length); chains == old(chains)[h := [node] + old(chains)[h]] && Hits(h, 1)
    {
      var h := LinkIn(node);
      StillValid(h);
    }

    method LinkIn(node: Node<T>) returns (h: nat)
      requires Valid() && node !in repr
      modifies this`chains, this`repr, entries, node`next
      ensures h == Hash(node.name, entries.Length) && h < |old(chains)|
      ensures chains == old(chains)[h := [node] + old(chains)[h]] && repr == old(repr) + {node}
      ensures OnlyBucket(h) && Heads(entries[h], chains[h]) && Hits(h, 1)
    {
      h := HashNickname(node.name, entries.Length);
      ghost var chain := chains[h];
      InBucket(h);
      LinkBefore(entries[h].list, node, chain);
      entries[h] := HashEntry(node, entries[h].hits + 1, entries[h].links + 1);
      chains, repr := chains[h := [node] + chain], repr + {node};
    }

    /** What a walk still has to pass from the i-th node of bucket b on. */
    ghost function Rest(b: nat, i: nat): seq<Node<T>>
      requires b < |chains| && i <= |chains[b]|
      reads this`chains
    {
      chains[b][i..] + Flat(chains, b + 1)
    }

    lemma RestStep(visited: seq<Node<T>>, b: nat, i: nat)
      requires b < |chains| && i < |chains[b]|
      ensures visited + Rest(b, i) == visited + [chains[b][i]] + Rest(b, i + 1)
    {
    }

    lemma RestEnd(b: nat)
      requires b < |chains|
      ensures Rest(b, |chains[b]|) == Flat(chains, b + 1)
    {
    }

    /** The scan for the next filled bucket. */
    method FirstFrom(b: nat) returns (r: Node?<T>, ghost b': nat)
      requires Valid() && b <= entries.Length
      ensures if r == null then Flat(chains, b) == []
              else b' < |chains| && chains[b'] != [] && r == chains[b'][0] && Rest(b', 0) == Flat(chains, b)
      ensures r != null ==> b <= b' && forall c :: b <= c < b' ==> chains[c] == []
    {
      b' := b;
      var hvalue := b;
      while hvalue < entries.Length
        invariant b <= hvalue <= entries.Length && Flat(chains, b) == Flat(chains, hvalue)
        invariant forall c :: b <= c < hvalue ==> chains[c] == []
      {
        assert Heads(entries[hvalue], chains[hvalue]);
        if entries[hvalue].list != null { return entries[hvalue].list, hvalue; }
        hvalue := hvalue + 1;
      }
      r := null;
    }

    /** next_nicklist: from null to the first node, from a node to the next, from the last to null. */
    method Next(nptr: Node?<T>, ghost b: nat, ghost i: nat) returns (r: Node?<T>, ghost b': nat, ghost i': nat)
      requires Valid() && (nptr != null ==> b < |chains| && i < |chains[b]| && nptr == chains[b][i])
      ensures var rest := if nptr == null then Flat(chains, 0) else Rest(b, i + 1);
              if r == null then rest == []
              else b' < |chains| && i' < |chains[b']| && r == chains[b'][i'] && Rest(b', i') == rest
      ensures nptr == null && r != null ==> i' == 0 && forall c :: 0 <= c < b' ==> chains[c] == []
    {
      i' := 0;
      if nptr == null {
        r, b' := FirstFrom(0);
      } else {
        assert Heads(entries[b], chains[b]);
        if nptr.next != null { return nptr.next, b, i + 1; }
        assert i + 1 == |chains[b]|;
        RestEnd(b);
        r, b' := FirstBehind(nptr, b);
      }
    }

    /** The first node of the buckets after that of a node. */
    method FirstBehind(nptr: Node<T>, ghost b: nat) returns (r: Node?<T>, ghost b': nat)
      requires Valid() && b < |chains| && nptr in chains[b]
      ensures if r == null then Flat(chains, b + 1) == []
              else b' < |chains| && chains[b'] != [] && r == chains[b'][0] && Rest(b', 0) == Flat(chains, b + 1)
    {
      var hvalue := HashNickname(nptr.name, entries.Length);
      r, b' := FirstFrom(hvalue + 1);
    }

    /** Walking from null until null visits every node exactly once. */
    method Walk() returns (visited: seq<Node<T>>)
      requires Valid()
      ensures visited == Flat(chains, 0) && Distinct(visited)
    {
      visited := [];
      var nptr;
      ghost var b: nat, i: nat;
      ghost var all := Flat(chains, 0);
      nptr, b, i := Next(null, 0, 0);
      while nptr != null
        invariant nptr != null ==> b < |chains| && i < |chains[b]| && nptr == chains[b][i]
        invariant all == visited + if nptr == null then [] else Rest(b, i)
        decreases |all| - |visited|
      {
        var nick: Node<T> := nptr;
        RestStep(visited, b, i);
        visited := visited + [nick];
        nptr, b, i := Next(nptr, b, i);
      }
      assert forall c :: 0 <= c < |chains| ==> Heads(entries[c], chains[c]);
      FlatOnce(chains, repr, 0);
    }

    method TakeFirst(nick: Node<T>, removed: seq<Node<T>>, ghost b: nat) returns (removed': seq<Node<T>>)
      requires Valid() && b < |chains| && chains[b] != [] && nick == chains[b][0]
      requires forall c :: 0 <= c < b ==> chains[c] == []
      modifies this`chains, this`repr, entries, repr`next
      ensures Valid() && nick in old(repr) && repr == old(repr) - {nick}
      ensures removed' + Flat(chains, 0) == removed + old(Flat(chains, 0))
    {
      FirstRemoved(chains, b);
      var found;
      ghost var k;
      found, k := Find(nick.name, true);
      var n: Node<T> := found;
      removed' := removed + [n];
      Regroup(removed, [n], Flat(chains, 0));
    }

    /** next_nicklist from null. */
    method First() returns (nick: Node?<T>, ghost b: nat)
      requires Valid()
      ensures nick == null ==> Flat(chains, 0) == []
      ensures nick != null ==> b < |chains| && chains[b] != [] && nick == chains[b][0] && forall c :: 0 <= c < b ==> chains[c] == []
    {
      ghost var i;
      nick, b, i := Next(null, 0, 0);
    }

    /** clear_channel: taking out the first node until there is none empties the table, and
        hands over every node once, in the order of a walk. */
    method Clear() returns (removed: seq<Node<T>>)
      requires Valid()
      modifies this`chains, this`repr, entries, repr`next
      ensures Valid() && Flat(chains, 0) == [] && removed == old(Flat(chains, 0))
    {
      removed := [];
      ghost var all := Flat(chains, 0);
      while true
        invariant Valid() && repr <= old(repr) && removed + Flat(chains, 0) == all
        decreases repr
      {
        var nick;
        ghost var b;
        nick, b := First();
        if nick == null { return; }
        removed := TakeFirst(nick, removed, b);
      }
    }

    method SetName(node: Node<T>, name: CString)
      requires Valid() && node !in repr
      modifies node`name
      ensures Valid() && node.name == name
    {
      node.name := name;
      forall b | 0 <= b < |chains| ensures Heads(entries[b], chains[b]) {
        assert old(Heads(entries[b], chains[b]));
      }
    }

    method TakeOut(name: CString) returns (node: Node?<T>, ghost k: int)
      requires Valid()
      modifies this`chains, this`repr, entries, repr`next
      ensures Valid() && old(IsFound(chains[Hash(name, entries.Length)], name, k))
      ensures k == -1 ==> node == null && chains == old(chains) && repr == old(repr)
      ensures var h := Hash(name, entries.Length);
              k != -1 ==> node == old(chains)[h][k] && chains == old(chains)[h := Without(old(chains)[h], k)]
                          && node in old(repr) && repr == old(repr) - {node}
    {
      node, k := Find(name, true);
    }

    method AddAs(node: Node<T>, name: CString)
      requires Valid() && node !in repr
      modifies this`chains, this`repr, entries, node`next, node`name
      ensures Valid() && repr == old(repr) + {node} && node.name == name
      ensures var h := Hash(name, entries.Length); chains == old(chains)[h := [node] + old(chains)[h]]
    {
      SetName(node, name);
      Add(node);
    }

    /** rename_nick for one table: the node moves to the bucket of its new name. */
    method Rename(oldName: CString, newName: CString) returns (node: Node?<T>, ghost k: int)
      requires Valid()
      modifies this`chains, this`repr, entries, repr`next, repr`name
      ensures Valid() && repr == old(repr) && old(IsFound(chains[Hash(oldName, entries.Length)], oldName, k))
      ensures k == -1 ==> node == null && chains == old(chains)
      ensures k != -1 ==> node == old(chains)[Hash(oldName, entries.Length)][k] && node.name == newName
      ensures k != -1 ==> chains == MoveTo(old(chains), Hash(oldName, entries.Length), k, Hash(newName, entries.Length))
    {
      node, k := TakeOut(oldName);
      if node != null {
        AddAs(node, newName);
      }
    }
  }

  /** The k-th element of chain h moved to the top of chain h2. */
  function MoveTo<N>(chains: seq<seq<N>>, h: nat, k: nat, h2: nat): seq<seq<N>>
    requires h < |chains| && k < |chains[h]| && h2 < |chains|
  {
    var rest := chains[h := Without(chains[h], k)];
    rest[h2 := [chains[h][k]] + rest[h2]]
  }

  /** Two spellings of a name with different hashes: a table that has the one, and where a lookup
      for the other finds nothing. */
  method MissSpelling<T(0)>(name: CString, spelling: CString, size: nat, data: T)
    returns (t: Table<T>, node: Node<T>, found: Node?<T>)
    requires size > 0 && SameName(name, spelling) && Hash(name, size) != Hash(spelling, size)
    ensures t.Valid() && t.entries.Length == size && found == null
    ensures node.name == spelling && SameName(name, node.name) && node in Flat(t.chains, 0)
  {
    t := new Table(size);
    node := new Node(spelling, data);
    t.Add(node);
    ghost var h, k := Hash(spelling, size), -1;
    assert t.chains[h] == [node] && t.chains[Hash(name, size)] == [];
    found, k := t.Find(name, false);
    assert t.chains[h] == [node];
    FlatHolds(t.chains, 0, node);
  }

  /** "[" is entered, and "{" is not found. */
  method MissBracket() returns (t: Table<int>, node: Node<int>, found: Node?<int>)
    ensures t.Valid() && t.entries.Length == 79 && found == null
    ensures node.name == "[" && SameName("{", node.name) && node in Flat(t.chains, 0)
  {
    BracketsMayPart();
    t, node, found := MissSpelling("{", "[", 79, 0);
  }
}
