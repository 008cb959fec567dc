/** The generic named lists of list.c: sorted insertion, lookup by name or by best wildcard,
    and removal. */
module Lists {
  import opened Ircaux
  import opened Chain
  import Wildcard
  import WildcardMeaning

  /** strcasecmp. */
  function CaseCompare(a: string, b: string): int {
    if a == [] && b == [] then 0
    else if a == [] then -1
    else if b == [] then 1
    else
      var x, y := Wildcard.Lower(a[0]) as int, Wildcard.Lower(b[0]) as int;
      if x != y then x - y else CaseCompare(a[1..], b[1..])
  }

  lemma {:induction false} CaseCompareIsOrder(a: string, b: string, c: string)
    ensures CaseCompare(a, a) == 0
    ensures CaseCompare(a, b) > 0 <==> CaseCompare(b, a) < 0
    ensures CaseCompare(a, b) <= 0 && CaseCompare(b, c) <= 0 ==> CaseCompare(a, c) <= 0
    decreases |a| + |b| + |c|
  {
    var a', b', c' := if a == [] then a else a[1..], if b == [] then b else b[1..], if c == [] then c else c[1..];
    if a != [] || b != [] || c != [] { CaseCompareIsOrder(a', b', c'); }
  }

  /** The two agree up to k, up to the case of letters. */
  predicate AgreeUpTo(a: string, b: string, k: nat)
    requires k <= |a| && k <= |b|
  {
    forall i :: 0 <= i < k ==> Wildcard.Lower(a[i]) == Wildcard.Lower(b[i])
  }

  /** The first difference decides: a name comes before another if it ends there, or has the smaller
      lower-case letter there; without a difference neither comes first. */
  lemma {:induction false} FirstDifferenceDecides(a: string, b: string, k: nat)
    requires k <= |a| && k <= |b| && AgreeUpTo(a, b, k)
    ensures k < |b| && (k == |a| || Wildcard.Lower(a[k]) < Wildcard.Lower(b[k])) ==> CaseCompare(a, b) < 0
    ensures k < |a| && (k == |b| || Wildcard.Lower(a[k]) > Wildcard.Lower(b[k])) ==> CaseCompare(a, b) > 0
    ensures k == |a| == |b| ==> CaseCompare(a, b) == 0
  {
    if k > 0 {
      assert Wildcard.Lower(a[0]) == Wildcard.Lower(b[0]);
      FirstDifferenceDecides(a[1..], b[1..], k - 1);
    }
  }

  /** No difference is equality up to the case of letters. */
  lemma {:induction false} ZeroIsSameText(a: string, b: string)
    ensures CaseCompare(a, b) == 0 <==> WildcardMeaning.SameText(a, b)
  {
    if a != [] && b != [] {
      WildcardMeaning.LowerIsCase(a[0], b[0]);
      ZeroIsSameText(a[1..], b[1..]);
      WildcardMeaning.FirstAndRest(a, b);
    }
  }

  predicate Sorted(names: seq<string>) {
    forall i, j :: 0 <= i < j < |names| ==> CaseCompare(names[i], names[j]) <= 0
  }

  /** Where add_to_list puts a name: before the first entry that is greater. */
  predicate IsPlace(names: seq<string>, name: string, k: nat) {
    && k <= |names|
    && (forall i :: 0 <= i < k ==> CaseCompare(names[i], name) <= 0)
    && (k < |names| ==> CaseCompare(names[k], name) > 0)
  }

  lemma InsertionKeepsOrder(names: seq<string>, name: string, k: nat)
    requires Sorted(names) && IsPlace(names, name, k)
    ensures Sorted(Insert(names, k, name))
  {
    var result := Insert(names, k, name);
    forall i, j | 0 <= i < j < |result| ensures CaseCompare(result[i], result[j]) <= 0 {
      if j == k {
      } else if i == k {
        CaseCompareIsOrder(names[k], name, name);
        CaseCompareIsOrder(name, names[k], names[j - 1]);
        CaseCompareIsOrder(names[k], names[k], names[k]);
      }
    }
  }

  /** The first of the greatest scores, or -1 if all are zero. */
  predicate IsBest(scores: seq<nat>, k: int) {
    if k == -1 then
      forall i :: 0 <= i < |scores| ==> scores[i] == 0
    else
      && 0 <= k < |scores| && scores[k] > 0
      && (forall i :: 0 <= i < k ==> scores[i] < scores[k])
      && (forall i :: k < i < |scores| ==> scores[i] <= scores[k])
  }

  /** There is only one best entry, so the lookups below have no choice. */
  lemma BestIsUnique(scores: seq<nat>, j: int, k: int)
    requires IsBest(scores, j) && IsBest(scores, k)
    ensures j == k
  {
  }

  lemma BestGrows(scores: seq<nat>, i: nat, k: int)
    requires i < |scores| && IsBest(scores[..i], k)
    ensures IsBest(scores[..i + 1], if scores[i] > (if k == -1 then 0 else scores[k]) then i else k)
  {
    assert forall j :: 0 <= j < i ==> scores[..i + 1][j] == scores[..i][j];
  }

  function Scores(names: seq<string>, target: string): (scores: seq<nat>)
    ensures |scores| == |names| && forall i :: 0 <= i < |names| ==> scores[i] == Wildcard.Score(names[i], target)
  {
    seq(|names|, i requires 0 <= i < |names| => Wildcard.Score(names[i], target))
  }

  /** The first entry of that name, if there is one. */
  predicate IsNamed(names: seq<string>, target: string, k: int) {
    if k == -1 then
      forall i :: 0 <= i < |names| ==> !SameName(names[i], target)
    else
      0 <= k < |names| && SameName(names[k], target) && forall i :: 0 <= i < k ==> !SameName(names[i], target)
  }

  class List<T> {
    var head: Node?<T>
    ghost var nodes: seq<Node<T>>
    ghost var names: seq<string>

    ghost predicate Valid()
      reads this, nodes
    {
      IsChain(head, nodes) && Named(nodes, names)
    }

    constructor ()
      ensures Valid() && nodes == [] && names == []
    {
      head, nodes, names := null, [], [];
    }

    method Add(add: Node<T>) returns (ghost k: nat)
      requires Valid() && add !in nodes
      modifies this, nodes`next, add`next
      ensures Valid() && IsPlace(old(names), add.name, k)
      ensures nodes == Insert(old(nodes), k, add) && names == Insert(old(names), k, add.name)
    {
      var tmp, last: Node?<T> := head, null;
      k := 0;
      while tmp != null
        invariant k <= |nodes| && tmp == NodeAt(nodes, k) && (last == if k == 0 then null else nodes[k - 1])
        invariant forall i :: 0 <= i < k ==> CaseCompare(names[i], add.name) <= 0
        modifies {}
        decreases |nodes| - k
      {
        var c := Compare(tmp.name, add.name);
        if c > 0 { break; }
        last, tmp, k := tmp, tmp.next, k + 1;
      }
      LinkIn(last, add, tmp, k);
    }

    method LinkIn(last: Node?<T>, add: Node<T>, tmp: Node?<T>, ghost k: nat)
      requires Valid() && add !in nodes && k <= |nodes|
      requires tmp == NodeAt(nodes, k) && (last == if k == 0 then null else nodes[k - 1])
      modifies this, nodes`next, add`next
      ensures Valid()
      ensures nodes == Insert(old(nodes), k, add) && names == Insert(old(names), k, add.name)
    {
      if last != null { last.next := add; } else { head := add; }
      add.next := tmp;
      nodes, names := Insert(nodes, k, add), Insert(names, k, add.name);
      Inserted(head, old(nodes), k, add);
    }

    /** strcasecmp as a loop. */
    static method Compare(a: string, b: string) returns (c: int)
      ensures c == CaseCompare(a, b)
    {
      var i := 0;
      while i < |a| && i < |b| && Wildcard.Lower(a[i]) == Wildcard.Lower(b[i])
        invariant i <= |a| && i <= |b| && CaseCompare(a, b) == CaseCompare(a[i..], b[i..])
      {
        i := i + 1;
      }
      if i == |a| && i == |b| { return 0; }
      if i == |a| { return -1; }
      if i == |b| { return 1; }
      return Wildcard.Lower(a[i]) as int - Wildcard.Lower(b[i]) as int;
    }

    method FindWild(name: string) returns (found: Node?<T>, ghost k: int)
      requires Valid()
      ensures IsBest(Scores(names, name), k) && (found == if k == -1 then null else nodes[k])
    {
      ghost var scores := Scores(names, name);
      var best := 0;
      found, k := null, -1;
      var tmp := head;
      ghost var i := 0;
      while tmp != null
        invariant i <= |nodes| && tmp == NodeAt(nodes, i) && -1 <= k < i
        invariant IsBest(scores[..i], k) && (found == if k == -1 then null else nodes[k])
        invariant best == if k == -1 then 0 else scores[k]
        decreases |nodes| - i
      {
        var current := Wildcard.WildMatch(tmp.name, name);
        assert current == scores[i];
        BestGrows(scores, i, k);
        if current > best { found, best, k := tmp, current, i; }
        tmp, i := tmp.next, i + 1;
      }
      assert scores[..i] == scores;
    }

    method Find(name: CString) returns (found: Node?<T>, ghost k: int)
      requires Valid()
      ensures IsNamed(names, name, k) && (found == if k == -1 then null else nodes[k])
    {
      var tmp := head;
      k := 0;
      while tmp != null
        invariant 0 <= k <= |nodes| && tmp == NodeAt(nodes, k)
        invariant forall i :: 0 <= i < k ==> !SameName(names[i], name)
        decreases |nodes| - k
      {
        var c := MyStricmp(tmp.name, name);
        if c == 0 { return tmp, k; }
        tmp, k := tmp.next, k + 1;
      }
      return null, -1;
    }

    method Remove(name: CString) returns (found: Node?<T>, ghost k: int)
      requires Valid()
      modifies this, nodes`next
      ensures Valid() && IsNamed(old(names), name, k)
      ensures if k == -1 then found == null && nodes == old(nodes) && names == old(names)
              else found == old(nodes)[k] && nodes == Without(old(nodes), k) && names == Without(old(names), k)
    {
      var tmp, last: Node?<T> := head, null;
      k := 0;
      while tmp != null
        invariant 0 <= k <= |nodes| && tmp == NodeAt(nodes, k) && (last == if k == 0 then null else nodes[k - 1])
        invariant tmp != null ==> k < |nodes|
        invariant forall i :: 0 <= i < k ==> !SameName(names[i], name)
        modifies {}
        decreases |nodes| - k
      {
        var c := MyStricmp(tmp.name, name);
        if c == 0 { break; }
        last, tmp, k := tmp, tmp.next, k + 1;
      }
      if tmp == null { return null, -1; }
      Unlink(tmp, last, k);
      return tmp, k;
    }

    method Unlink(tmp: Node<T>, last: Node?<T>, ghost k: nat)
      requires Valid() && k < |nodes| && tmp == nodes[k] && last == if k == 0 then null else nodes[k - 1]
      modifies this, nodes`next
      ensures Valid() && nodes == Without(old(nodes), k) && names == Without(old(names), k)
    {
      if last != null { last.next := tmp.next; } else { head := tmp.next; }
      nodes, names := Without(nodes, k), Without(names, k);
      Removed(head, old(nodes), k);
    }
  }
}
