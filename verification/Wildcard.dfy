/** The wildcard matcher of reg.c: '*' stands for anything, '%' for anything without a
    space, '?' for one character, a backslash quotes the next character, and everything
    else matches itself up to ASCII case. */
module Wildcard {

  /** The lower-casing table of reg.c, for ASCII. */
  function Lower(c: char): char {
    if 'A' <= c <= 'Z' then c + 32 as char else c
  }

  datatype Item = End | Star | Percent | Any | Lit(c: char, width: nat) | Dangling

  /** The item that starts at position i of a mask. */
  function ItemAt(mask: string, i: nat): (item: Item)
    requires i <= |mask|
    ensures item.Lit? ==> 1 <= item.width && i + item.width <= |mask|
  {
    if i == |mask| then End
    else if mask[i] == '*' then Star
    else if mask[i] == '%' then Percent
    else if mask[i] == '?' then Any
    else if mask[i] != '\\' then Lit(mask[i], 1)
    else if i + 1 < |mask| then Lit(mask[i + 1], 2)
    else Dangling
  }

  predicate SpaceFree(s: string, j: nat, k: nat)
    requires j <= k <= |s|
  {
    forall x :: j <= x < k ==> s[x] != ' '
  }

  /** The wildcard may stand for s[j..k]. */
  predicate Covers(wildcard: Item, s: string, j: nat, k: nat)
    requires wildcard.Star? || wildcard.Percent?
    requires j <= k <= |s|
  {
    wildcard.Percent? ==> SpaceFree(s, j, k)
  }

  /** What a mask means: mask[i..] describes s[j..]. */
  ghost predicate Matches(mask: string, i: nat, s: string, j: nat)
    requires i <= |mask| && j <= |s|
    decreases |mask| - i
  {
    match ItemAt(mask, i)
    case End => j == |s|
    case Star => exists k: nat :: j <= k <= |s| && Covers(Star, s, j, k) && Matches(mask, i + 1, s, k)
    case Percent => exists k: nat :: j <= k <= |s| && Covers(Percent, s, j, k) && Matches(mask, i + 1, s, k)
    case Any => j < |s| && Matches(mask, i + 1, s, j + 1)
    case Lit(c, w) => j < |s| && Lower(c) == Lower(s[j]) && Matches(mask, i + w, s, j + 1)
    case Dangling => false
  }

  /** The number of literal items in mask[i..]. */
  function Literals(mask: string, i: nat): nat
    requires i <= |mask|
    decreases |mask| - i
  {
    match ItemAt(mask, i)
    case End => 0
    case Lit(_, w) => 1 + Literals(mask, i + w)
    case Dangling => 0
    case _ => Literals(mask, i + 1)
  }

  /** The items of mask[i..] up to the first literal space, '%' or '*' are there and describe
      the characters from j on: the point after which the matcher no longer reconsiders the
      length it gave to the latest '%'. */
  predicate Settles(mask: string, i: nat, s: string, j: nat)
    requires i <= |mask| && j <= |s|
    decreases |mask| - i
  {
    match ItemAt(mask, i)
    case End => false
    case Star => true
    case Percent => true
    case Any => j < |s| && Settles(mask, i + 1, s, j + 1)
    case Lit(c, w) => j < |s| && Lower(c) == Lower(s[j]) && (s[j] == ' ' || Settles(mask, i + w, s, j + 1))
    case Dangling => false
  }

  /** What the matcher accepts: as Matches, but a '%' stops growing as soon as what follows settles. */
  predicate Accepts(mask: string, i: nat, s: string, j: nat)
    requires i <= |mask| && j <= |s|
    decreases |mask| - i, |s| - j
  {
    match ItemAt(mask, i)
    case End => j == |s|
    case Star => Accepts(mask, i + 1, s, j) || (j < |s| && Accepts(mask, i, s, j + 1))
    case Percent =>
      Accepts(mask, i + 1, s, j) ||
      (!Settles(mask, i + 1, s, j) && j < |s| && s[j] != ' ' && Accepts(mask, i, s, j + 1))
    case Any => j < |s| && Accepts(mask, i + 1, s, j + 1)
    case Lit(c, w) => j < |s| && Lower(c) == Lower(s[j]) && Accepts(mask, i + w, s, j + 1)
    case Dangling => false
  }

  /** mask[i..] accepts some tail of s that starts at j or later. */
  ghost predicate AcceptsLater(mask: string, i: nat, s: string, j: nat)
    requires i <= |mask| && j <= |s|
  {
    exists k: nat :: j <= k <= |s| && Accepts(mask, i, s, k)
  }

  /** After a '*' any later start will do. */
  lemma {:induction false} StarEarlier(mask: string, i: nat, s: string, j: nat, k: nat)
    requires i < |mask| && mask[i] == '*' && j <= k <= |s|
    requires Accepts(mask, i + 1, s, k) || Accepts(mask, i, s, k)
    ensures Accepts(mask, i, s, j)
    decreases k - j
  {
    if j < k { StarEarlier(mask, i, s, j + 1, k); }
  }

  /** A wildcard only passes a match on to the rest of the mask, at the same place or later. */
  lemma {:induction false} WildcardLater(mask: string, i: nat, s: string, j: nat)
    requires i < |mask| && mask[i] in "*%" && j <= |s| && Accepts(mask, i, s, j)
    ensures AcceptsLater(mask, i + 1, s, j)
    decreases |s| - j
  {
    if !Accepts(mask, i + 1, s, j) { WildcardLater(mask, i, s, j + 1); }
  }

  lemma LaterPastWildcard(mask: string, i: nat, s: string, j: nat)
    requires i < |mask| && mask[i] in "*%" && j <= |s| && AcceptsLater(mask, i, s, j)
    ensures AcceptsLater(mask, i + 1, s, j)
  {
    var k: nat :| j <= k <= |s| && Accepts(mask, i, s, k);
    WildcardLater(mask, i, s, k);
  }

  /** The local variables of _wild_match; -1 is the null pointer. */
  datatype Search = Search(m: nat, n: nat, ma: int, na: nat, mp: int, np: nat, just: bool,
                           count: int, acount: int, pcount: int)

  ghost predicate Placed(mask: string, s: string, z: Search) {
    && z.n <= |s| && z.m <= |mask| && z.na <= z.n && z.np <= |s|
    && -1 <= z.ma <= z.m && -1 <= z.mp <= z.m
    && (z.ma != -1 ==> 0 < z.ma && mask[z.ma - 1] == '*')
    && (z.mp != -1 ==> 0 < z.mp && z.ma < z.mp && mask[z.mp - 1] == '%' && z.na <= z.np <= z.n)
  }

  ghost predicate Counted(mask: string, s: string, z: Search)
    requires Placed(mask, s, z)
  {
    && z.count + Literals(mask, z.m) == Literals(mask, 0)
    && (z.ma != -1 ==> z.acount + Literals(mask, z.ma) == Literals(mask, 0))
    && (z.mp != -1 ==> z.pcount + Literals(mask, z.mp) == Literals(mask, 0))
  }

  /** Moving the start of the latest '*' along can still succeed. */
  ghost predicate StarOpen(mask: string, s: string, z: Search)
    requires Placed(mask, s, z)
  {
    z.ma != -1 && z.na < |s| && Accepts(mask, z.ma - 1, s, z.na + 1)
  }

  /** Moving the end of the latest '%' along, or going on from here, can still succeed. */
  ghost predicate HereOpen(mask: string, s: string, z: Search)
    requires Placed(mask, s, z)
  {
    if z.mp != -1 then Accepts(mask, z.mp - 1, s, z.np) else Accepts(mask, z.m, s, z.n)
  }

  /** The mask accepts the string exactly when the search can still succeed. */
  ghost predicate Open(mask: string, s: string, z: Search)
    requires Placed(mask, s, z)
  {
    Accepts(mask, 0, s, 0) <==> HereOpen(mask, s, z) || StarOpen(mask, s, z)
  }

  /** Moving the start of the latest '*' along never gets further than the search already is. */
  ghost predicate Ahead(mask: string, s: string, z: Search)
    requires Placed(mask, s, z)
  {
    StarOpen(mask, s, z) ==>
      && AcceptsLater(mask, z.m, s, z.n)
      && (z.mp != -1 ==> AcceptsLater(mask, z.mp, s, z.np))
  }

  /** The items read since the latest '%' held where they were tried. */
  ghost predicate Level(mask: string, s: string, z: Search)
    requires Placed(mask, s, z)
  {
    z.mp != -1 ==>
      && (Accepts(mask, z.mp, s, z.np) <==> Accepts(mask, z.m, s, z.n))
      && (Settles(mask, z.mp, s, z.np) <==> Settles(mask, z.m, s, z.n))
  }

  /** If mask[i..] accepts from p on, then mask[k..] accepts as far after b as p is after a. */
  ghost predicate Carries(mask: string, i: nat, a: nat, k: nat, b: nat, s: string, p: nat)
    requires i <= |mask| && k <= |mask| && a <= p <= |s|
  {
    Accepts(mask, i, s, p) ==> p - a + b <= |s| && Accepts(mask, k, s, p - a + b)
  }

  /** The items read since the latest '%' have fixed length. */
  ghost predicate Rigid(mask: string, s: string, z: Search)
    requires Placed(mask, s, z)
  {
    z.mp != -1 ==> forall p: nat :: z.np <= p <= |s| ==> Carries(mask, z.mp, z.np, z.m, z.n, s, p)
  }

  /** While `just` is set, only '?' and '%' were read since the latest '*'. */
  ghost predicate Loose(mask: string, s: string, z: Search)
    requires Placed(mask, s, z)
  {
    z.just ==> z.ma != -1 && forall j: nat :: z.n <= j <= |s| ==> Carries(mask, z.m, z.n, z.ma, z.na, s, j)
  }

  /** The states the search passes through. */
  ghost function Good(mask: string, s: string): iset<Search> {
    iset z |
      && Placed(mask, s, z) && Counted(mask, s, z) && Open(mask, s, z) && Ahead(mask, s, z)
      && Level(mask, s, z) && Rigid(mask, s, z) && Loose(mask, s, z)
  }

  lemma Start(mask: string, s: string) returns (z: Search)
    ensures z == Search(0, 0, -1, 0, -1, 0, false, 0, 0, 0) && z in Good(mask, s)
  {
    z := Search(0, 0, -1, 0, -1, 0, false, 0, 0, 0);
  }

  lemma GoodPlaced(mask: string, s: string, z: Search)
    requires z in Good(mask, s)
    ensures Placed(mask, s, z)
  {
  }

  lemma ReadStar(mask: string, s: string, z: Search) returns (z': Search)
    requires z in Good(mask, s) && z.m < |mask| && mask[z.m] == '*'
    ensures z' == z.(m := z.m + 1, ma := z.m + 1, na := z.n, just := true, mp := -1, acount := z.count)
    ensures z' in Good(mask, s)
  {
    z' := z.(m := z.m + 1, ma := z.m + 1, na := z.n, just := true, mp := -1, acount := z.count);
    if StarOpen(mask, s, z) {
      var k: nat :| z.n <= k <= |s| && Accepts(mask, z.m, s, k);
      StarEarlier(mask, z.m, s, z.n, k);
    }
    if StarOpen(mask, s, z') { WildcardLater(mask, z.m, s, z.n + 1); }
  }

  lemma PercentOpen(mask: string, s: string, z: Search)
    requires Placed(mask, s, z) && Open(mask, s, z) && Level(mask, s, z) && z.m < |mask| && mask[z.m] == '%'
    ensures var z' := z.(m := z.m + 1, mp := z.m + 1, np := z.n, pcount := z.count);
            Placed(mask, s, z') && Open(mask, s, z')
  {
    assert Settles(mask, z.m, s, z.n);
    assert HereOpen(mask, s, z) == Accepts(mask, z.m, s, z.n);
  }

  lemma PercentAhead(mask: string, s: string, z: Search)
    requires Placed(mask, s, z) && Ahead(mask, s, z) && z.m < |mask| && mask[z.m] == '%'
    ensures Ahead(mask, s, z.(m := z.m + 1, mp := z.m + 1, np := z.n, pcount := z.count))
  {
    if StarOpen(mask, s, z) { LaterPastWildcard(mask, z.m, s, z.n); }
  }

  lemma PercentLoose(mask: string, s: string, z: Search, m': nat)
    requires Placed(mask, s, z) && Loose(mask, s, z) && z.m < |mask| && mask[z.m] == '%' && m' == z.m + 1
    ensures Loose(mask, s, z.(m := m', mp := m', np := z.n, pcount := z.count))
  {
    if z.just {
      forall j: nat | z.n <= j <= |s| ensures Carries(mask, m', z.n, z.ma, z.na, s, j) {
        assert Carries(mask, z.m, z.n, z.ma, z.na, s, j);
      }
    }
  }

  lemma ReadPercent(mask: string, s: string, z: Search) returns (z': Search)
    requires z in Good(mask, s) && z.m < |mask| && mask[z.m] == '%'
    ensures z' == z.(m := z.m + 1, mp := z.m + 1, np := z.n, pcount := z.count) && z' in Good(mask, s)
  {
    z' := z.(m := z.m + 1, mp := z.m + 1, np := z.n, pcount := z.count);
    PercentOpen(mask, s, z);
    PercentAhead(mask, s, z);
    PercentLoose(mask, s, z, z.m + 1);
  }

  /** The search after a '?' or a literal that holds. */
  function AfterCharacter(mask: string, s: string, z: Search): Search
    requires z.m <= |mask| && z.n < |s| && (ItemAt(mask, z.m).Any? || ItemAt(mask, z.m).Lit?)
  {
    match ItemAt(mask, z.m)
    case Any => z.(m := z.m + 1, n := z.n + 1)
    case Lit(_, w) => z.(m := z.m + w, n := z.n + 1, count := z.count + 1, just := false,
                         mp := if s[z.n] == ' ' then -1 else z.mp)
  }

  ghost predicate Holds(mask: string, s: string, z: Search) {
    && z.m <= |mask| && z.n < |s|
    && (ItemAt(mask, z.m).Any? || (ItemAt(mask, z.m).Lit? && Lower(ItemAt(mask, z.m).c) == Lower(s[z.n])))
  }

  lemma CharacterOpen(mask: string, s: string, z: Search)
    requires Placed(mask, s, z) && Open(mask, s, z) && Level(mask, s, z) && Holds(mask, s, z)
    ensures Placed(mask, s, AfterCharacter(mask, s, z)) && Open(mask, s, AfterCharacter(mask, s, z))
  {
    var z' := AfterCharacter(mask, s, z);
    assert Accepts(mask, z.m, s, z.n) == Accepts(mask, z'.m, s, z'.n);
    if z.mp != -1 && z'.mp == -1 {
      assert Settles(mask, z.m, s, z.n);
      assert HereOpen(mask, s, z) == Accepts(mask, z.mp, s, z.np);
    }
    assert HereOpen(mask, s, z) == HereOpen(mask, s, z');
  }

  lemma CharacterAhead(mask: string, s: string, z: Search)
    requires Placed(mask, s, z) && Ahead(mask, s, z) && Holds(mask, s, z)
    ensures Placed(mask, s, AfterCharacter(mask, s, z)) && Ahead(mask, s, AfterCharacter(mask, s, z))
  {
    if StarOpen(mask, s, z) {
      var k: nat :| z.n <= k <= |s| && Accepts(mask, z.m, s, k);
      assert Accepts(mask, AfterCharacter(mask, s, z).m, s, k + 1);
    }
  }

  /** A '?' or a literal takes exactly one character. */
  lemma OneCharacter(mask: string, s: string, m: nat, m': nat, j: nat)
    requires m < |mask| && j <= |s| && Accepts(mask, m, s, j)
    requires match ItemAt(mask, m) case Any => m' == m + 1 case Lit(_, w) => m' == m + w case _ => false
    ensures j < |s| && Accepts(mask, m', s, j + 1)
  {
  }

  lemma CharacterRigid(mask: string, s: string, z: Search)
    requires Placed(mask, s, z) && Rigid(mask, s, z) && Holds(mask, s, z)
    ensures Placed(mask, s, AfterCharacter(mask, s, z)) && Rigid(mask, s, AfterCharacter(mask, s, z))
  {
    var z' := AfterCharacter(mask, s, z);
    if z'.mp != -1 {
      forall p: nat | z.np <= p <= |s| ensures Carries(mask, z.mp, z.np, z'.m, z'.n, s, p) {
        assert Carries(mask, z.mp, z.np, z.m, z.n, s, p);
        if Accepts(mask, z.mp, s, p) { OneCharacter(mask, s, z.m, z'.m, p + z.n - z.np); }
      }
    }
  }

  lemma CharacterLevel(mask: string, s: string, z: Search)
    requires Placed(mask, s, z) && Level(mask, s, z) && Holds(mask, s, z)
    ensures Placed(mask, s, AfterCharacter(mask, s, z)) && Level(mask, s, AfterCharacter(mask, s, z))
  {
  }

  lemma CharacterLoose(mask: string, s: string, z: Search)
    requires Placed(mask, s, z) && Loose(mask, s, z) && Holds(mask, s, z)
    ensures Placed(mask, s, AfterCharacter(mask, s, z)) && Loose(mask, s, AfterCharacter(mask, s, z))
  {
    var z' := AfterCharacter(mask, s, z);
    if z'.just {
      forall j: nat | z'.n <= j <= |s| ensures Carries(mask, z'.m, z'.n, z.ma, z.na, s, j) {
        assert Carries(mask, z.m, z.n, z.ma, z.na, s, j - 1);
      }
    }
  }

  lemma ReadAny(mask: string, s: string, z: Search) returns (z': Search)
    requires z in Good(mask, s) && z.n < |s| && z.m < |mask| && mask[z.m] == '?'
    ensures z' == z.(m := z.m + 1, n := z.n + 1) && z' in Good(mask, s)
  {
    z' := AfterCharacter(mask, s, z);
    CharacterOpen(mask, s, z);
    CharacterAhead(mask, s, z);
    CharacterLevel(mask, s, z);
    CharacterRigid(mask, s, z);
    CharacterLoose(mask, s, z);
  }

  /** A literal whose character is mask[k - 1]; k is z.m + 1, or z.m + 2 behind a backslash. */
  lemma ReadLiteral(mask: string, s: string, z: Search, k: nat) returns (z': Search)
    requires z in Good(mask, s) && z.n < |s| && ItemAt(mask, z.m).Lit? && k == z.m + ItemAt(mask, z.m).width
    requires Lower(mask[k - 1]) == Lower(s[z.n])
    ensures z' == z.(m := k, n := z.n + 1, just := false, mp := if s[z.n] == ' ' then -1 else z.mp, count := z.count + 1)
    ensures z' in Good(mask, s)
  {
    z' := AfterCharacter(mask, s, z);
    CharacterOpen(mask, s, z);
    CharacterAhead(mask, s, z);
    CharacterLevel(mask, s, z);
    CharacterRigid(mask, s, z);
    CharacterLoose(mask, s, z);
  }

  /** The item at m needs a character that the string no longer has, or a backslash quotes nothing. */
  lemma NoneLeft(mask: string, s: string, z: Search)
    requires z in Good(mask, s)
    requires (z.n == |s| && (ItemAt(mask, z.m).Any? || ItemAt(mask, z.m).Lit?)) || ItemAt(mask, z.m).Dangling?
    ensures !Accepts(mask, 0, s, 0)
  {
    assert forall k: nat :: z.n <= k <= |s| ==> !Accepts(mask, z.m, s, k);
    if z.mp != -1 {
      forall p: nat | z.np <= p <= |s| ensures !Accepts(mask, z.mp, s, p) {
        assert Carries(mask, z.mp, z.np, z.m, z.n, s, p);
      }
      if Accepts(mask, z.mp - 1, s, z.np) { WildcardLater(mask, z.mp - 1, s, z.np); }
    }
  }

  lemma AtEnd(mask: string, s: string, z: Search)
    requires z in Good(mask, s) && z.m == |mask| && (z.n == |s| || z.just)
    ensures Accepts(mask, 0, s, 0) && z.count == Literals(mask, 0)
  {
    if z.n < |s| {
      assert Carries(mask, z.m, z.n, z.ma, z.na, s, |s|);
      StarEarlier(mask, z.ma - 1, s, z.na + 1, z.na + |s| - z.n);
    }
  }

  ghost predicate Mismatch(mask: string, s: string, z: Search)
    requires z.m <= |mask|
  {
    z.n < |s| && (ItemAt(mask, z.m).End? || (ItemAt(mask, z.m).Lit? && Lower(ItemAt(mask, z.m).c) != Lower(s[z.n])))
  }

  lemma DropJust(mask: string, s: string, z: Search) returns (z': Search)
    requires z in Good(mask, s)
    ensures z' == z.(just := false) && z' in Good(mask, s)
  {
    z' := z.(just := false);
  }

  lemma GrowPercent(mask: string, s: string, z: Search) returns (z': Search)
    requires z in Good(mask, s) && Mismatch(mask, s, z) && z.mp != -1 && s[z.np] != ' ' && !z.just
    ensures z' == z.(m := z.mp, n := z.np + 1, np := z.np + 1, count := z.pcount) && z' in Good(mask, s)
  {
    z' := z.(m := z.mp, n := z.np + 1, np := z.np + 1, count := z.pcount);
  }

  lemma GrowStar(mask: string, s: string, z: Search) returns (z': Search)
    requires z in Good(mask, s) && Mismatch(mask, s, z) && (z.mp == -1 || s[z.np] == ' ') && z.ma != -1 && !z.just
    ensures z' == z.(m := z.ma, n := z.na + 1, na := z.na + 1, count := z.acount, mp := -1) && z' in Good(mask, s)
  {
    z' := z.(m := z.ma, n := z.na + 1, na := z.na + 1, count := z.acount, mp := -1);
    assert !Settles(mask, z.m, s, z.n) && !Accepts(mask, z.m, s, z.n);
    if StarOpen(mask, s, z') { WildcardLater(mask, z.ma - 1, s, z'.na + 1); }
  }

  lemma NoStar(mask: string, s: string, z: Search)
    requires z in Good(mask, s) && Mismatch(mask, s, z) && (z.mp == -1 || s[z.np] == ' ') && z.ma == -1
    ensures !Accepts(mask, 0, s, 0)
  {
    assert !Settles(mask, z.m, s, z.n) && !Accepts(mask, z.m, s, z.n);
  }

  /** What a turn for anything but a wildcard does to the search: a character was read, or it went
      back behind the latest '%', or behind the latest '*'. */
  ghost predicate Turned(s: string, z: Search, z': Search) {
    && z'.ma == z.ma
    && if z'.na != z.na then z.na < |s| && z'.na == z.na + 1 && z'.mp == -1 && z'.m >= 0
       else if z'.np != z.np then z.mp != -1 && z.np < |s| && z'.np == z.np + 1 && z'.m == z'.mp == z.mp
       else z'.m > z.m && (z'.mp == z.mp || z'.mp == -1)
  }

  /** The branch for a literal, and where a mismatch sends the search. */
  method ReadOrGoBack(mask: string, s: string, z0: Search) returns (done: bool, r: int, z: Search)
    requires z0 in Good(mask, s)
    requires z0.m < |mask| ==> mask[z0.m] != '*' && mask[z0.m] != '%' && mask[z0.m] != '?'
    ensures !done ==> z in Good(mask, s) && Turned(s, z0, z)
    ensures done ==> r == if Accepts(mask, 0, s, 0) then Literals(mask, 0) else -1
  {
    GoodPlaced(mask, s, z0);
    z := z0;
    ghost var z1 := z0;
    var m := z.m;
    if m < |mask| && mask[m] == '\\' {
      m := m + 1;
      if m == |mask| { NoneLeft(mask, s, z0); return true, -1, z; } // quoting nothing
    }
    if m == |mask| {
      if z.n == |s| || z.just { AtEnd(mask, s, z0); return true, z.count, z; }
    } else {
      z := z.(just := false);
      z1 := DropJust(mask, s, z1);
      if z.n < |s| && Lower(mask[m]) == Lower(s[z.n]) {
        z1 := ReadLiteral(mask, s, z1, m + 1);
        z := z.(m := m + 1, n := z.n + 1, count := z.count + 1, mp := if s[z.n] == ' ' then -1 else z.mp);
        return false, 0, z;
      }
    }
    // not matched
    if z.n == |s| { NoneLeft(mask, s, z0); return true, -1, z; }
    if z.mp != -1 && s[z.np] != ' ' {
      z1 := GrowPercent(mask, s, z1);
      z := z.(m := z.mp, n := z.np + 1, np := z.np + 1, count := z.pcount);
      return false, 0, z;
    }
    if z.ma != -1 {
      z1 := GrowStar(mask, s, z1);
      z := z.(m := z.ma, n := z.na + 1, na := z.na + 1, count := z.acount, mp := -1);
      return false, 0, z;
    }
    NoStar(mask, s, z1);
    return true, -1, z;
  }

  /** The loop of _wild_match. The result is -1 for no match, otherwise the number of
      characters matched explicitly. */
  method WildMatchScore(mask: string, s: string) returns (r: int)
    ensures r == if Accepts(mask, 0, s, 0) then Literals(mask, 0) else -1
  {
    var z := Search(0, 0, -1, 0, -1, 0, false, 0, 0, 0);
    ghost var z1 := Start(mask, s);
    ghost var gmp, gnp := 0, 0; // the last '%' since the last '*', kept when mp is cleared
    while true
      invariant z in Good(mask, s)
      invariant 0 <= gmp <= z.m && 0 <= gnp <= |s| && (z.mp != -1 ==> z.mp == gmp && z.np == gnp)
      decreases |mask| - z.ma, |s| - z.na, |mask| - gmp, |s| - gnp, |mask| - z.m
    {
      GoodPlaced(mask, s, z);
      if z.m < |mask| && mask[z.m] == '*' {
        z1 := ReadStar(mask, s, z);
        z := z.(m := z.m + 1, ma := z.m + 1, na := z.n, just := true, mp := -1, acount := z.count);
        gmp, gnp := 0, 0;
      } else if z.m < |mask| && mask[z.m] == '%' {
        z1 := ReadPercent(mask, s, z);
        z := z.(m := z.m + 1, mp := z.m + 1, np := z.n, pcount := z.count);
        gmp, gnp := z.mp, z.np;
      } else if z.m < |mask| && mask[z.m] == '?' {
        if z.n == |s| { NoneLeft(mask, s, z); return -1; }
        z1 := ReadAny(mask, s, z);
        z := z.(m := z.m + 1, n := z.n + 1);
      } else {
        ghost var before := z;
        var done;
        done, r, z := ReadOrGoBack(mask, s, z);
        if done { return; }
        if z.na != before.na { gmp, gnp := 0, 0; } else if z.np != before.np { gnp := z.np; }
      }
    }
  }

  // ----- what is accepted against what the mask means

  /** Whatever the matcher accepts is described by the mask. */
  lemma {:induction false} AcceptsIsSound(mask: string, i: nat, s: string, j: nat)
    requires i <= |mask| && j <= |s| && Accepts(mask, i, s, j)
    ensures Matches(mask, i, s, j)
    decreases |mask| - i, |s| - j
  {
    match ItemAt(mask, i)
    case Star =>
      if Accepts(mask, i + 1, s, j) {
        AcceptsIsSound(mask, i + 1, s, j);
        assert Covers(Star, s, j, j);
      } else {
        AcceptsIsSound(mask, i, s, j + 1);
        var k: nat :| j + 1 <= k <= |s| && Covers(Star, s, j + 1, k) && Matches(mask, i + 1, s, k);
        assert Covers(Star, s, j, k);
      }
    case Percent =>
      if Accepts(mask, i + 1, s, j) {
        AcceptsIsSound(mask, i + 1, s, j);
        assert Covers(Percent, s, j, j);
      } else {
        AcceptsIsSound(mask, i, s, j + 1);
        var k: nat :| j + 1 <= k <= |s| && Covers(Percent, s, j + 1, k) && Matches(mask, i + 1, s, k);
        assert Covers(Percent, s, j, k);
      }
    case Any => AcceptsIsSound(mask, i + 1, s, j + 1);
    case Lit(_, w) => AcceptsIsSound(mask, i + w, s, j + 1);
    case _ =>
  }

  /** The item takes the character. */
  predicate Fits(item: Item, c: char) {
    item.Any? || (item.Lit? && Lower(item.c) == Lower(c))
  }

  /** The run of items from b on that take one character each, up to a wildcard, a literal space, or
      the end of the mask. */
  function Run(mask: string, b: nat): (run: seq<Item>)
    requires b <= |mask|
    ensures forall k :: 0 <= k < |run| ==> run[k].Any? || (run[k].Lit? && run[k].c != ' ')
    decreases |mask| - b
  {
    match ItemAt(mask, b)
    case Any => [Any] + Run(mask, b + 1)
    case Lit(c, w) => if c == ' ' then [] else [Lit(c, w)] + Run(mask, b + w)
    case _ => []
  }

  /** Where that run stops. */
  function Stop(mask: string, b: nat): (e: nat)
    requires b <= |mask|
    ensures b <= e <= |mask| && !ItemAt(mask, e).Any? && (ItemAt(mask, e).Lit? ==> ItemAt(mask, e).c == ' ')
    decreases |mask| - b
  {
    match ItemAt(mask, b)
    case Any => Stop(mask, b + 1)
    case Lit(c, w) => if c == ' ' then b else Stop(mask, b + w)
    case _ => b
  }

  predicate RunFits(run: seq<Item>, s: string, j: nat) {
    j + |run| <= |s| && forall k :: 0 <= k < |run| ==> Fits(run[k], s[j + k])
  }

  /** A run is read where it stands: meaning, acceptance and settling all go on where it stops. */
  lemma {:induction false} RunIsRead(mask: string, b: nat, s: string, j: nat)
    requires b <= |mask| && j <= |s|
    ensures var run, e := Run(mask, b), Stop(mask, b);
            && (Matches(mask, b, s, j) <==> RunFits(run, s, j) && Matches(mask, e, s, j + |run|))
            && (Accepts(mask, b, s, j) <==> RunFits(run, s, j) && Accepts(mask, e, s, j + |run|))
            && (Settles(mask, b, s, j) <==> RunFits(run, s, j) && Settles(mask, e, s, j + |run|))
    decreases |mask| - b
  {
    match ItemAt(mask, b)
    case Any => if j < |s| { RunIsRead(mask, b + 1, s, j + 1); FirstFits(Any, Run(mask, b + 1), s, j); }
    case Lit(c, w) =>
      if c != ' ' && j < |s| {
        RunIsRead(mask, b + w, s, j + 1);
        FirstFits(Lit(c, w), Run(mask, b + w), s, j);
      }
    case _ =>
  }

  lemma FirstFits(item: Item, run: seq<Item>, s: string, j: nat)
    requires j < |s|
    ensures RunFits([item] + run, s, j) <==> Fits(item, s[j]) && RunFits(run, s, j + 1)
  {
    var all := [item] + run;
    assert forall k :: 0 <= k < |run| ==> all[k + 1] == run[k];
    if RunFits(all, s, j) {
      assert all[0] == item;
      forall k | 0 <= k < |run| ensures Fits(run[k], s[j + 1 + k]) { assert Fits(all[k + 1], s[j + (k + 1)]); }
    }
  }

  /** Two items that can take one and the same character. */
  predicate Agree(x: Item, y: Item) {
    x.Any? || y.Any? || (x.Lit? && y.Lit? && Lower(x.c) == Lower(y.c))
  }

  /** A run that is followed by a literal space can stand d places further on as well, so that the
      earlier space falls on one of its '?'. */
  predicate Overlaps(run: seq<Item>, d: nat) {
    && 1 <= d <= |run| && run[|run| - d].Any?
    && forall k :: d <= k < |run| ==> Agree(run[k], run[k - d])
  }

  predicate OverlapsItself(run: seq<Item>) {
    exists d :: 0 <= d <= |run| && Overlaps(run, d)
  }

  /** The '%' at i can be led to settle for the wrong length: the run after it ends in another '%'
      and has a '?', or ends in a literal space and overlaps with itself. */
  predicate CommitsAt(mask: string, i: nat)
    requires i < |mask|
  {
    && ItemAt(mask, i).Percent?
    && match ItemAt(mask, Stop(mask, i + 1))
       case Percent => Any in Run(mask, i + 1)
       case Lit(_, _) => OverlapsItself(Run(mask, i + 1))
       case _ => false
  }

  predicate NeverCommits(mask: string, i: nat)
    requires i <= |mask|
    decreases |mask| - i
  {
    match ItemAt(mask, i)
    case End => true
    case Percent => !CommitsAt(mask, i) && NeverCommits(mask, i + 1)
    case Lit(_, w) => NeverCommits(mask, i + w)
    case _ => NeverCommits(mask, i + 1)
  }

  /** Where a run fits at j and at k, with no space in between, what stops it can be met at j. */
  lemma StopsEarlier(mask: string, i: nat, s: string, j: nat, k: nat)
    requires i < |mask| && ItemAt(mask, i).Percent? && j <= k <= |s| && SpaceFree(s, j, k)
    requires !CommitsAt(mask, i) || SpaceFree(s, 0, |s|)
    requires RunFits(Run(mask, i + 1), s, j) && RunFits(Run(mask, i + 1), s, k)
    requires Settles(mask, Stop(mask, i + 1), s, j + |Run(mask, i + 1)|)
    requires Matches(mask, Stop(mask, i + 1), s, k + |Run(mask, i + 1)|)
    ensures Matches(mask, Stop(mask, i + 1), s, j + |Run(mask, i + 1)|)
  {
    var run, e := Run(mask, i + 1), Stop(mask, i + 1);
    match ItemAt(mask, e)
    case Star => WildcardEarlier(mask, e, s, j + |run|, k + |run|);
    case Percent =>
      RunIsSpaceFree(run, s, j, k);
      WildcardEarlier(mask, e, s, j + |run|, k + |run|);
    case Lit(c, w) => if j < k { SpaceMeetsRun(run, s, j, k); }
    case _ =>
  }

  lemma WildcardEarlier(mask: string, i: nat, s: string, j: nat, k: nat)
    requires i < |mask| && mask[i] in "*%" && j <= k <= |s| && Matches(mask, i, s, k) && Covers(ItemAt(mask, i), s, j, k)
    ensures Matches(mask, i, s, j)
  {
    var wildcard := ItemAt(mask, i);
    var e: nat :| k <= e <= |s| && Covers(wildcard, s, k, e) && Matches(mask, i + 1, s, e);
    assert Covers(wildcard, s, j, e);
  }

  lemma RunIsSpaceFree(run: seq<Item>, s: string, j: nat, k: nat)
    requires j <= k && RunFits(run, s, k) && SpaceFree(s, j, k)
    requires (forall x :: 0 <= x < |run| ==> run[x].Lit? && run[x].c != ' ') || SpaceFree(s, 0, |s|)
    ensures SpaceFree(s, j + |run|, k + |run|)
  {
    forall x | j + |run| <= x < k + |run| ensures s[x] != ' ' {
      if k <= x < k + |run| { assert Fits(run[x - k], s[k + (x - k)]); }
    }
  }

  /** Two places where a run fits before a space, the second without a space in between: the run
      overlaps with itself. */
  lemma SpaceMeetsRun(run: seq<Item>, s: string, j: nat, k: nat)
    requires forall x :: 0 <= x < |run| ==> run[x].Any? || (run[x].Lit? && run[x].c != ' ')
    requires j < k && RunFits(run, s, j) && RunFits(run, s, k) && SpaceFree(s, j, k)
    requires j + |run| < |s| && s[j + |run|] == ' '
    ensures k - j <= |run| && Overlaps(run, k - j)
  {
    var n, d := |run|, k - j;
    assert d <= n;
    assert Fits(run[n - d], s[k + (n - d)]);
    forall x | d <= x < n ensures Agree(run[x], run[x - d]) {
      assert Fits(run[x], s[j + x]) && Fits(run[x - d], s[k + (x - d)]);
    }
  }

  /** A '%' that does not commit may as well end at the first place where what follows it settles. */
  lemma SettledEarlier(mask: string, i: nat, s: string, j: nat, k: nat)
    requires i < |mask| && ItemAt(mask, i).Percent? && j <= k <= |s| && SpaceFree(s, j, k)
    requires Settles(mask, i + 1, s, j) && Matches(mask, i + 1, s, k)
    requires !CommitsAt(mask, i) || SpaceFree(s, 0, |s|)
    ensures Matches(mask, i + 1, s, j)
  {
    RunIsRead(mask, i + 1, s, j);
    RunIsRead(mask, i + 1, s, k);
    StopsEarlier(mask, i, s, j, k);
  }

  /** The matcher accepts everything that a mask describes if no '%' of it commits, and everything
      that any mask describes in a string without spaces. */
  lemma {:induction false} AcceptsIsComplete(mask: string, i: nat, s: string, j: nat)
    requires i <= |mask| && j <= |s| && Matches(mask, i, s, j)
    requires NeverCommits(mask, i) || SpaceFree(s, 0, |s|)
    ensures Accepts(mask, i, s, j)
    decreases |mask| - i, |s| - j
  {
    match ItemAt(mask, i)
    case Star =>
      var k: nat :| j <= k <= |s| && Covers(Star, s, j, k) && Matches(mask, i + 1, s, k);
      AcceptsIsComplete(mask, i + 1, s, k);
      StarEarlier(mask, i, s, j, k);
    case Percent =>
      var k: nat :| j <= k <= |s| && Covers(Percent, s, j, k) && Matches(mask, i + 1, s, k);
      if Settles(mask, i + 1, s, j) {
        SettledEarlier(mask, i, s, j, k);
        AcceptsIsComplete(mask, i + 1, s, j);
      } else if k == j {
        AcceptsIsComplete(mask, i + 1, s, j);
      } else {
        assert Covers(Percent, s, j + 1, k);
        AcceptsIsComplete(mask, i, s, j + 1);
      }
    case Any => AcceptsIsComplete(mask, i + 1, s, j + 1);
    case Lit(_, w) => AcceptsIsComplete(mask, i + w, s, j + 1);
    case _ =>
  }

  /** Where a mask stands with respect to the latest '%': Sure if it was followed by a literal
      space or there was none, Fresh if only other literals followed it, Doubtful if a '?' did. */
  datatype Standing = Sure | Fresh | Doubtful

  /** No '?' stands between a '%' and the next literal space, nor between two '%', unless a '*'
      comes in between. */
  predicate Orderly(mask: string, i: nat, st: Standing)
    requires i <= |mask|
    decreases |mask| - i
  {
    match ItemAt(mask, i)
    case End => true
    case Star => Orderly(mask, i + 1, Sure)
    case Percent => !st.Doubtful? && Orderly(mask, i + 1, Fresh)
    case Any => Orderly(mask, i + 1, if st.Sure? then Sure else Doubtful)
    case Lit(c, w) => if c == ' ' then !st.Doubtful? && Orderly(mask, i + w, Sure) else Orderly(mask, i + w, st)
    case Dangling => true
  }

  lemma {:induction false} OrderlyRun(mask: string, b: nat, st: Standing)
    requires b <= |mask| && Orderly(mask, b, st) && !st.Sure?
    requires ItemAt(mask, Stop(mask, b)).Percent? || ItemAt(mask, Stop(mask, b)).Lit?
    ensures !st.Doubtful? && Any !in Run(mask, b)
    decreases |mask| - b
  {
    match ItemAt(mask, b)
    case Any => OrderlyRun(mask, b + 1, Doubtful);
    case Lit(c, w) => if c != ' ' { OrderlyRun(mask, b + w, st); }
    case _ =>
  }

  /** The simple case: in an orderly mask no '%' commits. */
  lemma {:induction false} OrderlyNeverCommits(mask: string, i: nat, st: Standing)
    requires i <= |mask| && Orderly(mask, i, st)
    ensures NeverCommits(mask, i)
    decreases |mask| - i
  {
    match ItemAt(mask, i)
    case End =>
    case Star => OrderlyNeverCommits(mask, i + 1, Sure);
    case Percent =>
      if CommitsAt(mask, i) { OrderlyRun(mask, i + 1, Fresh); }
      OrderlyNeverCommits(mask, i + 1, Fresh);
    case Any => OrderlyNeverCommits(mask, i + 1, if st.Sure? then Sure else Doubtful);
    case Lit(c, w) => OrderlyNeverCommits(mask, i + w, if c == ' ' then Sure else st);
    case Dangling =>
  }

  /** `%? x` describes "a" followed by two spaces and an x, but the matcher commits to the first
      space and misses it. */
  lemma DoubtfulSpaceIsMissed()
    ensures Matches("%? x", 0, "a  x", 0) && !Accepts("%? x", 0, "a  x", 0) && CommitsAt("%? x", 0)
  {
    assert Matches("%? x", 1, "a  x", 1);
    assert Covers(Percent, "a  x", 0, 1);
    assert Run("%? x", 2) == [] && Run("%? x", 1) == [Any] && Overlaps([Any], 1);
  }

  /** wild_match's value: 1 and one more for each literal of the mask, 0 for no match. */
  function Score(mask: string, s: string): nat {
    if Accepts(mask, 0, s, 0) then 1 + Literals(mask, 0) else 0
  }

  method Match(pattern: string, s: string) returns (r: int)
    ensures r == 1 || r == 0
    ensures r == 1 ==> Matches(pattern, 0, s, 0)
    ensures (NeverCommits(pattern, 0) || SpaceFree(s, 0, |s|)) && Matches(pattern, 0, s, 0) ==> r == 1
  {
    var score := WildMatchScore(pattern, s);
    r := if score >= 0 then 1 else 0;
    if Accepts(pattern, 0, s, 0) { AcceptsIsSound(pattern, 0, s, 0); }
    if (NeverCommits(pattern, 0) || SpaceFree(s, 0, |s|)) && Matches(pattern, 0, s, 0) { AcceptsIsComplete(pattern, 0, s, 0); }
  }

  method WildMatch(pattern: string, s: string) returns (r: int)
    ensures r == Score(pattern, s)
    ensures r > 0 ==> Matches(pattern, 0, s, 0) && r == 1 + Literals(pattern, 0)
    ensures r == 0 && (NeverCommits(pattern, 0) || SpaceFree(s, 0, |s|)) ==> !Matches(pattern, 0, s, 0)
  {
    var score := WildMatchScore(pattern, s);
    r := score + 1;
    if Accepts(pattern, 0, s, 0) { AcceptsIsSound(pattern, 0, s, 0); }
    if (NeverCommits(pattern, 0) || SpaceFree(s, 0, |s|)) && Matches(pattern, 0, s, 0) { AcceptsIsComplete(pattern, 0, s, 0); }
  }
}
