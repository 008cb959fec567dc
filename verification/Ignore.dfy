/** The ignore list of ignore.c: per-entry masks of message kinds and the verdict they give. */
module Ignore {
  import opened Ircaux
  import opened Chain
  import opened Lists
  import Wildcard
  import WildcardMeaning

  /** The bits of ignore.h. */
  datatype Kind =
    | Msgs | Public | Walls | Wallops | Invites | Notices | Notes | Ctcps | Kicks | Modes | Smodes
    | Joins | Topics | Quits | Parts | Nicks | Pongs | Splits | Crap

  /** A bit mask, as the set of its bits. */
  type Mask = set<Kind>

  /** What an entry says: the kinds to ignore, to highlight, never to ignore, and to grep. */
  datatype Masks = Masks(ignored: Mask, high: Mask, dont: Mask, cgrep: Mask)

  datatype Flag = Remove | Dont | High | Cgrep | Ignoring

  predicate Disjoint(m: Masks) {
    m.ignored !! m.high !! m.dont !! m.cgrep
  }

  /** The mask updates of ignore_nickname. */
  function Update(m: Masks, kinds: Mask, flag: Flag): (m': Masks)
    ensures Disjoint(m) ==> Disjoint(m')
  {
    match flag
    case Remove => Masks(m.ignored - kinds, m.high - kinds, m.dont - kinds, m.cgrep - kinds)
    case Dont => Masks(m.ignored - kinds, m.high - kinds, m.dont + kinds, m.cgrep - kinds)
    case High => Masks(m.ignored - kinds, m.high + kinds, m.dont - kinds, m.cgrep - kinds)
    case Cgrep => Masks(m.ignored - kinds, m.high - kinds, m.dont - kinds, m.cgrep + kinds)
    case Ignoring => Masks(m.ignored + kinds, m.high - kinds, m.dont - kinds, m.cgrep - kinds)
  }

  /** IGNORE_ALL: every kind there is. */
  const AllKinds: Mask := {
    Msgs, Public, Walls, Wallops, Invites, Notices, Notes, Ctcps, Kicks, Modes, Smodes,
    Joins, Topics, Quits, Parts, Nicks, Pongs, Splits, Crap
  }

  lemma EveryKindIsMeant(kind: Kind)
    ensures kind in AllKinds
  {
  }

  const Blank := Masks({}, {}, {}, {})

  /** An entry's masks after a run of updates. */
  function After(updates: seq<(Mask, Flag)>): Masks {
    if updates == [] then Blank
    else var last := updates[|updates| - 1]; Update(After(updates[..|updates| - 1]), last.0, last.1)
  }

  /** The flag of the latest update that names a kind. */
  function Latest(updates: seq<(Mask, Flag)>, kind: Kind): Flag {
    if updates == [] then Remove
    else
      var last := updates[|updates| - 1];
      if kind in last.0 then last.1 else Latest(updates[..|updates| - 1], kind)
  }

  /** The mask that belongs to a flag. */
  function MaskOf(m: Masks, flag: Flag): Mask {
    match flag
    case Dont => m.dont
    case Ignoring => m.ignored
    case High => m.high
    case Cgrep => m.cgrep
    case Remove => {}
  }

  /** After any run of updates the masks are disjoint and each kind is in the mask of the latest
      update that named it, and in no other. */
  lemma {:induction false} LatestUpdateWins(updates: seq<(Mask, Flag)>, kind: Kind, flag: Flag)
    ensures Disjoint(After(updates))
    ensures flag != Remove ==> (kind in MaskOf(After(updates), flag) <==> Latest(updates, kind) == flag)
  {
    if updates != [] { LatestUpdateWins(updates[..|updates| - 1], kind, flag); }
  }

  // ----- the verdict

  datatype Verdict = Ignored | DontIgnore | Highlighted

  /** The first of the flags whose mask meets the kinds asked about. */
  function FirstHit(m: Masks, kinds: Mask, order: seq<Flag>): Flag {
    if order == [] then Remove
    else if MaskOf(m, order[0]) * kinds != {} then order[0]
    else FirstHit(m, kinds, order[1..])
  }

  /** The tests of check_ignore, in its order. */
  const TestOrder := [Dont, Ignoring, High]

  predicate IsReordering(order: seq<Flag>) {
    multiset(order) == multiset(TestOrder)
  }

  predicate AtMostOne(kinds: Mask) {
    forall a, b :: a in kinds && b in kinds ==> a == b
  }

  function Say(flag: Flag): Verdict {
    if flag == Ignoring then Ignored else if flag == High then Highlighted else DontIgnore
  }

  /** The order of the tests never affects the verdict exactly when at most one kind is asked about;
      callers do ask about several, such as topics and crap together. */
  lemma OrderMattersForSeveral(kinds: Mask)
    ensures AtMostOne(kinds) <==>
            forall updates: seq<(Mask, Flag)>, order: seq<Flag> :: IsReordering(order) ==>
              Say(FirstHit(After(updates), kinds, order)) == Say(FirstHit(After(updates), kinds, TestOrder))
  {
    if AtMostOne(kinds) {
      forall updates: seq<(Mask, Flag)>, order: seq<Flag> | IsReordering(order)
        ensures FirstHit(After(updates), kinds, order) == FirstHit(After(updates), kinds, TestOrder)
      {
        LatestUpdateWins(updates, Msgs, Dont);
        OneKindOneHit(After(updates), kinds, order);
        OneKindOneHit(After(updates), kinds, TestOrder);
        assert forall flag :: flag in order <==> flag in multiset(order);
        assert forall flag :: flag in TestOrder <==> flag in multiset(TestOrder);
      }
    } else {
      SeveralKindsDiffer(kinds);
    }
  }

  /** For any two kinds there are two ignore commands after which another order says otherwise. */
  lemma SeveralKindsDiffer(kinds: Mask)
    requires !AtMostOne(kinds)
    ensures exists updates: seq<(Mask, Flag)>, order: seq<Flag> :: IsReordering(order) &&
              Say(FirstHit(After(updates), kinds, order)) != Say(FirstHit(After(updates), kinds, TestOrder))
  {
    var a, b :| a in kinds && b in kinds && a != b;
    var updates, order := [({a}, Ignoring), ({b}, Dont)], [Ignoring, Dont, High];
    AfterTwo(a, b);
    FirstHits(After(updates), kinds, Ignoring, order, a);
    FirstHits(After(updates), kinds, Dont, TestOrder, b);
    assert IsReordering(order);
  }

  lemma AfterTwo(a: Kind, b: Kind)
    requires a != b
    ensures After([({a}, Ignoring), ({b}, Dont)]) == Masks({a}, {}, {b}, {})
  {
    var first, updates := [({a}, Ignoring)], [({a}, Ignoring), ({b}, Dont)];
    assert updates[..1] == first && first[..0] == [];
    assert After(first) == Masks({a}, {}, {}, {});
  }

  lemma FirstHits(m: Masks, kinds: Mask, flag: Flag, order: seq<Flag>, kind: Kind)
    requires order != [] && order[0] == flag && kind in MaskOf(m, flag) && kind in kinds
    ensures FirstHit(m, kinds, order) == flag
  {
    assert kind in MaskOf(m, flag) * kinds;
  }

  /** With one kind asked about, the flag that is hit is the only one whose mask holds that kind. */
  lemma {:induction false} OneKindOneHit(m: Masks, kinds: Mask, order: seq<Flag>)
    requires AtMostOne(kinds) && Disjoint(m)
    ensures var hit := FirstHit(m, kinds, order);
            && (hit != Remove ==> hit in order && MaskOf(m, hit) * kinds != {})
            && forall flag :: flag in order && flag != hit ==> MaskOf(m, flag) * kinds == {}
  {
    if order != [] { OneKindOneHit(m, kinds, order[1..]); }
  }

  // ----- the list

  /** What the list holds under a name: the masks, the exceptions, and the words that let a
      grepped channel through. */
  datatype Entry = Entry(masks: Masks, except: seq<string>, looking: seq<string>)

  ghost predicate Holds(nodes: seq<Node<Entry>>, entries: seq<Entry>)
    reads nodes`data
  {
    |entries| == |nodes| && forall i {:trigger nodes[i].data} :: 0 <= i < |nodes| ==> nodes[i].data == entries[i]
  }

  predicate AllDisjoint(entries: seq<Entry>) {
    forall i :: 0 <= i < |entries| ==> Disjoint(entries[i].masks)
  }

  method UpdateMasks(list: List<Entry>, node: Node<Entry>, kinds: Mask, flag: Flag, ghost k: nat, ghost entries: seq<Entry>)
    returns (ghost entries': seq<Entry>)
    requires list.Valid() && Holds(list.nodes, entries) && k < |entries| && node == list.nodes[k]
    modifies node`data
    ensures list.Valid() && Holds(list.nodes, entries')
    ensures entries' == entries[k := entries[k].(masks := Update(entries[k].masks, kinds, flag))]
  {
    node.data := node.data.(masks := Update(node.data.masks, kinds, flag));
    entries' := entries[k := node.data];
  }

  /** Adds a new entry at its place. */
  method AddEntry(list: List<Entry>, name: CString, masks: Masks, ghost entries: seq<Entry>)
    returns (ghost k: nat, ghost entries': seq<Entry>)
    requires list.Valid() && Holds(list.nodes, entries)
    modifies list, list.nodes`next
    ensures list.Valid() && Holds(list.nodes, entries')
    ensures IsPlace(old(list.names), name, k) && list.names == Insert(old(list.names), k, name)
    ensures entries' == Insert(entries, k, Entry(masks, [], []))
  {
    var node := new Node(name, Entry(masks, [], []));
    ghost var nodes := list.nodes;
    k := list.Add(node);
    entries' := Insert(entries, k, node.data);
    HoldsInserted(nodes, entries, k, node);
  }

  lemma HoldsInserted(nodes: seq<Node<Entry>>, entries: seq<Entry>, k: nat, node: Node<Entry>)
    requires Holds(nodes, entries) && k <= |nodes|
    ensures Holds(Insert(nodes, k, node), Insert(entries, k, node.data))
  {
  }

  /** remove_ignore: the entry of that name goes. Where there is none, the loop that should clear
      everything that matches looks the name up as a plain one again, and ends at once. */
  method RemoveIgnore(list: List<Entry>, name: CString, ghost entries: seq<Entry>)
    returns (count: nat, ghost k: int, ghost entries': seq<Entry>)
    requires list.Valid() && Holds(list.nodes, entries)
    modifies list, list.nodes`next
    ensures list.Valid() && Holds(list.nodes, entries') && IsNamed(old(list.names), name, k)
    ensures count == if IsNamed(old(list.names), name, -1) then 0 else 1
    ensures k == -1 ==> list.names == old(list.names) && entries' == entries
    ensures k != -1 ==> list.names == Without(old(list.names), k) && entries' == Without(entries, k)
    ensures k == -1 ==>
            (IsBest(Scores(list.names, name), -1) <==> IsBest(Scores(old(list.names), name), -1))
  {
    var tmp;
    tmp, k := list.Remove(name);
    count, entries' := 0, entries;
    if tmp != null {
      count, entries' := 1, Without(entries, k);
    } else {
      // The first condition of the loop, which has no turn.
      ghost var j: int;
      tmp, j := list.Remove(name);
      assert tmp == null;
    }
  }

  /** What the loop was to clear and does not: with only "a*" in the list, "ab" matches an entry and
      names none. */
  lemma MatchIsNotCleared()
    ensures IsNamed(["a*"], "ab", -1) && !IsBest(Scores(["a*"], "ab"), -1)
  {
    assert Wildcard.Accepts("a*", 1, "ab", 1) by { assert Wildcard.Accepts("a*", 2, "ab", 2); }
    assert Scores(["a*"], "ab")[0] > 0;
  }

  /** One turn of ignore_nickname's loop, for a name already in its full nick!user@host form:
      the entry of that name is updated in place, or a new one is added at its place; a removal
      leaves a missing name alone, and a removal of all kinds takes the entry out. */
  method IgnoreNickname(list: List<Entry>, name: CString, kinds: Mask, flag: Flag, ghost entries: seq<Entry>)
    returns (ghost k: int, ghost entries': seq<Entry>)
    requires list.Valid() && Holds(list.nodes, entries)
    modifies list, list.nodes
    ensures list.Valid() && Holds(list.nodes, entries')
    ensures Ignores(old(list.names), entries, name, kinds, flag, k, list.names, entries')
  {
    var found;
    found, k := list.Find(name);
    if found == null {
      entries' := entries;
      if flag == Remove { return; }
      k, entries' := AddEntry(list, name, Update(Blank, kinds, flag), entries);
    } else {
      entries' := UpdateMasks(list, found, kinds, flag, k, entries);
      if kinds == AllKinds && flag == Remove {
        var count;
        ghost var j: int;
        count, j, entries' := RemoveIgnore(list, name, entries');
      }
    }
  }

  /** The list before and after ignore_nickname; k is the entry concerned. */
  predicate Ignores(names: seq<string>, entries: seq<Entry>, name: string, kinds: Mask, flag: Flag, k: int,
                    names': seq<string>, entries': seq<Entry>)
    requires |names| == |entries|
  {
    if IsNamed(names, name, -1) then
      if flag == Remove then names' == names && entries' == entries
      else
        && 0 <= k && IsPlace(names, name, k) && names' == Insert(names, k, name)
        && entries' == Insert(entries, k, Entry(Update(Blank, kinds, flag), [], []))
    else
      && IsNamed(names, name, k)
      && if kinds == AllKinds && flag == Remove then names' == Without(names, k) && entries' == Without(entries, k)
         else names' == names && entries' == entries[k := entries[k].(masks := Update(entries[k].masks, kinds, flag))]
  }

  /** Whatever the flag, every entry of the list keeps its masks disjoint. */
  lemma IgnoresKeepsDisjoint(names: seq<string>, entries: seq<Entry>, name: string, kinds: Mask, flag: Flag, k: int,
                             names': seq<string>, entries': seq<Entry>)
    requires |names| == |entries| && AllDisjoint(entries)
    requires Ignores(names, entries, name, kinds, flag, k, names', entries')
    ensures |names'| == |entries'| && AllDisjoint(entries')
  {
  }

  // ----- check_ignore

  predicate SameUpper(a: string, b: string) {
    |a| == |b| && forall i :: 0 <= i < |a| ==> Wildcard.Lower(a[i]) == Wildcard.Lower(b[i])
  }

  lemma SameUpperIsCase(a: string, b: string)
    ensures SameUpper(a, b) <==> WildcardMeaning.SameText(a, b)
  {
    if |a| == |b| {
      forall i | 0 <= i < |a|
        ensures Wildcard.Lower(a[i]) == Wildcard.Lower(b[i]) <==> WildcardMeaning.SameLetter(a[i], b[i])
      {
        WildcardMeaning.LowerIsCase(a[i], b[i]);
      }
    }
  }

  /** stristr: a non-empty word occurs in the text, whatever the case of its letters. */
  predicate OccursAt(text: string, word: string, i: nat) {
    word != "" && i + |word| <= |text| && SameUpper(text[i..i + |word|], word)
  }

  lemma OccurrenceAgrees(text: string, word: string, i: nat, x: nat)
    requires x < |word| && i + x < |text|
    ensures OccursAt(text, word, i) ==> Wildcard.Lower(text[i + x]) == Wildcard.Lower(word[x])
  {
    if OccursAt(text, word, i) { assert text[i..i + |word|][x] == text[i + x]; }
  }

  method Stristr(text: string, word: string) returns (found: bool)
    ensures found <==> exists i: nat :: OccursAt(text, word, i)
  {
    if word == "" || |text| < |word| { return false; }
    var i, x := 0, 0;
    while i < |text|
      invariant i <= |text| && x <= |word| && i + x <= |text| && SameUpper(text[i..i + x], word[..x])
      invariant forall j: nat :: j < i ==> !OccursAt(text, word, j)
      decreases |text| - i, |word| - x
    {
      if i + x < |text| && x < |word| && Wildcard.Lower(text[i + x]) == Wildcard.Lower(word[x]) {
        assert SameUpper(text[i..i + x + 1], word[..x + 1]) by {
          assert text[i..i + x + 1] == text[i..i + x] + [text[i + x]] && word[..x + 1] == word[..x] + [word[x]];
        }
        x := x + 1;
      } else if x < |word| {
        if i + x < |text| { OccurrenceAgrees(text, word, i, x); }
        i, x := i + 1, 0;
      } else {
        assert word[..x] == word && OccursAt(text, word, i);
        return true;
      }
    }
    return false;
  }

  lemma TestsInOrder(m: Masks, kinds: Mask)
    ensures FirstHit(m, kinds, TestOrder) ==
            if m.dont * kinds != {} then Dont else if m.ignored * kinds != {} then Ignoring
            else if m.high * kinds != {} then High else Remove
  {
    var second, third := [Ignoring, High], [High];
    assert TestOrder[1..] == second && second[1..] == third && third[1..] == [];
    assert FirstHit(m, kinds, third) == if m.high * kinds != {} then High else Remove;
    assert FirstHit(m, kinds, second) == if m.ignored * kinds != {} then Ignoring else FirstHit(m, kinds, third);
  }

  ghost predicate Excepted(except: seq<string>, target: string) {
    exists i :: 0 <= i < |except| && Wildcard.Score(except[i], target) > 0
  }

  ghost predicate LookedFor(looking: seq<string>, text: string) {
    exists i, j: nat :: 0 <= i < |looking| && OccursAt(text, looking[i], j)
  }

  /** The verdict of check_ignore: the best entry for the sender decides, then the best entry for
      the channel, where a grep ignores what does not hold a word it looks for. Here k and c are
      the places of those entries, -1 for none. */
  ghost function Judge(entries: seq<Entry>, k: int, c: int, target: string, kinds: Mask, text: Option<string>): Verdict
    requires -1 <= k < |entries| && -1 <= c < |entries|
  {
    if k != -1 && Excepted(entries[k].except, target) then DontIgnore
    else if k != -1 && FirstHit(entries[k].masks, kinds, TestOrder) != Remove then
      Say(FirstHit(entries[k].masks, kinds, TestOrder))
    else if c == -1 then DontIgnore
    else if FirstHit(entries[c].masks, kinds, TestOrder) != Remove then
      Say(FirstHit(entries[c].masks, kinds, TestOrder))
    else if entries[c].masks.cgrep * kinds != {} && text.Some? && !LookedFor(entries[c].looking, text.value) then Ignored
    else DontIgnore
  }

  /** What one kind of message comes to by the latest commands that named the kind: `sender` are the
      commands for the sender's entry, `chan` those for the channel's, with none for no entry. */
  lemma LatestCommandDecides(entries: seq<Entry>, k: int, c: int, target: string, kind: Kind, text: Option<string>,
                             sender: seq<(Mask, Flag)>, chan: seq<(Mask, Flag)>)
    requires -1 <= k < |entries| && -1 <= c < |entries|
    requires if k == -1 then sender == [] else entries[k].masks == After(sender)
    requires if c == -1 then chan == [] else entries[c].masks == After(chan)
    ensures var v := Judge(entries, k, c, target, {kind}, text);
            if k != -1 && Excepted(entries[k].except, target) then v == DontIgnore
            else match Latest(sender, kind)
              case Ignoring => v == Ignored
              case High => v == Highlighted
              case Dont => v == DontIgnore
              case _ => match Latest(chan, kind)
                case Ignoring => v == Ignored
                case High => v == Highlighted
                case Dont => v == DontIgnore
                case Cgrep => v == if text.Some? && !LookedFor(entries[c].looking, text.value) then Ignored else DontIgnore
                case Remove => v == DontIgnore
  {
    HitIsLatest(sender, kind);
    HitIsLatest(chan, kind);
  }

  lemma HitIsLatest(updates: seq<(Mask, Flag)>, kind: Kind)
    ensures var hit, latest := FirstHit(After(updates), {kind}, TestOrder), Latest(updates, kind);
            hit == if latest == Cgrep then Remove else latest
    ensures After(updates).cgrep * {kind} != {} <==> Latest(updates, kind) == Cgrep
  {
    var m := After(updates);
    TestsInOrder(m, {kind});
    LatestUpdateWins(updates, kind, Dont);
    LatestUpdateWins(updates, kind, Ignoring);
    LatestUpdateWins(updates, kind, High);
    LatestUpdateWins(updates, kind, Cgrep);
    MeetsOne(m.dont, kind);
    MeetsOne(m.ignored, kind);
    MeetsOne(m.high, kind);
    MeetsOne(m.cgrep, kind);
  }

  lemma MeetsOne(m: Mask, kind: Kind)
    ensures m * {kind} != {} <==> kind in m
  {
    if kind in m { assert kind in m * {kind}; }
  }

  method CheckIgnore(list: List<Entry>, target: string, channel: Option<string>, kinds: Mask, text: Option<string>,
                     ghost entries: seq<Entry>)
    returns (v: Verdict, ghost k: int, ghost c: int)
    requires list.Valid() && Holds(list.nodes, entries)
    ensures IsBest(Scores(list.names, target), k)
    ensures if channel.Some? then IsBest(Scores(list.names, channel.value), c) else c == -1
    ensures v == Judge(entries, k, c, target, kinds, text)
  {
    var tmp, chan: Node?<Entry>;
    tmp, k := list.FindWild(target);
    chan, c := null, -1;
    if channel.Some? { chan, c := list.FindWild(channel.value); }
    if tmp != null {
      var excepted := AnyMatches(tmp.data.except, target);
      if excepted { return DontIgnore, k, c; }
      var m := tmp.data.masks;
      TestsInOrder(m, kinds);
      if m.dont * kinds != {} { return DontIgnore, k, c; }
      if m.ignored * kinds != {} { return Ignored, k, c; }
      if m.high * kinds != {} { return Highlighted, k, c; }
    }
    if chan != null {
      var m := chan.data.masks;
      TestsInOrder(m, kinds);
      if m.dont * kinds != {} { return DontIgnore, k, c; }
      if m.ignored * kinds != {} { return Ignored, k, c; }
      if m.high * kinds != {} { return Highlighted, k, c; }
      if m.cgrep * kinds != {} && text.Some? {
        var wanted := AnyOccurs(chan.data.looking, text.value);
        return if wanted then DontIgnore else Ignored, k, c;
      }
    }
    return DontIgnore, k, c;
  }

  method AnyMatches(except: seq<string>, target: string) returns (hit: bool)
    ensures hit <==> Excepted(except, target)
  {
    for i := 0 to |except|
      invariant forall j :: 0 <= j < i ==> Wildcard.Score(except[j], target) == 0
    {
      var score := Wildcard.WildMatch(except[i], target);
      if score > 0 { return true; }
    }
    return false;
  }

  method AnyOccurs(looking: seq<string>, text: string) returns (hit: bool)
    ensures hit <==> LookedFor(looking, text)
  {
    for i := 0 to |looking|
      invariant forall i', j: nat :: 0 <= i' < i ==> !OccursAt(text, looking[i'], j)
    {
      var found := Stristr(text, looking[i]);
      if found { return true; }
    }
    return false;
  }
}
