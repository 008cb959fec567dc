/** The prefix search in sorted tables of alist.c. */
module Alist {
  import opened Chain
  import opened Lists
  import Wildcard
  import WildcardMeaning

  /** strncasecmp over the length of the name. */
  function PrefixCompare(name: string, item: string): int {
    CaseCompare(name, UpTo(item, |name|))
  }

  /** The entry starts with the name, up to case. */
  predicate Completes(name: string, item: string) {
    |name| <= |item| && CaseCompare(name, item[..|name|]) == 0
  }

  lemma {:induction false} EqualLength(a: string, b: string)
    requires CaseCompare(a, b) == 0
    ensures |a| == |b|
  {
    if a != "" { EqualLength(a[1..], b[1..]); }
  }

  lemma CompletesIsZero(name: string, item: string)
    ensures Completes(name, item) <==> PrefixCompare(name, item) == 0
  {
    if PrefixCompare(name, item) == 0 { EqualLength(name, UpTo(item, |name|)); }
    if |item| == |name| { assert item[..|name|] == item; }
  }

  /** An entry completes the name if it begins with the same text, up to the case of letters. */
  lemma CompletesMeans(name: string, item: string)
    ensures Completes(name, item) <==> |name| <= |item| && WildcardMeaning.SameText(name, item[..|name|])
  {
    if |name| <= |item| { ZeroIsSameText(name, item[..|name|]); }
  }

  lemma TakeOne(a: string, n: nat)
    requires a != "" && n > 0
    ensures UpTo(a, n) != "" && UpTo(a, n)[0] == a[0] && UpTo(a, n)[1..] == UpTo(a[1..], n - 1)
  {
  }

  /** Cutting two strings short keeps their order. */
  lemma {:induction false} TakeKeepsOrder(a: string, b: string, n: nat)
    requires CaseCompare(a, b) <= 0
    ensures CaseCompare(UpTo(a, n), UpTo(b, n)) <= 0
    decreases |a|
  {
    if a != "" && b != "" && n > 0 && Wildcard.Lower(a[0]) == Wildcard.Lower(b[0]) {
      TakeKeepsOrder(a[1..], b[1..], n - 1);
      TakeOne(a, n);
      TakeOne(b, n);
    }
  }

  /** The comparison with the name only goes down along a sorted table. */
  lemma CompareFalls(names: seq<string>, name: string, i: nat, j: nat)
    requires Sorted(names) && i <= j < |names|
    ensures PrefixCompare(name, names[j]) > 0 ==> PrefixCompare(name, names[i]) > 0
    ensures PrefixCompare(name, names[i]) < 0 ==> PrefixCompare(name, names[j]) < 0
  {
    if i < j {
      var n := |name|;
      var a, b := UpTo(names[i], n), UpTo(names[j], n);
      TakeKeepsOrder(names[i], names[j], n);
      CaseCompareIsOrder(name, a, b);
      CaseCompareIsOrder(a, b, name);
      CaseCompareIsOrder(b, name, name);
      CaseCompareIsOrder(name, b, a);
      CaseCompareIsOrder(b, a, name);
      CaseCompareIsOrder(a, name, b);
      CaseCompareIsOrder(name, a, a);
    }
  }

  /** Where the comparison with the start of an entry decides, it decides like the whole entry. */
  lemma {:induction false} PrefixDecides(name: string, item: string)
    ensures PrefixCompare(name, item) > 0 ==> CaseCompare(name, item) > 0
    ensures PrefixCompare(name, item) < 0 ==> CaseCompare(name, item) < 0
  {
    if name != "" && item != "" {
      PrefixDecides(name[1..], item[1..]);
      TakeOne(item, |name|);
    }
  }

  /** An entry equal to the name, up to case, heads the entries that complete it. */
  lemma ExactIsFirst(names: seq<string>, name: string, first: nat, k: nat)
    requires Sorted(names) && first <= k < |names|
    requires Completes(name, names[first]) && CaseCompare(name, names[k]) == 0
    ensures |names[first]| == |name| && CaseCompare(name, names[first]) == 0
  {
    var item := names[first];
    CaseCompareIsOrder(names[k], name, name);
    CaseCompareIsOrder(name, names[k], name);
    CaseCompareIsOrder(item, names[k], name);
    CaseCompareIsOrder(item, item, item);
    CaseCompareIsOrder(item, name, name);
    CaseCompareIsOrder(name, item, name);
    if |name| < |item| {
      LongerIsAbove(name, item);
    } else {
      assert item[..|name|] == item;
    }
  }

  lemma {:induction false} LongerIsAbove(name: string, item: string)
    requires Completes(name, item) && |name| < |item|
    ensures CaseCompare(name, item) < 0
  {
    if name != "" {
      assert item[..|name|][1..] == item[1..][..|name| - 1];
      LongerIsAbove(name[1..], item[1..]);
    }
  }

  /** The entries from first up to end, and no others, complete the name. */
  predicate IsRun(names: seq<string>, name: string, first: nat, end: nat) {
    && first < end <= |names|
    && forall i :: 0 <= i < |names| ==> (Completes(name, names[i]) <==> first <= i < end)
  }

  predicate NoneCompletes(names: seq<string>, name: string) {
    forall i :: 0 <= i < |names| ==> !Completes(name, names[i])
  }

  predicate HasExact(names: seq<string>, name: string) {
    exists i :: 0 <= i < |names| && CaseCompare(name, names[i]) == 0
  }

  /** The name can be put right before or right after entry loc. */
  predicate IsGap(names: seq<string>, name: string, loc: nat) {
    && loc < |names|
    && (forall i :: 0 <= i < loc ==> CaseCompare(name, names[i]) > 0)
    && (forall i :: loc < i < |names| ==> CaseCompare(name, names[i]) < 0)
  }

  /** What the bisection knows: everything below min is too small, everything from max on is too
      great, and the entry compared last is the one at min or at max. */
  ghost predicate Bisects(names: seq<string>, name: string, min: nat, max: nat, oldPos: int) {
    && min <= max <= |names|
    && (0 < min ==> min < |names| && PrefixCompare(name, names[min]) > 0)
    && (max < |names| ==> PrefixCompare(name, names[max]) < 0)
    && (oldPos != -1 ==>
          || (oldPos == min < |names| && PrefixCompare(name, names[min]) > 0)
          || (oldPos == max < |names| && PrefixCompare(name, names[max]) < 0))
    && (oldPos == -1 ==> min == 0 && max == |names|)
  }

  lemma MissIsGap(names: seq<string>, name: string, min: nat, max: nat, pos: nat)
    requires Sorted(names) && |names| > 0
    requires Bisects(names, name, min, max, pos) && pos == (max + min) / 2
    ensures IsGap(names, name, pos) && NoneCompletes(names, name)
  {
    forall i | 0 <= i < |names|
      ensures !Completes(name, names[i])
      ensures i < pos ==> CaseCompare(name, names[i]) > 0
      ensures i > pos ==> CaseCompare(name, names[i]) < 0
    {
      if i <= min && 0 < min { CompareFalls(names, name, i, min); }
      if i <= pos && PrefixCompare(name, names[pos]) > 0 { CompareFalls(names, name, i, pos); }
      if max <= i { CompareFalls(names, name, max, i); }
      CompletesIsZero(name, names[i]);
      PrefixDecides(name, names[i]);
    }
  }

  lemma HitIsRun(names: seq<string>, name: string, first: nat, end: nat)
    requires Sorted(names) && first < end <= |names|
    requires forall i :: first <= i < end ==> PrefixCompare(name, names[i]) == 0
    requires first == 0 || PrefixCompare(name, names[first - 1]) != 0
    requires end == |names| || PrefixCompare(name, names[end]) != 0
    ensures IsRun(names, name, first, end)
    ensures |names[first]| == |name| <==> HasExact(names, name)
  {
    forall i | 0 <= i < |names| ensures Completes(name, names[i]) <==> first <= i < end {
      CompletesIsZero(name, names[i]);
      if i < first {
        CompareFalls(names, name, first - 1, first);
        CompareFalls(names, name, i, first - 1);
      } else if end <= i {
        CompareFalls(names, name, end - 1, end);
        CompareFalls(names, name, end, i);
      }
    }
    var item := names[first];
    if |item| == |name| {
      assert item[..|name|] == item && Completes(name, item);
    }
    if k :| 0 <= k < |names| && CaseCompare(name, names[k]) == 0 {
      EqualLength(name, names[k]);
      assert names[k][..|name|] == names[k];
      ExactIsFirst(names, name, first, k);
    }
  }

  /** The bisection: an entry that completes the name, or the place of the name. */
  method Bisect(names: seq<string>, name: string) returns (hit: bool, pos: nat)
    requires Sorted(names) && |names| > 0
    ensures hit ==> pos < |names| && PrefixCompare(name, names[pos]) == 0
    ensures !hit ==> NoneCompletes(names, name) && IsGap(names, name, pos)
  {
    var min, max: nat, oldPos: int := 0, |names|, -1;
    while true
      invariant 0 <= min <= max && Bisects(names, name, min, max, oldPos)
      decreases max - min, if oldPos == (max + min) / 2 then 0 else 1
    {
      pos := (max + min) / 2;
      if pos == oldPos {
        MissIsGap(names, name, min, max, pos);
        return false, pos;
      }
      oldPos := pos;
      var c := PrefixCompare(name, names[pos]);
      if c == 0 { return true, pos; }
      if c > 0 { min := pos; } else { max := pos; }
    }
  }

  /** find_fixed_array_item: bisects a sorted table of one or more entries for a completion of the
      name. A hit reports the first completion and how many there are, negated if one of them is
      the name itself; a miss reports where the name belongs. */
  method FindFixedArrayItem(names: seq<string>, name: string) returns (hit: bool, cnt: int, loc: nat)
    requires Sorted(names) && |names| > 0
    ensures hit ==> cnt != 0 && IsRun(names, name, loc, loc + if cnt < 0 then -cnt else cnt)
    ensures hit ==> (cnt < 0 <==> HasExact(names, name))
    ensures !hit ==> cnt == 0 && NoneCompletes(names, name) && IsGap(names, name, loc)
  {
    var pos;
    hit, pos := Bisect(names, name);
    if !hit { return false, 0, pos; }
    cnt := 1;
    var min := pos - 1;
    while min >= 0 && PrefixCompare(name, names[min]) == 0
      invariant -1 <= min < pos && cnt == pos - min
      invariant forall i :: min < i <= pos ==> PrefixCompare(name, names[i]) == 0
    {
      cnt, min := cnt + 1, min - 1;
    }
    min := min + 1;
    var max := pos + 1;
    while max < |names| && PrefixCompare(name, names[max]) == 0
      invariant pos < max <= |names| && cnt == max - min
      invariant forall i :: min <= i < max ==> PrefixCompare(name, names[i]) == 0
    {
      cnt, max := cnt + 1, max + 1;
    }
    HitIsRun(names, name, min, max);
    if |names[min]| == |name| { cnt := -cnt; }
    return true, cnt, min;
  }
}
