/** Where the matcher of reg.c falls short of what a mask means: for masks without '*', exactly
    when one of their '%' can be led to commit; and some masks with '*'. */
module WildcardLimits {
  import opened Wildcard

  /** No '*' in mask[i..]. */
  predicate StarFree(mask: string, i: nat)
    requires i <= |mask|
    decreases |mask| - i
  {
    match ItemAt(mask, i)
    case End => true
    case Star => false
    case Lit(_, w) => StarFree(mask, i + w)
    case _ => StarFree(mask, i + 1)
  }

  /** mask[i..] ends with a backslash that quotes nothing. */
  predicate Broken(mask: string, i: nat)
    requires i <= |mask|
    decreases |mask| - i
  {
    match ItemAt(mask, i)
    case End => false
    case Dangling => true
    case Lit(_, w) => Broken(mask, i + w)
    case _ => Broken(mask, i + 1)
  }

  lemma {:induction false} BrokenMeansNothing(mask: string, i: nat, s: string, j: nat)
    requires i <= |mask| && j <= |s| && Broken(mask, i)
    ensures !Matches(mask, i, s, j)
    decreases |mask| - i
  {
    match ItemAt(mask, i)
    case Any => if j < |s| { BrokenMeansNothing(mask, i + 1, s, j + 1); }
    case Lit(_, w) => if j < |s| { BrokenMeansNothing(mask, i + w, s, j + 1); }
    case Dangling =>
    case Star =>
      if Matches(mask, i, s, j) {
        var k: nat :| j <= k <= |s| && Covers(Star, s, j, k) && Matches(mask, i + 1, s, k);
        BrokenMeansNothing(mask, i + 1, s, k);
      }
    case Percent =>
      if Matches(mask, i, s, j) {
        var k: nat :| j <= k <= |s| && Covers(Percent, s, j, k) && Matches(mask, i + 1, s, k);
        BrokenMeansNothing(mask, i + 1, s, k);
      }
    case End =>
  }

  // ----- counting spaces

  function Spaces(s: string, j: nat): nat
    requires j <= |s|
    decreases |s| - j
  {
    if j == |s| then 0 else (if s[j] == ' ' then 1 else 0) + Spaces(s, j + 1)
  }

  /** The most spaces that a string described by mask[i..] can have. */
  function Room(mask: string, i: nat): nat
    requires i <= |mask|
    decreases |mask| - i
  {
    match ItemAt(mask, i)
    case End => 0
    case Any => 1 + Room(mask, i + 1)
    case Lit(c, w) => (if c == ' ' then 1 else 0) + Room(mask, i + w)
    case Dangling => 0
    case _ => Room(mask, i + 1)
  }

  lemma {:induction false} SpacesFit(mask: string, i: nat, s: string, j: nat)
    requires i <= |mask| && j <= |s| && StarFree(mask, i) && Accepts(mask, i, s, j)
    ensures Spaces(s, j) <= Room(mask, i)
    decreases |mask| - i, |s| - j
  {
    match ItemAt(mask, i)
    case Percent => if Accepts(mask, i + 1, s, j) { SpacesFit(mask, i + 1, s, j); } else { SpacesFit(mask, i, s, j + 1); }
    case Any => SpacesFit(mask, i + 1, s, j + 1);
    case Lit(_, w) => SpacesFit(mask, i + w, s, j + 1);
    case _ =>
  }

  lemma {:induction false} SpaceCounts(s: string, x: nat, y: nat)
    requires x < y <= |s| && s[y - 1] == ' '
    ensures Spaces(s, x) > Spaces(s, y)
    decreases y - x
  {
    if x + 1 < y { SpaceCounts(s, x + 1, y); }
  }

  /** What a run leaves to the rest of the mask: less room, if it has a '?'. */
  lemma {:induction false} RunShrinks(mask: string, b: nat)
    requires b <= |mask|
    ensures Room(mask, b) >= Room(mask, Stop(mask, b))
    ensures Any in Run(mask, b) ==> Room(mask, b) > Room(mask, Stop(mask, b))
    ensures StarFree(mask, b) == StarFree(mask, Stop(mask, b)) && Broken(mask, b) == Broken(mask, Stop(mask, b))
    decreases |mask| - b
  {
    match ItemAt(mask, b)
    case Any => RunShrinks(mask, b + 1);
    case Lit(c, w) => if c != ' ' { RunShrinks(mask, b + w); }
    case _ =>
  }

  // ----- the trap

  /** A string that mask[a..] describes: its literals, a space for each '?', nothing for a wildcard. */
  function Fill(mask: string, a: nat): string
    requires a <= |mask|
    decreases |mask| - a
  {
    match ItemAt(mask, a)
    case End => ""
    case Any => [' '] + Fill(mask, a + 1)
    case Lit(c, w) => [c] + Fill(mask, a + w)
    case _ => Fill(mask, a + 1)
  }

  lemma {:induction false} FillIsDescribed(mask: string, a: nat, s: string, j: nat)
    requires a <= |mask| && j <= |s| && !Broken(mask, a) && s[j..] == Fill(mask, a)
    ensures Matches(mask, a, s, j) && Spaces(s, j) == Room(mask, a)
    decreases |mask| - a
  {
    match ItemAt(mask, a)
    case Star =>
      FillIsDescribed(mask, a + 1, s, j);
      assert Covers(Star, s, j, j);
    case Percent =>
      FillIsDescribed(mask, a + 1, s, j);
      assert Covers(Percent, s, j, j);
    case Any => FillIsDescribed(mask, a + 1, s, j + 1);
    case Lit(_, w) => FillIsDescribed(mask, a + w, s, j + 1);
    case _ =>
  }

  /** A run with a letter for each '?'. */
  function Decoy(run: seq<Item>): string {
    seq(|run|, k requires 0 <= k < |run| => if run[k].Lit? then run[k].c else 'z')
  }

  /** A run and the space after it, and the same again d places further on. */
  function Overlay(run: seq<Item>, d: nat): string {
    seq(|run| + d + 1, k requires 0 <= k => Overlaid(run, d, k))
  }

  function Overlaid(run: seq<Item>, d: nat, k: nat): char {
    if k == |run| || k == |run| + d then ' '
    else if k < |run| && run[k].Lit? then run[k].c
    else if 0 <= k - d < |run| && run[k - d].Lit? then run[k - d].c
    else 'z'
  }

  lemma OverlaidFits(run: seq<Item>, d: nat, k: nat)
    requires forall x :: 0 <= x < |run| ==> run[x].Any? || (run[x].Lit? && run[x].c != ' ')
    requires Overlaps(run, d) && k < |run|
    ensures Fits(run[k], Overlaid(run, d, k)) && Fits(run[k], Overlaid(run, d, d + k))
    ensures k < d ==> Overlaid(run, d, k) != ' '
  {
    if d + k < |run| { assert Agree(run[d + k], run[d + k - d]); }
  }

  /** What leads the '%' at i astray: what it should stand for looks like the run that follows it. */
  ghost function Lure(mask: string, i: nat): string
    requires i < |mask| && CommitsAt(mask, i)
  {
    var run, e := Run(mask, i + 1), Stop(mask, i + 1);
    if ItemAt(mask, e).Percent? then Decoy(run) + Fill(mask, i + 1)
    else
      var d :| 0 <= d <= |run| && Overlaps(run, d);
      Overlay(run, d) + Fill(mask, e + ItemAt(mask, e).width)
  }

  lemma DecoyFits(run: seq<Item>, s: string, j: nat)
    requires forall k :: 0 <= k < |run| ==> run[k].Any? || (run[k].Lit? && run[k].c != ' ')
    requires j <= |s| && Decoy(run) <= s[j..]
    ensures RunFits(run, s, j) && SpaceFree(s, j, j + |run|)
  {
    forall k | 0 <= k < |run| ensures Fits(run[k], s[j + k]) && s[j + k] != ' ' { assert s[j + k] == s[j..][k] == Decoy(run)[k]; }
    assert forall x :: j <= x < j + |run| ==> s[x] == s[j + (x - j)];
  }

  lemma OverlayFits(run: seq<Item>, d: nat, s: string, j: nat)
    requires forall k :: 0 <= k < |run| ==> run[k].Any? || (run[k].Lit? && run[k].c != ' ')
    requires Overlaps(run, d) && j <= |s| && Overlay(run, d) <= s[j..]
    ensures RunFits(run, s, j) && RunFits(run, s, j + d) && SpaceFree(s, j, j + d)
    ensures j + d + |run| < |s| && s[j + |run|] == s[j + d + |run|] == ' '
  {
    var n := |run|;
    assert forall k :: 0 <= k <= n + d ==> s[j + k] == s[j..][k] == Overlay(run, d)[k] == Overlaid(run, d, k);
    forall k | 0 <= k < n ensures Fits(run[k], s[j + k]) && Fits(run[k], s[j + d + k]) {
      OverlaidFits(run, d, k);
      assert s[j + k] == Overlaid(run, d, k) && s[j + (d + k)] == Overlaid(run, d, d + k);
    }
    forall x | j <= x < j + d ensures s[x] != ' ' {
      OverlaidFits(run, d, x - j);
      assert s[j + (x - j)] == Overlaid(run, d, x - j);
    }
    assert s[j + n] == Overlaid(run, d, n) && s[j + (n + d)] == Overlaid(run, d, n + d);
  }

  /** The '%' can stand for the d characters up to where the run fits again. */
  lemma LaterMatches(mask: string, i: nat, s: string, j: nat, d: nat)
    requires i < |mask| && ItemAt(mask, i).Percent? && j + d <= |s| && SpaceFree(s, j, j + d)
    requires RunFits(Run(mask, i + 1), s, j + d) && Matches(mask, Stop(mask, i + 1), s, j + d + |Run(mask, i + 1)|)
    ensures Matches(mask, i, s, j)
  {
    RunIsRead(mask, i + 1, s, j + d);
    assert Covers(Percent, s, j, j + d);
  }

  /** Where the run fits at once, the matcher does not get past it if what is left has too many spaces. */
  lemma EarlierFails(mask: string, i: nat, s: string, j: nat)
    requires i < |mask| && ItemAt(mask, i).Percent? && StarFree(mask, i) && j <= |s|
    requires RunFits(Run(mask, i + 1), s, j) && Settles(mask, Stop(mask, i + 1), s, j + |Run(mask, i + 1)|)
    requires Spaces(s, j + |Run(mask, i + 1)|) > Room(mask, Stop(mask, i + 1))
    ensures !Accepts(mask, i, s, j)
  {
    var e, k := Stop(mask, i + 1), j + |Run(mask, i + 1)|;
    RunIsRead(mask, i + 1, s, j);
    RunShrinks(mask, i + 1);
    if Accepts(mask, e, s, k) { SpacesFit(mask, e, s, k); }
  }

  lemma FillFollows(s: string, j: nat, a: string, b: string)
    requires j <= |s| && s[j..] == a + b
    ensures j + |a| <= |s| && s[j + |a|..] == b && a <= s[j..]
  {
    assert s[j + |a|..] == s[j..][|a|..];
  }

  lemma DecoyWorks(mask: string, i: nat, s: string, j: nat)
    requires i < |mask| && j <= |s| && StarFree(mask, i) && !Broken(mask, i) && CommitsAt(mask, i)
    requires ItemAt(mask, Stop(mask, i + 1)).Percent? && s[j..] == Decoy(Run(mask, i + 1)) + Fill(mask, i + 1)
    ensures Matches(mask, i, s, j) && !Accepts(mask, i, s, j)
  {
    var run := Run(mask, i + 1);
    var k := j + |run|;
    DecoyFits(run, s, j);
    assert s[k..] == s[j..][|run|..] == Fill(mask, i + 1);
    FillIsDescribed(mask, i + 1, s, k);
    assert Covers(Percent, s, j, k);
    RunShrinks(mask, i + 1);
    EarlierFails(mask, i, s, j);
  }

  /** A literal space can be met at x and at y, but from x on there are too many spaces. */
  lemma TwoSpaces(mask: string, e: nat, s: string, x: nat, y: nat)
    requires e <= |mask| && ItemAt(mask, e).Lit? && ItemAt(mask, e).c == ' ' && StarFree(mask, e) && !Broken(mask, e)
    requires x < y < |s| && s[x] == s[y] == ' ' && s[y + 1..] == Fill(mask, e + ItemAt(mask, e).width)
    ensures Settles(mask, e, s, x) && Matches(mask, e, s, y) && Spaces(s, x) > Room(mask, e)
  {
    FillIsDescribed(mask, e + ItemAt(mask, e).width, s, y + 1);
    SpaceCounts(s, x + 1, y + 1);
  }

  lemma FitsTwice(mask: string, i: nat, s: string, j: nat, d: nat)
    requires i < |mask| && StarFree(mask, i) && !Broken(mask, i) && ItemAt(mask, i).Percent?
    requires ItemAt(mask, Stop(mask, i + 1)).Lit? && d > 0 && j + d + |Run(mask, i + 1)| < |s| && SpaceFree(s, j, j + d)
    requires RunFits(Run(mask, i + 1), s, j) && s[j + |Run(mask, i + 1)|] == ' '
    requires RunFits(Run(mask, i + 1), s, j + d) && s[j + d + |Run(mask, i + 1)|] == ' '
    requires var e := Stop(mask, i + 1);
             s[j + d + |Run(mask, i + 1)| + 1..] == Fill(mask, e + ItemAt(mask, e).width)
    ensures Matches(mask, i, s, j) && !Accepts(mask, i, s, j)
  {
    RunShrinks(mask, i + 1);
    TwoSpaces(mask, Stop(mask, i + 1), s, j + |Run(mask, i + 1)|, j + d + |Run(mask, i + 1)|);
    LaterMatches(mask, i, s, j, d);
    EarlierFails(mask, i, s, j);
  }

  lemma OverlayWorks(mask: string, i: nat, s: string, j: nat, d: nat)
    requires i < |mask| && j <= |s| && StarFree(mask, i) && !Broken(mask, i) && ItemAt(mask, i).Percent?
    requires Overlaps(Run(mask, i + 1), d) && ItemAt(mask, Stop(mask, i + 1)).Lit?
    requires var e := Stop(mask, i + 1); s[j..] == Overlay(Run(mask, i + 1), d) + Fill(mask, e + ItemAt(mask, e).width)
    ensures Matches(mask, i, s, j) && !Accepts(mask, i, s, j)
  {
    var e, run := Stop(mask, i + 1), Run(mask, i + 1);
    FillFollows(s, j, Overlay(run, d), Fill(mask, e + ItemAt(mask, e).width));
    OverlayFits(run, d, s, j);
    FitsTwice(mask, i, s, j, d);
  }

  lemma LureWorks(mask: string, i: nat, s: string, j: nat)
    requires i < |mask| && j <= |s| && StarFree(mask, i) && !Broken(mask, i)
    requires CommitsAt(mask, i) && s[j..] == Lure(mask, i)
    ensures Matches(mask, i, s, j) && !Accepts(mask, i, s, j)
  {
    var run, e := Run(mask, i + 1), Stop(mask, i + 1);
    if ItemAt(mask, e).Percent? {
      DecoyWorks(mask, i, s, j);
    } else {
      var d :| 0 <= d <= |run| && Overlaps(run, d) && s[j..] == Overlay(run, d) + Fill(mask, e + ItemAt(mask, e).width);
      OverlayWorks(mask, i, s, j, d);
    }
  }

  // ----- what comes before

  /** An item of mask[a..] starts at i, and no '*' comes before it. */
  predicate Leads(mask: string, a: nat, i: nat)
    requires a <= i <= |mask|
    decreases |mask| - a
  {
    a == i ||
    match ItemAt(mask, a)
    case Any => Leads(mask, a + 1, i)
    case Percent => Leads(mask, a + 1, i)
    case Lit(_, w) => a + w <= i && Leads(mask, a + w, i)
    case _ => false
  }

  /** The literals of mask[a..i], a space for each '?', nothing for each '%'. */
  function FillTo(mask: string, a: nat, i: nat): string
    requires a <= i <= |mask| && Leads(mask, a, i)
    decreases |mask| - a
  {
    if a == i then "" else
      var item := ItemAt(mask, a);
      if item.Any? then [' '] + FillTo(mask, a + 1, i)
      else if item.Lit? then [item.c] + FillTo(mask, a + item.width, i)
      else FillTo(mask, a + 1, i)
  }

  /** What the '%' at i describes and misses, the whole mask describes and misses behind its filling:
      every '%' before i settles at once. */
  lemma {:induction false} MissedBehind(mask: string, a: nat, i: nat, s: string, j: nat)
    requires a <= i <= |mask| && Leads(mask, a, i) && ItemAt(mask, i).Percent?
    requires j + |FillTo(mask, a, i)| <= |s| && FillTo(mask, a, i) <= s[j..]
    requires Matches(mask, i, s, j + |FillTo(mask, a, i)|) && !Accepts(mask, i, s, j + |FillTo(mask, a, i)|)
    ensures Matches(mask, a, s, j) && !Accepts(mask, a, s, j) && Settles(mask, a, s, j)
    decreases |mask| - a
  {
    if a < i {
      var item := ItemAt(mask, a);
      if item.Percent? {
        MissedBehind(mask, a + 1, i, s, j);
        assert Covers(Percent, s, j, j);
      } else {
        var next := if item.Lit? then a + item.width else a + 1;
        assert s[j] == s[j..][0] == FillTo(mask, a, i)[0];
        assert FillTo(mask, next, i) == FillTo(mask, a, i)[1..] <= s[j..][1..] == s[j + 1..];
        MissedBehind(mask, next, i, s, j + 1);
      }
    }
  }

  lemma {:induction false} FindCommit(mask: string, a: nat) returns (i: nat)
    requires a <= |mask| && StarFree(mask, a) && !Broken(mask, a) && !NeverCommits(mask, a)
    ensures a <= i < |mask| && Leads(mask, a, i) && CommitsAt(mask, i) && StarFree(mask, i) && !Broken(mask, i)
    decreases |mask| - a
  {
    var item := ItemAt(mask, a);
    if item.Percent? && CommitsAt(mask, a) {
      i := a;
    } else {
      i := FindCommit(mask, if item.Lit? then a + item.width else a + 1);
    }
  }

  lemma Follows(a: string, b: string)
    ensures (a + b)[|a|..] == b && a <= (a + b)[0..]
  {
  }

  /** A mask without '*' with a '%' that commits describes its trap, and the matcher misses it: the '%'
      that commits leaves more spaces than the rest of the mask has room for. */
  lemma TrapWorks(mask: string) returns (s: string)
    requires StarFree(mask, 0) && !Broken(mask, 0) && !NeverCommits(mask, 0)
    ensures Matches(mask, 0, s, 0) && !Accepts(mask, 0, s, 0)
  {
    var i := FindCommit(mask, 0);
    var before := FillTo(mask, 0, i);
    s := before + Lure(mask, i);
    Follows(before, Lure(mask, i));
    LureWorks(mask, i, s, |before|);
    MissedBehind(mask, 0, i, s, 0);
  }

  /** For masks without '*' the matcher finds everything the mask describes exactly when no '%'
      commits, or the mask describes nothing because it ends with a backslash. */
  lemma CompleteUnlessCommits(mask: string)
    requires StarFree(mask, 0)
    ensures Broken(mask, 0) || NeverCommits(mask, 0) <==>
            forall s: string :: Matches(mask, 0, s, 0) ==> Accepts(mask, 0, s, 0)
  {
    if Broken(mask, 0) {
      forall s: string ensures !Matches(mask, 0, s, 0) { BrokenMeansNothing(mask, 0, s, 0); }
    } else if NeverCommits(mask, 0) {
      forall s: string | Matches(mask, 0, s, 0) ensures Accepts(mask, 0, s, 0) { AcceptsIsComplete(mask, 0, s, 0); }
    } else {
      var s := TrapWorks(mask);
    }
  }

  // ----- masks with '*'

  /** The '%' at i commits so that no later '*' can make up for it: its run overlaps with itself at a
      distance at which the items after the space have a literal, where the later space will be. */
  predicate CommitsFirmly(mask: string, i: nat, d: nat)
    requires i < |mask|
  {
    && ItemAt(mask, i).Percent? && Overlaps(Run(mask, i + 1), d)
    && var e := Stop(mask, i + 1);
       ItemAt(mask, e).Lit? &&
       var next := Run(mask, e + ItemAt(mask, e).width);
       d <= |next| && next[d - 1].Lit?
  }

  lemma FirmlyMissed(mask: string, i: nat, d: nat, s: string, j: nat)
    requires i < |mask| && CommitsFirmly(mask, i, d) && !Broken(mask, i) && j <= |s|
    requires var e := Stop(mask, i + 1); s[j..] == Overlay(Run(mask, i + 1), d) + Fill(mask, e + ItemAt(mask, e).width)
    ensures Matches(mask, i, s, j) && !Accepts(mask, i, s, j)
  {
    var e, run := Stop(mask, i + 1), Run(mask, i + 1);
    var rest := e + ItemAt(mask, e).width;
    FillFollows(s, j, Overlay(run, d), Fill(mask, rest));
    OverlayFits(run, d, s, j);
    RunShrinks(mask, i + 1);
    FillIsDescribed(mask, rest, s, j + d + |run| + 1);
    LaterMatches(mask, i, s, j, d);
    LiteralStops(mask, i, d, s, j);
  }

  lemma LiteralStops(mask: string, i: nat, d: nat, s: string, j: nat)
    requires i < |mask| && CommitsFirmly(mask, i, d) && j + d + |Run(mask, i + 1)| < |s|
    requires RunFits(Run(mask, i + 1), s, j) && s[j + |Run(mask, i + 1)|] == ' ' == s[j + d + |Run(mask, i + 1)|]
    ensures !Accepts(mask, i, s, j)
  {
    var e, n := Stop(mask, i + 1), |Run(mask, i + 1)|;
    var rest := e + ItemAt(mask, e).width;
    OnlyBehindSpace(mask, i, s, j);
    RunIsRead(mask, rest, s, j + n + 1);
    assert !Fits(Run(mask, rest)[d - 1], s[j + n + 1 + (d - 1)]);
  }

  /** Where a run fits before a space, the '%' stands for nothing. */
  lemma OnlyBehindSpace(mask: string, i: nat, s: string, j: nat)
    requires i < |mask| && ItemAt(mask, i).Percent? && ItemAt(mask, Stop(mask, i + 1)).Lit? && RunFits(Run(mask, i + 1), s, j)
    requires j + |Run(mask, i + 1)| < |s| && s[j + |Run(mask, i + 1)|] == ' '
    ensures var e := Stop(mask, i + 1);
            Accepts(mask, i, s, j) ==> Accepts(mask, e + ItemAt(mask, e).width, s, j + |Run(mask, i + 1)| + 1)
  {
    RunIsRead(mask, i + 1, s, j);
  }

  /** With '*' or without: a mask with such a '%' before any '*' describes a string that is missed. */
  lemma FirmCommitIsMissed(mask: string, i: nat, d: nat) returns (s: string)
    requires i < |mask| && Leads(mask, 0, i) && CommitsFirmly(mask, i, d) && !Broken(mask, i)
    ensures Matches(mask, 0, s, 0) && !Accepts(mask, 0, s, 0)
  {
    var e, before := Stop(mask, i + 1), FillTo(mask, 0, i);
    var lure := Overlay(Run(mask, i + 1), d) + Fill(mask, e + ItemAt(mask, e).width);
    s := before + lure;
    Follows(before, lure);
    FirmlyMissed(mask, i, d, s, |before|);
    MissedBehind(mask, 0, i, s, 0);
  }

  /** `%? x*` is one of them. */
  lemma StarDoesNotHelp()
    ensures Leads("%? x*", 0, 0) && CommitsFirmly("%? x*", 0, 1) && !Broken("%? x*", 0)
  {
    assert Run("%? x*", 2) == [] && Run("%? x*", 1) == [Any] && Stop("%? x*", 1) == 2;
    assert Run("%? x*", 4) == [] && Run("%? x*", 3) == [Lit('x', 1)];
    assert !Broken("%? x*", 4) && !Broken("%? x*", 3) && !Broken("%? x*", 2);
  }
}
