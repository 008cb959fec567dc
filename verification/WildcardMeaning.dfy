/** What masks mean, in terms of their characters alone: an equation for every way a mask can begin,
    and what single wildcards and quoted texts describe. */
module WildcardMeaning {
  import opened Wildcard

  ghost predicate Describes(mask: string, s: string) {
    Matches(mask, 0, s, 0)
  }

  /** The same character up to the case of ASCII letters. */
  predicate SameLetter(c: char, d: char) {
    c == d || ('A' <= c <= 'Z' && d as int == c as int + 32) || ('A' <= d <= 'Z' && c as int == d as int + 32)
  }

  predicate SameText(a: string, b: string) {
    |a| == |b| && forall i :: 0 <= i < |a| ==> SameLetter(a[i], b[i])
  }

  lemma LowerIsCase(c: char, d: char)
    ensures Lower(c) == Lower(d) <==> SameLetter(c, d)
    ensures SameLetter(Lower(c), c) && !('A' <= Lower(c) <= 'Z')
  {
  }

  /** What stands before the place looked at makes no difference. */
  lemma {:induction false} Shift(a: string, mask: string, i: nat, x: string, s: string, j: nat)
    requires i <= |mask| && j <= |s|
    ensures Matches(a + mask, |a| + i, x + s, |x| + j) <==> Matches(mask, i, s, j)
    decreases |mask| - i, 1
  {
    var m, t := a + mask, x + s;
    assert ItemAt(m, |a| + i) == ItemAt(mask, i);
    match ItemAt(mask, i)
    case Star => ShiftWildcard(a, mask, i, x, s, j);
    case Percent => ShiftWildcard(a, mask, i, x, s, j);
    case Any =>
      if j < |s| { Shift(a, mask, i + 1, x, s, j + 1); }
      assert |a| + i + 1 == |a| + (i + 1) && |x| + j + 1 == |x| + (j + 1);
    case Lit(_, w) =>
      if j < |s| { Shift(a, mask, i + w, x, s, j + 1); }
      assert |a| + i + w == |a| + (i + w) && |x| + j + 1 == |x| + (j + 1);
    case _ =>
  }

  lemma {:induction false} ShiftWildcard(a: string, mask: string, i: nat, x: string, s: string, j: nat)
    requires i < |mask| && j <= |s| && mask[i] in "*%"
    ensures Matches(a + mask, |a| + i, x + s, |x| + j) <==> Matches(mask, i, s, j)
    decreases |mask| - i, 0
  {
    var m, t, w := a + mask, x + s, ItemAt(mask, i);
    assert ItemAt(m, |a| + i) == w;
    if Matches(mask, i, s, j) {
      var k: nat :| j <= k <= |s| && Covers(w, s, j, k) && Matches(mask, i + 1, s, k);
      Shift(a, mask, i + 1, x, s, k);
      ShiftCovers(w, x, s, j, k);
      assert Covers(w, t, |x| + j, |x| + k) && Matches(m, |a| + i + 1, t, |x| + k);
    }
    if Matches(m, |a| + i, t, |x| + j) {
      var e: nat :| |x| + j <= e <= |t| && Covers(w, t, |x| + j, e) && Matches(m, |a| + i + 1, t, e);
      var k: nat := e - |x|;
      Shift(a, mask, i + 1, x, s, k);
      ShiftCovers(w, x, s, j, k);
      assert Covers(w, s, j, k) && Matches(mask, i + 1, s, k);
    }
  }

  lemma ShiftCovers(w: Item, x: string, s: string, j: nat, k: nat)
    requires (w.Star? || w.Percent?) && j <= k <= |s|
    ensures Covers(w, x + s, |x| + j, |x| + k) <==> Covers(w, s, j, k)
  {
    var t := x + s;
    assert forall y :: 0 <= y < |s| ==> t[|x| + y] == s[y];
    if Covers(w, t, |x| + j, |x| + k) && w.Percent? {
      forall y | j <= y < k ensures s[y] != ' ' { assert t[|x| + y] != ' '; }
    }
  }

  lemma Behind(head: string, mask: string, s: string, k: nat)
    requires k <= |s|
    ensures Matches(head + mask, |head|, s, k) <==> Describes(mask, s[k..])
  {
    Shift(head, mask, 0, s[..k], s[k..], 0);
    assert s[..k] + s[k..] == s;
  }

  // ----- the equations

  lemma EmptyMask(s: string)
    ensures Describes("", s) <==> s == ""
  {
  }

  /** '*' stands for any text. */
  lemma StarMeans(mask: string, s: string)
    ensures Describes("*" + mask, s) <==> exists k :: 0 <= k <= |s| && Describes(mask, s[k..])
  {
    var m := "*" + mask;
    assert ItemAt(m, 0) == Star;
    if Describes(m, s) {
      var k: nat :| k <= |s| && Covers(Star, s, 0, k) && Matches(m, 1, s, k);
      Behind("*", mask, s, k);
    }
    if k :| 0 <= k <= |s| && Describes(mask, s[k..]) {
      Behind("*", mask, s, k);
      assert Covers(Star, s, 0, k);
    }
  }

  /** '%' stands for any text without a space. */
  lemma PercentMeans(mask: string, s: string)
    ensures Describes("%" + mask, s) <==> exists k :: 0 <= k <= |s| && ' ' !in s[..k] && Describes(mask, s[k..])
  {
    var m := "%" + mask;
    assert ItemAt(m, 0) == Percent;
    if Describes(m, s) {
      var k: nat :| k <= |s| && Covers(Percent, s, 0, k) && Matches(m, 1, s, k);
      Behind("%", mask, s, k);
      assert ' ' !in s[..k];
    }
    if k :| 0 <= k <= |s| && ' ' !in s[..k] && Describes(mask, s[k..]) {
      Behind("%", mask, s, k);
      assert forall x :: 0 <= x < k ==> s[x] == s[..k][x];
      assert Covers(Percent, s, 0, k);
    }
  }

  /** '?' stands for one character. */
  lemma QuestionMeans(mask: string, s: string)
    ensures Describes("?" + mask, s) <==> s != "" && Describes(mask, s[1..])
  {
    assert ItemAt("?" + mask, 0) == Any;
    if s != "" { Behind("?", mask, s, 1); }
  }

  /** A backslash makes the next character stand for itself, whatever it is. */
  lemma QuoteMeans(c: char, mask: string, s: string)
    ensures Describes(['\\', c] + mask, s) <==> s != "" && SameLetter(c, s[0]) && Describes(mask, s[1..])
    ensures Literals(['\\', c] + mask, 0) == 1 + Literals(mask, 0)
  {
    var head := ['\\', c];
    assert ItemAt(head + mask, 0) == Lit(c, 2);
    if s != "" {
      LowerIsCase(c, s[0]);
      Behind(head, mask, s, 1);
    }
    ShiftLiterals(head, mask, 0);
  }

  /** A backslash that quotes nothing matches nothing. */
  lemma BackslashMeans(s: string)
    ensures !Describes("\\", s)
  {
  }

  /** Every other character stands for itself up to case. */
  lemma LetterMeans(c: char, mask: string, s: string)
    requires c !in "*%?\\"
    ensures Describes([c] + mask, s) <==> s != "" && SameLetter(c, s[0]) && Describes(mask, s[1..])
    ensures Literals([c] + mask, 0) == 1 + Literals(mask, 0)
  {
    assert ItemAt([c] + mask, 0) == Lit(c, 1);
    if s != "" {
      LowerIsCase(c, s[0]);
      Behind([c], mask, s, 1);
    }
    ShiftLiterals([c], mask, 0);
  }

  lemma WildcardsDoNotCount(c: char, mask: string)
    requires c in "*%?"
    ensures Literals([c] + mask, 0) == Literals(mask, 0)
  {
    ShiftLiterals([c], mask, 0);
  }

  lemma {:induction false} ShiftLiterals(a: string, mask: string, i: nat)
    requires i <= |mask|
    ensures Literals(a + mask, |a| + i) == Literals(mask, i)
    decreases |mask| - i
  {
    assert ItemAt(a + mask, |a| + i) == ItemAt(mask, i);
    match ItemAt(mask, i)
    case End =>
    case Dangling =>
    case Lit(_, w) =>
      ShiftLiterals(a, mask, i + w);
      assert |a| + i + w == |a| + (i + w);
    case _ =>
      ShiftLiterals(a, mask, i + 1);
      assert |a| + i + 1 == |a| + (i + 1);
  }

  // ----- what follows for wild_match

  /** The three wildcards alone. */
  lemma WildcardsAlone(s: string)
    ensures Score("*", s) == 1
    ensures Score("%", s) == if ' ' in s then 0 else 1
    ensures Score("?", s) == if |s| == 1 then 1 else 0
  {
    assert "*" + "" == "*" && "%" + "" == "%" && "?" + "" == "?" && s[|s|..] == "" && s[..|s|] == s;
    StarMeans("", s);
    PercentMeans("", s);
    QuestionMeans("", s);
    EmptyMask(s[|s|..]);
    if s != "" { EmptyMask(s[1..]); }
    forall k | 0 <= k <= |s| ensures Describes("", s[k..]) <==> k == |s| { EmptyMask(s[k..]); }
    AloneScores("*", s);
    AloneScores("%", s);
    AloneScores("?", s);
  }

  lemma AloneScores(mask: string, s: string)
    requires mask == "*" || mask == "%" || mask == "?"
    ensures Score(mask, s) == if Describes(mask, s) then 1 else 0
  {
    assert Literals(mask, 0) == 0 && NeverCommits(mask, 0);
    if Accepts(mask, 0, s, 0) { AcceptsIsSound(mask, 0, s, 0); }
    if Describes(mask, s) { AcceptsIsComplete(mask, 0, s, 0); }
  }

  /** A backslash before every character. */
  function Quote(t: string): string {
    if t == "" then "" else ['\\', t[0]] + Quote(t[1..])
  }

  lemma {:induction false} QuoteDescribes(t: string, s: string)
    ensures Describes(Quote(t), s) <==> SameText(t, s)
    ensures Literals(Quote(t), 0) == |t|
  {
    if t == "" {
      EmptyMask(s);
    } else {
      QuoteMeans(t[0], Quote(t[1..]), s);
      if s != "" {
        QuoteDescribes(t[1..], s[1..]);
        FirstAndRest(t, s);
      } else {
        QuoteDescribes(t[1..], "");
      }
    }
  }

  lemma FirstAndRest(t: string, s: string)
    requires t != "" && s != ""
    ensures SameText(t, s) <==> SameLetter(t[0], s[0]) && SameText(t[1..], s[1..])
  {
    if SameLetter(t[0], s[0]) && SameText(t[1..], s[1..]) {
      forall i | 0 <= i < |t| ensures SameLetter(t[i], s[i]) {
        if i > 0 { assert SameLetter(t[1..][i - 1], s[1..][i - 1]); }
      }
    }
  }

  lemma {:induction false} QuoteNeverCommits(t: string, a: string)
    ensures NeverCommits(a + Quote(t), |a|)
    decreases |t|
  {
    var mask := a + Quote(t);
    if t != "" {
      assert mask == (a + ['\\', t[0]]) + Quote(t[1..]);
      assert ItemAt(mask, |a|) == Lit(t[0], 2);
      QuoteNeverCommits(t[1..], a + ['\\', t[0]]);
    }
  }

  /** A quoted text is found in just the same text up to case, and every character of it counts. */
  lemma QuotedTextIsFound(t: string, s: string)
    ensures Score(Quote(t), s) == if SameText(t, s) then 1 + |t| else 0
  {
    var mask := Quote(t);
    QuoteDescribes(t, s);
    QuoteNeverCommits(t, "");
    assert "" + mask == mask;
    if Accepts(mask, 0, s, 0) { AcceptsIsSound(mask, 0, s, 0); }
    if Describes(mask, s) { AcceptsIsComplete(mask, 0, s, 0); }
  }
}
