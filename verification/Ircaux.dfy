/** Support from ircaux.c: case-insensitive comparison and word splitting of C strings. */
module Ircaux {

  datatype Option<+T> = None | Some(value: T)

  /** The contents of a C string: everything before the terminating NUL. */
  type CString = s: string | '\0' !in s

  /** stricmp_table for ASCII: letters to upper case, and '{', '|', '}' to '[', '\', ']'
      (RFC 1459, section 2.2). */
  function Fold(c: char): char {
    if 'a' <= c <= '}' then c - 32 as char else c
  }

  /** A lower-case letter and its capital, or one of the three pairs that RFC 1459 takes for such. */
  predicate IsPair(lower: char, upper: char) {
    || ('a' <= lower <= 'z' && 'A' <= upper <= 'Z' && (lower - 'a') as int == (upper - 'A') as int)
    || (lower == '{' && upper == '[') || (lower == '|' && upper == '\\') || (lower == '}' && upper == ']')
  }

  lemma FoldIsExact(c: char, d: char)
    ensures Fold(c) == Fold(d) <==> c == d || IsPair(c, d) || IsPair(d, c)
  {
  }

  /** The two names are one to IRC. */
  predicate SameName(a: string, b: string) {
    |a| == |b| && forall i :: 0 <= i < |a| ==> Fold(a[i]) == Fold(b[i])
  }

  /** The character at i, or the terminating NUL. */
  function At(s: string, i: nat): char
    requires i <= |s|
  {
    if i < |s| then s[i] else '\0'
  }

  /** The two strings fold alike up to i but not at i. */
  predicate Parts(a: string, b: string, i: nat)
    requires i <= |a| && i <= |b|
  {
    SameName(a[..i], b[..i]) && Fold(At(a, i)) != Fold(At(b, i))
  }

  /** my_stricmp: zero exactly for equal names, otherwise the difference of the first characters
      that do not fold together. */
  method MyStricmp(a: CString, b: CString) returns (r: int)
    ensures r == 0 <==> SameName(a, b)
    ensures r != 0 ==> exists i: nat :: i <= |a| && i <= |b| && Parts(a, b, i) && r == At(a, i) as int - At(b, i) as int
  {
    var i := 0;
    while i < |a| && i < |b| && Fold(a[i]) == Fold(b[i])
      invariant i <= |a| && i <= |b| && SameName(a[..i], b[..i])
    {
      i := i + 1;
    }
    r := At(a, i) as int - At(b, i) as int;
    assert a[..|a|] == a && b[..|b|] == b;
    assert r != 0 ==> Parts(a, b, i);
  }

  // ----- next_arg

  function Skip(s: string): string {
    if s != "" && s[0] == ' ' then Skip(s[1..]) else s
  }

  function Word(s: string): (w: string)
    ensures w <= s && ' ' !in w
  {
    if s == "" || s[0] == ' ' then "" else [s[0]] + Word(s[1..])
  }

  /** The next word of a string and what follows the one space after it. */
  function Arg(s: string): (Option<string>, string) {
    var start := Skip(s);
    if start == "" then (None, "")
    else
      var w := Word(start);
      (Some(w), if |w| < |start| then start[|w| + 1..] else "")
  }

  /** Two words joined by a space come apart again. */
  lemma {:induction false} ArgOfWords(word: string, more: string)
    requires word != "" && ' ' !in word
    ensures Arg(word + " " + more) == (Some(word), more) && Arg(word) == (Some(word), "")
  {
    var s := word + " " + more;
    assert s[0] == word[0] && Skip(s) == s && Skip(word) == word;
    WordOf(word, " " + more);
    WordOf(word, "");
    assert word + (" " + more) == s && word + "" == word;
    assert s[|word| + 1..] == more;
  }

  lemma {:induction false} WordOf(word: string, more: string)
    requires ' ' !in word && (more == "" || more[0] == ' ')
    ensures Word(word + more) == word
  {
    if word != "" {
      assert (word + more)[1..] == word[1..] + more;
      WordOf(word[1..], more);
    } else {
      assert word + more == more;
    }
  }

  /** The character is in the group, or not in it if the group begins with '^'. */
  predicate InGroup(c: char, group: string) {
    if group != "" && group[0] == '^' then c !in group[1..] else c in group
  }

  /** sindex: the first place that holds a character of the group; the end stands for NULL. */
  method Sindex(s: string, group: string) returns (i: nat)
    ensures i <= |s| && (i < |s| ==> InGroup(s[i], group))
    ensures forall j :: 0 <= j < i ==> !InGroup(s[j], group)
  {
    var negated := group != "" && group[0] == '^';
    var chars := if negated then group[1..] else group;
    i := 0;
    while i < |s|
      invariant i <= |s| && forall j :: 0 <= j < i ==> !InGroup(s[j], group)
    {
      var k := 0;
      while k < |chars| && chars[k] != s[i]
        invariant k <= |chars| && forall x :: 0 <= x < k ==> chars[x] != s[i]
      {
        k := k + 1;
      }
      if (k < |chars|) != negated { return; }
      i := i + 1;
    }
  }

  lemma {:induction false} SkipFrom(s: string, i: nat)
    requires i <= |s| && (i < |s| ==> s[i] != ' ') && forall j :: 0 <= j < i ==> s[j] == ' '
    ensures Skip(s) == s[i..]
  {
    if i > 0 { SkipFrom(s[1..], i - 1); }
  }

  lemma {:induction false} WordUpTo(s: string, i: nat)
    requires i <= |s| && (i < |s| ==> s[i] == ' ') && forall j :: 0 <= j < i ==> s[j] != ' '
    ensures Word(s) == s[..i]
  {
    if i > 0 { WordUpTo(s[1..], i - 1); assert s[..i] == [s[0]] + s[1..][..i - 1]; }
  }

  method NextArg(s: string) returns (arg: Option<string>, rest: string)
    ensures (arg, rest) == Arg(s)
  {
    if s == "" { return None, ""; }
    var start := Sindex(s, "^ ");
    assert forall c :: InGroup(c, "^ ") <==> c != ' ' by { assert "^ "[1..] == " "; }
    SkipFrom(s, start);
    if start == |s| { return None, ""; }
    var tail := s[start..];
    var end := Sindex(tail, " ");
    WordUpTo(tail, end);
    return Some(tail[..end]), if end < |tail| then tail[end + 1..] else "";
  }
}
