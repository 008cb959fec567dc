/** The input line of input.c: typing, killing and yanking. */
module Editor {
  import opened Ircaux

  const INPUT_BUFFER_SIZE := 492

  /** The line with its prompt, the cursor, the end of the prompt, and the cut buffer. */
  datatype Line = Line(text: string, pos: nat, minPos: nat, cut: Option<string>)

  /** The cursor is between the prompt and the end of the line, and the prompt fits the buffer. */
  predicate InLine(l: Line) {
    l.minPos <= l.pos <= |l.text| && l.minPos <= INPUT_BUFFER_SIZE
  }

  /** my_isspace, or ispunct in the C locale. */
  predicate IsGap(c: char) {
    var n := c as int;
    9 <= n <= 13 || n == 32 || 33 <= n <= 47 || 58 <= n <= 64 || 91 <= n <= 96 || 123 <= n <= 126
  }

  /** ADD_TO_INPUT: strmcat up to one character less than the size. A line that is already longer
      gets everything. */
  function Add(text: string, more: string): (r: string)
    ensures |r| == if |text| < INPUT_BUFFER_SIZE <= |text| + |more| then INPUT_BUFFER_SIZE - 1 else |text| + |more|
    ensures text <= r && r <= text + more
  {
    if |text| <= INPUT_BUFFER_SIZE - 1 < |text| + |more| then text + more[..INPUT_BUFFER_SIZE - 1 - |text|]
    else text + more
  }

  // ----- What the commands do

  function Typed(l: Line, c: char, insert: bool): Line
    requires InLine(l)
  {
    var before, after := l.text[..l.pos], l.text[l.pos..];
    if l.pos >= INPUT_BUFFER_SIZE then l
    else if after == "" then l.(text := before + [c], pos := l.pos + 1)
    else l.(text := if insert then Add(before + [c], after) else before + [c] + after[1..], pos := l.pos + 1)
  }

  function Backspaced(l: Line): Line
    requires InLine(l)
  {
    if l.pos > l.minPos then l.(text := l.text[..l.pos - 1] + l.text[l.pos..], pos := l.pos - 1) else l
  }

  /** Characters a to b go to the cut buffer, and the cursor to where they were. */
  function Killed(l: Line, a: nat, b: nat): Line
    requires a <= b <= |l.text|
  {
    l.(text := l.text[..a] + l.text[b..], pos := a, cut := Some(l.text[a..b]))
  }

  /** Clearing to the beginning puts the rest of the line back with ADD_TO_INPUT. */
  function ClearedToBol(l: Line): Line
    requires InLine(l)
  {
    Killed(l, l.minPos, l.pos).(text := Add(l.text[..l.minPos], l.text[l.pos..]))
  }

  function Yanked(l: Line): Line
    requires InLine(l)
  {
    match l.cut
    case None => l
    case Some(cut) =>
      var pos := l.pos + |cut|;
      l.(text := Add(Add(l.text[..l.pos], cut), l.text[l.pos..]),
         pos := if pos > INPUT_BUFFER_SIZE then INPUT_BUFFER_SIZE else pos)
  }

  /** Back over the characters that are gaps, or that are not. */
  function Back(text: string, min: nat, i: nat, gap: bool): (r: nat)
    requires min <= i <= |text|
    ensures min <= r <= i && (r == min || IsGap(text[r - 1]) != gap)
    ensures forall k :: r <= k < i ==> IsGap(text[k]) == gap
  {
    if i > min && IsGap(text[i - 1]) == gap then Back(text, min, i - 1, gap) else i
  }

  function Forth(text: string, i: nat, gap: bool): (r: nat)
    requires i <= |text|
    ensures i <= r <= |text| && (r == |text| || IsGap(text[r]) != gap)
    ensures forall k :: i <= k < r ==> IsGap(text[k]) == gap
    decreases |text| - i
  {
    if i < |text| && IsGap(text[i]) == gap then Forth(text, i + 1, gap) else i
  }

  /** Where the word before the cursor begins, and where the one after it ends. */
  function WordStart(l: Line): (a: nat)
    requires InLine(l)
    ensures l.minPos <= a <= l.pos
  {
    Back(l.text, l.minPos, Back(l.text, l.minPos, l.pos, true), false)
  }

  function WordEnd(l: Line): (b: nat)
    requires InLine(l)
    ensures l.pos <= b <= |l.text|
  {
    Forth(l.text, Forth(l.text, l.pos, true), false)
  }

  // ----- What they come to

  /** The gaps are white space and, of the printing ASCII characters, all but letters and digits. */
  lemma GapsAreNotWords(c: char)
    ensures 32 < c as int < 127 ==> (IsGap(c) <==> !('0' <= c <= '9' || 'A' <= c <= 'Z' || 'a' <= c <= 'z'))
    ensures c as int <= 32 ==> (IsGap(c) <==> c == ' ' || c == '\t' || c == '\n' || c == '\r' || 11 <= c as int <= 12)
    ensures c as int >= 127 ==> !IsGap(c)
  {
  }

  predicate AllGaps(s: string, gap: bool) {
    forall i :: 0 <= i < |s| ==> IsGap(s[i]) == gap
  }

  /** Overwriting changes the character under the cursor and no other; at the end it adds one. */
  lemma OverwritingKeepsTheRest(l: Line, c: char, i: nat)
    requires InLine(l) && l.pos < INPUT_BUFFER_SIZE
    ensures var t := Typed(l, c, false);
            && |t.text| == (if l.pos < |l.text| then |l.text| else |l.text| + 1) && t.text[l.pos] == c && t.pos == l.pos + 1
            && (i < |l.text| && i != l.pos ==> t.text[i] == l.text[i])
            && t.minPos == l.minPos && t.cut == l.cut
  {
  }

  lemma SliceGaps(s: string, a: nat, b: nat, gap: bool)
    requires a <= b <= |s| && forall k :: a <= k < b ==> IsGap(s[k]) == gap
    ensures AllGaps(s[a..b], gap)
  {
  }

  lemma FourParts(s: string, a: nat, b: nat, c: nat)
    requires a <= b <= c <= |s|
    ensures s == s[..a] + s[a..b] + s[b..c] + s[c..] && s[a..b] + s[b..c] == s[a..c]
    ensures |s[..a] + s[a..b] + s[b..c]| == c
  {
  }

  /** What deleting the previous word takes out: gaps up to the cursor and the whole word before them. */
  lemma PreviousWordGoes(l: Line) returns (before: string, word: string, gaps: string, after: string)
    requires InLine(l)
    ensures l.text == before + word + gaps + after && |before + word + gaps| == l.pos
    ensures AllGaps(word, false) && AllGaps(gaps, true)
    ensures |before| == l.minPos || (word != "" && |before| > l.minPos && IsGap(before[|before| - 1]))
    ensures Killed(l, WordStart(l), l.pos) == Line(before + after, |before|, l.minPos, Some(word + gaps))
  {
    var middle := Back(l.text, l.minPos, l.pos, true);
    var a := WordStart(l);
    before, word, gaps, after := l.text[..a], l.text[a..middle], l.text[middle..l.pos], l.text[l.pos..];
    SliceGaps(l.text, a, middle, false);
    SliceGaps(l.text, middle, l.pos, true);
    assert a > l.minPos ==> before[a - 1] == l.text[a - 1] && a < middle;
    FourParts(l.text, a, middle, l.pos);
  }

  /** What deleting the next word takes out: the gaps from the cursor on and the whole word behind them. */
  lemma NextWordGoes(l: Line) returns (before: string, gaps: string, word: string, after: string)
    requires InLine(l)
    ensures l.text == before + gaps + word + after && |before| == l.pos
    ensures AllGaps(gaps, true) && AllGaps(word, false)
    ensures after == "" || (word != "" && IsGap(after[0]))
    ensures Killed(l, l.pos, WordEnd(l)) == Line(before + after, l.pos, l.minPos, Some(gaps + word))
  {
    var middle := Forth(l.text, l.pos, true);
    var b := WordEnd(l);
    before, gaps, word, after := l.text[..l.pos], l.text[l.pos..middle], l.text[middle..b], l.text[b..];
    SliceGaps(l.text, l.pos, middle, true);
    SliceGaps(l.text, middle, b, false);
    FourParts(l.text, l.pos, middle, b);
  }

  class Editor {
    var text: string
    var pos: nat
    var minPos: nat
    var cut: Option<string>

    function State(): Line
      reads this
    {
      Line(text, pos, minPos, cut)
    }

    constructor (prompt: string)
      ensures State() == Line(prompt, |prompt|, |prompt|, None)
    {
      text, pos, minPos, cut := prompt, |prompt|, |prompt|, None;
    }

    method AddToInput(more: string)
      modifies this`text
      ensures text == Add(old(text), more)
    {
      if |text| + |more| > INPUT_BUFFER_SIZE - 1 && |text| <= INPUT_BUFFER_SIZE - 1 {
        text := text + more[..INPUT_BUFFER_SIZE - 1 - |text|];
      } else {
        text := text + more;
      }
    }

    method AddCharacter(c: char, insert: bool)
      requires InLine(State())
      modifies this
      ensures State() == Typed(old(State()), c, insert)
    {
      if pos < INPUT_BUFFER_SIZE {
        if insert && pos < |text| {
          var ptr := text[pos..];
          text := text[..pos] + [c];
          AddToInput(ptr);
        } else if pos == |text| {
          text := text[..pos] + [c];
        } else {
          text := text[pos := c];
        }
        pos := pos + 1;
      }
    }

    method Backspace()
      requires InLine(State())
      modifies this
      ensures State() == Backspaced(old(State()))
    {
      if pos > minPos {
        var ptr := text[pos..];
        text := text[..pos - 1] + ptr;
        pos := pos - 1;
      }
    }

    method DeletePreviousWord()
      requires InLine(State())
      modifies this
      ensures State() == Killed(old(State()), WordStart(old(State())), old(pos))
    {
      var oldPos := pos;
      ghost var l := State();
      while pos > minPos && IsGap(text[pos - 1])
        invariant minPos <= pos <= oldPos && State() == l.(pos := pos)
        invariant Back(text, minPos, oldPos, true) == Back(text, minPos, pos, true)
      {
        pos := pos - 1;
      }
      ghost var middle := pos;
      while pos > minPos && !IsGap(text[pos - 1])
        invariant minPos <= pos <= oldPos && State() == l.(pos := pos)
        invariant Back(text, minPos, middle, false) == Back(text, minPos, pos, false)
      {
        pos := pos - 1;
      }
      cut := Some(text[pos..oldPos]);
      text := text[..pos] + text[oldPos..];
    }

    method DeleteNextWord()
      requires InLine(State())
      modifies this
      ensures State() == Killed(old(State()), old(pos), WordEnd(old(State())))
    {
      var end := pos;
      while end < |text| && IsGap(text[end])
        invariant pos <= end <= |text| && Forth(text, pos, true) == Forth(text, end, true)
      {
        end := end + 1;
      }
      ghost var middle := end;
      while end < |text| && !IsGap(text[end])
        invariant pos <= end <= |text| && Forth(text, middle, false) == Forth(text, end, false)
      {
        end := end + 1;
      }
      cut := Some(text[pos..end]);
      text := text[..pos] + text[end..];
    }

    method ClearToEol()
      requires InLine(State())
      modifies this
      ensures State() == Killed(old(State()), old(pos), |old(text)|)
    {
      assert text[..pos] + text[|text|..] == text[..pos] && text[pos..|text|] == text[pos..];
      cut := Some(text[pos..]);
      text := text[..pos];
    }

    method ClearToBol()
      requires InLine(State())
      modifies this
      ensures State() == ClearedToBol(old(State()))
    {
      assert text[minPos..][..pos - minPos] == text[minPos..pos];
      cut := Some(text[minPos..][..pos - minPos]);
      var ptr := text[pos..];
      text := text[..minPos];
      AddToInput(ptr);
      pos := minPos;
    }

    method ClearLine()
      requires InLine(State())
      modifies this
      ensures State() == Killed(old(State()), old(minPos), |old(text)|)
    {
      assert text[..minPos] + text[|text|..] == text[..minPos] && text[minPos..|text|] == text[minPos..];
      cut := Some(text[minPos..]);
      text := text[..minPos];
      pos := minPos;
    }

    method YankCutBuffer()
      requires InLine(State())
      modifies this
      ensures State() == Yanked(old(State()))
    {
      if cut.Some? {
        var ptr := text[pos..];
        text := text[..pos];
        AddToInput(cut.value);
        AddToInput(ptr);
        pos := pos + |cut.value|;
        if pos > INPUT_BUFFER_SIZE { pos := INPUT_BUFFER_SIZE; }
      }
    }
  }

  // ----- What undoes what

  /** The character typed goes in without pushing the end of the line out of the buffer. */
  predicate TakesCharacter(l: Line, insert: bool) {
    if l.pos >= INPUT_BUFFER_SIZE then l.pos == l.minPos
    else l.pos == |l.text| || (insert && (l.pos == INPUT_BUFFER_SIZE - 1 || |l.text| < INPUT_BUFFER_SIZE - 1))
  }

  /** A backspace takes back the character just typed exactly when there was room for it. */
  lemma BackspaceUndoesTyping(l: Line, c: char, insert: bool)
    requires InLine(l)
    ensures InLine(Typed(l, c, insert))
    ensures Backspaced(Typed(l, c, insert)) == l <==> TakesCharacter(l, insert)
  {
    var t := Typed(l, c, insert);
    var u := Backspaced(t);
    var before, after := l.text[..l.pos], l.text[l.pos..];
    assert before + after == l.text;
    if l.pos < INPUT_BUFFER_SIZE {
      assert t.text[..l.pos] == before;
      if TakesCharacter(l, insert) {
        assert t.text[l.pos + 1..] == after;
        assert u.text == l.text;
      }
    }
  }

  /** Nothing was cut off when the killed part comes back. */
  predicate YankFits(l: Line, a: nat) {
    |l.text| < INPUT_BUFFER_SIZE || a >= INPUT_BUFFER_SIZE
  }

  /** Yanking what was just killed restores the line exactly when it fits, and leaves the cursor
      after the part that came back. */
  lemma YankUndoesKill(l: Line, a: nat, b: nat)
    requires InLine(l) && l.minPos <= a <= b <= |l.text|
    ensures InLine(Killed(l, a, b))
    ensures var y := Yanked(Killed(l, a, b));
            && (y.text == l.text <==> YankFits(l, a))
            && y.pos == (if b < INPUT_BUFFER_SIZE then b else INPUT_BUFFER_SIZE)
            && y.minPos == l.minPos && y.cut == Some(l.text[a..b])
  {
    var k := Killed(l, a, b);
    var before, cut, after := l.text[..a], l.text[a..b], l.text[b..];
    assert k.text[..a] == before && k.text[a..] == after;
    assert l.text == before + cut + after;
    assert Yanked(k).text == Add(Add(before, cut), after);
  }

  lemma YankUndoesClearToBol(l: Line)
    requires InLine(l)
    ensures InLine(ClearedToBol(l))
    ensures var y := Yanked(ClearedToBol(l));
            && (y.text == l.text <==> YankFits(l, l.minPos))
            && (l.pos <= INPUT_BUFFER_SIZE ==> y.pos == l.pos)
  {
    var k := ClearedToBol(l);
    var before, cut, after := l.text[..l.minPos], l.text[l.minPos..l.pos], l.text[l.pos..];
    assert l.text == before + cut + after && k.text[..l.minPos] == before;
    var kept := k.text[l.minPos..];
    assert Yanked(k).text == Add(Add(before, cut), kept);
    if YankFits(l, l.minPos) { assert kept == after; }
  }

  // ----- The cursor

  datatype Command =
    | Type(c: char, insert: bool) | Erase | PreviousWord | NextWord | ToEol | ToBol | WholeLine | Yank

  function Apply(l: Line, command: Command): Line
    requires InLine(l)
  {
    match command
    case Type(c, insert) => Typed(l, c, insert)
    case Erase => Backspaced(l)
    case PreviousWord => Killed(l, WordStart(l), l.pos)
    case NextWord => Killed(l, l.pos, WordEnd(l))
    case ToEol => Killed(l, l.pos, |l.text|)
    case ToBol => ClearedToBol(l)
    case WholeLine => Killed(l, l.minPos, |l.text|)
    case Yank => Yanked(l)
  }

  /** A yank that has to be cut short at the end of the buffer. */
  predicate Overruns(l: Line, command: Command) {
    command == Yank && l.cut.Some? && l.pos < INPUT_BUFFER_SIZE <= l.pos + |l.cut.value|
  }

  /** Every command keeps the cursor in the line, except a yank that is cut short: it always leaves
      the cursor one past the end. */
  lemma CursorStaysInLine(l: Line, command: Command)
    requires InLine(l)
    ensures InLine(Apply(l, command)) <==> !Overruns(l, command)
    ensures Apply(l, command).minPos == l.minPos && Apply(l, command).text[..l.minPos] == l.text[..l.minPos]
  {
  }
}
