/** The command history of history.c: a doubly linked list of the newest lines, newest first. */
module History {
  import opened Ircaux

  datatype Direction = NEXT | PREV

  // ----- The lines of an input

  predicate IsEnd(c: char) {
    c == '\n' || c == '\r'
  }

  function Break(line: string): (k: nat)
    ensures k <= |line|
  {
    if line == "" || IsEnd(line[0]) then 0 else Break(line[1..]) + 1
  }

  lemma {:induction false} BreakIs(line: string, k: nat)
    requires k <= |line| && (k < |line| ==> InGroup(line[k], "\n\r")) && forall j :: 0 <= j < k ==> !InGroup(line[j], "\n\r")
    ensures Break(line) == k
  {
    if k > 0 {
      assert !InGroup(line[0], "\n\r");
      BreakIs(line[1..], k - 1);
    }
  }

  /** The line cut at its line ends, which do not belong to the pieces. */
  function Pieces(line: string): (pieces: seq<string>)
    ensures pieces != []
    decreases |line| + 1, 0
  {
    var k := Break(line);
    [line[..k]] + Left(if k < |line| then Some(line[k + 1..]) else None)
  }

  function Left(rest: Option<string>): seq<string>
    decreases if rest == None then 0 else |rest.value| + 1, 1
  {
    if rest == None then [] else Pieces(rest.value)
  }

  /** What add_to_history adds for a line, oldest first. */
  function Adds(line: string): seq<string> {
    if line == "" then [] else Pieces(line)
  }

  /** Lines added one by one to a list that has the newest line first. */
  function Push(added: seq<string>, lines: seq<string>): (r: seq<string>)
    ensures |r| == |added| + |lines|
    decreases |added|
  {
    if added == [] then lines else Push(added[1..], [added[0]] + lines)
  }

  /** Lines without line ends, and the line ends between them. */
  predicate AreLines(pieces: seq<string>, ends: string) {
    && |pieces| == |ends| + 1
    && (forall i :: 0 <= i < |ends| ==> IsEnd(ends[i]))
    && forall i, j :: 0 <= i < |pieces| && 0 <= j < |pieces[i]| ==> !IsEnd(pieces[i][j])
  }

  function Joined(pieces: seq<string>, ends: string): string
    requires |pieces| == |ends| + 1
  {
    if ends == "" then pieces[0] else pieces[0] + [ends[0]] + Joined(pieces[1..], ends[1..])
  }

  lemma FirstPiece(line: string, rest: Option<string>)
    requires rest == if Break(line) < |line| then Some(line[Break(line) + 1..]) else None
    ensures Pieces(line) == [line[..Break(line)]] + Left(rest) && |Pieces(line)| == 1 + |Left(rest)|
  {
  }

  lemma OneLineMore(piece: string, end: char, pieces: seq<string>, ends: string)
    requires AreLines(pieces, ends) && IsEnd(end) && forall j :: 0 <= j < |piece| ==> !IsEnd(piece[j])
    ensures AreLines([piece] + pieces, [end] + ends)
    ensures Joined([piece] + pieces, [end] + ends) == piece + [end] + Joined(pieces, ends)
  {
    assert ([piece] + pieces)[1..] == pieces && ([end] + ends)[1..] == ends;
  }

  /** The pieces of a line have no line ends in them, and joined by the line ends they are the line. */
  lemma {:induction false} PiecesJoinBack(line: string) returns (ends: string)
    ensures AreLines(Pieces(line), ends) && Joined(Pieces(line), ends) == line
    decreases |line|
  {
    var k := Break(line);
    BreakIsEnd(line);
    if k == |line| {
      FirstPiece(line, None);
      assert line[..k] == line && Left(None) == [];
      ends := "";
    } else {
      var rest := line[k + 1..];
      FirstPiece(line, Some(rest));
      var more := PiecesJoinBack(rest);
      OneLineMore(line[..k], line[k], Pieces(rest), more);
      ends := [line[k]] + more;
      assert line == line[..k] + [line[k]] + rest;
    }
  }

  lemma {:induction false} BreakIsEnd(line: string)
    ensures var k := Break(line); (k < |line| ==> IsEnd(line[k])) && forall j :: 0 <= j < k ==> !IsEnd(line[j])
  {
    if line != "" && !IsEnd(line[0]) { BreakIsEnd(line[1..]); }
  }

  /** Lines joined by line ends of either kind come apart into just those lines. */
  lemma {:induction false} PiecesOfJoined(pieces: seq<string>, ends: string)
    requires AreLines(pieces, ends)
    ensures Pieces(Joined(pieces, ends)) == pieces
    decreases |ends|
  {
    var line, k := Joined(pieces, ends), |pieces[0]|;
    if ends == "" {
      BreakAt(line, k);
      assert line[..k] == pieces[0];
    } else {
      var later := Joined(pieces[1..], ends[1..]);
      LaterLines(pieces, ends);
      PiecesOfJoined(pieces[1..], ends[1..]);
      BreakAt(line, k);
      assert line[..k] == pieces[0] && line[k + 1..] == later;
    }
  }

  lemma LaterLines(pieces: seq<string>, ends: string)
    requires AreLines(pieces, ends) && ends != ""
    ensures AreLines(pieces[1..], ends[1..])
  {
  }

  lemma BreakAt(line: string, k: nat)
    requires k <= |line| && (k < |line| ==> IsEnd(line[k])) && forall j :: 0 <= j < k ==> !IsEnd(line[j])
    ensures Break(line) == k
  {
    BreakIsEnd(line);
  }

  class Entry {
    var number: int
    var stuff: string
    var next: Entry?
    var prev: Entry?

    constructor (number: int, stuff: string, next: Entry?)
      ensures this.number == number && this.stuff == stuff && this.next == next && prev == null
    {
      this.number, this.stuff, this.next, prev := number, stuff, next, null;
    }
  }

  /** The newest n of some lines that come newest first. */
  function Newest(n: nat, lines: seq<string>): (r: seq<string>)
    ensures r <= lines && |r| == if |lines| <= n then |lines| else n
  {
    if |lines| <= n then lines else lines[..n]
  }

  /** The index of an entry of the list, or one past the end for NULL. */
  ghost function EntryAt(nodes: seq<Entry>, i: int): Entry? {
    if 0 <= i < |nodes| then nodes[i] else null
  }

  ghost predicate Distinct(nodes: seq<Entry>) {
    forall i, j :: 0 <= i < j < |nodes| ==> nodes[i] != nodes[j]
  }

  /** The next links lead through nodes from any entry to the last. */
  ghost predicate Forward(nodes: seq<Entry>)
    reads nodes`next
  {
    forall i {:trigger nodes[i].next} :: 0 <= i < |nodes| ==> nodes[i].next == EntryAt(nodes, i + 1)
  }

  /** The prev links lead back. */
  ghost predicate Backward(nodes: seq<Entry>)
    reads nodes`prev
  {
    forall i {:trigger nodes[i].prev} :: 0 <= i < |nodes| ==> nodes[i].prev == EntryAt(nodes, i - 1)
  }

  ghost predicate Carry(nodes: seq<Entry>, lines: seq<string>)
    reads nodes`stuff
  {
    |nodes| == |lines| && forall i {:trigger nodes[i].stuff} :: 0 <= i < |nodes| ==> nodes[i].stuff == lines[i]
  }

  /** Where PREV leads from entry i of n: to the next older one, and from the oldest to the newest. */
  function Older(i: nat, n: nat): nat
    requires i < n
  {
    if i + 1 < n then i + 1 else 0
  }

  /** Where NEXT leads. */
  function Newer(i: nat, n: nat): nat
    requires i < n
  {
    if i > 0 then i - 1 else n - 1
  }

  lemma MovesAreInverse(i: nat, n: nat)
    requires i < n
    ensures Newer(Older(i, n), n) == i && Older(Newer(i, n), n) == i
  {
  }

  /** k moves with PREV. */
  function OlderBy(i: nat, n: nat, k: nat): (j: nat)
    requires i < n
    ensures j < n
    decreases k
  {
    if k == 0 then i else OlderBy(Older(i, n), n, k - 1)
  }

  /** One cycle: from any entry every other is met within n moves, and after n moves it is back. */
  lemma {:induction false} MovesMakeOneCycle(i: nat, n: nat, k: nat)
    requires i < n && k <= n
    ensures OlderBy(i, n, k) == if i + k < n then i + k else i + k - n
    decreases k
  {
    if k > 0 && i + 1 < n {
      MovesMakeOneCycle(i + 1, n, k - 1);
    } else if k > 0 {
      MovesMakeOneCycle(0, n, k - 1);
    }
  }

  lemma NewestWithOneMore(limit: nat, stuff: string, lines: seq<string>)
    requires limit > 0
    ensures [stuff] + Newest(limit - 1, lines) == Newest(limit, [stuff] + lines)
  {
  }

  lemma BehindHead(nodes: seq<Entry>, kept: seq<Entry>, all: seq<Entry>)
    requires nodes != [] && nodes == nodes[..1] + kept && kept <= all
    ensures forall i {:trigger nodes[i]} :: 0 < i < |nodes| ==> nodes[i] in all
  {
    forall i {:trigger nodes[i]} | 0 < i < |nodes| ensures nodes[i] in all {
      assert nodes[i] == kept[i - 1] == all[i - 1];
    }
  }

  class History {
    var head: Entry?
    var tail: Entry?
    var pos: Entry?
    var histSize: nat
    var histCount: int
    ghost var nodes: seq<Entry>
    /** Which entry pos is, unless it is null. */
    ghost var at: nat
    /** The lines kept, newest first. */
    ghost var lines: seq<string>

    /** The list is in order; pos and histSize may be anything. */
    ghost predicate Sound()
      reads `head, `tail, `nodes, `lines, nodes
    {
      && Distinct(nodes) && Forward(nodes) && Backward(nodes) && Carry(nodes, lines)
      && head == EntryAt(nodes, 0) && tail == EntryAt(nodes, |nodes| - 1)
    }

    ghost predicate Valid()
      reads `head, `tail, `pos, `histSize, `nodes, `lines, `at, nodes
    {
      Sound() && histSize == |nodes| && (pos != null ==> pos == EntryAt(nodes, at))
    }

    constructor ()
      ensures Valid() && lines == [] && pos == null
    {
      head, tail, pos, histSize, histCount := null, null, null, 0, 0;
      nodes, lines, at := [], [], 0;
    }

    /** The oldest entry goes. */
    method DropTail()
      requires Sound() && tail != null
      modifies this`tail, this`head, this`nodes, this`lines, nodes`next
      ensures Sound() && old(nodes) != []
      ensures nodes == old(nodes)[..|old(nodes)| - 1] && lines == old(lines)[..|old(lines)| - 1]
    {
      ghost var n := |nodes|;
      assert tail == nodes[n - 1] && tail.prev == EntryAt(nodes, n - 2);
      tail := tail.prev;
      if tail != null { tail.next := null; } else { head := null; }
      nodes, lines := nodes[..n - 1], lines[..n - 1];
    }

    /** A new entry goes to the front. */
    method PushHead(cnt: int, stuff: string)
      requires Sound()
      modifies this`tail, this`head, this`pos, this`nodes, this`lines, nodes`prev
      ensures Sound() && pos == null && lines == [stuff] + old(lines)
      ensures nodes != [] && fresh(nodes[0]) && nodes == nodes[..1] + old(nodes)
    {
      var entry := new Entry(cnt, stuff, head);
      if head != null { head.prev := entry; }
      head := entry;
      if tail == null { tail := entry; }
      pos := null;
      nodes, lines := [entry] + nodes, [stuff] + lines;
    }

    /** Before a new entry is made: the oldest goes if the list is full, and hist_size counts the new one. */
    method MakeRoom(limit: nat)
      requires Valid() && histSize <= limit && limit > 0 && !(histSize == limit == 1)
      modifies this`tail, this`head, this`nodes, this`lines, this`histSize, nodes`next
      ensures Sound() && histSize == |nodes| + 1 <= limit
      ensures nodes <= old(nodes) && lines == Newest(limit - 1, old(lines))
    {
      if histSize == limit && tail != null { DropTail(); } else { histSize := histSize + 1; }
    }

    /** With a limit of one the only entry is written over, and pos stays. */
    method WriteOver(stuff: string)
      requires Valid() && histSize == 1
      modifies this`lines, nodes`stuff
      ensures Valid() && lines == [stuff]
    {
      tail.stuff := stuff;
      lines := [stuff];
    }

    /** add_to_history_list, with the HISTORY setting as limit. */
    method AddToHistoryList(limit: nat, cnt: int, stuff: string)
      requires Valid() && histSize <= limit
      modifies this, nodes
      ensures Valid() && histSize <= limit && histCount == old(histCount)
      ensures lines == Newest(limit, [stuff] + old(lines))
      ensures pos == null || pos == old(pos)
      ensures forall i {:trigger nodes[i]} :: 0 <= i < |nodes| ==> nodes[i] in old(nodes) || fresh(nodes[i])
    {
      if limit == 0 { return; }
      if histSize == limit == 1 {
        WriteOver(stuff);
        return;
      }
      AddEntry(limit, cnt, stuff);
    }

    method AddEntry(limit: nat, cnt: int, stuff: string)
      requires Valid() && histSize <= limit && limit > 0 && !(histSize == limit == 1)
      modifies this, nodes
      ensures Valid() && histSize <= limit && histCount == old(histCount)
      ensures lines == Newest(limit, [stuff] + old(lines)) && pos == null
      ensures forall i {:trigger nodes[i]} :: 0 <= i < |nodes| ==> nodes[i] in old(nodes) || fresh(nodes[i])
    {
      MakeRoom(limit);
      ghost var kept := nodes;
      PushHead(cnt, stuff);
      BehindHead(nodes, kept, old(nodes));
      NewestWithOneMore(limit, stuff, old(lines));
    }

    /** One round of add_to_history: the piece up to the next line end is added. */
    method AddPiece(limit: nat, s: string) returns (rest: Option<string>)
      requires Valid() && histSize <= limit
      modifies this, nodes
      ensures Valid() && histSize <= limit
      ensures Newest(limit, Push(Pieces(s), old(lines))) == Newest(limit, Push(Left(rest), lines))
      ensures histCount + |Left(rest)| == old(histCount) + |Pieces(s)|
      ensures pos == null || pos == old(pos)
      ensures rest.Some? ==> |rest.value| < |s|
      ensures forall i {:trigger nodes[i]} :: 0 <= i < |nodes| ==> nodes[i] in old(nodes) || fresh(nodes[i])
    {
      var k := Sindex(s, "\n\r");
      BreakIs(s, k);
      rest := if k < |s| then Some(s[k + 1..]) else None;
      FirstPiece(s, rest);
      OnePiece(limit, s[..k], Left(rest), lines);
      var number := histCount;
      histCount := histCount + 1;
      AddToHistoryList(limit, number, s[..k]);
    }

    /** add_to_history: each piece of the line between line ends is added in turn. */
    method AddToHistory(limit: nat, line: string)
      requires Valid() && histSize <= limit
      modifies this, nodes
      ensures Valid() && histSize <= limit
      ensures lines == Newest(limit, Push(Adds(line), old(lines))) && histCount == old(histCount) + |Adds(line)|
      ensures pos == null || pos == old(pos)
      ensures forall i {:trigger nodes[i]} :: 0 <= i < |nodes| ==> nodes[i] in old(nodes) || fresh(nodes[i])
    {
      if line == "" {
        return;
      }
      var rest := Some(line);
      while rest.Some?
        invariant Valid()
        invariant histSize <= limit
        invariant forall i {:trigger nodes[i]} :: 0 <= i < |nodes| ==> nodes[i] in old(nodes) || fresh(nodes[i])
        invariant pos == null || pos == old(pos)
        invariant Newest(limit, Push(Adds(line), old(lines))) == Newest(limit, Push(Left(rest), lines))
        invariant histCount + |Left(rest)| == old(histCount) + |Adds(line)|
        decreases if rest == None then 0 else |rest.value| + 1
      {
        rest := AddPiece(limit, rest.value);
      }
    }

    /** get_from_history_buffer: PREV goes to older lines and NEXT to newer ones, in a circle. Where
        no position is set, the input is added first, and PREV starts at the newest line, NEXT at the
        oldest. */
    method GetFromHistoryBuffer(limit: nat, which: Direction, input: string) returns (stuff: Option<string>)
      requires Valid() && histSize <= limit
      modifies this, nodes
      ensures Valid() && histSize <= limit
      ensures old(histSize) == 0 ==> stuff == None && lines == old(lines) && pos == old(pos)
      ensures old(histSize) > 0 ==>
                && lines == (if old(pos) != null then old(lines) else Newest(limit, Push(Adds(input), old(lines))))
                && pos != null && at < |lines| && stuff == Some(lines[at])
                && at == if old(pos) == null then (if which == PREV then 0 else |lines| - 1)
                         else if which == PREV then Older(old(at), |lines|) else Newer(old(at), |lines|)
    {
      if limit == 0 || histSize == 0 { return None; }
      if pos == null {
        AddToHistory(limit, input);
        assert lines != [];
        if which == NEXT { pos := tail; at := |nodes| - 1; } else { pos := head; at := 0; }
      } else {
        Move(which);
      }
      return Some(pos.stuff);
    }

    /** One step around the circle. */
    method Move(which: Direction)
      requires Valid() && pos != null
      modifies this`pos, this`at
      ensures Valid() && pos != null && at == if which == PREV then Older(old(at), |nodes|) else Newer(old(at), |nodes|)
    {
      if which == NEXT {
        assert pos.prev == EntryAt(nodes, at - 1);
        if pos.prev != null { pos := pos.prev; } else { pos := tail; }
        at := Newer(at, |nodes|);
      } else {
        assert pos.next == EntryAt(nodes, at + 1);
        if pos.next != null { pos := pos.next; } else { pos := head; }
        at := Older(at, |nodes|);
      }
    }

    /** set_history_size: the oldest entries go. The position is left as it was, so it is still good
        only if it was on an entry that stays. */
    method SetHistorySize(size: nat)
      requires Valid()
      modifies this, nodes`next
      ensures Sound() && histSize == |nodes| && lines == Newest(size, old(lines))
      ensures pos == old(pos) && (pos != null ==> (pos in nodes <==> old(at) < |lines|))
    {
      if size < histSize {
        StepBack(histSize - size);
        if tail == null { head := null; } else { tail.next := null; }
        histSize := size;
        nodes, lines := nodes[..size], lines[..size];
      }
    }

    method StepBack(cnt: nat)
      requires Valid() && cnt <= histSize
      modifies this`tail
      ensures tail == EntryAt(nodes, |nodes| - 1 - cnt)
    {
      for i := 0 to cnt
        invariant tail == EntryAt(nodes, |nodes| - 1 - i)
      {
        assert tail.prev == EntryAt(nodes, |nodes| - 2 - i);
        tail := tail.prev;
      }
    }
  }

  /** Adding lines and cutting off the oldest can be done in either order. */
  lemma {:induction false} CutEarly(limit: nat, added: seq<string>, lines: seq<string>)
    ensures Newest(limit, Push(added, Newest(limit, lines))) == Newest(limit, Push(added, lines))
    decreases |added|
  {
    if added != [] {
      var more := [added[0]];
      CutEarly(limit, added[1..], more + Newest(limit, lines));
      CutEarly(limit, added[1..], more + lines);
      assert Newest(limit, more + Newest(limit, lines)) == Newest(limit, more + lines);
    }
  }

  /** One round of add_to_history. */
  lemma OnePiece(limit: nat, piece: string, later: seq<string>, lines: seq<string>)
    ensures Newest(limit, Push([piece] + later, lines)) == Newest(limit, Push(later, Newest(limit, [piece] + lines)))
  {
    assert ([piece] + later)[1..] == later;
    CutEarly(limit, later, [piece] + lines);
  }

  // ----- Runs

  /** The lines kept after a run of inputs. */
  function KeptAfter(limit: nat, lines: seq<string>, inputs: seq<string>): seq<string>
    decreases |inputs|
  {
    if inputs == [] then lines
    else KeptAfter(limit, Newest(limit, Push(Adds(inputs[0]), lines)), inputs[1..])
  }

  function AllAdds(inputs: seq<string>): seq<string> {
    if inputs == [] then [] else Adds(inputs[0]) + AllAdds(inputs[1..])
  }

  lemma {:induction false} PushInTwo(a: seq<string>, b: seq<string>, lines: seq<string>)
    ensures Push(a + b, lines) == Push(b, Push(a, lines))
    decreases |a|
  {
    if a == [] {
      assert a + b == b;
    } else {
      assert (a + b)[1..] == a[1..] + b;
      PushInTwo(a[1..], b, [a[0]] + lines);
    }
  }

  /** Whatever is typed, the history holds the newest of all the lines, up to the limit. */
  lemma {:induction false} RunKeepsNewest(limit: nat, lines: seq<string>, inputs: seq<string>)
    requires |lines| <= limit
    ensures KeptAfter(limit, lines, inputs) == Newest(limit, Push(AllAdds(inputs), lines))
    decreases |inputs|
  {
    if inputs != [] {
      var added, later := Adds(inputs[0]), AllAdds(inputs[1..]);
      RunKeepsNewest(limit, Newest(limit, Push(added, lines)), inputs[1..]);
      CutEarly(limit, later, Push(added, lines));
      PushInTwo(added, later, lines);
    }
  }

  /** Line i of the history is the one added i lines before the last. */
  lemma {:induction false} PushIsReverse(added: seq<string>, lines: seq<string>, i: nat)
    requires i < |added| + |lines|
    ensures Push(added, lines)[i] == if i < |added| then added[|added| - 1 - i] else lines[i - |added|]
    decreases |added|
  {
    if added != [] { PushIsReverse(added[1..], [added[0]] + lines, i); }
  }
}
