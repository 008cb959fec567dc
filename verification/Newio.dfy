/** The buffered line reader of newio.c. */
module Newio {
  import opened Ircaux

  const IO_BUFFER_SIZE := 512

  /** How many characters a caller has room for. */
  type Limit = n: nat | 0 < n witness 1

  /** What select and read make of the descriptor at one attempt: nothing in time, some bytes, or
      end of file (errno -1) or an error. */
  datatype Attempt = Timeout | Data(bytes: string) | Failure(errno: int)

  /** read never returns more than it was asked for, and data is at least one byte. */
  predicate IsAttempt(a: Attempt) {
    a.Data? ==> 1 <= |a.bytes| <= IO_BUFFER_SIZE
  }

  predicate AreAttempts(script: seq<Attempt>) {
    forall i :: 0 <= i < |script| ==> IsAttempt(script[i])
  }

  /** The same seen one byte at a time. */
  datatype Token = Byte(c: char) | Pause | Closed(errno: int)

  function Bytes(s: string): (t: seq<Token>)
    ensures |t| == |s| && forall i :: 0 <= i < |s| ==> t[i] == Byte(s[i])
  {
    seq(|s|, i requires 0 <= i < |s| => Byte(s[i]))
  }

  function Tokens(a: Attempt): seq<Token> {
    match a
    case Timeout => [Pause]
    case Data(bytes) => Bytes(bytes)
    case Failure(errno) => [Closed(errno)]
  }

  function Stream(script: seq<Attempt>): seq<Token> {
    if script == [] then [] else Tokens(script[0]) + Stream(script[1..])
  }

  /** A call's count, the characters it leaves in str, its errno, and what it leaves unread. */
  datatype Got = Got(cnt: int, str: string, errno: int, rest: seq<Token>)

  /** A reader without a buffer, which takes one byte at a time; when nothing more is to come it
      times out. */
  function Unbuffered(stream: seq<Token>, len: Limit): Got {
    if stream == [] then Got(-1, "", 0, []) else
      var rest := stream[1..];
      match stream[0]
      case Pause => Got(-1, "", 0, rest)
      case Closed(errno) => Got(0, "", errno, rest)
      case Byte(c) => if c == '\n' || len == 1 then Got(1, [c], 0, rest) else After([c], Unbuffered(rest, len - 1))
  }

  function After(str: string, g: Got): Got {
    Got(if g.cnt > 0 then |str| + g.cnt else g.cnt, str + g.str, g.errno, g.rest)
  }

  lemma AfterAdds(a: string, b: string, g: Got)
    ensures After(a, After(b, g)) == After(a + b, g)
  {
    assert a + (b + g.str) == a + b + g.str;
  }

  class Reader {
    const buffer: array<char>
    var readPos: nat
    var writePos: nat

    ghost predicate Valid()
      reads this
    {
      buffer.Length == IO_BUFFER_SIZE + 1 && readPos <= writePos <= IO_BUFFER_SIZE
    }

    /** What has been read from the descriptor but not handed out. */
    ghost function Held(): string
      requires Valid()
      reads this, buffer
    {
      buffer[readPos..writePos]
    }

    constructor ()
      ensures Valid() && Held() == "" && fresh(buffer)
    {
      buffer := new char[IO_BUFFER_SIZE + 1];
      readPos, writePos := 0, 0;
    }

    /** read: the bytes go to the end of the buffer. */
    method Fill(bytes: string)
      requires Valid() && writePos + |bytes| <= IO_BUFFER_SIZE
      modifies this`writePos, buffer
      ensures Valid() && Held() == old(Held()) + bytes
    {
      forall i | 0 <= i < |bytes| {
        buffer[writePos + i] := bytes[i];
      }
      writePos := writePos + |bytes|;
    }

    /** The inner loop: bytes held go to str up to a newline or the limit. */
    method HandOut(start: string, len: nat, ghost later: seq<Token>) returns (full: bool, str: string)
      requires Valid() && |start| < len
      modifies this`readPos
      ensures Valid() && (!full ==> |str| < len && readPos == writePos)
      ensures Resumes(start, len, old(Held()), later) ==
              if full then Got(|str|, str, 0, Bytes(Held()) + later) else Resumes(str, len, Held(), later)
    {
      str := start;
      while readPos < writePos
        invariant Valid() && |str| < len
        invariant Resumes(start, len, old(Held()), later) == Resumes(str, len, Held(), later)
      {
        ghost var before, held := str, Held();
        var c := buffer[readPos];
        str := str + [c];
        readPos := readPos + 1;
        assert Held() == held[1..];
        NextByte(held, later, before, len);
        if c == '\n' || |str| == len { return true, str; }
      }
      return false, str;
    }

    /** select and read, with nothing held: either the call ends here, or there are bytes to hand out. */
    method Refill(str: string, len: Limit, script: seq<Attempt>) returns (end: Option<(int, int)>, rest: seq<Attempt>)
      requires Valid() && Held() == "" && |str| < len && AreAttempts(script)
      modifies this, buffer
      ensures Valid() && AreAttempts(rest)
      ensures Resumes(str, len, "", Stream(script)) ==
              if end.Some? then Got(end.value.0, str, end.value.1, Bytes(Held()) + Stream(rest))
              else Resumes(str, len, Held(), Stream(rest))
      ensures end == None ==> |rest| < |script|
    {
      readPos, writePos := 0, 0;
      if script == [] {
        NothingMore(str, len);
        return Some((-1, 0)), [];
      }
      NextAttempt(script, str, len);
      var a := script[0];
      rest := script[1..];
      if a.Data? {
        Fill(a.bytes);
        return None, rest;
      }
      NoneHeld(Stream(rest));
      return Some(if a.Timeout? then (-1, 0) else (0, a.errno)), rest;
    }

    /** dgets: whatever pieces the data comes in, a call does what the reader without a buffer does
        on the bytes held and those still to come, and leaves the same behind. */
    method Dgets(len: Limit, script: seq<Attempt>) returns (cnt: int, str: string, errno: int, rest: seq<Attempt>)
      requires Valid() && AreAttempts(script)
      modifies this, buffer
      ensures Valid() && AreAttempts(rest)
      ensures Got(cnt, str, errno, Bytes(Held()) + Stream(rest)) ==
              Unbuffered(old(Bytes(Held())) + Stream(script), len)
    {
      str, rest := "", script;
      Begins(len, Held(), Stream(rest));
      while true
        invariant Valid() && |str| < len && AreAttempts(rest)
        invariant Unbuffered(old(Bytes(Held())) + Stream(script), len) == Resumes(str, len, Held(), Stream(rest))
        decreases |rest|, writePos - readPos
      {
        if readPos == writePos {
          var end;
          end, rest := Refill(str, len, rest);
          if end.Some? { return end.value.0, str, end.value.1, rest; }
        }
        var full;
        full, str := HandOut(str, len, Stream(rest));
        if full { return |str|, str, 0, rest; }
      }
    }
  }

  /** What a call comes to that has str so far, with the given bytes held. */
  function Resumes(str: string, len: nat, held: string, later: seq<Token>): Got
    requires |str| < len
  {
    After(str, Unbuffered(Bytes(held) + later, len - |str|))
  }

  lemma Begins(len: Limit, held: string, later: seq<Token>)
    ensures Resumes("", len, held, later) == Unbuffered(Bytes(held) + later, len)
  {
    var g := Unbuffered(Bytes(held) + later, len);
    assert "" + g.str == g.str;
  }

  lemma NothingMore(str: string, len: Limit)
    requires |str| < len
    ensures Resumes(str, len, "", Stream([])) == Got(-1, str, 0, Bytes("") + Stream([]))
  {
    assert str + "" == str;
  }

  lemma NoneHeld(later: seq<Token>)
    ensures Bytes("") + later == later
  {
  }

  lemma NextAttempt(script: seq<Attempt>, str: string, len: nat)
    requires script != [] && |str| < len
    ensures var later := Stream(script[1..]);
            Resumes(str, len, "", Stream(script)) ==
            match script[0]
            case Timeout => Got(-1, str, 0, later)
            case Failure(errno) => Got(0, str, errno, later)
            case Data(bytes) => Resumes(str, len, bytes, later)
  {
    var stream, later := Stream(script), Stream(script[1..]);
    assert Bytes("") + stream == stream;
    if !script[0].Data? {
      assert stream[1..] == later;
      assert str + "" == str;
    }
  }

  lemma NextByte(held: string, later: seq<Token>, str: string, len: nat)
    requires held != "" && |str| < len
    ensures var c := held[0];
            Resumes(str, len, held, later) ==
            if c == '\n' || |str| + 1 == len then Got(|str| + 1, str + [c], 0, Bytes(held[1..]) + later)
            else Resumes(str + [c], len, held[1..], later)
  {
    var c, rest := held[0], Bytes(held[1..]) + later;
    assert Bytes(held) + later == [Byte(c)] + rest;
    if c != '\n' && |str| + 1 < len { AfterAdds(str, [c], Unbuffered(rest, len - |str| - 1)); }
  }

  /** It does not matter in which pieces the data comes. */
  lemma {:induction false} PiecesDoNotMatter(a: string, b: string, before: seq<Attempt>, later: seq<Attempt>)
    ensures Stream(before + [Data(a + b)] + later) == Stream(before + [Data(a), Data(b)] + later)
  {
    if before == [] {
      assert [Data(a + b)] + later == [] + [Data(a + b)] + later;
      assert [Data(a), Data(b)] + later == [] + [Data(a), Data(b)] + later;
      assert ([Data(a), Data(b)] + later)[1..] == [Data(b)] + later;
      assert Bytes(a + b) == Bytes(a) + Bytes(b);
    } else {
      PiecesDoNotMatter(a, b, before[1..], later);
      assert (before + [Data(a + b)] + later)[1..] == before[1..] + [Data(a + b)] + later;
      assert (before + [Data(a), Data(b)] + later)[1..] == before[1..] + [Data(a), Data(b)] + later;
    }
  }

  /** The text of a stream. */
  function Text(stream: seq<Token>): string {
    if stream == [] then "" else (if stream[0].Byte? then [stream[0].c] else "") + Text(stream[1..])
  }

  lemma TextOfTwo(a: string, b: string, c: string)
    ensures a + (b + c) == a + b + c
  {
  }

  /** A call hands out the next characters and loses none. */
  lemma {:induction false} CallLosesNothing(stream: seq<Token>, len: Limit)
    ensures Text(stream) == Unbuffered(stream, len).str + Text(Unbuffered(stream, len).rest)
    decreases len
  {
    if stream != [] && stream[0].Byte? && stream[0].c != '\n' && len > 1 {
      CallLosesNothing(stream[1..], len - 1);
      var g := Unbuffered(stream[1..], len - 1);
      TextOfTwo([stream[0].c], g.str, Text(g.rest));
    }
  }

  /** A full call stops at the first newline or at the limit; one that times out or meets the end has
      come across neither; and 0 means the end. */
  lemma {:induction false} CallIsExact(stream: seq<Token>, len: Limit)
    ensures var g := Unbuffered(stream, len);
            && (g.cnt > 0 ==> g.cnt == |g.str| <= len && '\n' !in g.str[..g.cnt - 1]
                              && (g.str[g.cnt - 1] == '\n' || g.cnt == len))
            && (g.cnt <= 0 ==> '\n' !in g.str && |g.str| < len)
            && (g.cnt == 0 <==> g.cnt <= 0 && |g.str| < |stream| && stream[|g.str|].Closed?)
    decreases len
  {
    if stream != [] && stream[0].Byte? && stream[0].c != '\n' && len > 1 {
      CallIsExact(stream[1..], len - 1);
      var c, g := stream[0].c, Unbuffered(stream[1..], len - 1);
      if g.cnt > 0 { assert ([c] + g.str)[..g.cnt] == [c] + g.str[..g.cnt - 1]; }
    }
  }

  /** What has come before it, and what a call leaves: it has taken the bytes it hands out, and after
      those the pause, the end or the error that cut it short, whose errno it reports. */
  lemma {:induction false} CallTakesWhatItReports(stream: seq<Token>, len: Limit)
    ensures var g, n := Unbuffered(stream, len), |Unbuffered(stream, len).str|;
            && n <= |stream| && (forall i :: 0 <= i < n ==> stream[i] == Byte(g.str[i]))
            && (g.cnt > 0 ==> g.errno == 0 && g.rest == stream[n..])
            && (g.cnt == 0 ==> n < |stream| && stream[n] == Closed(g.errno) && g.rest == stream[n + 1..])
            && (g.cnt < 0 ==> g.cnt == -1 && g.errno == 0 &&
                              if n == |stream| then g.rest == [] else stream[n] == Pause && g.rest == stream[n + 1..])
    decreases len
  {
    if stream != [] && stream[0].Byte? && stream[0].c != '\n' && len > 1 {
      CallTakesWhatItReports(stream[1..], len - 1);
      var n := |Unbuffered(stream[1..], len - 1).str|;
      assert stream[1..][n..] == stream[n + 1..];
      assert n < |stream[1..]| ==> stream[1..][n + 1..] == stream[n + 2..];
    }
  }

  /** All the bytes that came. */
  function Received(script: seq<Attempt>): string {
    if script == [] then "" else (if script[0].Data? then script[0].bytes else "") + Received(script[1..])
  }

  lemma {:induction false} TextAdds(a: seq<Token>, b: seq<Token>)
    ensures Text(a + b) == Text(a) + Text(b)
  {
    if a == [] {
      assert a + b == b;
    } else {
      assert (a + b)[0] == a[0] && (a + b)[1..] == a[1..] + b;
      TextAdds(a[1..], b);
      TextOfTwo(if a[0].Byte? then [a[0].c] else "", Text(a[1..]), Text(b));
    }
  }

  lemma {:induction false} TextOfBytes(s: string)
    ensures Text(Bytes(s)) == s
  {
    if s != "" {
      assert Bytes(s)[1..] == Bytes(s[1..]);
      TextOfBytes(s[1..]);
    }
  }

  /** The text of the stream is what came, in order. */
  lemma {:induction false} StreamIsWhatCame(script: seq<Attempt>)
    ensures Text(Stream(script)) == Received(script)
  {
    if script != [] {
      TextAdds(Tokens(script[0]), Stream(script[1..]));
      if script[0].Data? { TextOfBytes(script[0].bytes); }
      StreamIsWhatCame(script[1..]);
    }
  }

  /** The calls of a run, with the limit of each. */
  function Run(stream: seq<Token>, lens: seq<Limit>): seq<Got>
    decreases |lens|
  {
    if lens == [] then [] else
      var g := Unbuffered(stream, lens[0]);
      [g] + Run(g.rest, lens[1..])
  }

  function HandedOut(calls: seq<Got>): string {
    if calls == [] then "" else calls[0].str + HandedOut(calls[1..])
  }

  /** Over a whole run, what was handed out and what is left make up the stream, in order. */
  lemma {:induction false} RunLosesNothing(stream: seq<Token>, lens: seq<Limit>)
    ensures var calls := Run(stream, lens);
            Text(stream) == HandedOut(calls) + Text(if calls == [] then stream else calls[|calls| - 1].rest)
    decreases |lens|
  {
    if lens != [] {
      var g := Unbuffered(stream, lens[0]);
      var later := Run(g.rest, lens[1..]);
      CallLosesNothing(stream, lens[0]);
      RunLosesNothing(g.rest, lens[1..]);
      assert ([g] + later)[1..] == later;
      var rest := Text(if later == [] then g.rest else later[|later| - 1].rest);
      TextOfTwo(g.str, HandedOut(later), rest);
    } else {
      assert Text(stream) == "" + Text(stream);
    }
  }
}
