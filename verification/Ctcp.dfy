/** The loops of ctcp.c that take CTCP messages out of a line and hand them to their handlers. */
module Ctcp {

  const DELIM: char := 1 as char
  /** IRCD_BUFFER_SIZE - 2 and BIG_BUFFER_SIZE. */
  const LINE := 510
  const BIG := 2048

  function Count(s: string): nat {
    if s == "" then 0 else (if s[0] == DELIM then 1 else 0) + Count(s[1..])
  }

  datatype Entry = Entry(name: string, inline: bool, noLimit: bool, tellUser: bool, hasReply: bool)

  /** Where ctcp_cmd has the two commands that are answered without delay. */
  const ACTION := 1
  const DCC := 2

  /** ctcp_cmd without its closing entry. */
  const COMMANDS := [
    Entry("UTC", true, true, false, true),
    Entry("ACTION", false, true, false, true),
    Entry("DCC", false, false, true, true),
    Entry("VERSION", false, false, true, false),
    Entry("CLIENTINFO", false, false, true, false),
    Entry("USERINFO", false, false, true, false),
    Entry("ERRMSG", false, false, true, false),
    Entry("FINGER", false, false, true, false),
    Entry("TIME", false, false, true, false),
    Entry("PING", false, false, true, true),
    Entry("ECHO", false, false, true, false),
    Entry("SOUND", false, false, false, false),
    Entry("TROUT", false, false, false, false)
  ]

  /** The line came as a PRIVMSG (do_ctcp) or as a NOTICE (do_notice_ctcp). */
  datatype Side = Query | Reply

  /** What the loop goes by: the command table; whether the sender is ignored; whether the target is
      a server mask or a channel we are not on; whether the last answer is too recent for another
      one; and the date that do_utc makes of an argument. */
  datatype Context = Context(table: seq<Entry>, ignored: bool, global: bool, hurried: bool, date: string -> string)

  /** A handler was called, or the message was given to the user's hooks. */
  datatype Event = Ran(command: string, argument: string) | Offered(command: string, argument: string)

  datatype Outcome = Outcome(events: seq<Event>, paste: string, allow: bool)

  /** What a CTCP leads to, given whether one may still run. */
  type Handler = (string, bool) -> Outcome

  datatype Result = Result(text: string, events: seq<Event>)

  /** What precedes the first delimiter, or the whole string (strchr). */
  function Before(s: string): (b: string)
    ensures Count(b) == 0 && b <= s && (|b| < |s| ==> s[|b|] == DELIM)
  {
    if s == "" || s[0] == DELIM then "" else
      var b := [s[0]] + Before(s[1..]);
      assert b[1..] == Before(s[1..]);
      b
  }

  /** Two strings with a delimiter between them. */
  function Sep(a: string, b: string): string {
    a + ([DELIM] + b)
  }

  function Space(s: string): (i: nat)
    ensures i <= |s| && ' ' !in s[..i] && (i < |s| ==> s[i] == ' ')
  {
    if s == "" || s[0] == ' ' then 0 else
      var i := Space(s[1..]);
      assert s[..i + 1] == [s[0]] + s[1..][..i];
      i + 1
  }

  function Command(ctcp: string): string {
    ctcp[..Space(ctcp)]
  }

  function Argument(ctcp: string): string {
    if Space(ctcp) < |ctcp| then ctcp[Space(ctcp) + 1..] else ""
  }

  /** The entry of the command, or the end of the table. */
  function Find(table: seq<Entry>, command: string): (i: nat)
    ensures i <= |table| && (i < |table| ==> table[i].name == command)
    ensures forall k :: 0 <= k < i ==> table[k].name != command
  {
    if table == [] || table[0].name == command then 0 else Find(table[1..], command) + 1
  }

  /** Another CTCP of the same line may run after this one. */
  predicate Unlimited(side: Side, table: seq<Entry>, command: string) {
    var i := Find(table, command);
    i < |table| && if side == Query then table[i].noLimit else table[i].hasReply && table[i].inline
  }

  /** do_utc: nothing for an empty argument. */
  function Date(ctx: Context, argument: string): string {
    if argument == "" then "" else ctx.date(argument)
  }

  /** What one CTCP leads to: what runs, what takes its place in the line, and whether a later
      one may run. The only reply handler that returns anything is the inline one. */
  function Handle(side: Side, ctx: Context, ctcp: string, allow: bool): Outcome {
    if !allow || ctx.ignored || ctx.global then Outcome([], "", false) else
      var command, argument := Command(ctcp), Argument(ctcp);
      var i := Find(ctx.table, command);
      var ran, offered := Ran(command, argument), Offered(command, argument);
      if side == Query && ctx.hurried && i != ACTION && i != DCC then Outcome([], "", false)
      else if i == |ctx.table| then Outcome([offered], "", false)
      else
        var entry := ctx.table[i];
        var paste := if entry.inline then Date(ctx, argument) else "";
        if side == Query then Outcome([ran] + if entry.tellUser then [offered] else [], paste, entry.noLimit)
        else if entry.hasReply && entry.inline then Outcome([ran], paste, true)
        else Outcome((if entry.hasReply then [ran] else []) + [offered], "", false)
  }

  /** Dates have no delimiters in them. */
  ghost predicate Dated(ctx: Context) {
    forall argument :: Count(ctx.date(argument)) == 0
  }

  /** What is pasted in has no delimiters. */
  ghost predicate Plain(h: Handler) {
    forall ctcp, allow :: Count(h(ctcp, allow).paste) == 0
  }

  function HandlerOf(side: Side, ctx: Context): (h: Handler)
    requires Dated(ctx)
    ensures Plain(h)
  {
    var h := (ctcp, allow) => Handle(side, ctx, ctcp, allow);
    assert Plain(h) by {
      forall ctcp, allow ensures Count(h(ctcp, allow).paste) == 0 { assert Count(ctx.date(Argument(ctcp))) == 0; }
    }
    h
  }

  function Cut(s: string): string {
    if |s| <= LINE then s else s[..LINE]
  }

  /** strmcat: a destination that is already too long still gets everything. */
  function StrMCat(dest: string, src: string, max: nat): string {
    if |dest| <= max < |dest| + |src| then dest + src[..max - |dest|] else dest + src
  }

  /** What does not fit is cut off the end, and nothing else. */
  lemma OnlyTheEndIsCut(dest: string, src: string, max: nat)
    ensures Cut(src) <= src && |Cut(src)| == if |src| <= LINE then |src| else LINE
    ensures var r := StrMCat(dest, src, max);
            dest <= r && r <= dest + src && |r| == if |dest| <= max < |dest| + |src| then max else |dest| + |src|
  {
  }

  lemma {:induction false} CountOfSum(a: string, b: string)
    ensures Count(a + b) == Count(a) + Count(b)
  {
    if a == "" {
      assert a + b == b;
    } else {
      assert (a + b)[1..] == a[1..] + b;
      CountOfSum(a[1..], b);
    }
  }

  lemma SepParts(a: string, b: string)
    requires Count(a) == 0
    ensures Before(Sep(a, b)) == a && Sep(a, b)[|a| + 1..] == b
    ensures Count(Sep(a, b)) == Count(b) + 1
  {
    var s := Sep(a, b);
    BeforeIs(s, a);
    CountOfSum(a, [DELIM] + b);
    assert ([DELIM] + b)[1..] == b;
  }

  lemma {:induction false} BeforeIs(s: string, a: string)
    requires Count(a) == 0 && a <= s && (|a| < |s| ==> s[|a|] == DELIM)
    ensures Before(s) == a
  {
    if a != "" {
      assert a == [a[0]] + a[1..];
      BeforeIs(s[1..], a[1..]);
    }
  }

  lemma CountOfPrefix(s: string, i: nat)
    requires i <= |s|
    ensures Count(s[..i]) <= Count(s)
  {
    CountOfSum(s[..i], s[i..]);
    assert s[..i] + s[i..] == s;
  }

  lemma CountOfStrMCat(dest: string, src: string, max: nat)
    ensures Count(StrMCat(dest, src, max)) <= Count(dest) + Count(src)
    ensures |dest| + |src| <= max ==> Count(StrMCat(dest, src, max)) == Count(dest) + Count(src)
  {
    CountOfSum(dest, src);
    if |dest| <= max < |dest| + |src| {
      CountOfSum(dest, src[..max - |dest|]);
      CountOfPrefix(src, max - |dest|);
    }
  }

  /** A line without a complete CTCP, or what is before, in and after the first one. */
  datatype Parts = Whole | Taken(before: string, ctcp: string, after: string)

  function Split(raw: string): Parts {
    var before := Before(raw);
    if |before| == |raw| then Whole else
      var rest := raw[|before| + 1..];
      var ctcp := Before(rest);
      if |ctcp| == |rest| then Whole else Taken(before, ctcp, rest[|ctcp| + 1..])
  }

  lemma {:induction false} CountFromBefore(s: string)
    ensures var i := |Before(s)|; Count(s) == if i < |s| then Count(s[i + 1..]) + 1 else 0
  {
    if s != "" && s[0] != DELIM {
      CountFromBefore(s[1..]);
      var i := |Before(s)|;
      assert i < |s| ==> s[1..][i..] == s[i + 1..];
    }
  }

  lemma SplitCounts(raw: string)
    ensures var p := Split(raw);
            if p == Whole then Count(raw) < 2
            else Count(p.before) == 0 && Count(raw) == Count(p.after) + 2
  {
    CountFromBefore(raw);
    var before := Before(raw);
    if |before| < |raw| { CountFromBefore(raw[|before| + 1..]); }
  }

  lemma SplitOfSep(before: string, rest: string)
    requires Count(before) == 0
    ensures Split(Sep(before, rest)) ==
            if |Before(rest)| == |rest| then Whole else Taken(before, Before(rest), rest[|Before(rest)| + 1..])
  {
    SepParts(before, rest);
  }

  /** The buffer before the next round, with the CTCP taken out. */
  function After(p: Parts, paste: string): string
    requires p.Taken?
  {
    StrMCat(StrMCat(p.before, paste, BIG), Cut(p.after), LINE)
  }

  /** A round takes two delimiters out of the buffer, or more if its end is cut off. */
  lemma RoundDropsTwo(buffer: string, paste: string)
    requires Split(buffer).Taken? && Count(paste) == 0
    ensures var p := Split(buffer);
            && Count(After(p, paste)) + 2 <= Count(buffer)
            && (|p.before| + |paste| + |p.after| <= LINE ==> Count(After(p, paste)) + 2 == Count(buffer))
  {
    var p := Split(buffer);
    SplitCounts(buffer);
    var head, tail := StrMCat(p.before, paste, BIG), Cut(p.after);
    CountOfStrMCat(p.before, paste, BIG);
    CountOfSum(p.before, paste);
    CountOfSum(paste, "");
    CountOfStrMCat(head, tail, LINE);
    CountOfPrefix(p.after, |tail|);
    assert p.after[..|p.after|] == p.after;
  }

  function Later(events: seq<Event>, r: Result): Result {
    Result(r.text, events + r.events)
  }

  lemma LaterAdds(a: seq<Event>, b: seq<Event>, r: Result)
    ensures Later(a, Later(b, r)) == Later(a + b, r)
  {
    assert a + (b + r.events) == a + b + r.events;
  }

  /** The rounds of the loop from a given buffer on. */
  function Rounds(h: Handler, buffer: string, allow: bool): Result
    requires Plain(h)
    decreases Count(buffer)
  {
    match Split(buffer)
    case Whole => Result(buffer, [])
    case Taken(before, ctcp, after) =>
      if ctcp == "" then Result(before, []) else
        var o := h(Cut(ctcp), allow);
        RoundDropsTwo(buffer, o.paste);
        Later(o.events, Rounds(h, After(Split(buffer), o.paste), o.allow))
  }

  lemma BeforeGoesOn(s: string, i: nat)
    requires i < |s| && s[i] != DELIM
    ensures |Before(s[i..])| == |Before(s[i + 1..])| + 1
  {
    assert s[i..][1..] == s[i + 1..];
  }

  lemma BeforeEnds(s: string, i: nat)
    requires i <= |s| && (i < |s| ==> s[i] == DELIM)
    ensures |Before(s[i..])| == 0
  {
  }

  /** strchr for the delimiter; the length of the string stands for NULL. */
  method StrChr(s: string) returns (i: nat)
    ensures i == |Before(s)|
  {
    i := 0;
    assert s[0..] == s;
    while i < |s| && s[i] != DELIM
      invariant i <= |s| && |Before(s)| == i + |Before(s[i..])|
    {
      BeforeGoesOn(s, i);
      i := i + 1;
    }
    BeforeEnds(s, i);
  }

  /** split_CTCP: the buffer is cut before a complete CTCP, and left alone if there is none. */
  method SplitCtcp(raw: string) returns (before: string, ctcp: string, after: string)
    ensures match Split(raw)
            case Whole => before == raw && ctcp == "" && after == ""
            case Taken(b, c, a) => before == b && ctcp == Cut(c) && after == Cut(a)
  {
    var start := StrChr(raw);
    if start == |raw| { return raw, "", ""; }
    var rest := raw[start + 1..];
    var end := StrChr(rest);
    if end == |rest| { return raw, "", ""; }
    return raw[..start], Cut(rest[..end]), Cut(rest[end + 1..]);
  }

  /** The loop that do_ctcp and do_notice_ctcp share. */
  method Extract(h: Handler, line: string, mayReply: bool) returns (buffer: string, events: seq<Event>)
    requires Plain(h)
    ensures Result(buffer, events) == Rounds(h, line, mayReply)
  {
    buffer, events := line, [];
    var allow := mayReply;
    while true
      invariant Rounds(h, line, mayReply) == Later(events, Rounds(h, buffer, allow))
      decreases Count(buffer)
    {
      ghost var p := Split(buffer);
      var before, ctcp, last := SplitCtcp(buffer);
      if ctcp == "" { return before, events; }
      var o := h(ctcp, allow);
      RoundDropsTwo(buffer, o.paste);
      LaterAdds(events, o.events, Rounds(h, After(p, o.paste), o.allow));
      events := events + o.events;
      allow := o.allow;
      buffer := StrMCat(before, o.paste, BIG);
      buffer := StrMCat(buffer, last, LINE);
    }
  }

  method CharCount(s: string) returns (x: nat)
    ensures x == Count(s)
  {
    x := 0;
    var place := 0;
    while place < |s|
      invariant place <= |s| && Count(s) == x + Count(s[place..])
    {
      if s[place] == DELIM { x := x + 1; }
      place := place + 1;
    }
  }

  /** A line with fewer than two delimiters comes back as it is; another goes through the loop. */
  function Parsed(h: Handler, str: string, line: string, allow: bool): Result
    requires Plain(h)
  {
    if Count(str) < 2 then Result(str, []) else Rounds(h, Cut(line), allow)
  }

  /** do_ctcp. The limit of four CTCPs that it first works out is overwritten before the loop. */
  method DoCtcp(ctx: Context, str: string) returns (text: string, events: seq<Event>)
    requires Dated(ctx)
    ensures Result(text, events) == Parsed(HandlerOf(Query, ctx), str, str, true)
  {
    var delims := CharCount(str);
    if delims < 2 { return str, []; }
    text, events := Extract(HandlerOf(Query, ctx), Cut(str), true);
  }

  /** do_notice_ctcp, which keeps to the limit; stripped is the line without its colours. */
  method DoNoticeCtcp(ctx: Context, str: string, stripped: string) returns (text: string, events: seq<Event>)
    requires Dated(ctx)
    ensures Result(text, events) == Parsed(HandlerOf(Reply, ctx), str, stripped, Count(str) <= 8)
  {
    var delims := CharCount(str);
    if delims < 2 { return str, []; }
    text, events := Extract(HandlerOf(Reply, ctx), Cut(stripped), delims <= 8);
  }

  // ----- The line as fields between delimiters

  predicate AreFields(fields: seq<string>) {
    fields != [] && forall i :: 0 <= i < |fields| ==> Count(fields[i]) == 0
  }

  function Join(fields: seq<string>): string
    requires fields != []
  {
    if |fields| == 1 then fields[0] else Sep(fields[0], Join(fields[1..]))
  }

  lemma {:induction false} EveryLineHasFields(line: string) returns (fields: seq<string>)
    ensures AreFields(fields) && Join(fields) == line
    ensures |fields| == Count(line) + 1
    decreases |line|
  {
    var before := Before(line);
    if |before| == |line| {
      assert before == line;
      fields := [line];
    } else {
      var after := line[|before| + 1..];
      var rest := EveryLineHasFields(after);
      SepParts(before, after);
      fields := [before] + rest;
      assert fields[1..] == rest && line == Sep(before, after);
    }
  }

  /** What a line of fields should come to: the even-numbered fields stay, the odd-numbered ones go
      to their handlers in order, with the dates pasted in. A last delimiter without a partner stays
      with what follows it; an empty CTCP ends the line. */
  function Reading(h: Handler, fields: seq<string>, allow: bool): Result
    requires fields != []
  {
    if |fields| < 3 then Result(Join(fields), [])
    else if fields[1] == "" then Result(fields[0], [])
    else
      var o := h(fields[1], allow);
      var rest := Reading(h, fields[2..], o.allow);
      Result(fields[0] + o.paste + rest.text, o.events + rest.events)
  }

  /** How much the dates add. */
  function Growth(h: Handler, fields: seq<string>, allow: bool): nat {
    if |fields| < 3 || fields[1] == "" then 0 else
      var o := h(fields[1], allow);
      |o.paste| + Growth(h, fields[2..], o.allow)
  }

  lemma Unchanged(a: string)
    ensures "" + a == a
  {
  }

  lemma TextMoves(a: string, b: string, c: string, d: string)
    ensures a + b + c + d == a + (b + c + d)
  {
  }

  lemma SepMoves(a: string, b: string, c: string)
    ensures a + Sep(b, c) == Sep(a + b, c)
  {
  }

  /** What the loop takes out of a joined line is its second field. */
  lemma SeeFields(done: string, fields: seq<string>)
    requires Count(done) == 0 && AreFields(fields)
    ensures var line := done + Join(fields);
            if |fields| < 3 then Split(line) == Whole
            else Split(line) == Taken(done + fields[0], fields[1], Join(fields[2..]))
  {
    var first := done + fields[0];
    CountOfSum(done, fields[0]);
    if |fields| == 1 {
      BeforeIs(first, first);
    } else {
      var rest := fields[1..];
      SepMoves(done, fields[0], Join(rest));
      SplitOfSep(first, Join(rest));
      if |fields| == 2 {
        BeforeIs(fields[1], fields[1]);
      } else {
        assert rest[1..] == fields[2..];
        SepParts(fields[1], Join(fields[2..]));
      }
    }
  }

  /** One round on a joined line. */
  lemma RoundTakesField(h: Handler, done: string, fields: seq<string>, allow: bool)
    requires Plain(h) && Count(done) == 0 && AreFields(fields) && |fields| >= 3 && fields[1] != ""
    requires |done| + |Join(fields)| + |h(fields[1], allow).paste| <= LINE
    ensures var o := h(fields[1], allow); var next := done + fields[0] + o.paste;
            && Count(next) == 0 && |next| + |Join(fields[2..])| + 2 <= |done| + |Join(fields)| + |o.paste|
            && Rounds(h, done + Join(fields), allow) == Later(o.events, Rounds(h, next + Join(fields[2..]), o.allow))
  {
    var line := done + Join(fields);
    SeeFields(done, fields);
    JoinIsLonger(fields);
    var p, o := Split(line), h(fields[1], allow);
    CountOfSum(done, fields[0]);
    CountOfSum(done + fields[0], o.paste);
    assert After(p, o.paste) == done + fields[0] + o.paste + Join(fields[2..]);
  }

  lemma JoinIsLonger(fields: seq<string>)
    requires |fields| >= 3
    ensures |Join(fields)| == |fields[0]| + |fields[1]| + 2 + |Join(fields[2..])|
  {
    assert fields[1..][0] == fields[1] && fields[1..][1..] == fields[2..];
  }

  /** The loop reads the line as its fields, as long as the line and the dates fit the buffer. */
  lemma {:induction false} LoopReadsFields(h: Handler, done: string, fields: seq<string>, allow: bool)
    requires Plain(h) && Count(done) == 0 && AreFields(fields)
    requires |done| + |Join(fields)| + Growth(h, fields, allow) <= LINE
    ensures Rounds(h, done + Join(fields), allow) ==
            Result(done + Reading(h, fields, allow).text, Reading(h, fields, allow).events)
    decreases |fields|
  {
    if |fields| >= 3 && fields[1] != "" {
      var o := h(fields[1], allow);
      var next := done + fields[0] + o.paste;
      RoundTakesField(h, done, fields, allow);
      LoopReadsFields(h, next, fields[2..], o.allow);
      var rest := Reading(h, fields[2..], o.allow);
      TextMoves(done, fields[0], o.paste, rest.text);
    } else {
      SeeFields(done, fields);
    }
  }

  lemma {:induction false} CountOfJoin(fields: seq<string>)
    requires AreFields(fields)
    ensures Count(Join(fields)) == |fields| - 1
  {
    if |fields| > 1 {
      SepParts(fields[0], Join(fields[1..]));
      CountOfJoin(fields[1..]);
    }
  }

  /** A line that fits the buffer comes back as the reading of its fields. */
  lemma LineIsRead(h: Handler, fields: seq<string>, allow: bool)
    requires Plain(h) && AreFields(fields)
    requires |Join(fields)| + Growth(h, fields, allow) <= LINE
    ensures Parsed(h, Join(fields), Join(fields), allow) == Reading(h, fields, allow)
  {
    CountOfJoin(fields);
    LoopReadsFields(h, "", fields, allow);
    Unchanged(Join(fields));
    Unchanged(Reading(h, fields, allow).text);
  }

  // ----- Which handlers run

  /** No unlimited command is announced to the user. */
  predicate UnlimitedAreQuiet(table: seq<Entry>) {
    forall i :: 0 <= i < |table| && table[i].noLimit ==> !table[i].tellUser
  }

  /** Whatever precedes another event is a handler call, and one without limit if a handler call
      follows: unlimited handlers, then at most one limited one, then at most one offer. */
  predicate InTurn(side: Side, table: seq<Entry>, events: seq<Event>) {
    forall i, j :: 0 <= i < j < |events| ==> MayPrecede(side, table, events[i], events[j])
  }

  predicate MayPrecede(side: Side, table: seq<Entry>, x: Event, y: Event) {
    x.Ran? && (y.Ran? ==> Unlimited(side, table, x.command))
  }

  /** One CTCP runs at most one handler; another may run only if that one had no limit. */
  predicate IsTurn(side: Side, table: seq<Entry>, o: Outcome) {
    && (o.allow ==> |o.events| == 1 && o.events[0].Ran? && Unlimited(side, table, o.events[0].command))
    && (|o.events| <= 1 || (|o.events| == 2 && o.events[0].Ran? && o.events[1].Offered?))
  }

  lemma HandleIsTurn(side: Side, ctx: Context, ctcp: string, allow: bool)
    requires side == Query ==> UnlimitedAreQuiet(ctx.table)
    ensures IsTurn(side, ctx.table, Handle(side, ctx, ctcp, allow))
  {
    var command, o := Command(ctcp), Handle(side, ctx, ctcp, allow);
    var i := Find(ctx.table, command);
    if o.allow {
      assert i < |ctx.table| && o.events == [Ran(command, Argument(ctcp))];
    }
  }

  lemma TurnsAdd(side: Side, table: seq<Entry>, o: Outcome, events: seq<Event>)
    requires IsTurn(side, table, o) && InTurn(side, table, events) && (o.allow || events == [])
    ensures InTurn(side, table, o.events + events)
  {
    var all := o.events + events;
    forall i, j | 0 <= i < j < |all| ensures MayPrecede(side, table, all[i], all[j]) {
      if o.allow {
        assert all[j] == events[j - 1] && (i > 0 ==> all[i] == events[i - 1]);
      } else {
        assert all == o.events;
      }
    }
  }

  lemma {:induction false} HandlersTakeTurns(side: Side, ctx: Context, buffer: string, allow: bool)
    requires Dated(ctx) && (side == Query ==> UnlimitedAreQuiet(ctx.table))
    ensures InTurn(side, ctx.table, Rounds(HandlerOf(side, ctx), buffer, allow).events)
    ensures !allow || ctx.ignored || ctx.global ==> Rounds(HandlerOf(side, ctx), buffer, allow).events == []
    decreases Count(buffer)
  {
    var p, h := Split(buffer), HandlerOf(side, ctx);
    if p.Taken? && p.ctcp != "" {
      var o := h(Cut(p.ctcp), allow);
      RoundDropsTwo(buffer, o.paste);
      var rest := Rounds(h, After(p, o.paste), o.allow);
      HandlersTakeTurns(side, ctx, After(p, o.paste), o.allow);
      HandleIsTurn(side, ctx, Cut(p.ctcp), allow);
      TurnsAdd(side, ctx.table, o, rest.events);
    }
  }

  lemma CommandFlags(i: nat)
    requires i < |COMMANDS|
    ensures COMMANDS[i].noLimit <==> i <= ACTION
    ensures COMMANDS[i].inline <==> i == 0
    ensures COMMANDS[i].noLimit ==> !COMMANDS[i].tellUser
    ensures i == 0 ==> COMMANDS[i].hasReply
    ensures COMMANDS[i].name == "UTC" <==> i == 0
    ensures COMMANDS[i].name == "ACTION" <==> i == ACTION
  {
  }

  lemma {:induction false} FindExists(table: seq<Entry>, k: nat)
    requires k < |table|
    ensures Find(table, table[k].name) <= k
  {
    if k > 0 { FindExists(table[1..], k - 1); }
  }

  /** The table of the program: UTC and ACTION are the unlimited queries, UTC the unlimited reply. */
  lemma UnlimitedCommands(command: string)
    ensures UnlimitedAreQuiet(COMMANDS)
    ensures Unlimited(Query, COMMANDS, command) <==> command == "UTC" || command == "ACTION"
    ensures Unlimited(Reply, COMMANDS, command) <==> command == "UTC"
  {
    var i := Find(COMMANDS, command);
    if i < |COMMANDS| { CommandFlags(i); }
    CommandFlags(0);
    CommandFlags(ACTION);
    FindExists(COMMANDS, 0);
    FindExists(COMMANDS, ACTION);
    forall k | 0 <= k < |COMMANDS| ensures COMMANDS[k].noLimit ==> !COMMANDS[k].tellUser { CommandFlags(k); }
  }

  // ----- What a handler is given

  lemma {:induction false} SpaceIs(s: string, c: string)
    requires ' ' !in c && c <= s && (|c| < |s| ==> s[|c|] == ' ')
    ensures Space(s) == |c|
  {
    if c != "" {
      assert s[0] == c[0] && c[1..] <= s[1..];
      SpaceIs(s[1..], c[1..]);
    }
  }

  /** The command is what precedes the first space, and the argument what follows it. */
  lemma CommandAndArgument(c: string, a: string)
    requires ' ' !in c
    ensures Command(c + " " + a) == c && Argument(c + " " + a) == a
    ensures Command(c) == c && Argument(c) == ""
  {
    SpaceIs(c + " " + a, c);
    SpaceIs(c, c);
  }

  /** The text of a CTCP for a command with an argument. */
  predicate Says(ctcp: string, c: string, a: string) {
    ' ' !in c && (ctcp == c + " " + a || (ctcp == c && a == ""))
  }

  predicate IsKnown(table: seq<Entry>, c: string) {
    exists k :: 0 <= k < |table| && table[k].name == c
  }

  /** On a query, the user hears of a command once it has run. */
  predicate Announced(c: string) {
    c != "UTC" && c != "ACTION" && c != "SOUND" && c != "TROUT"
  }

  /** Something runs on a reply. */
  predicate Replies(c: string) {
    c == "UTC" || c == "ACTION" || c == "DCC" || c == "PING"
  }

  /** What the table says of a command, by its name. */
  predicate Described(table: seq<Entry>, c: string) {
    && (!Announced(c) || Replies(c) ==> IsKnown(table, c))
    && forall i :: 0 <= i < |table| && table[i].name == c ==> EntryOf(table[i], i, c)
  }

  predicate EntryOf(e: Entry, i: nat, c: string) {
    && (e.inline <==> c == "UTC") && (e.tellUser <==> Announced(c)) && (e.hasReply <==> Replies(c))
    && (i == ACTION <==> c == "ACTION") && (i == DCC <==> c == "DCC")
  }

  lemma FlagsByName(i: nat)
    requires i < |COMMANDS|
    ensures EntryOf(COMMANDS[i], i, COMMANDS[i].name)
  {
  }

  lemma NamesAreKnown(c: string)
    requires !Announced(c) || Replies(c)
    ensures IsKnown(COMMANDS, c)
  {
    assert COMMANDS[0].name == "UTC" && COMMANDS[ACTION].name == "ACTION" && COMMANDS[DCC].name == "DCC";
    assert COMMANDS[9].name == "PING" && COMMANDS[11].name == "SOUND" && COMMANDS[12].name == "TROUT";
  }

  lemma CommandsAreDescribed(c: string)
    ensures Described(COMMANDS, c)
  {
    if !Announced(c) || Replies(c) { NamesAreKnown(c); }
    forall i | 0 <= i < |COMMANDS| && COMMANDS[i].name == c ensures EntryOf(COMMANDS[i], i, c) { FlagsByName(i); }
  }

  lemma FindIsKnown(table: seq<Entry>, c: string)
    ensures Find(table, c) < |table| <==> IsKnown(table, c)
  {
    if k :| 0 <= k < |table| && table[k].name == c { FindExists(table, k); }
  }

  /** What one CTCP leads to, by the name of its command: on a query every command there is runs, with
      just its argument, and most are announced; on a reply four run, and all but UTC are announced.
      Only UTC leaves something in the line, the date of its argument. */
  lemma HandleIsExact(side: Side, ctx: Context, ctcp: string, c: string, a: string)
    requires Described(ctx.table, c) && !ctx.ignored && !ctx.global && Says(ctcp, c, a)
    requires side == Query && ctx.hurried ==> c == "ACTION" || c == "DCC"
    ensures var o := Handle(side, ctx, ctcp, true);
            && o.paste == (if c == "UTC" && a != "" then ctx.date(a) else "")
            && o.events == (if IsKnown(ctx.table, c) && (side == Query || Replies(c)) then [Ran(c, a)] else [])
                         + (if if side == Query then Announced(c) else c != "UTC" then [Offered(c, a)] else [])
  {
    CommandAndArgument(c, a);
    FindIsKnown(ctx.table, c);
    if IsKnown(ctx.table, c) { assert EntryOf(ctx.table[Find(ctx.table, c)], Find(ctx.table, c), c); }
  }

  /** Nothing runs and nothing is announced for a hurried query of another command. */
  lemma HurriedIsSilent(ctx: Context, ctcp: string, c: string, a: string)
    requires Described(ctx.table, c) && ctx.hurried && Says(ctcp, c, a) && c != "ACTION" && c != "DCC"
    requires |ctx.table| > DCC
    ensures Handle(Query, ctx, ctcp, true) == Outcome([], "", false)
  {
    CommandAndArgument(c, a);
    var i := Find(ctx.table, c);
    if i < |ctx.table| { assert EntryOf(ctx.table[i], i, c); }
  }

  /** A line with one CTCP runs exactly its command with exactly its argument, as a query or a reply. */
  lemma OneCtcpIsRead(side: Side, ctx: Context, before: string, ctcp: string, after: string, c: string, a: string)
    requires Dated(ctx) && ctx.table == COMMANDS && !ctx.ignored && !ctx.global && Says(ctcp, c, a) && ctcp != ""
    requires side == Query && ctx.hurried ==> c == "ACTION" || c == "DCC"
    requires AreFields([before, ctcp, after])
    requires |Sep(before, Sep(ctcp, after))| + |ctx.date(a)| <= LINE
    ensures var line := Sep(before, Sep(ctcp, after));
            var r := Parsed(HandlerOf(side, ctx), line, line, side == Query || Count(line) <= 8);
            && r.text == before + (if c == "UTC" && a != "" then ctx.date(a) else "") + after
            && r.events == (if IsKnown(COMMANDS, c) && (side == Query || Replies(c)) then [Ran(c, a)] else [])
                         + (if if side == Query then Announced(c) else c != "UTC" then [Offered(c, a)] else [])
  {
    var fields, h := [before, ctcp, after], HandlerOf(side, ctx);
    CommandsAreDescribed(c);
    HandleIsExact(side, ctx, ctcp, c, a);
    ThreeFields(h, before, ctcp, after);
    CountOfJoin(fields);
    LineIsRead(h, fields, true);
  }

  lemma ThreeFields(h: Handler, before: string, ctcp: string, after: string)
    requires ctcp != ""
    ensures var fields, o := [before, ctcp, after], h(ctcp, true);
            && Join(fields) == Sep(before, Sep(ctcp, after))
            && Growth(h, fields, true) == |o.paste|
            && Reading(h, fields, true) == Result(before + o.paste + after, o.events)
  {
    var fields := [before, ctcp, after];
    assert fields[1..] == [ctcp, after] && fields[1..][1..] == [after] && fields[2..] == [after];
    assert h(ctcp, true).events + [] == h(ctcp, true).events;
    assert Reading(h, [after], h(ctcp, true).allow) == Result(after, []);
    assert Growth(h, [after], h(ctcp, true).allow) == 0;
    assert Join(fields[1..]) == Sep(ctcp, after);
  }

  // ----- The limit of four

  /** How many handlers were called. */
  function Calls(events: seq<Event>): nat {
    if events == [] then 0 else (if events[0].Ran? then 1 else 0) + Calls(events[1..])
  }

  lemma {:induction false} CallsAdd(a: seq<Event>, b: seq<Event>)
    ensures Calls(a + b) == Calls(a) + Calls(b)
  {
    if a == [] {
      assert a + b == b;
    } else {
      assert (a + b)[1..] == a[1..] + b;
      CallsAdd(a[1..], b);
    }
  }

  /** The command has a handler that a query may call now. */
  predicate Callable(ctx: Context, command: string) {
    var i := Find(ctx.table, command);
    i < |ctx.table| && (ctx.hurried ==> i == ACTION || i == DCC)
  }

  /** The line begins with n CTCPs for unlimited handlers and one more for any handler. */
  predicate Many(ctx: Context, fields: seq<string>, n: nat) {
    && |fields| >= 3 && fields[1] != "" && Callable(ctx, Command(fields[1]))
    && (n > 0 ==> Unlimited(Query, ctx.table, Command(fields[1])) && Many(ctx, fields[2..], n - 1))
  }

  /** What one CTCP of a query comes to: a call if it can be called, and another may follow only then. */
  lemma HandleCalls(ctx: Context, ctcp: string)
    requires !ctx.ignored && !ctx.global
    ensures var o := Handle(Query, ctx, ctcp, true);
            && Calls(o.events) == (if Callable(ctx, Command(ctcp)) then 1 else 0)
            && (o.allow <==> Callable(ctx, Command(ctcp)) && Unlimited(Query, ctx.table, Command(ctcp)))
  {
    var command, argument := Command(ctcp), Argument(ctcp);
    var ran, offered := Ran(command, argument), Offered(command, argument);
    CallsAdd([ran], [offered]);
    assert [ran] + [] == [ran] && Calls([ran]) == 1 && Calls([offered]) == 0;
  }

  lemma {:induction false} NothingRunsAnyMore(h: Handler, fields: seq<string>)
    requires fields != [] && forall ctcp :: h(ctcp, false).events == [] && !h(ctcp, false).allow
    ensures Reading(h, fields, false).events == []
    decreases |fields|
  {
    if |fields| >= 3 && fields[1] != "" { NothingRunsAnyMore(h, fields[2..]); }
  }

  lemma {:induction false} CallsOfReading(ctx: Context, fields: seq<string>, n: nat)
    requires Dated(ctx) && !ctx.ignored && !ctx.global && fields != []
    ensures Calls(Reading(HandlerOf(Query, ctx), fields, true).events) > n <==> Many(ctx, fields, n)
    decreases |fields|
  {
    if |fields| >= 3 && fields[1] != "" {
      var h, ctcp := HandlerOf(Query, ctx), fields[1];
      var o := h(ctcp, true);
      var rest := Reading(h, fields[2..], o.allow).events;
      HandleCalls(ctx, ctcp);
      CallsAdd(o.events, rest);
      if !o.allow {
        NothingRunsAnyMore(h, fields[2..]);
      } else if n > 0 {
        CallsOfReading(ctx, fields[2..], n - 1);
      }
    }
  }

  /** A query calls more than n handlers exactly when the line begins with that many CTCPs, all but
      the last of them unlimited, and the sender is not ignored and the target not global. With n = 4
      this is when it goes beyond the limit. */
  lemma QueryCallsMoreThan(ctx: Context, fields: seq<string>, n: nat)
    requires Dated(ctx) && AreFields(fields)
    requires |Join(fields)| + Growth(HandlerOf(Query, ctx), fields, true) <= LINE
    ensures Calls(Parsed(HandlerOf(Query, ctx), Join(fields), Join(fields), true).events) > n <==>
            !ctx.ignored && !ctx.global && Many(ctx, fields, n)
  {
    var h := HandlerOf(Query, ctx);
    LineIsRead(h, fields, true);
    if ctx.ignored || ctx.global {
      HandlersTakeNone(ctx, Join(fields));
    } else {
      CallsOfReading(ctx, fields, n);
    }
  }

  lemma HandlersTakeNone(ctx: Context, str: string)
    requires Dated(ctx) && (ctx.ignored || ctx.global)
    ensures Parsed(HandlerOf(Query, ctx), str, str, true).events == []
  {
    var h, p := HandlerOf(Query, ctx), Split(Cut(str));
    if Count(str) >= 2 && p.Taken? && p.ctcp != "" {
      RoundDropsTwo(Cut(str), h(Cut(p.ctcp), true).paste);
      NoRoundRuns(h, After(p, h(Cut(p.ctcp), true).paste));
    }
  }

  lemma {:induction false} NoRoundRuns(h: Handler, buffer: string)
    requires Plain(h) && forall ctcp :: h(ctcp, false).events == [] && !h(ctcp, false).allow
    ensures Rounds(h, buffer, false).events == []
    decreases Count(buffer)
  {
    var p := Split(buffer);
    if p.Taken? && p.ctcp != "" {
      var o := h(Cut(p.ctcp), false);
      RoundDropsTwo(buffer, o.paste);
      NoRoundRuns(h, After(p, o.paste));
    }
  }

  /** A query of more than four CTCPs is silenced, as the limit would have it, exactly when it has none
      to begin with, or nobody listens to it, or its first one comes too soon after the last answer. */
  lemma QueryKeepsToLimit(ctx: Context, str: string)
    requires Dated(ctx) && Count(str) > 8
    ensures Parsed(HandlerOf(Query, ctx), str, str, true).events == [] <==>
            var p := Split(Cut(str));
            p == Whole || p.ctcp == "" || ctx.ignored || ctx.global ||
            (ctx.hurried && var i := Find(ctx.table, Command(Cut(p.ctcp))); i != ACTION && i != DCC)
  {
    var h, p := HandlerOf(Query, ctx), Split(Cut(str));
    if p.Taken? && p.ctcp != "" {
      var o := h(Cut(p.ctcp), true);
      RoundDropsTwo(Cut(str), o.paste);
      if !o.allow { NoRoundRuns(h, After(p, o.paste)); }
    }
  }

  /** n UTC requests without an argument, and nothing else. */
  function UtcFields(n: nat): (fields: seq<string>)
    ensures |fields| == 2 * n + 1
  {
    if n == 0 then [""] else ["", "UTC"] + UtcFields(n - 1)
  }

  lemma {:induction false} UtcLine(n: nat)
    ensures AreFields(UtcFields(n)) && |Join(UtcFields(n))| == 5 * n
  {
    if n > 0 {
      var fields, rest := UtcFields(n), UtcFields(n - 1);
      UtcLine(n - 1);
      assert fields[2..] == rest;
      forall i | 0 <= i < |fields| ensures Count(fields[i]) == 0 { if i >= 2 { assert fields[i] == rest[i - 2]; } }
      JoinIsLonger(fields);
    }
  }

  lemma UtcRuns(side: Side, ctx: Context)
    requires ctx.table == COMMANDS && !ctx.ignored && !ctx.global && (side == Query ==> !ctx.hurried)
    ensures Handle(side, ctx, "UTC", true) == Outcome([Ran("UTC", "")], "", true)
  {
    CommandFlags(0);
    FindExists(COMMANDS, 0);
    assert Space("UTC") == 3 by { assert "UTC"[0] != ' ' && "UTC"[1] != ' ' && "UTC"[2] != ' '; }
    assert Command("UTC") == "UTC";
  }

  lemma {:induction false} UtcsAreRead(side: Side, ctx: Context, n: nat)
    requires Dated(ctx) && ctx.table == COMMANDS && !ctx.ignored && !ctx.global && (side == Query ==> !ctx.hurried)
    ensures Reading(HandlerOf(side, ctx), UtcFields(n), true) == Result("", seq(n, _ => Ran("UTC", "")))
    ensures Growth(HandlerOf(side, ctx), UtcFields(n), true) == 0
  {
    if n > 0 {
      UtcRuns(side, ctx);
      UtcsAreRead(side, ctx, n - 1);
      assert UtcFields(n)[2..] == UtcFields(n - 1);
      assert seq(n, _ => Ran("UTC", "")) == [Ran("UTC", "")] + seq(n - 1, _ => Ran("UTC", ""));
    }
  }

  /** The line that shows it: any number of UTC requests that fit all run as a query; as a reply they
      run only up to four. */
  lemma QueriesHaveNoLimit(ctx: Context, n: nat)
    requires Dated(ctx) && ctx.table == COMMANDS && !ctx.ignored && !ctx.global && !ctx.hurried && 5 * n <= LINE
    ensures var line := Join(UtcFields(n)); var all := seq(n, _ => Ran("UTC", ""));
            && Parsed(HandlerOf(Query, ctx), line, line, true).events == all
            && Parsed(HandlerOf(Reply, ctx), line, line, Count(line) <= 8).events == if n <= 4 then all else []
  {
    var fields := UtcFields(n);
    UtcLine(n);
    CountOfJoin(fields);
    UtcsAreRead(Query, ctx, n);
    LineIsRead(HandlerOf(Query, ctx), fields, true);
    if n <= 4 {
      UtcsAreRead(Reply, ctx, n);
      LineIsRead(HandlerOf(Reply, ctx), fields, true);
    } else {
      HandlersTakeTurns(Reply, ctx, Cut(Join(fields)), false);
    }
  }
}
