/** Channel modes of names.c (RFC 1459, section 4.2.3.1): the printer recreate_mode and the parser
    decifer_mode. */
module Modes {
  import opened Bits
  import opened Ircaux

  /** mode_str: the letter of bit 0, of bit 1, and so on. */
  const MODE_STR := "iklmnpsta"

  const MODE_INVITE := 0x0001
  const MODE_KEY := 0x0002
  const MODE_LIMIT := 0x0004
  const MODE_MODERATED := 0x0008
  const MODE_MSGS := 0x0010
  const MODE_PRIVATE := 0x0020
  const MODE_SECRET := 0x0040
  const MODE_TOPIC := 0x0080
  const MODE_ANON := 0x0100

  /** A bit of a mask, for a value that is a power of two or zero. */
  predicate HasBit(mode: nat, value: nat) {
    value > 0 && mode / value % 2 == 1
  }

  function SetBit(mode: nat, value: nat): nat {
    if HasBit(mode, value) then mode else mode + value
  }

  function ClearBit(mode: nat, value: nat): nat {
    if HasBit(mode, value) && value <= mode then mode - value else mode
  }

  // ----- decimal numbers

  function Decimal(n: nat): (s: string)
    ensures s != "" && (n > 0 ==> s[0] != '0') && forall i :: 0 <= i < |s| ==> '0' <= s[i] <= '9'
  {
    (if n < 10 then "" else Decimal(n / 10)) + ['0' + (n % 10) as char]
  }

  /** sprintf's %d. */
  function Number(n: int): string {
    if n < 0 then "-" + Decimal(-n) else Decimal(n)
  }

  /** The value of the digits that start a string, after `acc`. */
  function Digits(s: string, acc: int): int {
    if s != "" && '0' <= s[0] <= '9' then Digits(s[1..], 10 * acc + (s[0] - '0') as int) else acc
  }

  /** atoi on an argument without leading blanks. */
  function Atoi(s: string): int {
    if s != "" && s[0] == '-' then -Digits(s[1..], 0)
    else if s != "" && s[0] == '+' then Digits(s[1..], 0)
    else Digits(s, 0)
  }

  predicate AllDigits(s: string) {
    forall i :: 0 <= i < |s| ==> '0' <= s[i] <= '9'
  }

  lemma {:induction false} DigitsAppend(s: string, c: char, acc: int)
    requires AllDigits(s) && '0' <= c <= '9'
    ensures Digits(s + [c], acc) == 10 * Digits(s, acc) + (c - '0') as int
  {
    if s == "" {
      assert s + [c] == [c] && [c][1..] == "";
    } else {
      assert (s + [c])[1..] == s[1..] + [c];
      DigitsAppend(s[1..], c, 10 * acc + (s[0] - '0') as int);
    }
  }

  lemma {:induction false} DigitsOfDecimal(n: nat)
    ensures Digits(Decimal(n), 0) == n
  {
    var c := '0' + (n % 10) as char;
    if n < 10 {
      DigitsAppend("", c, 0);
    } else {
      DigitsOfDecimal(n / 10);
      DigitsAppend(Decimal(n / 10), c, 0);
    }
  }

  lemma NumberReadsBack(n: nat)
    requires n > 0
    ensures Atoi(Number(n)) == n && ' ' !in Number(n) && Number(n) != "" && Number(n)[0] != '0'
  {
    DigitsOfDecimal(n);
  }

  lemma {:induction false} DigitsStop(s: string, tail: string, acc: int)
    requires AllDigits(s) && (tail == "" || !('0' <= tail[0] <= '9'))
    ensures Digits(s + tail, acc) == Digits(s, acc)
  {
    if s == "" {
      assert s + tail == tail;
    } else {
      assert (s + tail)[1..] == s[1..] + tail;
      DigitsStop(s[1..], tail, 10 * acc + (s[0] - '0') as int);
    }
  }

  /** A number is read up to the first character that is no digit, with its sign if it has one. */
  lemma AtoiReadsTheNumber(n: nat, tail: string)
    requires tail == "" || !('0' <= tail[0] <= '9')
    ensures Atoi(Decimal(n) + tail) == n && Atoi("+" + (Decimal(n) + tail)) == n && Atoi("-" + (Decimal(n) + tail)) == 0 - n
    ensures Atoi(Number(n)) == n && Atoi(Number(0 - n)) == 0 - n
  {
    var s := Decimal(n) + tail;
    DigitsOfDecimal(n);
    DigitsStop(Decimal(n), tail, 0);
    assert ("+" + s)[1..] == s && ("-" + s)[1..] == s;
    assert ("-" + Decimal(n))[1..] == Decimal(n);
  }

  // ----- the channel and the printer

  class Channel {
    var mode: nat
    var key: Option<string>
    var limit: int
    var i_mode: nat
    var s_mode: Option<string>

    /** recreate_mode: the letters of the bits, then the key and the limit. */
    method RecreateMode() returns (s: Option<string>)
      requires mode < 512
      modifies this`i_mode, this`s_mode
      ensures i_mode == mode
      ensures if mode == 0 then s == None && s_mode == old(s_mode)
              else s_mode == s == Some(Printed(mode, key, limit))
    {
      i_mode := mode;
      if mode == 0 { return None; }
      var buffer := PrintLetters(mode);
      assert buffer + "" == buffer;
      if key.Some? && key.value != "" { buffer := buffer + (" " + key.value); }
      assert buffer + "" == buffer;
      if limit != 0 { buffer := buffer + (" " + Number(limit)); }
      s_mode := Some(buffer);
      s := s_mode;
    }

    /** One turn of decifer_mode's loop. */
    method DeciferLetter(c: char, add0: bool, value0: nat, limitArg0: string, limitSet0: bool, limitReset0: bool,
                         rest0: string, events0: seq<Event>)
      returns (add: bool, value: nat, limitArg: string, limitSet: bool, limitReset: bool,
               rest: string, events: seq<Event>)
      modifies this`mode, this`key
      ensures Reading(mode, key, add, value, limitArg, limitSet, limitReset, rest, events) ==
              ReadLetter(Reading(old(mode), old(key), add0, value0, limitArg0, limitSet0, limitReset0, rest0, events0), c)
    {
      add, value, limitArg, limitSet, limitReset := add0, value0, limitArg0, limitSet0, limitReset0;
      rest, events := rest0, events0;
      var arg: Option<string>;
      match c {
        case '+' => add, value := true, 0;
        case '-' => add, value := false, 0;
        case 'l' =>
          value := MODE_LIMIT;
          if add {
            limitSet := true;
            arg, rest := NextArg(rest);
            limitArg := if arg == None then "" else arg.value;
            if limitArg != "" && limitArg[0] == '0' { limitReset, limitSet, add := true, false, false; }
          } else {
            limitReset := true;
          }
        case 'k' =>
          value := MODE_KEY;
          arg, rest := NextArg(rest);
          key := if add then arg else None;
        case 'o' | 'v' | 'b' =>
          arg, rest := NextArg(rest);
          if arg != None { events := events + [Event(c, add, arg.value)]; }
        case _ => if PlainValue(c) != 0 { value := PlainValue(c); }
      }
      mode := if add then SetBit(mode, value) else ClearBit(mode, value);
    }

    /** update_channel_mode, with decifer_mode's loop. */
    method UpdateMode(text: string) returns (events: seq<Event>)
      modifies this`mode, this`key, this`limit
      ensures (mode, key, limit, events) == Update(old(mode), old(key), old(limit), text)
    {
      events := [];
      var first, rest := NextArg(text);
      if first == None { return; }
      var letters := first.value;
      ghost var goal := ReadLetters(Reading(mode, key, false, 0, "", false, false, rest, []), letters);
      var i, add, value: nat := 0, false, 0;
      var limitArg, limitSet, limitReset := "", false, false;
      while i < |letters|
        invariant i <= |letters| && limit == old(limit)
        invariant goal == ReadLetters(Reading(mode, key, add, value, limitArg, limitSet, limitReset, rest, events), letters[i..])
        decreases |letters| - i
      {
        ghost var left := letters[i..];
        assert left[0] == letters[i] && left[1..] == letters[i + 1..];
        add, value, limitArg, limitSet, limitReset, rest, events :=
          DeciferLetter(letters[i], add, value, limitArg, limitSet, limitReset, rest, events);
        i := i + 1;
      }
      assert letters[i..] == "";
      var result := if limitSet then Atoi(limitArg) else if limitReset then 0 else -1;
      if result != -1 { limit := result; }
    }
  }

  /** The letters of the bits of `mode`, the lowest of which is bit `pos`. */
  function Letters(mode: nat, pos: nat): string
    requires pos <= 9 && mode < Power(9 - pos)
    decreases mode
  {
    if mode == 0 then "" else (if mode % 2 == 1 then [MODE_STR[pos]] else "") + Letters(mode / 2, pos + 1)
  }

  lemma LettersStep(mode: nat, pos: nat)
    requires pos < 9 && mode < Power(9 - pos)
    ensures Letters(mode, pos) == (if mode % 2 == 1 then [MODE_STR[pos]] else "") + Letters(mode / 2, pos + 1)
  {
  }

  lemma Regroup(a: string, b: string, c: string)
    ensures a + (b + c) == a + b + c && a + "" == a
  {
  }

  lemma PrintStep(buffer: string, rest: nat, pos: nat)
    requires pos <= 9 && 0 < rest < Power(9 - pos)
    ensures pos < 9 && rest / 2 < Power(9 - (pos + 1))
    ensures buffer + Letters(rest, pos) ==
            (if rest % 2 == 1 then buffer + [MODE_STR[pos]] else buffer) + Letters(rest / 2, pos + 1)
  {
    LettersStep(rest, pos);
    Regroup(buffer, if rest % 2 == 1 then [MODE_STR[pos]] else "", Letters(rest / 2, pos + 1));
  }

  lemma Powers()
    ensures Power(9) == 512 && Power(8) == 256 && Power(7) == 128 && Power(6) == 64
  {
  }

  method PrintLetters(mode: nat) returns (buffer: string)
    requires mode < 512
    ensures Power(9) == 512 && buffer == Letters(mode, 0)
  {
    Powers();
    buffer := "";
    var rest: nat, pos: nat := mode, 0;
    while rest != 0
      invariant pos <= 9 && rest < Power(9 - pos) && buffer + Letters(rest, pos) == Letters(mode, 0)
      decreases rest
    {
      PrintStep(buffer, rest, pos);
      if rest % 2 == 1 { buffer := buffer + [MODE_STR[pos]]; }
      rest, pos := rest / 2, pos + 1;
    }
  }

  function Printed(mode: nat, key: Option<string>, limit: int): string
    requires mode < 512
  {
    assert Power(9) == 512;
    Letters(mode, 0) + (if key.Some? && key.value != "" then " " + key.value else "")
    + (if limit != 0 then " " + Number(limit) else "")
  }

  // ----- the parser

  /** What a mode change does besides mode, key and limit: an operator, voice or ban change. */
  datatype Event = Event(letter: char, add: bool, person: string)

  /** decifer_mode's variables while it reads the letters. */
  datatype Reading = Reading(mode: nat, key: Option<string>, add: bool, value: nat, limit: string,
                             limitSet: bool, limitReset: bool, rest: string, events: seq<Event>)

  /** The bit of a letter without an argument, 0 for any other. */
  function PlainValue(c: char): nat {
    match c
    case 'p' => MODE_PRIVATE
    case 'a' => MODE_ANON
    case 't' => MODE_TOPIC
    case 'i' => MODE_INVITE
    case 'n' => MODE_MSGS
    case 's' => MODE_SECRET
    case 'm' => MODE_MODERATED
    case _ => 0
  }

  /** The switch on one letter. */
  function Case(r: Reading, c: char): Reading {
    var (arg, rest) := Arg(r.rest);
    if c == '+' then r.(add := true, value := 0)
    else if c == '-' then r.(add := false, value := 0)
    else if c == 'l' then
      if !r.add then r.(value := MODE_LIMIT, limitReset := true)
      else if arg == None then r.(value := MODE_LIMIT, limitSet := true, limit := "", rest := rest)
      else if arg.value != "" && arg.value[0] == '0' then
        r.(value := MODE_LIMIT, limitSet := false, limitReset := true, add := false, limit := arg.value, rest := rest)
      else r.(value := MODE_LIMIT, limitSet := true, limit := arg.value, rest := rest)
    else if c == 'k' then r.(value := MODE_KEY, key := if r.add then arg else None, rest := rest)
    else if c == 'o' || c == 'v' || c == 'b' then
      if arg == None then r.(rest := rest) else r.(rest := rest, events := r.events + [Event(c, r.add, arg.value)])
    else if PlainValue(c) != 0 then r.(value := PlainValue(c))
    else r
  }

  /** One letter: its case, then the value now in force is set or cleared. */
  function ReadLetter(r: Reading, c: char): Reading {
    var r' := Case(r, c);
    r'.(mode := if r'.add then SetBit(r'.mode, r'.value) else ClearBit(r'.mode, r'.value))
  }

  function ReadLetters(r: Reading, letters: string): Reading
    decreases |letters|
  {
    if letters == "" then r else ReadLetters(ReadLetter(r, letters[0]), letters[1..])
  }

  /** update_channel_mode on a mode string: the new mode, key and limit, and the other effects. */
  function Update(mode: nat, key: Option<string>, limit: int, text: string): (nat, Option<string>, int, seq<Event>) {
    var (letters, rest) := Arg(text);
    if letters == None then (mode, key, limit, [])
    else
      var r := ReadLetters(Reading(mode, key, false, 0, "", false, false, rest, []), letters.value);
      var value := if r.limitSet then Atoi(r.limit) else if r.limitReset then 0 else -1;
      (r.mode, r.key, if value != -1 then value else limit, r.events)
  }

  // ----- the round trip

  lemma {:induction false} ReadSplit(r: Reading, a: string, b: string)
    ensures ReadLetters(r, a + b) == ReadLetters(ReadLetters(r, a), b)
    decreases |a|
  {
    if a == "" {
      assert a + b == b;
    } else {
      assert (a + b)[0] == a[0] && (a + b)[1..] == a[1..] + b;
      ReadSplit(ReadLetter(r, a[0]), a[1..], b);
    }
  }

  /** A letter without an argument adds its bit. */
  lemma ReadPlain(r: Reading, c: char)
    requires r.add && PlainValue(c) != 0 && r.mode < PlainValue(c)
    ensures ReadLetter(r, c) == r.(mode := r.mode + PlainValue(c), value := PlainValue(c))
  {
  }

  /** The bits of `mode`, the lowest of which is bit `pos`, as a number. */
  function Weight(mode: nat, pos: nat): nat {
    if mode == 0 then 0 else (if mode % 2 == 1 then Power(pos) else 0) + Weight(mode / 2, pos + 1)
  }

  lemma WeightStep(mode: nat, pos: nat)
    requires mode > 0
    ensures Weight(mode, pos) == (if mode % 2 == 1 then Power(pos) else 0) + Weight(mode / 2, pos + 1)
  {
  }

  lemma {:induction false} WeightIs(mode: nat, pos: nat)
    ensures Weight(mode, pos) == mode * Power(pos)
  {
    if mode > 0 {
      WeightIs(mode / 2, pos + 1);
      HalfTimes(mode, Power(pos));
    }
  }

  lemma ReadNext(r: Reading, c: char, tail: string)
    ensures ReadLetters(r, [c] + tail) == ReadLetters(ReadLetter(r, c), tail)
  {
    assert ([c] + tail)[0] == c && ([c] + tail)[1..] == tail;
  }

  lemma ReadHighest(r: Reading, mode: nat, pos: nat) returns (r': Reading)
    requires r.add && 3 <= pos <= 9 && 0 < mode < Power(9 - pos) && r.mode < Power(pos)
    ensures pos < 9 && mode / 2 < Power(9 - (pos + 1)) && r'.mode < Power(pos + 1)
    ensures ReadLetters(r, Letters(mode, pos)) == ReadLetters(r', Letters(mode / 2, pos + 1))
    ensures r' == r.(mode := r.mode + if mode % 2 == 1 then Power(pos) else 0, value := r'.value)
  {
    var tail := Letters(mode / 2, pos + 1);
    LettersStep(mode, pos);
    HighValue(pos);
    r' := r;
    if mode % 2 == 1 {
      ReadPlain(r, MODE_STR[pos]);
      ReadNext(r, MODE_STR[pos], tail);
      r' := ReadLetter(r, MODE_STR[pos]);
    } else {
      assert "" + tail == tail;
    }
  }

  /** What the letters from 'm' on leave behind. */
  lemma {:induction false} ReadHigh(r: Reading, mode: nat, pos: nat) returns (value: nat)
    requires r.add && 3 <= pos <= 9 && mode < Power(9 - pos) && r.mode < Power(pos)
    ensures ReadLetters(r, Letters(mode, pos)) == r.(mode := r.mode + Weight(mode, pos), value := value)
    decreases mode
  {
    if mode == 0 {
      ReadOne(r, 'm');
      value := r.value;
    } else {
      var r1 := ReadHighest(r, mode, pos);
      value := ReadHigh(r1, mode / 2, pos + 1);
      WeightStep(mode, pos);
    }
  }

  lemma HighValue(pos: nat)
    requires 3 <= pos < 9
    ensures PlainValue(MODE_STR[pos]) == Power(pos) > 0
  {
    assert Power(3) == 8 && Power(4) == 16 && Power(5) == 32 && Power(6) == 64 && Power(7) == 128 && Power(8) == 256;
  }

  lemma HalfTimes(mode: nat, unit: nat)
    ensures mode % 2 * unit + mode / 2 * (2 * unit) == mode * unit
  {
    assert mode / 2 * (2 * unit) == mode / 2 * 2 * unit;
  }

  /** A channel as the server describes it: a key exactly with its bit, a limit exactly with its bit. */
  predicate Consistent(mode: nat, key: Option<string>, limit: int) {
    && 0 < mode < 512
    && (if mode / 2 % 2 == 1 then key.Some? && key.value != "" && ' ' !in key.value else key == None)
    && (if mode / 4 % 2 == 1 then limit > 0 else limit == 0)
  }

  /** The words after the letters. */
  function Arguments(mode: nat, key: Option<string>, limit: int): string
    requires Consistent(mode, key, limit)
  {
    if key.Some? then key.value + (if limit != 0 then " " + Number(limit) else "")
    else if limit != 0 then Number(limit) else ""
  }

  lemma LettersFirst(mode: nat)
    requires mode < 512
    ensures Power(9) == 512 && Power(6) == 64 && Letters(mode, 0) ==
      (if mode % 2 == 1 then "i" else "") + ((if mode / 2 % 2 == 1 then "k" else "") +
      ((if mode / 4 % 2 == 1 then "l" else "") + Letters(mode / 8, 3)))
  {
    Powers();
    assert mode / 2 / 2 == mode / 4 && mode / 4 / 2 == mode / 8;
    LettersStep(mode, 0);
    LettersStep(mode / 2, 1);
    LettersStep(mode / 4, 2);
  }

  lemma ReadOne(r: Reading, c: char)
    ensures ReadLetters(r, [c]) == ReadLetter(r, c) && ReadLetters(r, "") == r
  {
    assert [c][1..] == "";
  }

  /** The key letter takes the key off the arguments. */
  lemma ReadKey(r: Reading, key: string, more: string)
    requires r.add && r.mode < 2 && key != "" && ' ' !in key && r.rest == key + (if more == "" then "" else " " + more)
    ensures ReadLetter(r, 'k') == r.(mode := r.mode + 2, value := 2, key := Some(key), rest := more)
  {
    ArgOfWords(key, more);
    assert key + "" == key && key + (" " + more) == key + " " + more;
  }

  /** The limit letter takes the limit. */
  lemma ReadLimit(r: Reading, limit: nat)
    requires r.add && r.mode < 4 && limit > 0 && r.rest == Number(limit)
    ensures ReadLetter(r, 'l') == r.(mode := r.mode + 4, value := 4, limit := Number(limit), limitSet := true, rest := "")
  {
    NumberReadsBack(limit);
    ArgOfWords(Number(limit), "");
  }

  /** A reading of '+' and the letters so far, with the arguments still to come. */
  ghost predicate Going(r: Reading, mode: nat, key: Option<string>, limit: Option<int>, rest: string) {
    && r.add && r.mode == mode && r.key == key && r.rest == rest && r.events == [] && !r.limitReset
    && (if limit.Some? then r.limitSet && limit.value > 0 && r.limit == Number(limit.value) else !r.limitSet)
  }

  lemma ReadI(r: Reading, bit: nat, key: Option<string>, rest: string) returns (r': Reading)
    requires bit < 2 && Going(r, 0, key, None, rest)
    ensures r' == ReadLetters(r, if bit == 1 then "i" else "") && Going(r', bit, key, None, rest)
  {
    ReadOne(r, 'i');
    r' := r;
    if bit == 1 { ReadPlain(r, 'i'); r' := ReadLetter(r, 'i'); }
  }

  /** The argument words of a key and a limit. */
  function Words(key: Option<string>, num: string): string {
    if key == None then num else key.value + if num == "" then "" else " " + num
  }

  lemma ReadK(r: Reading, mode: nat, key0: Option<string>, key: Option<string>, more: string) returns (r': Reading)
    requires mode < 2 && (key.Some? ==> key.value != "" && ' ' !in key.value)
    requires Going(r, mode, key0, None, Words(key, more))
    ensures r' == ReadLetters(r, if key.Some? then "k" else "")
    ensures Going(r', if key.Some? then mode + 2 else mode, if key.Some? then key else key0, None, more)
  {
    ReadOne(r, 'k');
    r' := r;
    if key.Some? { ReadKey(r, key.value, more); r' := ReadLetter(r, 'k'); }
  }

  lemma ReadL(r: Reading, mode: nat, key: Option<string>, limit: int) returns (r': Reading)
    requires mode < 4 && limit >= 0 && Going(r, mode, key, None, if limit > 0 then Number(limit) else "")
    ensures r' == ReadLetters(r, if limit > 0 then "l" else "")
    ensures Going(r', if limit > 0 then mode + 4 else mode, key, if limit > 0 then Some(limit) else None, "")
  {
    ReadOne(r, 'l');
    r' := r;
    if limit > 0 { ReadLimit(r, limit); r' := ReadLetter(r, 'l'); }
  }

  lemma ReadOthers(r: Reading, mode: nat, key: Option<string>, limit: Option<int>, high: nat) returns (r': Reading)
    requires mode < 8 && high < Power(6) && Going(r, mode, key, limit, "")
    ensures r' == ReadLetters(r, Letters(high, 3)) && Going(r', mode + high * 8, key, limit, "")
  {
    assert Power(3) == 8;
    var value := ReadHigh(r, high, 3);
    WeightIs(high, 3);
    r' := ReadLetters(r, Letters(high, 3));
  }

  lemma ReadFromKey(r: Reading, bit: nat, key: Option<string>, limit: int, high: nat, k: string, l: string)
    returns (r': Reading)
    requires bit < 2 && limit >= 0 && (key.Some? ==> key.value != "" && ' ' !in key.value) && high < Power(6)
    requires k == (if key.Some? then "k" else "") && l == (if limit > 0 then "l" else "")
    requires Going(r, bit, r.key, None, Words(key, if limit > 0 then Number(limit) else ""))
    ensures r' == ReadLetters(r, k + (l + Letters(high, 3)))
    ensures Going(r', bit + (if key.Some? then 2 else 0) + (if limit > 0 then 4 else 0) + high * 8,
                  if key.Some? then key else r.key, if limit > 0 then Some(limit) else None, "")
  {
    ReadSplit(r, k, l + Letters(high, 3));
    var r2 := ReadK(r, bit, r.key, key, if limit > 0 then Number(limit) else "");
    ReadSplit(r2, l, Letters(high, 3));
    var r3 := ReadL(r2, r2.mode, r2.key, limit);
    r' := ReadOthers(r3, r3.mode, r3.key, if limit > 0 then Some(limit) else None, high);
  }

  /** The four pieces of the letters, one after the other. */
  lemma ReadPieces(r: Reading, bit: nat, key: Option<string>, limit: int, high: nat, i: string, k: string, l: string)
    returns (r': Reading)
    requires bit < 2 && limit >= 0 && (key.Some? ==> key.value != "" && ' ' !in key.value) && high < Power(6)
    requires i == (if bit == 1 then "i" else "") && k == (if key.Some? then "k" else "") && l == (if limit > 0 then "l" else "")
    requires Going(r, 0, r.key, None, Words(key, if limit > 0 then Number(limit) else ""))
    ensures r' == ReadLetters(r, i + (k + (l + Letters(high, 3))))
    ensures Going(r', bit + (if key.Some? then 2 else 0) + (if limit > 0 then 4 else 0) + high * 8,
                  if key.Some? then key else r.key, if limit > 0 then Some(limit) else None, "")
  {
    ReadSplit(r, i, k + (l + Letters(high, 3)));
    var r1 := ReadI(r, bit, r.key, Words(key, if limit > 0 then Number(limit) else ""));
    r' := ReadFromKey(r1, bit, key, limit, high, k, l);
  }

  lemma LowBits(mode: nat)
    ensures mode == mode % 2 + 2 * (mode / 2 % 2) + 4 * (mode / 4 % 2) + mode / 8 * 8
  {
    var half, quarter := mode / 2, mode / 4;
    assert mode == 2 * half + mode % 2;
    assert quarter == half / 2 && half == 2 * quarter + half % 2;
    assert mode / 8 == quarter / 2 && quarter == 2 * (mode / 8) + quarter % 2;
  }

  lemma ArgumentsShape(mode: nat, key: Option<string>, limit: int)
    requires Consistent(mode, key, limit)
    ensures limit >= 0
    ensures var num := if limit > 0 then Number(limit) else "";
            Arguments(mode, key, limit) == Words(key, num)
  {
    if limit > 0 { NumberReadsBack(limit); }
  }

  /** What '+' and all the letters leave behind. */
  lemma ReadAll(r: Reading, mode: nat, key: Option<string>, limit: int) returns (r': Reading)
    requires Consistent(mode, key, limit) && Going(r, 0, r.key, None, Arguments(mode, key, limit))
    ensures r' == ReadLetters(r, Letters9(mode))
    ensures Going(r', mode, if key.Some? then key else r.key, if limit > 0 then Some(limit) else None, "")
  {
    LettersFirst(mode);
    LowBits(mode);
    ArgumentsShape(mode, key, limit);
    r' := ReadPieces(r, mode % 2, key, limit, mode / 8, if mode % 2 == 1 then "i" else "",
                     if mode / 2 % 2 == 1 then "k" else "", if mode / 4 % 2 == 1 then "l" else "");
  }

  lemma PrintedShape(mode: nat, key: Option<string>, limit: int)
    requires Consistent(mode, key, limit)
    ensures var args := Arguments(mode, key, limit);
            "+" + Printed(mode, key, limit) == if args == "" then "+" + Letters9(mode) else "+" + Letters9(mode) + " " + args
  {
    if limit != 0 { NumberReadsBack(limit); }
  }

  function Letters9(mode: nat): string
    requires mode < 512
  {
    assert Power(9) == 512;
    Letters(mode, 0)
  }

  lemma {:induction false} LettersHaveNoSpace(mode: nat, pos: nat)
    requires pos <= 9 && mode < Power(9 - pos)
    ensures ' ' !in Letters(mode, pos)
    decreases mode
  {
    if mode > 0 { LettersHaveNoSpace(mode / 2, pos + 1); }
  }

  /** Parsing "+" and a printed mode on a channel without modes restores the mask, and the key and
      the limit where their bits are set. */
  lemma RoundTrip(mode: nat, key: Option<string>, limit: int, key0: Option<string>, limit0: int)
    requires Consistent(mode, key, limit)
    ensures Update(0, key0, limit0, "+" + Printed(mode, key, limit)) ==
            (mode, if key.Some? then key else key0, if limit > 0 then limit else limit0, [])
  {
    var letters, args := Letters9(mode), Arguments(mode, key, limit);
    PrintedShape(mode, key, limit);
    LettersHaveNoSpace(mode, 0);
    ArgOfWords("+" + letters, args);
    var r0 := Reading(0, key0, false, 0, "", false, false, args, []);
    assert ("+" + letters)[0] == '+' && ("+" + letters)[1..] == letters;
    var last := ReadAll(ReadLetter(r0, '+'), mode, key, limit);
    if limit > 0 { NumberReadsBack(limit); }
  }
}
