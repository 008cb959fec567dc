/** What a mode change means: the bits that a sign and its letters put in or take out, and who gets
    what of the arguments. */
module ModesMeaning {
  import opened Bits
  import opened Ircaux
  import opened Modes

  // ----- One bit

  lemma DivideTwice(mode: nat, unit: nat)
    requires unit > 0
    ensures mode / (2 * unit) == mode / 2 / unit
  {
    var q := mode / 2 / unit;
    var r, s := mode / 2 - q * unit, mode % 2;
    assert mode == 2 * (q * unit + r) + s && 0 <= r < unit;
    assert mode == q * (2 * unit) + (2 * r + s);
    QuotientIs(mode, 2 * unit, q, 2 * r + s);
  }

  lemma QuotientIs(n: nat, d: nat, q: nat, r: nat)
    requires n == q * d + r && r < d
    ensures n / d == q
  {
    var k, m := n / d, n % d;
    assert n == k * d + m && 0 <= m < d;
    assert (k - q) * d == k * d - q * d == r - m;
    SmallMultiple(k - q, d);
  }

  lemma SmallMultiple(x: int, d: int)
    requires 0 - d < x * d < d
    ensures x == 0
  {
    assert x >= 1 ==> x * d >= d;
    assert x <= -1 ==> x * d <= 0 - d;
  }

  lemma {:induction false} HasBitIsBit(mode: nat, i: nat)
    ensures Power(i) > 0 && (HasBit(mode, Power(i)) <==> Bit(mode, i)) && (Bit(mode, i) ==> Power(i) <= mode)
  {
    if i > 0 {
      HasBitIsBit(mode / 2, i - 1);
      DivideTwice(mode, Power(i - 1));
    }
  }

  lemma {:induction false} BitChanged(mode: nat, mode': nat, i: nat, j: nat)
    requires mode' == if Bit(mode, i) then mode - Power(i) else mode + Power(i)
    ensures Bit(mode', j) <==> (Bit(mode, j) <==> i != j)
    decreases i + j
  {
    if i > 0 {
      HalfChanged(mode, mode', if Bit(mode, i) then 0 - Power(i - 1) else Power(i - 1));
      if j > 0 { BitChanged(mode / 2, mode' / 2, i - 1, j - 1); }
    } else if j > 0 {
      assert mode' / 2 == mode / 2;
    }
  }

  lemma HalfChanged(mode: nat, mode': nat, change: int)
    requires mode' == mode + 2 * change
    ensures mode' % 2 == mode % 2 && mode' / 2 == mode / 2 + change
  {
  }

  function PutIn(mode: nat, i: nat, add: bool): nat {
    if add then SetBit(mode, Power(i)) else ClearBit(mode, Power(i))
  }

  /** Setting and clearing a bit change that bit alone. */
  lemma OneBit(mode: nat, i: nat, add: bool, j: nat)
    ensures Bit(PutIn(mode, i, add), j) <==> if i == j then add else Bit(mode, j)
  {
    HasBitIsBit(mode, i);
    if Bit(mode, i) { BitChanged(mode, mode - Power(i), i, j); } else { BitChanged(mode, mode + Power(i), i, j); }
  }

  // ----- The letters without an argument

  /** No bit of the mask, the lowest of which is bit pos, is that of the key or the limit. */
  predicate IsPlain(mask: nat, pos: nat) {
    (pos <= 1 ==> !Bit(mask, 1 - pos)) && (pos <= 2 ==> !Bit(mask, 2 - pos))
  }

  /** Bit j of `mode` once the bits of the mask, from bit pos on, have been put in or taken out. */
  predicate After(mode: nat, mask: nat, pos: nat, add: bool, j: nat) {
    if j >= pos && Bit(mask, j - pos) then add else Bit(mode, j)
  }

  ghost predicate Changed(mode: nat, mode': nat, mask: nat, pos: nat, add: bool) {
    forall j: nat :: Bit(mode', j) <==> After(mode, mask, pos, add, j)
  }

  lemma ValueOfLetter(pos: nat)
    requires pos < 9 && pos != 1 && pos != 2
    ensures PlainValue(MODE_STR[pos]) == Power(pos) > 0
  {
    if pos > 2 { HighValue(pos); }
  }

  lemma PlainLetter(r: Reading, c: char)
    requires PlainValue(c) != 0
    ensures var mode' := if r.add then SetBit(r.mode, PlainValue(c)) else ClearBit(r.mode, PlainValue(c));
            ReadLetter(r, c) == r.(mode := mode', value := PlainValue(c))
  {
  }

  /** The lowest bit of the mask and then the others make up the mask. */
  lemma LowestThenOthers(mode: nat, mode1: nat, mode2: nat, mask: nat, pos: nat, add: bool)
    requires mode1 == if mask % 2 == 1 then PutIn(mode, pos, add) else mode
    requires Changed(mode1, mode2, mask / 2, pos + 1, add)
    ensures Changed(mode, mode2, mask, pos, add)
  {
    forall j: nat ensures Bit(mode2, j) <==> After(mode, mask, pos, add, j) {
      OneBit(mode, pos, add, j);
      assert Bit(mode2, j) <==> After(mode1, mask / 2, pos + 1, add, j);
      if j > pos { assert Bit(mask, j - pos) <==> Bit(mask / 2, j - (pos + 1)); }
    }
  }

  lemma ReadFirst(r: Reading, pos: nat, tail: string) returns (r1: Reading)
    requires pos < 9 && pos != 1 && pos != 2
    ensures ReadLetters(r, [MODE_STR[pos]] + tail) == ReadLetters(r1, tail)
    ensures r1 == r.(mode := PutIn(r.mode, pos, r.add), value := Power(pos))
  {
    var c := MODE_STR[pos];
    ValueOfLetter(pos);
    PlainLetter(r, c);
    r1 := ReadLetter(r, c);
    ReadNext(r, c, tail);
  }

  lemma ReadLowest(r: Reading, mask: nat, pos: nat) returns (r1: Reading)
    requires pos <= 9 && 0 < mask < Power(9 - pos) && IsPlain(mask, pos)
    ensures pos < 9 && mask / 2 < Power(9 - (pos + 1)) && IsPlain(mask / 2, pos + 1)
    ensures ReadLetters(r, Letters(mask, pos)) == ReadLetters(r1, Letters(mask / 2, pos + 1))
    ensures r1 == r.(mode := r1.mode, value := r1.value)
    ensures r1.mode == if mask % 2 == 1 then PutIn(r.mode, pos, r.add) else r.mode
  {
    LettersStep(mask, pos);
    var tail := Letters(mask / 2, pos + 1);
    r1 := r;
    if mask % 2 == 1 {
      r1 := ReadFirst(r, pos, tail);
    } else {
      assert "" + tail == tail;
    }
  }

  lemma {:induction false} ReadPlainLetters(r: Reading, mask: nat, pos: nat) returns (r': Reading)
    requires pos <= 9 && mask < Power(9 - pos) && IsPlain(mask, pos)
    ensures r' == ReadLetters(r, Letters(mask, pos)) && r' == r.(mode := r'.mode, value := r'.value)
    ensures Changed(r.mode, r'.mode, mask, pos, r.add)
    decreases mask
  {
    if mask == 0 {
      r' := r;
      forall j: nat ensures Bit(r.mode, j) <==> After(r.mode, mask, pos, r.add, j) { if j >= pos { NoBits(j - pos); } }
    } else {
      var r1 := ReadLowest(r, mask, pos);
      r' := ReadPlainLetters(r1, mask / 2, pos + 1);
      LowestThenOthers(r.mode, r1.mode, r'.mode, mask, pos, r.add);
    }
  }

  function Sign(add: bool): char {
    if add then '+' else '-'
  }

  /** A sign and the printed letters of a mask without key and limit put in, or take out, exactly the
      bits of that mask, and touch neither the other bits nor the key nor the limit. */
  lemma SignedLetters(mode: nat, key: Option<string>, limit: int, mask: nat, add: bool)
    requires mask < 512 && IsPlain(mask, 0)
    ensures var u := Update(mode, key, limit, [Sign(add)] + Printed(mask, None, 0));
            Changed(mode, u.0, mask, 0, add) && u.1 == key && u.2 == limit && u.3 == []
  {
    Powers();
    var letters := Letters9(mask);
    var text := [Sign(add)] + letters;
    LettersHaveNoSpace(mask, 0);
    ArgOfWords(text, "");
    var r := Reading(mode, key, false, 0, "", false, false, "", []);
    assert text[0] == Sign(add) && text[1..] == letters;
    var r' := ReadPlainLetters(ReadLetter(r, Sign(add)), mask, 0);
    assert Printed(mask, None, 0) == letters;
  }

  /** Putting in bits that were out and taking them out again changes nothing at all. */
  lemma MinusUndoesPlus(mode: nat, key: Option<string>, limit: int, mask: nat)
    requires mask < 512 && IsPlain(mask, 0) && forall i: nat :: !(Bit(mode, i) && Bit(mask, i))
    ensures var u := Update(mode, key, limit, "+" + Printed(mask, None, 0));
            Update(u.0, u.1, u.2, "-" + Printed(mask, None, 0)) == (mode, key, limit, [])
  {
    var letters := Printed(mask, None, 0);
    SignedLetters(mode, key, limit, mask, true);
    var u := Update(mode, key, limit, "+" + letters);
    SignedLetters(u.0, key, limit, mask, false);
    var w := Update(u.0, key, limit, "-" + letters);
    forall i: nat ensures Bit(w.0, i) <==> Bit(mode, i) {
      assert Bit(u.0, i) <==> After(mode, mask, 0, true, i);
      assert Bit(w.0, i) <==> After(u.0, mask, 0, false, i);
    }
    BitsAreTheNumber(w.0, mode);
  }

  // ----- Key and limit

  /** "+k" and a key put in that key, "-k" takes out whichever there is; bit 1 goes with it, and nothing
      else changes. */
  lemma KeyLetter(mode: nat, key: Option<string>, limit: int, add: bool, word: string, j: nat)
    requires word != "" && ' ' !in word
    ensures var u := Update(mode, key, limit, [Sign(add), 'k'] + " " + word);
            && u.1 == (if add then Some(word) else None) && u.2 == limit && u.3 == []
            && (Bit(u.0, j) <==> if j == 1 then add else Bit(mode, j))
  {
    var letters := [Sign(add), 'k'];
    ArgOfWords(letters, word);
    ArgOfWords(word, "");
    var r := Reading(mode, key, false, 0, "", false, false, word, []);
    TwoLetters(r, Sign(add), 'k');
    assert Power(1) == MODE_KEY;
    OneBit(mode, 1, add, j);
  }

  lemma TwoLetters(r: Reading, c: char, d: char)
    ensures ReadLetters(r, [c, d]) == ReadLetter(ReadLetter(r, c), d)
  {
    assert [c, d][1..] == [d];
    ReadOne(ReadLetter(r, c), d);
  }

  /** "-l" takes the limit out. */
  lemma MinusLimit(mode: nat, key: Option<string>, limit: int, j: nat)
    ensures var u := Update(mode, key, limit, "-l");
            u.1 == key && u.2 == 0 && u.3 == [] && (Bit(u.0, j) <==> j != 2 && Bit(mode, j))
  {
    assert Power(2) == MODE_LIMIT;
    ArgOfWords("-l", "");
    TwoLetters(Reading(mode, key, false, 0, "", false, false, "", []), '-', 'l');
    OneBit(mode, 2, false, j);
  }

  lemma LimitTaken(r: Reading, n: nat)
    requires r.add && n > 0 && r.rest == Number(n)
    ensures ReadLetter(r, 'l') ==
            r.(mode := SetBit(r.mode, MODE_LIMIT), value := MODE_LIMIT, limit := Number(n), limitSet := true, rest := "")
  {
    NumberReadsBack(n);
    ArgOfWords(Number(n), "");
  }

  /** "+l" and a number put that limit in. */
  lemma PlusLimit(mode: nat, key: Option<string>, limit: int, n: nat, j: nat)
    requires n > 0
    ensures var u := Update(mode, key, limit, "+l" + " " + Number(n));
            u.1 == key && u.2 == n && u.3 == [] && (Bit(u.0, j) <==> j == 2 || Bit(mode, j))
  {
    assert Power(2) == MODE_LIMIT;
    var num := Number(n);
    NumberReadsBack(n);
    ArgOfWords("+l", num);
    var r := Reading(mode, key, false, 0, "", false, false, num, []);
    TwoLetters(r, '+', 'l');
    LimitTaken(ReadLetter(r, '+'), n);
    OneBit(mode, 2, true, j);
  }

  /** "+l" and a word that begins with 0 take the limit out instead. */
  lemma PlusNoLimit(mode: nat, key: Option<string>, limit: int, digits: string, j: nat)
    requires ' ' !in digits
    ensures var u := Update(mode, key, limit, "+l" + " " + ("0" + digits));
            u.1 == key && u.2 == 0 && u.3 == [] && (Bit(u.0, j) <==> j != 2 && Bit(mode, j))
  {
    assert Power(2) == MODE_LIMIT;
    var num := "0" + digits;
    ArgOfWords("+l", num);
    ArgOfWords(num, "");
    TwoLetters(Reading(mode, key, false, 0, "", false, false, num, []), '+', 'l');
    OneBit(mode, 2, false, j);
  }

  /** Without a word behind it, "+k" leaves no key and "+l" a limit of 0, though the bits are put in;
      "o", "v", "b" and letters that name no mode change nothing. */
  lemma BareLetter(mode: nat, key: Option<string>, limit: int, c: char, j: nat)
    requires PlainValue(c) == 0 && c != '+' && c != '-' && c != ' '
    ensures var u := Update(mode, key, limit, ['+', c]);
            && u.1 == (if c == 'k' then None else key) && u.2 == (if c == 'l' then 0 else limit) && u.3 == []
            && (Bit(u.0, j) <==> (c == 'k' && j == 1) || (c == 'l' && j == 2) || Bit(mode, j))
  {
    var r := Reading(mode, key, false, 0, "", false, false, "", []);
    assert Power(1) == MODE_KEY && Power(2) == MODE_LIMIT;
    ArgOfWords(['+', c], "");
    TwoLetters(r, '+', c);
    OneBit(mode, 1, true, j);
    OneBit(mode, 2, true, j);
  }

  // ----- Operators, voices and bans

  /** Changes of operators, voices and bans, to persons whose names are words. */
  predicate AreChanges(changes: seq<Event>) {
    forall i :: 0 <= i < |changes| ==> IsChange(changes[i])
  }

  predicate IsChange(e: Event) {
    (e.letter == 'o' || e.letter == 'v' || e.letter == 'b') && e.person != "" && ' ' !in e.person
  }

  /** The letters of the changes, with a sign wherever it is not that of the change before. */
  function ChangeLetters(changes: seq<Event>, add: bool): string {
    if changes == [] then "" else
      (if changes[0].add == add then "" else [Sign(changes[0].add)]) + [changes[0].letter]
      + ChangeLetters(changes[1..], changes[0].add)
  }

  /** The persons, in the order of the changes. */
  function Persons(changes: seq<Event>): string {
    if changes == [] then ""
    else if |changes| == 1 then changes[0].person
    else changes[0].person + " " + Persons(changes[1..])
  }

  /** A reading that goes on with other persons to come, and more changes made. */
  function Further(r: Reading, add: bool, rest: string, changes: seq<Event>): Reading {
    r.(add := add, rest := rest, events := r.events + changes)
  }

  lemma ReadSign(r: Reading, add: bool, s: string)
    requires r.value == 0
    ensures ReadLetters(r, (if add == r.add then "" else [Sign(add)]) + s) == ReadLetters(r.(add := add), s)
  {
    if add == r.add {
      assert "" + s == s;
    } else {
      ReadNext(r, Sign(add), s);
    }
  }

  lemma ReadPerson(r: Reading, e: Event, more: string)
    requires IsChange(e) && r.value == 0 && r.add == e.add && r.rest == if more == "" then e.person else e.person + " " + more
    ensures ReadLetter(r, e.letter) == Further(r, r.add, more, [e])
  {
    ArgOfWords(e.person, more);
  }

  lemma ReadChange(r: Reading, e: Event, more: string, tail: string)
    requires IsChange(e) && r.value == 0 && r.add == e.add && r.rest == if more == "" then e.person else e.person + " " + more
    ensures ReadLetters(r, [e.letter] + tail) == ReadLetters(Further(r, r.add, more, [e]), tail)
  {
    ReadPerson(r, e, more);
    ReadNext(r, e.letter, tail);
  }

  lemma FirstChangeLetters(changes: seq<Event>, add: bool)
    requires changes != []
    ensures var e := changes[0];
            ChangeLetters(changes, add) ==
            (if e.add == add then "" else [Sign(e.add)]) + ([e.letter] + ChangeLetters(changes[1..], e.add))
  {
  }

  lemma ReadFirstChange(r: Reading, changes: seq<Event>) returns (r1: Reading)
    requires AreChanges(changes) && changes != [] && r.rest == Persons(changes) && r.value == 0
    ensures r1 == Further(r, changes[0].add, Persons(changes[1..]), [changes[0]])
    ensures ReadLetters(r, ChangeLetters(changes, r.add)) == ReadLetters(r1, ChangeLetters(changes[1..], r1.add))
  {
    var e, tail := changes[0], ChangeLetters(changes[1..], changes[0].add);
    FirstChangeLetters(changes, r.add);
    PersonsFollow(changes);
    ReadSign(r, e.add, [e.letter] + tail);
    ReadChange(r.(add := e.add), e, Persons(changes[1..]), tail);
    r1 := Further(r, e.add, Persons(changes[1..]), [e]);
  }

  lemma FurtherAdds(r: Reading, a: bool, m: string, e: Event, add: bool, others: seq<Event>)
    ensures Further(Further(r, a, m, [e]), add, "", others) == Further(r, add, "", [e] + others)
  {
    assert r.events + [e] + others == r.events + ([e] + others);
  }

  lemma {:induction false} ReadChanges(r: Reading, changes: seq<Event>, last: Reading) returns (add: bool)
    requires AreChanges(changes) && r.rest == Persons(changes) && r.value == 0
    requires last == ReadLetters(r, ChangeLetters(changes, r.add))
    ensures last == Further(r, add, "", changes)
    decreases |changes|
  {
    if changes == [] {
      assert r.events + changes == r.events;
      add := r.add;
    } else {
      var r1 := ReadFirstChange(r, changes);
      PersonsFollow(changes);
      add := ReadChanges(r1, changes[1..], last);
      FurtherAdds(r, r1.add, r1.rest, changes[0], add, changes[1..]);
      assert [changes[0]] + changes[1..] == changes;
    }
  }

  lemma PersonsFollow(changes: seq<Event>)
    requires AreChanges(changes) && changes != []
    ensures var more := Persons(changes[1..]);
            AreChanges(changes[1..]) && IsChange(changes[0]) &&
            Persons(changes) == if more == "" then changes[0].person else changes[0].person + " " + more
  {
    assert |changes| > 1 ==> IsChange(changes[1]);
  }

  lemma {:induction false} ChangeLettersAreAWord(changes: seq<Event>, add: bool)
    requires AreChanges(changes)
    ensures ' ' !in ChangeLetters(changes, add) && (changes != [] ==> ChangeLetters(changes, add) != "")
    decreases |changes|
  {
    if changes != [] {
      PersonsFollow(changes);
      ChangeLettersAreAWord(changes[1..], changes[0].add);
    }
  }

  /** Changes written as letters and arguments are read back as they were: each letter takes its own
      argument, in order, with the sign then in force. Nothing else changes. */
  lemma ChangesAreReadBack(mode: nat, key: Option<string>, limit: int, changes: seq<Event>)
    requires AreChanges(changes) && changes != []
    ensures Update(mode, key, limit, ChangeLetters(changes, false) + " " + Persons(changes)) == (mode, key, limit, changes)
  {
    var letters, rest := ChangeLetters(changes, false), Persons(changes);
    ChangeLettersAreAWord(changes, false);
    ArgOfWords(letters, rest);
    var r := Reading(mode, key, false, 0, "", false, false, rest, []);
    var add := ReadChanges(r, changes, ReadLetters(r, letters));
    assert [] + changes == changes;
  }
}
