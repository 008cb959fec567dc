/** The chained hash tables of hash.c, with the move-to-top of a found entry. */
module HashTable {
  import opened Bits
  import opened Ircaux
  import Wildcard

  // ----- the hash

  /** Bits 28 to 31 of a 64-bit number moved down by 24, with an exclusive or. */
  function Mix(h: nat): nat {
    var g := h / 0x1000_0000 % 16;
    if g == 0 then h else
    h / 0x1_0000_0000 * 0x1_0000_0000 + h % 0x1000_0000 / 256 * 256 + Xor(h / 16 % 16, g) * 16 + h % 16
  }

  /** One turn of hash_nickname's loop on a 64-bit unsigned long: shift, add the lower-cased
      character, mix. */
  function HashStep(hash: nat, c: char): nat {
    Mix((hash * 16 + Wildcard.Lower(c) as int) % 0x1_0000_0000_0000_0000)
  }

  /** A number of five groups of bits: those from 32 on, 28 to 31, 8 to 27, 4 to 7, and 0 to 3. */
  function Groups(top: nat, g: nat, middle: nat, x: nat, low: nat): nat {
    (((top * 16 + g) * 0x10_0000 + middle) * 16 + x) * 16 + low
  }

  lemma Grouped(h: nat)
    ensures h == Groups(h / 0x1_0000_0000, h / 0x1000_0000 % 16, h / 256 % 0x10_0000, h / 16 % 16, h % 16)
  {
    assert h / 0x1_0000_0000 == h / 0x1000_0000 / 16 && h / 0x1000_0000 == h / 256 / 0x10_0000 && h / 256 == h / 16 / 16;
  }

  lemma BitOfGroups(top: nat, g: nat, middle: nat, x: nat, low: nat, i: nat)
    requires g < 16 && middle < 0x10_0000 && x < 16 && low < 16
    ensures Bit(Groups(top, g, middle, x, low), i) <==>
            if i < 4 then Bit(low, i) else if i < 8 then Bit(x, i - 4) else if i < 28 then Bit(middle, i - 8)
            else if i < 32 then Bit(g, i - 28) else Bit(top, i - 32)
  {
    FourAndTwenty();
    var n1 := top * 16 + g;
    var n2 := n1 * 0x10_0000 + middle;
    var n3 := n2 * 16 + x;
    TwoParts(n3, low, 4, i);
    if i >= 4 { TwoParts(n2, x, 4, i - 4); }
    if i >= 8 { TwoParts(n1, middle, 20, i - 8); }
    if i >= 28 { TwoParts(top, g, 4, i - 28); }
  }

  lemma FourAndTwenty()
    ensures Power(4) == 16 && Power(20) == 0x10_0000
  {
    assert Power(8) == 256 by { assert Power(5) == 32 && Power(6) == 64 && Power(7) == 128; }
    assert Power(12) == 4096 by { assert Power(9) == 512 && Power(10) == 1024 && Power(11) == 2048; }
    assert Power(16) == 65536 by { assert Power(13) == 8192 && Power(14) == 16384 && Power(15) == 32768; }
    assert Power(17) == 131072 && Power(18) == 262144 && Power(19) == 524288;
  }

  /** What the mixing does to each bit: 28 to 31 are cleared, and go into 4 to 7 by exclusive or. */
  lemma MixBits(h: nat, i: nat)
    ensures Bit(Mix(h), i) <==>
            if 28 <= i < 32 then false else if 4 <= i < 8 then Bit(h, i) != Bit(h, i + 24) else Bit(h, i)
  {
    var top, g, middle, x, low := h / 0x1_0000_0000, h / 0x1000_0000 % 16, h / 256 % 0x10_0000, h / 16 % 16, h % 16;
    Grouped(h);
    FourAndTwenty();
    XorFits(x, g, 4);
    BitOfGroups(top, g, middle, x, low, i);
    BitOfGroups(top, g, middle, x, low, i + 24);
    BitOfGroups(top, 0, middle, Xor(x, g), low, i);
    MixGroups(h);
    if 28 <= i < 32 { NoBits(i - 28); }
    if 4 <= i < 8 { XorBits(x, g, i - 4); }
  }

  lemma MiddleBits(h: nat)
    ensures h % 0x1000_0000 / 256 == h / 256 % 0x10_0000
  {
  }

  lemma MixGroups(h: nat)
    ensures var g, x := h / 0x1000_0000 % 16, h / 16 % 16;
            Mix(h) == Groups(h / 0x1_0000_0000, 0, h / 256 % 0x10_0000, Xor(x, g), h % 16)
  {
    var g, x := h / 0x1000_0000 % 16, h / 16 % 16;
    if g == 0 { XorNothing(x); Grouped(h); } else { MiddleBits(h); }
  }

  lemma {:induction false} XorNothing(x: nat)
    ensures Xor(x, 0) == x
  {
    if x > 0 { XorNothing(x / 2); }
  }

  /** The word has 64 bits: what is carried out of bit 31 is kept. */
  lemma CarryIsKept()
    ensures HashStep(0xFFF_FFFF, 'z') == 0x1_0000_006A
  {
    var h := (0xFFF_FFFF * 16 + 122) % 0x1_0000_0000_0000_0000;
    assert h == 0x1_0000_006A && h / 0x1000_0000 % 16 == 0;
  }

  function HashPrefix(name: string, n: nat): nat
    requires n <= |name|
  {
    if n == 0 then 0 else HashStep(HashPrefix(name, n - 1), name[n - 1])
  }

  function Hash(name: string, size: nat): (h: nat)
    requires size > 0
    ensures h < size
  {
    HashPrefix(name, |name|) % size
  }

  method HashNickname(name: string, size: nat) returns (h: nat)
    requires size > 0
    ensures h == Hash(name, size)
  {
    h := 0;
    for i := 0 to |name|
      invariant h == HashPrefix(name, i)
    {
      h := HashStep(h, name[i]);
    }
    h := h % size;
  }

  /** The lower-cased characters as digits of base 16, with carries. */
  function InBase16(name: string, n: nat): nat
    requires n <= |name|
  {
    if n == 0 then 0 else 16 * InBase16(name, n - 1) + Wildcard.Lower(name[n - 1]) as int
  }

  function Bound(n: nat): nat { if n == 0 then 0 else 16 * Bound(n - 1) + 127 }

  lemma Bounds(n: nat)
    requires n <= 6
    ensures Bound(n) < 0x1000_0000
  {
    assert Bound(0) == 0 && Bound(1) == 127 && Bound(2) == 2159;
    assert Bound(3) == 34671 && Bound(4) == 554863;
    assert Bound(5) == 8877935 && Bound(6) == 142047087;
  }

  lemma SmallStays(x: nat)
    requires x < 0x1000_0000
    ensures Mix(x) == x && x % 0x1_0000_0000_0000_0000 == x
  {
    assert x / 0x1000_0000 == 0;
  }

  lemma SmallSumIsNotMixed(hash: nat, c: char)
    requires hash * 16 + Wildcard.Lower(c) as int < 0x1000_0000
    ensures HashStep(hash, c) == 16 * hash + Wildcard.Lower(c) as int
  {
    SmallStays(hash * 16 + Wildcard.Lower(c) as int);
  }

  /** Up to six ASCII characters nothing is mixed: the hash is the characters' sum in base 16. */
  lemma {:induction false} ShortNamesAddUp(name: string, n: nat)
    requires n <= |name| && n <= 6 && forall i :: 0 <= i < n ==> name[i] as int < 128
    ensures HashPrefix(name, n) == InBase16(name, n) <= Bound(n)
  {
    if n > 0 {
      ShortNamesAddUp(name, n - 1);
      Bounds(n);
      SmallSumIsNotMixed(HashPrefix(name, n - 1), name[n - 1]);
    }
  }

  /** Equal up to the case of ASCII letters. */
  predicate SameLetters(a: string, b: string) {
    |a| == |b| && forall i :: 0 <= i < |a| ==> Wildcard.Lower(a[i]) == Wildcard.Lower(b[i])
  }

  lemma StepIgnoresCase(hash: nat, c: char, d: char)
    requires Wildcard.Lower(c) == Wildcard.Lower(d)
    ensures HashStep(hash, c) == HashStep(hash, d)
  {
  }

  lemma {:induction false} HashIgnoresCase(a: string, b: string, n: nat)
    requires SameLetters(a, b) && n <= |a|
    ensures HashPrefix(a, n) == HashPrefix(b, n)
  {
    if n > 0 {
      HashIgnoresCase(a, b, n - 1);
      StepIgnoresCase(HashPrefix(a, n - 1), a[n - 1], b[n - 1]);
    }
  }

  /** The characters that my_stricmp folds and the hash does not. */
  predicate BracketFree(name: string) {
    forall i :: 0 <= i < |name| ==> !('[' <= name[i] <= ']') && !('{' <= name[i] <= '}')
  }

  /** Two spellings of a name without brackets fall into the same bucket. */
  lemma SpellingsShareBucket(a: string, b: string, size: nat)
    requires size > 0 && SameName(a, b) && BracketFree(a)
    ensures Hash(a, size) == Hash(b, size)
  {
    HashIgnoresCase(a, b, |a|);
  }

  /** Every spelling of the name has its hash, so that there is one bucket to look in. */
  ghost predicate OneBucket(name: string, size: nat)
    requires size > 0
  {
    forall spelling: CString :: SameName(name, spelling) ==> Hash(spelling, size) == Hash(name, size)
  }

  lemma BracketFreeHasOneBucket(name: string, size: nat)
    requires size > 0 && BracketFree(name)
    ensures OneBucket(name, size)
  {
    forall spelling: CString | SameName(name, spelling) ensures Hash(spelling, size) == Hash(name, size) {
      SpellingsShareBucket(name, spelling, size);
    }
  }

  /** The names in the buckets of a table, each in the bucket of its hash. */
  predicate IsLayout(names: seq<seq<CString>>) {
    && |names| > 0
    && forall b, i :: 0 <= b < |names| && 0 <= i < |names[b]| ==> Hash(names[b][i], |names|) == b
  }

  /** The bucket of the name does not have it, though the table does. */
  predicate Misses(names: seq<seq<CString>>, name: string)
    requires |names| > 0
  {
    && (forall i :: 0 <= i < |names[Hash(name, |names|)]| ==> !SameName(name, names[Hash(name, |names|)][i]))
    && exists b, i :: 0 <= b < |names| && 0 <= i < |names[b]| && SameName(name, names[b][i])
  }

  /** One bucket for all spellings is exactly what it takes for a lookup never to miss the name. */
  lemma OneBucketIsExact(name: string, size: nat)
    requires size > 0
    ensures OneBucket(name, size) <==>
            forall names: seq<seq<CString>> :: |names| == size && IsLayout(names) ==> !Misses(names, name)
  {
    if !OneBucket(name, size) {
      var spelling: CString :| SameName(name, spelling) && Hash(spelling, size) != Hash(name, size);
      var names: seq<seq<CString>> := seq(size, b => if b == Hash(spelling, size) then [spelling] else []);
      assert names[Hash(spelling, size)][0] == spelling;
      assert IsLayout(names) && Misses(names, name);
    } else {
      forall names: seq<seq<CString>> | |names| == size && IsLayout(names) ensures !Misses(names, name) {
        forall b, i | 0 <= b < size && 0 <= i < |names[b]| && SameName(name, names[b][i]) ensures b == Hash(name, size) {
          assert Hash(names[b][i], size) == Hash(name, size);
        }
      }
    }
  }

  lemma FirstStep(c: char, x: nat)
    requires Wildcard.Lower(c) as int == x < 256
    ensures HashStep(0, c) == x
  {
    assert (0 * 16 + x) % 0x1_0000_0000_0000_0000 == x;
    SmallStays(x);
  }

  lemma HashOfOne(c: char, x: nat)
    requires Wildcard.Lower(c) as int == x < 256
    ensures HashPrefix([c], 1) == x
  {
    FirstStep(c, x);
    assert HashPrefix([c], 0) == 0;
  }

  /** Two spellings that differ in a bracket may not: "{" and "[" are one name in two buckets. */
  lemma BracketsMayPart()
    ensures SameName("{", "[") && Hash("{", 79) == 44 && Hash("[", 79) == 12
  {
    HashOfOne('{', 123);
    HashOfOne('[', 91);
  }
}
