/** The 64-bit FNV hash that turns a sequence number into a key. */
module Fnv {
  import Base

  const WORD: nat := 0x1_0000_0000_0000_0000
  const OFFSET_BASIS: nat := 0xCBF29CE484222325
  const PRIME: nat := 1099511628211

  type Word = n: nat | n < 0x1_0000_0000_0000_0000
  type Octet = n: nat | n < 256

  /** Exclusive or: each bit is the sum of the two bits modulo 2. */
  function XorNat(a: nat, b: nat): nat
    decreases a + b
  {
    if a == 0 && b == 0 then 0 else (a % 2 + b % 2) % 2 + 2 * XorNat(a / 2, b / 2)
  }

  /** What is left of a after shifting n bits out. */
  function ShiftRight(a: nat, n: nat): nat
    decreases n
  {
    if n == 0 then a else ShiftRight(a / 2, n - 1)
  }

  lemma {:induction false} XorZero(a: nat)
    ensures XorNat(a, 0) == a
  {
    if a > 0 {
      XorZero(a / 2);
    }
  }

  /** Shifting both sides first makes no difference. */
  lemma {:induction false} XorAbove(a: nat, b: nat, n: nat)
    ensures ShiftRight(XorNat(a, b), n) == XorNat(ShiftRight(a, n), ShiftRight(b, n))
    decreases n
  {
    if n > 0 {
      XorAbove(a / 2, b / 2, n - 1);
    }
  }

  lemma ShiftOctet(a: nat)
    ensures ShiftRight(a, 8) == a / 256
  {
    var b, c, e, f := a / 2, a / 4, a / 8, a / 16;
    assert b / 2 == c && c / 2 == e && e / 2 == f;
    assert ShiftRight(a, 8) == ShiftRight(f, 4);
    assert ShiftRight(f, 4) == f / 2 / 2 / 2 / 2;
  }

  /** Exclusive or of a word with an octet: everything above the low octet is unchanged. */
  function Xor(h: Word, o: Octet): (r: Word)
    ensures r / 256 == h / 256
  {
    XorAbove(h, o, 8);
    ShiftOctet(h);
    ShiftOctet(o);
    ShiftOctet(XorNat(h, o));
    XorZero(h / 256);
    XorNat(h, o)
  }

  /** Unsigned 64-bit multiplication by the prime. */
  function Times(h: Word): Word {
    h * PRIME % WORD
  }

  /** One round of the hash. */
  function Step(h: Word, o: Octet): Word {
    Times(Xor(h, o))
  }

  /** The last n rounds: each takes the low octet of what is left of the input. */
  function Rounds(h: Word, val: Word, n: nat): Word
    decreases n
  {
    if n == 0 then h else Rounds(Step(h, val % 256), val / 256, n - 1)
  }

  function Hash(val: Word): Word {
    Rounds(OFFSET_BASIS, val, 8)
  }

  /** `FNVHash64`. */
  method FNVHash64(val0: Word) returns (hash: Word)
    ensures hash == Hash(val0)
  {
    var val := val0;
    hash := OFFSET_BASIS;
    for i := 0 to 8
      invariant Hash(val0) == Rounds(hash, val, 8 - i)
    {
      var octet := val % 256;
      val := val / 256;
      hash := Xor(hash, octet);
      hash := Times(hash);
    }
  }

  // ---------------------------------------------------------------- every round can be undone

  lemma {:induction false} XorTwice(a: nat, b: nat)
    ensures XorNat(XorNat(a, b), b) == a
    decreases a + b
  {
    if a != 0 || b != 0 {
      hide XorNat;
      XorTwice(a / 2, b / 2);
      XorBit(a, b);
      XorBit(XorNat(a, b), b);
      BitTwice(a % 2, b % 2);
      SameHalves(XorNat(XorNat(a, b), b), a);
    }
  }

  lemma BitTwice(p: nat, q: nat)
    requires p < 2 && q < 2
    ensures ((p + q) % 2 + q) % 2 == p
  {
  }

  lemma SameHalves(x: nat, y: nat)
    requires x / 2 == y / 2 && x % 2 == y % 2
    ensures x == y
  {
  }

  /** The low bit, and the bits above it. */
  lemma XorBit(a: nat, b: nat)
    ensures XorNat(a, b) / 2 == XorNat(a / 2, b / 2) && XorNat(a, b) % 2 == (a % 2 + b % 2) % 2
  {
  }

  lemma {:induction false} XorCommutes(a: nat, b: nat)
    ensures XorNat(a, b) == XorNat(b, a)
    decreases a + b
  {
    if a != 0 || b != 0 {
      XorCommutes(a / 2, b / 2);
    }
  }

  /** The inverse of the prime modulo 2^64. */
  const INVERSE: nat := 0xce965057aff6957b

  lemma Remainder(x: Word, m: int)
    ensures (x + WORD * m) % WORD == x
  {
  }

  /** Multiplying by the odd prime is a bijection of the words: the inverse brings each word back. */
  lemma TimesUndone(h: Word)
    ensures Times(h) * INVERSE % WORD == h
  {
    var q := h * PRIME / WORD;
    var k := PRIME * INVERSE / WORD;
    assert PRIME * INVERSE == 1 + WORD * k;
    assert Times(h) == h * PRIME - WORD * q;
    calc {
      Times(h) * INVERSE;
      (h * PRIME - WORD * q) * INVERSE;
      h * (PRIME * INVERSE) - WORD * (q * INVERSE);
      h * (1 + WORD * k) - WORD * (q * INVERSE);
      h + WORD * (h * k - q * INVERSE);
    }
    Remainder(h, h * k - q * INVERSE);
  }

  /** A round loses nothing: from the result and the octet the word before it can be computed. */
  lemma StepUndone(h: Word, o: Octet)
    ensures Xor(Step(h, o) * INVERSE % WORD, o) == h
  {
    TimesUndone(Xor(h, o));
    XorTwice(h, o);
  }

  /** Rounds over the same octets keep different words different. */
  lemma {:induction false} RoundsInjective(h: Word, g: Word, val: Word, n: nat)
    requires h != g
    ensures Rounds(h, val, n) != Rounds(g, val, n)
    decreases n
  {
    if n > 0 {
      StepUndone(h, val % 256);
      StepUndone(g, val % 256);
      RoundsInjective(Step(h, val % 256), Step(g, val % 256), val / 256, n - 1);
    }
  }

  // ---------------------------------------------------------------- one or two octets differ

  /** Different octets give different words ... */
  lemma XorInjective(h: Word, o: Octet, p: Octet)
    requires o != p
    ensures Xor(h, o) != Xor(h, p) && Xor(h, o) / 256 == Xor(h, p) / 256
  {
    XorCommutes(h, o);
    XorCommutes(h, p);
    XorTwice(o, h);
    XorTwice(p, h);
  }

  /** ... and words that differ in the low octet only differ above it after the multiplication. */
  lemma SpreadsUp(a: Word, b: Word)
    requires a != b && a / 256 == b / 256
    ensures Times(a) / 256 != Times(b) / 256
  {
    if a < b {
      SpreadsUpOrdered(a, b);
    } else {
      SpreadsUpOrdered(b, a);
    }
  }

  lemma SpreadsUpOrdered(a: Word, b: Word)
    requires a < b && a / 256 == b / 256
    ensures Times(a) / 256 != Times(b) / 256
  {
    var diff := b - a;
    assert 0 < diff < 256;
    assert b * PRIME == a * PRIME + diff * PRIME;
    assert PRIME <= diff * PRIME <= 255 * PRIME;
    ApartModulo(a * PRIME, diff * PRIME);
  }

  /** A step of at least 256 words, in either direction around the circle, changes the upper octets. */
  lemma ApartModulo(x: nat, step: nat)
    requires 256 <= step <= WORD - 256
    ensures x % WORD / 256 != (x + step) % WORD / 256
  {
    var r := x % WORD;
    var q := x / WORD;
    if r + step < WORD {
      Remainder(r + step, q);
      assert (x + step) % WORD == r + step;
    } else {
      Remainder(r + step - WORD, q + 1);
      assert (x + step) % WORD == r + step - WORD;
    }
  }

  /** Two inputs that agree above their two low octets never meet. */
  lemma LowOctetsDiffer(h: Word, v: Word, w: Word, n: nat)
    requires v != w && v / 65536 == w / 65536 && n >= 2
    ensures Rounds(h, v, n) != Rounds(h, w, n)
  {
    var h1, g1 := Step(h, v % 256), Step(h, w % 256);
    var v1: Word, w1: Word := v / 256, w / 256;
    var h2, g2 := Step(h1, v1 % 256), Step(g1, w1 % 256);
    assert v1 / 256 == v / 65536 && w1 / 256 == w / 65536;
    TwoSteps(h, v % 256, w % 256, v1 % 256, w1 % 256);
    assert Rounds(h, v, n) == Rounds(h2, v1 / 256, n - 2);
    assert Rounds(h, w, n) == Rounds(g2, w1 / 256, n - 2);
    RoundsInjective(h2, g2, v1 / 256, n - 2);
  }

  /** Two rounds from the same word over different pairs of octets end in different words. */
  lemma TwoSteps(h: Word, o: Octet, p: Octet, o': Octet, p': Octet)
    requires o != p || o' != p'
    ensures Step(Step(h, o), o') != Step(Step(h, p), p')
  {
    var a, b := Step(h, o), Step(h, p);
    if o == p {
      XorInjective(a, o', p');
    } else {
      XorInjective(h, o, p);
      SpreadsUp(Xor(h, o), Xor(h, p));
      assert Xor(a, o') / 256 != Xor(b, p') / 256;
    }
    TimesUndone(Xor(a, o'));
    TimesUndone(Xor(b, p'));
  }

  /** v and w agree in every octet but i and i+1, counted from the low end. */
  predicate AgreeOutside(v: Word, w: Word, i: nat)
    decreases i
  {
    if i == 0 then v / 65536 == w / 65536 else v % 256 == w % 256 && AgreeOutside(v / 256, w / 256, i - 1)
  }

  /** No collision between inputs that differ within two adjacent octets. */
  lemma {:induction false} AdjacentOctetsDiffer(h: Word, v: Word, w: Word, i: nat, n: nat)
    requires v != w && AgreeOutside(v, w, i) && i + 2 <= n
    ensures Rounds(h, v, n) != Rounds(h, w, n)
    decreases i
  {
    if i == 0 {
      LowOctetsDiffer(h, v, w, n);
    } else {
      AdjacentOctetsDiffer(Step(h, v % 256), v / 256, w / 256, i - 1, n - 1);
    }
  }

  /** `FNVHash64` never collides on two inputs that differ only within two adjacent octets. */
  lemma NoAdjacentCollision(v: Word, w: Word, i: nat)
    requires v != w && i <= 6 && AgreeOutside(v, w, i)
    ensures Hash(v) != Hash(w)
  {
    AdjacentOctetsDiffer(OFFSET_BASIS, v, w, i, 8);
  }

  /** The keys of any aligned block of 65536 sequence numbers, 0 to 65535 among them, are pairwise distinct,
      hashed or not. */
  lemma SequenceKeysDistinct(v: Word, w: Word, ordered: bool)
    requires v != w && v / 65536 == w / 65536
    ensures BuildKeyName(v, ordered) != BuildKeyName(w, ordered)
  {
    NoAdjacentCollision(v, w, 0);
  }

  /** `BuildKeyName`. */
  function BuildKeyName(num: Word, orderedInserts: bool): Word {
    if orderedInserts then num else Hash(num)
  }

  // ---------------------------------------------------------------- known answers

  /** Each bit of the exclusive or is set exactly when the bits differ. */
  lemma XorBits(a: nat, b: nat, n: nat)
    ensures ShiftRight(XorNat(a, b), n) % 2 == 1 <==> ShiftRight(a, n) % 2 != ShiftRight(b, n) % 2
  {
    XorAbove(a, b, n);
    XorBit(ShiftRight(a, n), ShiftRight(b, n));
  }

  lemma XorOne(h: Word)
    ensures Xor(h, 0) == h && Xor(h, 1) == if h % 2 == 0 then h + 1 else h - 1
  {
    XorZero(h);
    XorZero(h / 2);
    XorBit(h, 1);
  }

  /** One round over an octet that is 0 or 1, from one given word to another. */
  lemma Round(h: Word, val: Word, n: nat, g: Word)
    requires n > 0 && val % 256 <= 1
    requires g == (if val % 256 == 0 then h else if h % 2 == 0 then h + 1 else h - 1) * PRIME % WORD
    ensures Rounds(h, val, n) == Rounds(g, val / 256, n - 1)
  {
    XorOne(h);
  }

  lemma NoRounds(h: Word, val: Word)
    ensures Rounds(h, val, 0) == h
  {
  }

  /** The hash of 0 ... */
  lemma HashOf0()
    ensures Hash(0) == 0xa8c7f832281a39c5
  {
    hide Rounds, Step, Times, Xor, XorNat;
    Round(0xcbf29ce484222325, 0, 8, 0xaf63bd4c8601b7df);
    Round(0xaf63bd4c8601b7df, 0, 7, 0x8328807b4eb6fed);
    Round(0x8328807b4eb6fed, 0, 6, 0xd94d12186c0f2fb7);
    Round(0xd94d12186c0f2fb7, 0, 5, 0x4d25767f9dce13f5);
    Round(0x4d25767f9dce13f5, 0, 4, 0xe4bc4fd9252be94f);
    Round(0xe4bc4fd9252be94f, 0, 3, 0xd7e4fcfa299d713d);
    Round(0xd7e4fcfa299d713d, 0, 2, 0x778b1a14b6876aa7);
    Round(0x778b1a14b6876aa7, 0, 1, 0xa8c7f832281a39c5);
    NoRounds(0xa8c7f832281a39c5, 0);
  }

  /** ... of 1, whose first octet is 1 ... */
  lemma HashOf1()
    ensures Hash(1) == 0x89cd31291d2aefa4
  {
    hide Rounds, Step, Times, Xor, XorNat;
    Round(0xcbf29ce484222325, 1, 8, 0xaf63bc4c8601b62c);
    Round(0xaf63bc4c8601b62c, 0, 7, 0x82f2207b4e88cc4);
    Round(0x82f2207b4e88cc4, 0, 6, 0xd0a397186727310c);
    Round(0xd0a397186727310c, 0, 5, 0xad2aca7747985764);
    Round(0xad2aca7747985764, 0, 4, 0xd80d6caea7dc7eec);
    Round(0xd80d6caea7dc7eec, 0, 3, 0xfb4e98c73babab04);
    Round(0xfb4e98c73babab04, 0, 2, 0xb2389e8a64b397cc);
    Round(0xb2389e8a64b397cc, 0, 1, 0x89cd31291d2aefa4);
    NoRounds(0x89cd31291d2aefa4, 0);
  }

  /** ... of 256, whose second octet is 1 ... */
  lemma HashOf256()
    ensures Hash(256) == 0xe3757ca7d64666ea
  {
    hide Rounds, Step, Times, Xor, XorNat;
    Round(0xcbf29ce484222325, 256, 8, 0xaf63bd4c8601b7df);
    Round(0xaf63bd4c8601b7df, 1, 7, 0x8328707b4eb6e3a);
    Round(0x8328707b4eb6e3a, 0, 6, 0xd949ac186c0c4c8e);
    Round(0xd949ac186c0c4c8e, 0, 5, 0x447bfb7f98e6154a);
    Round(0x447bfb7f98e6154a, 0, 4, 0x44c1a3d0cef62cbe);
    Round(0x44c1a3d0cef62cbe, 0, 3, 0xcb3619cfac4e06da);
    Round(0xcb3619cfac4e06da, 0, 2, 0x9af4b5e1c895a46e);
    Round(0x9af4b5e1c895a46e, 0, 1, 0xe3757ca7d64666ea);
    NoRounds(0xe3757ca7d64666ea, 0);
  }

  /** ... and of a number whose last octet is 1. */
  lemma HashOfLastOctet()
    ensures Hash(0x100000000000000) == 0xa8c7f732281a3812
  {
    hide Rounds, Step, Times, Xor, XorNat;
    Round(0xcbf29ce484222325, 0x100000000000000, 8, 0xaf63bd4c8601b7df);
    Round(0xaf63bd4c8601b7df, 0x1000000000000, 7, 0x8328807b4eb6fed);
    Round(0x8328807b4eb6fed, 0x10000000000, 6, 0xd94d12186c0f2fb7);
    Round(0xd94d12186c0f2fb7, 0x100000000, 5, 0x4d25767f9dce13f5);
    Round(0x4d25767f9dce13f5, 0x1000000, 4, 0xe4bc4fd9252be94f);
    Round(0xe4bc4fd9252be94f, 0x10000, 3, 0xd7e4fcfa299d713d);
    Round(0xd7e4fcfa299d713d, 256, 2, 0x778b1a14b6876aa7);
    Round(0x778b1a14b6876aa7, 1, 1, 0xa8c7f732281a3812);
    NoRounds(0xa8c7f732281a3812, 0);
  }

  /** Ordered keys are the sequence numbers themselves, so they keep their order; the others are what
      `FNVHash64` returns. */
  method KeyName(num: Word, orderedInserts: bool) returns (key: Word)
    ensures key == BuildKeyName(num, orderedInserts)
    ensures orderedInserts ==> key == num
    ensures !orderedInserts ==> key == Hash(num)
  {
    key := num;
    if !orderedInserts {
      key := FNVHash64(key);
    }
  }

  lemma OrderedKeysKeepOrder(v: Word, w: Word)
    ensures v < w <==> BuildKeyName(v, true) < BuildKeyName(w, true)
    ensures BuildKeyName(v, true) == v
  {
  }

  /** The first unordered keys, by value. */
  lemma UnorderedKeysKnown()
    ensures BuildKeyName(0, false) == 0xa8c7f832281a39c5 && BuildKeyName(1, false) == 0x89cd31291d2aefa4
  {
    HashOf0();
    HashOf1();
  }

  /** Every word is a key, and every key is one. */
  lemma WordsAreKeys(n: int)
    ensures 0 <= n < WORD <==> 0 <= n < Base.KEY_BOUND
  {
  }
}
