/**
 * What the CRC-32 register computes, apart from any register: the remainder of the message, as a polynomial over
 * GF(2), by the generator polynomial of section 8 of RFC 1952.
 */
module Crc32Polynomial {
  import opened Bytes
  import opened Crc32

  /** A polynomial over GF(2): the exponents whose coefficient is 1. */
  type polynomial = set<nat>

  /** x^32 + x^26 + x^23 + x^22 + x^16 + x^12 + x^11 + x^10 + x^8 + x^7 + x^5 + x^4 + x^2 + x + 1. */
  const G: polynomial := {32, 26, 23, 22, 16, 12, 11, 10, 8, 7, 5, 4, 2, 1, 0}

  function Plus(a: polynomial, b: polynomial): polynomial {
    (a - b) + (b - a)
  }

  /** The product with x^k. */
  function Shift(a: polynomial, k: nat): polynomial {
    set e | e in a :: e + k
  }

  /** The product of G with the polynomial that has these exponents. */
  function TimesG(ks: seq<nat>): polynomial {
    if ks == [] then {} else Plus(Shift(G, ks[0]), TimesG(ks[1..]))
  }

  ghost predicate Decreasing(ks: seq<nat>) {
    forall i, j :: 0 <= i < j < |ks| ==> ks[i] > ks[j]
  }

  /** The message is a multiple of G and a rest of degree below 32. */
  ghost predicate Divides(m: polynomial, ks: seq<nat>, rest: polynomial) {
    Decreasing(ks) && m == Plus(TimesG(ks), rest) && forall e :: e in rest ==> e < 32
  }

  ghost predicate IsRemainder(rest: polynomial, m: polynomial) {
    exists ks :: Divides(m, ks, rest)
  }

  // ---------------------------------------------------------------- there is one remainder

  lemma ShiftIn(a: polynomial, k: nat, e: nat)
    ensures e in Shift(a, k) <==> e >= k && e - k in a
  {
    if e >= k && e - k in a {
      assert e == (e - k) + k;
    }
  }

  /** The leading term of a product. */
  lemma {:induction false} ProductTop(ks: seq<nat>)
    requires Decreasing(ks)
    ensures ks != [] ==> ks[0] + 32 in TimesG(ks)
    ensures forall e :: e in TimesG(ks) ==> ks != [] && e <= ks[0] + 32
  {
    if ks != [] {
      ProductTop(ks[1..]);
      ShiftIn(G, ks[0], ks[0] + 32);
      assert ks[0] + 32 !in TimesG(ks[1..]);
    }
  }

  /** Products of decreasing exponents that agree from x^32 on are of the same exponents. */
  lemma {:induction false} SameQuotient(ks: seq<nat>, ls: seq<nat>)
    requires Decreasing(ks) && Decreasing(ls)
    requires forall e :: e >= 32 ==> (e in TimesG(ks) <==> e in TimesG(ls))
    ensures ks == ls
  {
    ProductTop(ks);
    ProductTop(ls);
    assert ks != [] ==> ks[0] + 32 in TimesG(ls);
    assert ls != [] ==> ls[0] + 32 in TimesG(ks);
    if ks != [] && ls != [] {
      assert ks[0] == ls[0];
      SameQuotient(ks[1..], ls[1..]);
      assert ks == [ks[0]] + ks[1..] && ls == [ls[0]] + ls[1..];
    }
  }

  lemma RemainderUnique(a: polynomial, b: polynomial, m: polynomial)
    requires IsRemainder(a, m) && IsRemainder(b, m)
    ensures a == b
  {
    var ks :| Divides(m, ks, a);
    var ls :| Divides(m, ls, b);
    SameQuotient(ks, ls);
    assert a == Plus(TimesG(ks), m) && b == Plus(TimesG(ks), m);
  }

  // ---------------------------------------------------------------- messages and numbers

  /** v shifted right by j. */
  function Shifted(v: nat, j: nat): nat {
    if j == 0 then v else Shifted(v / 2, j - 1)
  }

  predicate Bit(v: nat, j: nat) {
    Shifted(v, j) % 2 == 1
  }

  /** Bit i of a payload, the lowest bit of each byte first, and zeros behind it; the first 32 are complemented. */
  predicate Coefficient(p: bytes, i: nat) {
    (i < 8 * |p| && Bit(p[i / 8] as nat, i % 8)) != (i < 32)
  }

  /** The message as a polynomial, its first bit the highest coefficient, with 32 zeros behind the payload. */
  function Message(p: bytes): polynomial {
    set i: nat | i < 8 * |p| + 32 && Coefficient(p, i) :: 8 * |p| + 31 - i
  }

  /** The complement of a 32-bit number as a polynomial, its lowest bit the coefficient of x^31. */
  function Complement(v: nat): polynomial {
    set j: nat | j < 32 && !Bit(v, j) :: 31 - j
  }

  // ---------------------------------------------------------------- the register divides

  function Rest(c: register): polynomial {
    set j | 0 <= j < 32 && c[j] :: 31 - j
  }

  lemma RestIn(c: register, e: nat)
    ensures e in Rest(c) <==> e < 32 && c[31 - e]
  {
    if e < 32 && c[31 - e] {
      assert e == 31 - (31 - e);
    }
  }

  /** The same as Message, for the bits in the order they are fed. */
  predicate Fed(d: bits, i: nat) {
    (i < |d| && d[i]) != (i < 32)
  }

  function MessageOf(d: bits): polynomial {
    set i: nat | i < |d| + 32 && Fed(d, i) :: |d| + 31 - i
  }

  lemma MessageIn(d: bits, e: nat)
    ensures e in MessageOf(d) <==> e < |d| + 32 && Fed(d, |d| + 31 - e)
  {
    if e < |d| + 32 && Fed(d, |d| + 31 - e) {
      assert e == |d| + 31 - (|d| + 31 - e);
    }
  }

  lemma {:induction false} DigitAt(v: nat, n: nat, j: nat)
    requires j < n
    ensures Digits(v, n)[j] <==> Bit(v, j)
  {
    if j > 0 {
      DigitAt(v / 2, n - 1, j - 1);
    }
  }

  lemma {:induction false} ValueBit(d: bits, j: nat)
    requires j < |d|
    ensures Bit(Value(d), j) <==> d[j]
  {
    if j > 0 {
      ValueBit(d[1..], j - 1);
    }
  }

  /** The register's polynomial is G without its leading term. */
  lemma GeneratorIs(e: nat)
    requires e < 32
    ensures POLYNOMIAL[31 - e] <==> e in G
  {
    PolynomialBit(31 - e);
    GeneratorBit(e);
  }

  lemma PolynomialBit(i: nat)
    requires i < 32
    ensures POLYNOMIAL[i] <==> Bit(GENERATOR, i)
  {
    DigitAt(GENERATOR, 32, i);
  }

  lemma GeneratorBit(e: nat)
    requires e < 32
    ensures Bit(GENERATOR, 31 - e) <==> e in G
  {
    if e >= 24 {
      Byte0(e);
    } else if e >= 16 {
      Byte1(e);
    } else if e >= 8 {
      Byte2(e);
    } else {
      Byte3(e);
    }
  }

  lemma {:induction false} ShiftedTwice(v: nat, a: nat, b: nat)
    ensures Shifted(v, a + b) == Shifted(Shifted(v, a), b)
  {
    if a > 0 {
      ShiftedTwice(v / 2, a - 1, b);
    }
  }

  lemma BitAbove(v: nat, a: nat, j: nat)
    ensures Bit(v, a + j) <==> Bit(Shifted(v, a), j)
  {
    ShiftedTwice(v, a, j);
  }

  lemma Above8()
    ensures Shifted(GENERATOR, 8) == 0xED_B883
  {
    assert Shifted(0xEDB8_8320, 8) == 0xED_B883;
  }

  lemma Above16()
    ensures Shifted(GENERATOR, 16) == 0xEDB8
  {
    Above8();
    ShiftedTwice(GENERATOR, 8, 8);
    assert Shifted(0xED_B883, 8) == 0xEDB8;
  }

  lemma Above24()
    ensures Shifted(GENERATOR, 24) == 0xED
  {
    Above16();
    ShiftedTwice(GENERATOR, 16, 8);
    ShiftEDB8();
  }

  lemma ShiftEDB8()
    ensures Shifted(0xEDB8, 8) == 0xED
  {
    assert Shifted(0xEDB8, 8) == Shifted(0x76DC, 7) == Shifted(0x3B6E, 6) == Shifted(0x1DB7, 5) == Shifted(0xEDB, 4);
    assert Shifted(0xEDB, 4) == Shifted(0x76D, 3) == Shifted(0x3B6, 2) == Shifted(0x1DB, 1) == 0xED;
  }

  lemma Byte0(e: nat)
    requires 24 <= e < 32
    ensures Bit(GENERATOR, 31 - e) <==> e in G
  {
    assert !Bit(0xEDB8_8320, 0) && !Bit(0xEDB8_8320, 1) && !Bit(0xEDB8_8320, 2) && !Bit(0xEDB8_8320, 3);
    assert !Bit(0xEDB8_8320, 4) && Bit(0xEDB8_8320, 5) && !Bit(0xEDB8_8320, 6) && !Bit(0xEDB8_8320, 7);
  }

  lemma Byte1(e: nat)
    requires 16 <= e < 24
    ensures Bit(GENERATOR, 31 - e) <==> e in G
  {
    Above8();
    BitAbove(GENERATOR, 8, 23 - e);
    assert Bit(0xED_B883, 0) && Bit(0xED_B883, 1) && !Bit(0xED_B883, 2) && !Bit(0xED_B883, 3);
    assert !Bit(0xED_B883, 4) && !Bit(0xED_B883, 5) && !Bit(0xED_B883, 6) && Bit(0xED_B883, 7);
  }

  lemma Byte2(e: nat)
    requires 8 <= e < 16
    ensures Bit(GENERATOR, 31 - e) <==> e in G
  {
    Above16();
    BitAbove(GENERATOR, 16, 15 - e);
    assert !Bit(0xEDB8, 0) && !Bit(0xEDB8, 1) && !Bit(0xEDB8, 2) && Bit(0xEDB8, 3);
    assert Bit(0xEDB8, 4) && Bit(0xEDB8, 5) && !Bit(0xEDB8, 6) && Bit(0xEDB8, 7);
  }

  lemma Byte3(e: nat)
    requires e < 8
    ensures Bit(GENERATOR, 31 - e) <==> e in G
  {
    Above24();
    BitAbove(GENERATOR, 24, 7 - e);
    assert Bit(0xED, 0) && !Bit(0xED, 1) && Bit(0xED, 2) && Bit(0xED, 3);
    assert !Bit(0xED, 4) && Bit(0xED, 5) && Bit(0xED, 6) && Bit(0xED, 7);
  }

  function Term(b: bool, a: polynomial): polynomial {
    if b then a else {}
  }

  /** One more bit: the message moves up, and the bit comes in below the zeros' place. */
  lemma MessageSnoc(d: bits, b: bool)
    ensures MessageOf(d + [b]) == Plus(Shift(MessageOf(d), 1), Term(b, {32}))
  {
    var l, r := MessageOf(d + [b]), Plus(Shift(MessageOf(d), 1), Term(b, {32}));
    forall e: nat ensures e in l <==> e in r {
      MessageIn(d + [b], e);
      ShiftIn(MessageOf(d), 1, e);
      if e > 0 {
        MessageIn(d, e - 1);
      }
    }
  }

  /** A step multiplies by x and takes G off if that leaves a term x^32. */
  lemma FeedDivides(c: register, b: bool)
    ensures Rest(Feed(POLYNOMIAL, c, b)) ==
            Plus(Plus(Shift(Rest(c), 1), Term(b, {32})), Term(c[0] != b, G))
  {
    var l, r := Rest(Feed(POLYNOMIAL, c, b)), Plus(Plus(Shift(Rest(c), 1), Term(b, {32})), Term(c[0] != b, G));
    forall e: nat ensures e in l <==> e in r {
      PlusIn(Plus(Shift(Rest(c), 1), Term(b, {32})), Term(c[0] != b, G), e);
      PlusIn(Shift(Rest(c), 1), Term(b, {32}), e);
      FeedAt(c, b, e);
    }
  }

  lemma PlusIn(a: polynomial, b: polynomial, e: nat)
    ensures e in Plus(a, b) <==> (e in a) != (e in b)
  {
  }

  lemma FeedAt(c: register, b: bool, e: nat)
    ensures e in Rest(Feed(POLYNOMIAL, c, b)) <==>
            ((e in Shift(Rest(c), 1)) != (b && e == 32)) != (c[0] != b && e in G)
  {
    RestIn(Feed(POLYNOMIAL, c, b), e);
    ShiftIn(Rest(c), 1, e);
    if e > 0 {
      RestIn(c, e - 1);
    }
    if e < 32 {
      GeneratorIs(e);
      FedBit(POLYNOMIAL, c, b, 31 - e);
    }
  }

  lemma FedBit(poly: register, c: register, b: bool, i: nat)
    requires i < 32
    ensures Feed(poly, c, b)[i] <==> (i < 31 && c[i + 1]) != ((c[0] != b) && poly[i])
  {
  }

  function Next(ks: seq<nat>): seq<nat> {
    seq(|ks|, i requires 0 <= i < |ks| => ks[i] + 1)
  }

  lemma {:induction false} ProductNext(ks: seq<nat>)
    ensures TimesG(Next(ks)) == Shift(TimesG(ks), 1)
  {
    if ks != [] {
      assert Next(ks)[1..] == Next(ks[1..]);
      ProductNext(ks[1..]);
      ShiftAgain(G, ks[0]);
      ShiftPlus(Shift(G, ks[0]), TimesG(ks[1..]));
    }
  }

  lemma ShiftAgain(a: polynomial, k: nat)
    ensures Shift(a, k + 1) == Shift(Shift(a, k), 1)
  {
    forall e: nat ensures e in Shift(a, k + 1) <==> e in Shift(Shift(a, k), 1) {
      ShiftIn(a, k + 1, e);
      ShiftIn(Shift(a, k), 1, e);
      if e > 0 {
        ShiftIn(a, k, e - 1);
      }
    }
  }

  lemma {:induction false} ProductSnoc(ks: seq<nat>)
    ensures TimesG(ks + [0]) == Plus(TimesG(ks), G)
  {
    if ks == [] {
      assert ks + [0] == [0] && [0][1..] == [];
      assert Shift(G, 0) == G by {
        forall e: nat ensures e in Shift(G, 0) <==> e in G {
          ShiftIn(G, 0, e);
        }
      }
    } else {
      assert (ks + [0])[1..] == ks[1..] + [0];
      ProductSnoc(ks[1..]);
    }
  }

  lemma {:induction false} SerialDivides(d: bits) returns (ks: seq<nat>)
    ensures Divides(MessageOf(d), ks, Rest(Serial(POLYNOMIAL, AllOnes(), d)))
    decreases |d|
  {
    if d == [] {
      ks := [];
      forall e: nat ensures e in MessageOf([]) <==> e in Rest(AllOnes()) {
        MessageIn([], e);
        RestIn(AllOnes(), e);
      }
    } else {
      var init, b := d[..|d| - 1], d[|d| - 1];
      var c := Serial(POLYNOMIAL, AllOnes(), init);
      ks := SerialDivides(init);
      SerialAppend(POLYNOMIAL, AllOnes(), init, [b]);
      assert d == init + [b] && Serial(POLYNOMIAL, AllOnes(), d) == Feed(POLYNOMIAL, c, b);
      MessageSnoc(init, b);
      FeedDivides(c, b);
      ks := DivideOn(MessageOf(init), ks, Rest(c), Term(b, {32}), c[0] != b, Rest(Feed(POLYNOMIAL, c, b)));
      RestBound(Feed(POLYNOMIAL, c, b));
    }
  }

  lemma RestBound(c: register)
    ensures forall e :: e in Rest(c) ==> e < 32
  {
  }

  lemma DivideOn(m: polynomial, ks: seq<nat>, rest: polynomial, add: polynomial, top: bool, after: polynomial)
    returns (more: seq<nat>)
    requires Divides(m, ks, rest) && after == Plus(Plus(Shift(rest, 1), add), Term(top, G))
    requires forall e :: e in after ==> e < 32
    ensures Divides(Plus(Shift(m, 1), add), more, after)
  {
    ProductNext(ks);
    ProductSnoc(Next(ks));
    more := Next(ks) + if top then [0] else [];
    assert Next(ks) + [] == Next(ks);
    assert TimesG(more) == Plus(Shift(TimesG(ks), 1), Term(top, G));
    Cancel(m, TimesG(ks), rest, add, Term(top, G));
  }

  /** Adding the same twice adds nothing. */
  lemma Cancel(m: polynomial, t: polynomial, rest: polynomial, add: polynomial, g: polynomial)
    requires m == Plus(t, rest)
    ensures Plus(Shift(m, 1), add) == Plus(Plus(Shift(t, 1), g), Plus(Plus(Shift(rest, 1), add), g))
  {
    ShiftPlus(t, rest);
    assert Plus(Shift(m, 1), add) == Plus(Plus(Shift(t, 1), Shift(rest, 1)), add);
    var x, y := Shift(t, 1), Shift(rest, 1);
    forall e: nat
      ensures e in Plus(Plus(x, y), add) <==> e in Plus(Plus(x, g), Plus(Plus(y, add), g))
    {
    }
  }

  lemma ShiftPlus(a: polynomial, b: polynomial)
    ensures Shift(Plus(a, b), 1) == Plus(Shift(a, 1), Shift(b, 1))
  {
    forall e: nat ensures e in Shift(Plus(a, b), 1) <==> e in Plus(Shift(a, 1), Shift(b, 1)) {
      ShiftIn(a, 1, e);
      ShiftIn(b, 1, e);
      ShiftIn(Plus(a, b), 1, e);
    }
  }

  // ---------------------------------------------------------------- the checksum

  lemma MessageIs(p: bytes)
    ensures Message(p) == MessageOf(PayloadBits(p))
  {
    var d := PayloadBits(p);
    PayloadBitsLength(p);
    forall i: nat ensures Coefficient(p, i) <==> Fed(d, i) {
      if i < 8 * |p| {
        PayloadBitsAt(p, i / 8, i % 8);
        DigitAt(p[i / 8] as nat, 8, i % 8);
      }
    }
  }

  /**
   * The checksum of a payload is the complement of the remainder of its bits, with the first 32 complemented and 32
   * zeros appended, by G over GF(2); there is only one such remainder.
   */
  lemma ChecksumIsRemainder(p: bytes)
    ensures IsRemainder(Complement(Checksum(p)), Message(p))
    ensures forall rest :: IsRemainder(rest, Message(p)) ==> rest == Complement(Checksum(p))
  {
    var c := Register(POLYNOMIAL, AllOnes(), p);
    var ks := SerialDivides(PayloadBits(p));
    RegisterIsSerial(POLYNOMIAL, AllOnes(), p);
    MessageIs(p);
    forall j: nat | j < 32 ensures Bit(Checksum(p), j) <==> !c[j] {
      ValueBit(Xor(c, AllOnes()), j);
    }
    assert Complement(Checksum(p)) == Rest(c);
    forall rest | IsRemainder(rest, Message(p)) ensures rest == Complement(Checksum(p)) {
      RemainderUnique(rest, Complement(Checksum(p)), Message(p));
    }
  }
}
