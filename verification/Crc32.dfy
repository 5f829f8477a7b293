/**
 * The checksum of a FastLink payload, `binascii.crc32`: the reflected CRC-32 of section 8 of RFC 1952,
 * modelled on the 32 bits of its shift register, and its error-detection theorem.
 */
module Crc32 {
  import opened Bytes

  /** Bits are listed from the least significant one. */
  type bits = seq<bool>

  type register = s: bits | |s| == 32 witness Digits(0, 32)

  /** The n low bits of v. */
  function Digits(v: nat, n: nat): (d: bits)
    ensures |d| == n
  {
    if n == 0 then [] else [v % 2 == 1] + Digits(v / 2, n - 1)
  }

  const GENERATOR: nat := 0xEDB8_8320

  const POLYNOMIAL: register := Digits(GENERATOR, 32)

  function Repeat(b: bool, n: nat): bits {
    seq(n, i => b)
  }

  function AllOnes(): register { Repeat(true, 32) }

  function Value(d: bits): nat {
    if d == [] then 0 else (if d[0] then 1 else 0) + 2 * Value(d[1..])
  }

  function Xor(a: bits, b: bits): bits
    requires |a| == |b|
  {
    seq(|a|, i requires 0 <= i < |a| => a[i] != b[i])
  }

  /** One division step: `c >> 1`, combined with the polynomial when the bit shifted out is set. */
  function BitStep(poly: register, c: register): register {
    seq(32, i requires 0 <= i < 32 => (i < 31 && c[i + 1]) != (c[0] && poly[i]))
  }

  function Steps(poly: register, c: register, n: nat): register
    decreases n
  {
    if n == 0 then c else Steps(poly, BitStep(poly, c), n - 1)
  }

  function ByteBits(b: byte): bits {
    Digits(b as nat, 8)
  }

  function PayloadBits(p: bytes): bits {
    if p == [] then [] else ByteBits(p[0]) + PayloadBits(p[1..])
  }

  /** At most 32 bits at the low end of a register. */
  function Word(d: bits): register
    requires |d| <= 32
  {
    d + Repeat(false, 32 - |d|)
  }

  /** The byte is combined into the low end of the register, then eight steps follow. */
  function ByteStep(poly: register, c: register, b: byte): register {
    Steps(poly, Xor(c, Word(ByteBits(b))), 8)
  }

  function Register(poly: register, c: register, p: bytes): register
    decreases p
  {
    if p == [] then c else Register(poly, ByteStep(poly, c, p[0]), p[1..])
  }

  /** `binascii.crc32(payload) & 0xFFFFFFFF`. */
  function Checksum(payload: bytes): (sum: nat)
    ensures InU32(sum)
  {
    var d := Xor(Register(POLYNOMIAL, AllOnes(), payload), AllOnes());
    ValueBound(d);
    PowersOfTwo();
    Value(d)
  }

  /** The serial form: the same register, fed one bit at a time. */
  function Feed(poly: register, c: register, b: bool): register {
    BitStep(poly, Xor(c, Word([b])))
  }

  function Serial(poly: register, c: register, d: bits): register
    decreases d
  {
    if d == [] then c else Serial(poly, Feed(poly, c, d[0]), d[1..])
  }

  // ---------------------------------------------------------------- the register

  lemma XorCancel(r: bits, a: bits, b: bits)
    requires |r| == |a| == |b|
    requires Xor(r, a) == Xor(r, b)
    ensures a == b
  {
    forall i | 0 <= i < |r| ensures a[i] == b[i] {
      assert Xor(r, a)[i] == Xor(r, b)[i];
    }
  }

  lemma {:induction false} TopDigit(v: nat, n: nat)
    requires n > 0 && Pow2(n - 1) <= v < Pow2(n)
    ensures Digits(v, n)[n - 1]
  {
    if n > 1 {
      TopDigit(v / 2, n - 1);
    }
  }

  lemma PolynomialTop()
    ensures POLYNOMIAL[31]
  {
    PowersOfTwo();
    TopDigit(GENERATOR, 32);
  }

  /** A polynomial with its top bit set makes a step reveal the bit it shifted out. */
  lemma BitStepInjective(poly: register, a: register, b: register)
    requires poly[31] && BitStep(poly, a) == BitStep(poly, b)
    ensures a == b
  {
    assert BitStep(poly, a)[31] == BitStep(poly, b)[31];
    forall i | 0 < i < 32 ensures a[i] == b[i] {
      assert BitStep(poly, a)[i - 1] == BitStep(poly, b)[i - 1];
    }
  }

  lemma {:induction false} StepsInjective(poly: register, a: register, b: register, n: nat)
    requires poly[31] && Steps(poly, a, n) == Steps(poly, b, n)
    ensures a == b
    decreases n
  {
    if n > 0 {
      StepsInjective(poly, BitStep(poly, a), BitStep(poly, b), n - 1);
      BitStepInjective(poly, a, b);
    }
  }

  lemma FeedInjective(poly: register, a: register, b: register, x: bool)
    requires poly[31] && Feed(poly, a, x) == Feed(poly, b, x)
    ensures a == b
  {
    BitStepInjective(poly, Xor(a, Word([x])), Xor(b, Word([x])));
    assert Xor(a, Word([x])) == Xor(Word([x]), a) && Xor(b, Word([x])) == Xor(Word([x]), b);
    XorCancel(Word([x]), a, b);
  }

  lemma {:induction false} SerialInjective(poly: register, a: register, b: register, d: bits)
    requires poly[31] && Serial(poly, a, d) == Serial(poly, b, d)
    ensures a == b
    decreases d
  {
    if d != [] {
      SerialInjective(poly, Feed(poly, a, d[0]), Feed(poly, b, d[0]), d[1..]);
      FeedInjective(poly, a, b, d[0]);
    }
  }

  lemma {:induction false} SerialAppend(poly: register, c: register, d: bits, e: bits)
    ensures Serial(poly, c, d + e) == Serial(poly, Serial(poly, c, d), e)
    decreases d
  {
    if d == [] {
      assert d + e == e;
    } else {
      assert (d + e)[1..] == d[1..] + e;
      SerialAppend(poly, Feed(poly, c, d[0]), d[1..], e);
    }
  }

  /** Bits waiting above the low end pass through a step unchanged, one place lower. */
  lemma FeedShift(poly: register, c: register, d: bits)
    requires 0 < |d| <= 32
    ensures BitStep(poly, Xor(c, Word(d))) == Xor(Feed(poly, c, d[0]), Word(d[1..]))
  {
    var l, r := BitStep(poly, Xor(c, Word(d))), Xor(Feed(poly, c, d[0]), Word(d[1..]));
    forall i | 0 <= i < 32 ensures l[i] == r[i] {
      assert i < 31 ==> Word(d)[i + 1] == Word(d[1..])[i] && !Word([d[0]])[i + 1];
    }
  }

  /** Up to 32 bits may be combined into the register at once and shifted afterwards. */
  lemma {:induction false} SerialIsWord(poly: register, c: register, d: bits)
    requires |d| <= 32
    ensures Serial(poly, c, d) == Steps(poly, Xor(c, Word(d)), |d|)
    decreases d
  {
    if d == [] {
      assert Xor(c, Word(d)) == c;
    } else {
      SerialIsWord(poly, Feed(poly, c, d[0]), d[1..]);
      FeedShift(poly, c, d);
    }
  }

  /** The byte-wise register of the source is the serial one. */
  lemma {:induction false} RegisterIsSerial(poly: register, c: register, p: bytes)
    ensures Register(poly, c, p) == Serial(poly, c, PayloadBits(p))
    decreases p
  {
    if p != [] {
      SerialIsWord(poly, c, ByteBits(p[0]));
      RegisterIsSerial(poly, ByteStep(poly, c, p[0]), p[1..]);
      SerialAppend(poly, c, ByteBits(p[0]), PayloadBits(p[1..]));
    }
  }

  lemma WordInjective(d: bits, e: bits)
    requires |d| == |e| <= 32 && Word(d) == Word(e)
    ensures d == e
  {
    assert d == Word(d)[..|d|] && e == Word(e)[..|d|];
  }

  /** Messages that differ only inside one window of at most 32 bits leave different registers. */
  lemma SerialWindow(poly: register, c: register, pre: bits, d: bits, e: bits, suf: bits)
    requires poly[31] && |d| == |e| <= 32 && d != e
    ensures Serial(poly, c, pre + d + suf) != Serial(poly, c, pre + e + suf)
  {
    var r := Serial(poly, c, pre);
    SerialAppend(poly, c, pre + d, suf);
    SerialAppend(poly, c, pre + e, suf);
    SerialAppend(poly, c, pre, d);
    SerialAppend(poly, c, pre, e);
    if Serial(poly, c, pre + d + suf) == Serial(poly, c, pre + e + suf) {
      SerialInjective(poly, Serial(poly, r, d), Serial(poly, r, e), suf);
      SerialIsWord(poly, r, d);
      SerialIsWord(poly, r, e);
      StepsInjective(poly, Xor(r, Word(d)), Xor(r, Word(e)), |d|);
      XorCancel(r, Word(d), Word(e));
      WordInjective(d, e);
    }
  }

  // ---------------------------------------------------------------- values and payloads

  lemma {:induction false} ValueBound(d: bits)
    ensures Value(d) < Pow2(|d|)
  {
    if d != [] {
      ValueBound(d[1..]);
    }
  }

  lemma {:induction false} ValueInjective(d: bits, e: bits)
    requires |d| == |e| && Value(d) == Value(e)
    ensures d == e
  {
    if d != [] {
      ValueInjective(d[1..], e[1..]);
      assert d == [d[0]] + d[1..] && e == [e[0]] + e[1..];
    }
  }

  lemma {:induction false} DigitsValue(v: nat, n: nat)
    requires v < Pow2(n)
    ensures Value(Digits(v, n)) == v
  {
    if n > 0 {
      DigitsValue(v / 2, n - 1);
      assert Digits(v, n)[1..] == Digits(v / 2, n - 1);
    }
  }

  lemma {:induction false} PayloadBitsLength(p: bytes)
    ensures |PayloadBits(p)| == 8 * |p|
  {
    if p != [] {
      PayloadBitsLength(p[1..]);
    }
  }

  lemma {:induction false} PayloadBitsAt(p: bytes, k: nat, j: nat)
    requires k < |p| && j < 8
    ensures |PayloadBits(p)| == 8 * |p|
    ensures PayloadBits(p)[8 * k + j] == ByteBits(p[k])[j]
  {
    PayloadBitsLength(p);
    PayloadBitsLength(p[1..]);
    if k > 0 {
      PayloadBitsAt(p[1..], k - 1, j);
      assert PayloadBits(p)[8 * k + j] == PayloadBits(p[1..])[8 * (k - 1) + j];
    }
  }

  lemma {:induction false} PayloadBitsInjective(p: bytes, q: bytes)
    requires |p| == |q| && PayloadBits(p) == PayloadBits(q)
    ensures p == q
  {
    if p != [] {
      assert ByteBits(p[0]) == PayloadBits(p)[..8] && ByteBits(q[0]) == PayloadBits(q)[..8];
      PowersOfTwo();
      DigitsValue(p[0] as nat, 8);
      DigitsValue(q[0] as nat, 8);
      assert PayloadBits(p[1..]) == PayloadBits(p)[8..] && PayloadBits(q[1..]) == PayloadBits(q)[8..];
      PayloadBitsInjective(p[1..], q[1..]);
      assert p == [p[0]] + p[1..] && q == [q[0]] + q[1..];
    }
  }

  lemma ChecksumInjective(p: bytes, q: bytes)
    requires Checksum(p) == Checksum(q)
    ensures Register(POLYNOMIAL, AllOnes(), p) == Register(POLYNOMIAL, AllOnes(), q)
  {
    var a, b := Register(POLYNOMIAL, AllOnes(), p), Register(POLYNOMIAL, AllOnes(), q);
    ValueInjective(Xor(a, AllOnes()), Xor(b, AllOnes()));
    assert Xor(a, AllOnes()) == Xor(AllOnes(), a) && Xor(b, AllOnes()) == Xor(AllOnes(), b);
    XorCancel(AllOnes(), a, b);
  }

  /** The payloads agree at every bit outside the 32 bits that start at bit `at`. */
  ghost predicate AgreeOutsideBurst(p: bytes, q: bytes, at: nat) {
    |PayloadBits(p)| == |PayloadBits(q)| &&
    forall i :: 0 <= i < |PayloadBits(p)| && !(at <= i < at + 32) ==> PayloadBits(p)[i] == PayloadBits(q)[i]
  }

  /** Every error burst of at most 32 bits, at any bit position of a payload of any length, changes the checksum. */
  lemma BurstDetected(p: bytes, q: bytes, at: nat)
    requires |p| == |q| && p != q
    requires AgreeOutsideBurst(p, q, at)
    ensures Checksum(p) != Checksum(q)
  {
    var x, y := PayloadBits(p), PayloadBits(q);
    if x == y {
      PayloadBitsInjective(p, q);
    }
    var n := |x|;
    var lo := if at < n then at else n;
    var hi := if at + 32 < n then at + 32 else n;
    assert x == x[..lo] + x[lo..hi] + x[hi..];
    assert y == x[..lo] + y[lo..hi] + x[hi..];
    PolynomialTop();
    SerialWindow(POLYNOMIAL, AllOnes(), x[..lo], x[lo..hi], y[lo..hi], x[hi..]);
    RegisterIsSerial(POLYNOMIAL, AllOnes(), p);
    RegisterIsSerial(POLYNOMIAL, AllOnes(), q);
    if Checksum(p) == Checksum(q) {
      ChecksumInjective(p, q);
    }
  }

  /** In particular, changes confined to four consecutive bytes are seen. */
  lemma FourBytesDetected(p: bytes, q: bytes, at: nat)
    requires |p| == |q| && p != q
    requires forall k :: 0 <= k < |p| && !(at <= k < at + 4) ==> p[k] == q[k]
    ensures Checksum(p) != Checksum(q)
  {
    PayloadBitsLength(p);
    PayloadBitsLength(q);
    forall i | 0 <= i < |PayloadBits(p)| && !(8 * at <= i < 8 * at + 32)
      ensures PayloadBits(p)[i] == PayloadBits(q)[i]
    {
      PayloadBitsAt(p, i / 8, i % 8);
      PayloadBitsAt(q, i / 8, i % 8);
    }
    BurstDetected(p, q, 8 * at);
  }
}
