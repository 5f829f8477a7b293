/** Byte strings, Python slices and the big-endian fields every wire format of the repository uses. */
module Bytes {

  newtype byte = x: int | 0 <= x < 0x100

  type bytes = seq<byte>

  /** Failure-compatible, so that `:-` stands for an exception that leaves the surrounding function. */
  datatype Option<+T> = None | Some(value: T) {
    predicate IsFailure() { None? }

    function PropagateFailure<U>(): Option<U>
      requires None?
    {
      None
    }

    function Extract(): T
      requires Some?
    {
      value
    }
  }

  /** Python's `data[from:to]` for non-negative bounds: both ends are clipped to the length. */
  function Slice(data: bytes, from: nat, to: nat): bytes {
    var hi := if to < |data| then to else |data|;
    if from < hi then data[from..hi] else []
  }

  /** Python's `data[at:]`. */
  function Tail(data: bytes, at: nat): bytes {
    if at <= |data| then data[at..] else []
  }

  predicate InU8(v: int) { 0 <= v < 0x100 }

  predicate InU16(v: int) { 0 <= v < 0x1_0000 }

  predicate InU32(v: int) { 0 <= v < 0x1_0000_0000 }

  /** The bytes of `struct.pack('>H', v)`, which raises unless InU16(v). */
  function PutU16(v: int): bytes {
    [(v / 0x100 % 0x100) as byte, (v % 0x100) as byte]
  }

  function GetU16(b: bytes): nat
    requires |b| == 2
  {
    b[0] as int * 0x100 + b[1] as int
  }

  /** The bytes of `struct.pack('>I', v)`, which raises unless InU32(v). */
  function PutU32(v: int): bytes {
    PutU16(v / 0x1_0000) + PutU16(v % 0x1_0000)
  }

  function GetU32(b: bytes): nat
    requires |b| == 4
  {
    GetU16(b[..2]) * 0x1_0000 + GetU16(b[2..])
  }

  lemma U16RoundTrip(v: int)
    requires InU16(v)
    ensures |PutU16(v)| == 2 && GetU16(PutU16(v)) == v
  {
  }

  lemma U32RoundTrip(v: int)
    requires InU32(v)
    ensures |PutU32(v)| == 4 && GetU32(PutU32(v)) == v
  {
    U16RoundTrip(v / 0x1_0000);
    U16RoundTrip(v % 0x1_0000);
    assert PutU32(v)[..2] == PutU16(v / 0x1_0000) && PutU32(v)[2..] == PutU16(v % 0x1_0000);
  }

  lemma U16Back(b: bytes)
    requires |b| == 2
    ensures InU16(GetU16(b)) && PutU16(GetU16(b)) == b
  {
  }

  lemma U32Back(b: bytes)
    requires |b| == 4
    ensures InU32(GetU32(b)) && PutU32(GetU32(b)) == b
  {
    U16Back(b[..2]);
    U16Back(b[2..]);
    var hi, lo := GetU16(b[..2]), GetU16(b[2..]);
    assert GetU32(b) / 0x1_0000 == hi && GetU32(b) % 0x1_0000 == lo;
    assert b == b[..2] + b[2..];
  }

  /** `piece` stands in `data` at offset `pos`. */
  predicate At(data: bytes, pos: nat, piece: bytes) {
    pos + |piece| <= |data| && data[pos..pos + |piece|] == piece
  }

  lemma AtSplit(data: bytes, pos: nat, a: bytes, b: bytes)
    requires At(data, pos, a + b)
    ensures At(data, pos, a) && At(data, pos + |a|, b)
  {
    var whole := data[pos..pos + |a + b|];
    assert data[pos..pos + |a|] == whole[..|a|] == a;
    assert data[pos + |a|..pos + |a| + |b|] == whole[|a|..] == b;
  }

  lemma AtSplit3(data: bytes, pos: nat, a: bytes, b: bytes, c: bytes)
    requires At(data, pos, a + b + c)
    ensures At(data, pos, a) && At(data, pos + |a|, b) && At(data, pos + |a| + |b|, c)
  {
    AtSplit(data, pos, a + b, c);
    AtSplit(data, pos, a, b);
  }

  lemma AtSplit4(data: bytes, pos: nat, a: bytes, b: bytes, c: bytes, d: bytes)
    requires At(data, pos, a + b + c + d)
    ensures At(data, pos, a) && At(data, pos + |a|, b)
    ensures At(data, pos + |a| + |b|, c) && At(data, pos + |a| + |b| + |c|, d)
  {
    AtSplit(data, pos, a + b + c, d);
    AtSplit(data, pos, a + b, c);
    AtSplit(data, pos, a, b);
  }

  lemma AtSlice(data: bytes, pos: nat, piece: bytes)
    requires At(data, pos, piece)
    ensures Slice(data, pos, pos + |piece|) == piece
  {
  }

  /** The number that bytes spell in network order, the first byte the highest. */
  function BigEndian(b: bytes): nat {
    if b == [] then 0 else 256 * BigEndian(b[..|b| - 1]) + b[|b| - 1] as nat
  }

  lemma BigEndian2(b: bytes)
    requires |b| == 2
    ensures BigEndian(b) == 0x100 * b[0] as nat + b[1] as nat
  {
    assert b[..1][..0] == [];
    assert BigEndian(b[..1]) == b[0] as nat;
  }

  lemma BigEndian4(b: bytes)
    requires |b| == 4
    ensures BigEndian(b) == 0x100_0000 * b[0] as nat + 0x1_0000 * b[1] as nat + 0x100 * b[2] as nat + b[3] as nat
  {
    assert b[..3][..2] == b[..2];
    BigEndian2(b[..2]);
    assert BigEndian(b[..3]) == 256 * BigEndian(b[..2]) + b[2] as nat;
  }

  /** Two and four bytes are written in network order. */
  lemma PutIsBigEndian(v: int)
    ensures InU16(v) ==> |PutU16(v)| == 2 && BigEndian(PutU16(v)) == v
    ensures InU32(v) ==> |PutU32(v)| == 4 && BigEndian(PutU32(v)) == v
  {
    if InU16(v) {
      BigEndian2(PutU16(v));
    }
    if InU32(v) {
      BigEndian4(PutU32(v));
    }
  }

  /** And read in it. */
  lemma GetIsBigEndian(b: bytes)
    ensures |b| == 2 ==> GetU16(b) == BigEndian(b)
    ensures |b| == 4 ==> GetU32(b) == BigEndian(b)
  {
    if |b| == 2 {
      BigEndian2(b);
    }
    if |b| == 4 {
      BigEndian4(b);
    }
  }

  function Pow2(n: nat): (p: nat)
    ensures p > 0
  {
    if n == 0 then 1 else 2 * Pow2(n - 1)
  }

  lemma PowersOfTwo()
    ensures Pow2(8) == 0x100 && Pow2(31) == 0x8000_0000 && Pow2(32) == 0x1_0000_0000 && Pow2(35) == 0x8_0000_0000
  {
    assert Pow2(8) == 0x100;
    assert Pow2(16) == 0x1_0000;
    assert Pow2(24) == 0x100_0000;
  }

  lemma Pow2Seven(n: nat)
    ensures Pow2(n + 7) == 128 * Pow2(n)
  {
    assert Pow2(n + 2) == 2 * Pow2(n + 1);
    assert Pow2(n + 4) == 2 * Pow2(n + 3);
    assert Pow2(n + 6) == 2 * Pow2(n + 5);
  }

  /** The records of a list one after another, as a loop of `+=` leaves them. */
  function ConcatMap<T>(f: T -> bytes, xs: seq<T>): bytes {
    if xs == [] then [] else f(xs[0]) + ConcatMap(f, xs[1..])
  }

  lemma {:induction false} ConcatMapSnoc<T>(f: T -> bytes, xs: seq<T>, x: T)
    ensures ConcatMap(f, xs + [x]) == ConcatMap(f, xs) + f(x)
  {
    if xs == [] {
      assert xs + [x] == [x];
    } else {
      assert (xs + [x])[1..] == xs[1..] + [x];
      ConcatMapSnoc(f, xs[1..], x);
    }
  }

  lemma TakeSnoc<T>(s: seq<T>, i: nat)
    requires i < |s|
    ensures s[..i + 1] == s[..i] + [s[i]]
  {
  }
}
