/**
 * VarInts: seven bits a byte, low group first, the top bit meaning "more follows"; the unsigned LEB128
 * form of section 7.6 of DWARF Version 4. The proxy and the protocol adapter carry the same two loops.
 */
module VarInt {
  import opened Bytes

  /** Values are naturals here: on any other the loop of the source does not end (EncodingEndsExactly). */
  function Encode(v: nat): bytes {
    if v < 128 then [v as byte] else [(v % 128 + 128) as byte] + Encode(v / 128)
  }

  /** What is left of a value after n turns of the encoding loop; `>>` rounds down. */
  function LeftAfter(v: int, n: nat): int
    decreases n
  {
    if n == 0 then v else LeftAfter(v / 128, n - 1)
  }

  /** The encoding loop, which stops when nothing is left, ends exactly on the values that are not negative. */
  lemma EncodingEndsExactly(v: int)
    ensures (exists n: nat :: n > 0 && LeftAfter(v, n) == 0) <==> v >= 0
  {
    if v >= 0 {
      var n := TurnsFor(v);
    } else {
      forall n: nat ensures LeftAfter(v, n) < 0 {
        StaysNegative(v, n);
      }
    }
  }

  lemma {:induction false} TurnsFor(v: nat) returns (n: nat)
    ensures n > 0 && LeftAfter(v, n) == 0
  {
    n := 1;
    if v < 128 {
      assert LeftAfter(v, 1) == LeftAfter(v / 128, 0);
    } else {
      n := TurnsFor(v / 128);
      n := n + 1;
    }
  }

  lemma {:induction false} StaysNegative(v: int, n: nat)
    requires v < 0
    ensures LeftAfter(v, n) < 0
    decreases n
  {
    if n > 0 {
      StaysNegative(v / 128, n - 1);
    }
  }

  /** 300 is 2 * 128 + 44. */
  lemma EncodeOf300()
    ensures Encode(0) == [0x00] && Encode(127) == [0x7F] && Encode(128) == [0x80, 0x01] && Encode(300) == [0xAC, 0x02]
  {
    assert Encode(2) == [0x02] && Encode(1) == [0x01];
  }

  /** The two errors are the two `ValueError`s. */
  datatype Result = Ok(value: nat, next: nat) | Incomplete | TooLarge

  /** k groups have been read already; a fifth continuation byte is refused. */
  function DecodeFrom(data: bytes, pos: nat, k: nat): Result
    decreases |data| - pos
  {
    if pos >= |data| then Incomplete
    else if data[pos] < 128 then Ok(data[pos] as nat, pos + 1)
    else if k >= 4 then TooLarge
    else match DecodeFrom(data, pos + 1, k + 1)
      case Ok(v, next) => Ok(data[pos] as nat % 128 + 128 * v, next)
      case error => error
  }

  function Decode(data: bytes, offset: nat): Result {
    DecodeFrom(data, offset, 0)
  }

  method EncodeVarint(value: nat) returns (result: bytes)
    ensures result == Encode(value)
  {
    result := [];
    var v := value;
    while true
      invariant result + Encode(v) == Encode(value)
      decreases v
    {
      var b := v % 128;
      var left := v / 128;
      if left != 0 {
        b := b + 128;
      }
      result := result + [b as byte];
      if left == 0 {
        break;
      }
      assert Encode(v) == [b as byte] + Encode(left);
      v := left;
    }
  }

  /** The bits collected so far stay below `1 << shift`, so `|=` adds. */
  method DecodeVarint(data: bytes, offset: nat) returns (r: Result)
    ensures r == Decode(data, offset)
  {
    var result: nat, shift: nat, pos: nat := 0, 0, offset;
    ghost var k: nat := 0;
    while true
      invariant shift == 7 * k && k < 5
      invariant result < Pow2(shift)
      invariant Decode(data, offset) == Shifted(result, Pow2(shift), DecodeFrom(data, pos, k))
      decreases 35 - shift
    {
      if pos >= |data| {
        return Incomplete;
      }
      var b := data[pos] as nat;
      ShiftGroup(result, Pow2(shift), data, pos, k);
      Pow2Seven(shift);
      result := result + b % 128 * Pow2(shift);
      pos := pos + 1;
      if b < 128 {
        break;
      }
      shift := shift + 7;
      if shift >= 35 {
        return TooLarge;
      }
      k := k + 1;
    }
    r := Ok(result, pos);
  }

  ghost function Shifted(low: nat, scale: nat, high: Result): Result {
    match high
    case Ok(v, next) => Ok(low + scale * v, next)
    case error => error
  }

  lemma ShiftGroup(low: nat, scale: nat, data: bytes, pos: nat, k: nat)
    requires low < scale && pos < |data| && k < 5
    ensures var b := data[pos] as nat;
            var sum := low + b % 128 * scale;
            sum < 128 * scale &&
            Shifted(low, scale, DecodeFrom(data, pos, k)) ==
            if b < 128 then Ok(sum, pos + 1)
            else if k == 4 then TooLarge
            else Shifted(sum, 128 * scale, DecodeFrom(data, pos + 1, k + 1))
  {
    var b := data[pos] as nat;
    GroupBound(low, scale, b % 128);
    match DecodeFrom(data, pos + 1, k + 1)
    case Ok(v, next) => Distribute(scale, b % 128, v);
    case error =>
  }

  lemma GroupBound(low: nat, scale: nat, g: nat)
    requires low < scale && g < 128
    ensures low + g * scale < 128 * scale
    ensures scale * g == g * scale
  {
    assert g * scale <= 127 * scale;
  }

  lemma Distribute(scale: nat, g: nat, v: nat)
    ensures scale * (g + 128 * v) == g * scale + 128 * scale * v
  {
  }

  // ---------------------------------------------------------------- the byte form

  /** One VarInt: continuation bytes, then a byte below 128. */
  predicate Terminated(bs: bytes) {
    bs != [] && bs[|bs| - 1] < 128 && forall i :: 0 <= i < |bs| - 1 ==> bs[i] >= 128
  }

  /** The number the groups spell in base 128, low group first. */
  function Number(bs: bytes): nat {
    if bs == [] then 0 else bs[0] as nat % 128 + 128 * Number(bs[1..])
  }

  lemma {:induction false} EncodeForm(v: nat)
    ensures Terminated(Encode(v)) && Number(Encode(v)) == v
  {
    if v >= 128 {
      EncodeForm(v / 128);
      assert Encode(v)[1..] == Encode(v / 128);
    }
  }

  /** Encode is the shortest form of its number, and the only one of that length. */
  lemma {:induction false} EncodeShortest(bs: bytes)
    requires Terminated(bs)
    ensures |Encode(Number(bs))| <= |bs|
    ensures |Encode(Number(bs))| == |bs| ==> Encode(Number(bs)) == bs
  {
    var b, rest := bs[0], bs[1..];
    if |bs| == 1 {
      assert Number(bs) == b as nat;
    } else {
      assert Terminated(rest);
      EncodeShortest(rest);
      EncodeGroup(b, Number(rest), Number(bs));
      assert bs == [b] + rest;
    }
  }

  lemma EncodeGroup(b: byte, high: nat, v: nat)
    requires b >= 128 && v == b as nat % 128 + 128 * high
    ensures Encode(v) == if high == 0 then [b - 128] else [b] + Encode(high)
    ensures |Encode(high)| > 0
  {
    var g := b as nat - 128;
    assert v % 128 == g && v / 128 == high;
  }

  /** No encoding is the beginning of another. */
  lemma PrefixFree(v: nat, w: nat)
    requires Encode(v) <= Encode(w)
    ensures v == w
  {
    EncodeForm(v);
    EncodeForm(w);
    var a, b := Encode(v), Encode(w);
    assert a[|a| - 1] == b[|a| - 1];
    assert a == b[..|a|] == b;
  }

  lemma {:induction false} EncodeLength(v: nat, k: nat)
    requires k > 0
    ensures |Encode(v)| <= k <==> v < Pow2(7 * k)
  {
    Pow2Seven(7 * k - 7);
    if v < 128 {
      assert Pow2(7 * k - 7) >= 1;
    } else if k == 1 {
      EncodeForm(v / 128);
    } else {
      EncodeLength(v / 128, k - 1);
    }
  }

  // ---------------------------------------------------------------- theorems

  lemma {:induction false} DecodeTerminated(pre: bytes, bs: bytes, suf: bytes, k: nat)
    requires Terminated(bs) && k <= 4
    ensures DecodeFrom(pre + bs + suf, |pre|, k) ==
            if k + |bs| <= 5 then Ok(Number(bs), |pre| + |bs|) else TooLarge
    decreases |bs|
  {
    var data := pre + bs + suf;
    assert data[|pre|] == bs[0];
    if |bs| == 1 {
      assert Number(bs) == bs[0] as nat;
    } else if k < 4 {
      assert Terminated(bs[1..]);
      assert pre + [bs[0]] + bs[1..] + suf == data;
      DecodeTerminated(pre + [bs[0]], bs[1..], suf, k + 1);
    }
  }

  /** Decoding undoes encoding between any other bytes, for exactly the values of at most 35 bits. */
  lemma RoundTripExactly(v: nat, pre: bytes, suf: bytes)
    ensures Decode(pre + Encode(v) + suf, |pre|) ==
            if v < 0x8_0000_0000 then Ok(v, |pre| + |Encode(v)|) else TooLarge
  {
    EncodeForm(v);
    EncodeLength(v, 5);
    PowersOfTwo();
    DecodeTerminated(pre, Encode(v), suf, 0);
  }

  lemma TerminatedLonger(data: bytes, pos: nat, next: nat)
    requires pos + 1 < next <= |data| && data[pos] >= 128 && Terminated(data[pos + 1..next])
    ensures Terminated(data[pos..next])
    ensures Number(data[pos..next]) == data[pos] as nat % 128 + 128 * Number(data[pos + 1..next])
  {
    assert data[pos..next] == [data[pos]] + data[pos + 1..next];
    assert data[pos..next][1..] == data[pos + 1..next];
  }

  lemma {:induction false} DecodeFromSound(data: bytes, pos: nat, k: nat)
    requires pos <= |data| && k <= 4
    ensures match DecodeFrom(data, pos, k)
            case Ok(v, next) =>
              && pos < next <= |data| && k + (next - pos) <= 5
              && Terminated(data[pos..next]) && v == Number(data[pos..next])
            case Incomplete => |data| - pos < 5 - k && forall i :: pos <= i < |data| ==> data[i] >= 128
            case TooLarge => pos + (5 - k) <= |data| && forall i :: pos <= i < pos + (5 - k) ==> data[i] >= 128
    decreases 5 - k
  {
    if pos < |data| {
      if data[pos] < 128 {
        assert data[pos..pos + 1] == [data[pos]];
      } else if k < 4 {
        DecodeFromSound(data, pos + 1, k + 1);
        match DecodeFrom(data, pos + 1, k + 1)
        case Ok(v, next) => TerminatedLonger(data, pos, next);
        case error =>
      }
    }
  }

  /** Every input has exactly one of the three outcomes, read off its bytes. */
  lemma DecodesExactly(data: bytes, offset: nat, v: nat, next: nat)
    requires offset <= |data|
    ensures Decode(data, offset) == Ok(v, next) <==>
            offset < next <= |data| && next - offset <= 5 &&
            Terminated(data[offset..next]) && v == Number(data[offset..next])
    ensures Decode(data, offset) == TooLarge <==>
            offset + 5 <= |data| && forall i :: offset <= i < offset + 5 ==> data[i] >= 128
    ensures Decode(data, offset) == Incomplete <==>
            |data| - offset < 5 && forall i :: offset <= i < |data| ==> data[i] >= 128
  {
    DecodeFromSound(data, offset, 0);
    if offset < next <= |data| && next - offset <= 5 && Terminated(data[offset..next]) {
      assert data == data[..offset] + data[offset..next] + data[next..];
      DecodeTerminated(data[..offset], data[offset..next], data[next..], 0);
    }
    match Decode(data, offset)
    case Ok(_, end) => assert data[end - 1] == data[offset..end][end - 1 - offset];
    case error =>
  }

  /** Whatever bytes decode to a value, its encoding is not longer, and equal if as long. */
  lemma DecodedNotShorter(data: bytes, offset: nat)
    requires offset <= |data| && Decode(data, offset).Ok?
    ensures var r := Decode(data, offset);
            offset < r.next <= |data| && r.value < 0x8_0000_0000 &&
            |Encode(r.value)| <= r.next - offset &&
            (|Encode(r.value)| == r.next - offset <==> Encode(r.value) == data[offset..r.next])
  {
    DecodeFromSound(data, offset, 0);
    var r := Decode(data, offset);
    EncodeShortest(data[offset..r.next]);
    EncodeLength(r.value, 5);
    PowersOfTwo();
  }

  lemma DecodeAt(data: bytes, pos: nat, v: nat)
    requires At(data, pos, Encode(v)) && v < 0x8_0000_0000
    ensures Decode(data, pos) == Ok(v, pos + |Encode(v)|)
  {
    var end := pos + |Encode(v)|;
    RoundTripExactly(v, data[..pos], data[end..]);
    assert data[..pos] + Encode(v) + data[end..] == data;
  }
}
