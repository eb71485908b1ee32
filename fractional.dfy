/** The floating-point codec: each payload byte `b` becomes the decimal
    fraction `b/1000` of one carrier value, after four carriers that hold
    the byte count, most significant byte first.

    A carrier is the value of an element's text, kept as an exact decimal:
    its integer part (the floor) and the digits of its fraction. Reading a
    byte back truncates the fraction to thousandths. */
module FractionalCodec {
  import opened Wrappers
  import opened BitStream

  type Digit = x: int | 0 <= x < 10

  /** `floor + 0.d1 d2 d3 …`: the fraction digits are never negative, so
      `whole` is the floor of the value even for negative numbers. */
  datatype Number = Number(whole: int, fraction: seq<Digit>)

  /** Fraction digit `k`, zero past the written ones. */
  function DigitAt(ds: seq<Digit>, k: nat): Digit
  {
    if k < |ds| then ds[k] else 0
  }

  /** `int((d - floor(d)) * 1000)`: the fraction truncated to thousandths. */
  function Thousandths(x: Number): (r: nat)
    ensures r < 1000
  {
    100 * DigitAt(x.fraction, 0) + 10 * DigitAt(x.fraction, 1) + DigitAt(x.fraction, 2)
  }

  /** The fraction `b/1000` as three digits. */
  function ThreeDigits(b: nat): (ds: seq<Digit>)
    requires b < 1000
    ensures |ds| == 3
  {
    [b / 100, b / 10 % 10, b % 10]
  }

  /** A number whose fraction is `b/1000` reads back as `b`. */
  lemma {:induction false} ThousandthsOfThreeDigits(whole: int, b: nat)
    requires b < 1000
    ensures Thousandths(Number(whole, ThreeDigits(b))) == b
  {
    var ds := ThreeDigits(b);
    assert DigitAt(ds, 0) == b / 100 && DigitAt(ds, 1) == b / 10 % 10 && DigitAt(ds, 2) == b % 10;
    assert b / 10 == 10 * (b / 100) + b / 10 % 10;
    assert b == 10 * (b / 10) + b % 10;
  }

  /** `str(b * 0.001 + floor(x))`, taken as the exact decimal it stands for. */
  function Conceal(x: Number, b: Byte): (y: Number)
    ensures y.whole == x.whole && Thousandths(y) == b
  {
    ThousandthsOfThreeDigits(x.whole, b);
    Number(x.whole, ThreeDigits(b))
  }

  // ----- the byte count -----

  /** `num_bytes`: the payload length, clamped to the carriers after the four
      count carriers. Fewer than four carriers make it negative. */
  function ClampedCount(carriers: nat, payloadLength: nat): int
  {
    if payloadLength + 4 > carriers then carriers - 4 else payloadLength
  }

  /** The clamp keeps the count within the payload and the written carriers
      within the list, and only clamps when the payload does not fit. */
  lemma {:induction false} ClampedCountBounds(carriers: nat, payloadLength: nat)
    ensures var c := ClampedCount(carriers, payloadLength);
      && 0 <= c + 4 <= carriers
      && c <= payloadLength
      && (c == payloadLength <==> payloadLength + 4 <= carriers)
      && (c < 0 <==> carriers < 4)
  {
  }

  /** 256^(3 - i), the weight of count byte `i`. */
  function Weight(i: nat): nat
    requires i < 4
  {
    if i == 0 then 0x100_0000 else if i == 1 then 0x1_0000 else if i == 2 then 0x100 else 1
  }

  /** `(num_bytes >> ((3 - i) * 8)) & 255`. Python shifts a negative number
      arithmetically and masks its two's complement, which is floor division
      followed by a non-negative remainder, as Dafny's `/` and `%` are for a
      positive divisor. */
  function CountByte(count: int, i: nat): (b: Byte)
    requires i < 4
  {
    count / Weight(i) % 256
  }

  /** The four count bytes. */
  function CountBytes(count: int): (h: seq<Byte>)
    ensures |h| == 4
    ensures CountValue(h) == count % 0x1_0000_0000
  {
    CountDigits(count);
    [CountByte(count, 0), CountByte(count, 1), CountByte(count, 2), CountByte(count, 3)]
  }

  /** `sum(bytes[i] * 2 ** (8 * (3 - i)) for i in range(4))` */
  function CountValue(h: seq<nat>): (v: nat)
    requires |h| == 4
    ensures (forall i :: 0 <= i < 4 ==> h[i] < 256) ==> v < 0x1_0000_0000
  {
    h[0] * Weight(0) + h[1] * Weight(1) + h[2] * Weight(2) + h[3] * Weight(3)
  }

  /** The base-256 digits of the count modulo 2^32, most significant first,
      sum back to it. */
  lemma {:induction false} CountDigits(count: int)
    ensures CountValue([CountByte(count, 0), CountByte(count, 1), CountByte(count, 2), CountByte(count, 3)])
      == count % 0x1_0000_0000
  {
    var q1, q2, q3 := count / 0x100, count / 0x1_0000, count / 0x100_0000;
    assert q2 == q1 / 0x100 && q3 == q2 / 0x100;
    assert count == 0x100 * q1 + count % 256;
    assert q1 == 0x100 * q2 + q1 % 256;
    assert q2 == 0x100 * q3 + q2 % 256;
    assert q3 == 0x100 * (q3 / 256) + q3 % 256;
    var v := CountValue([CountByte(count, 0), CountByte(count, 1), CountByte(count, 2), CountByte(count, 3)]);
    assert v == q3 % 256 * 0x100_0000 + q2 % 256 * 0x1_0000 + q1 % 256 * 0x100 + count % 256;
    assert 0 <= v < 0x1_0000_0000;
    assert count == 0x1_0000_0000 * (q3 / 256) + v;
    assert count / 0x1_0000_0000 == q3 / 256;
  }

  /** A negative count (fewer than four carriers) is written as 255, 255,
      255 and `256 + count`. */
  lemma {:induction false} NegativeCountBytes(count: int)
    requires -4 <= count < 0
    ensures CountBytes(count) == [255, 255, 255, 256 + count]
  {
  }

  // ----- the codec as functions -----

  /** The concealed byte stream: the count bytes, then the payload. */
  function Stream(count: int, payload: seq<Byte>): (s: seq<Byte>)
    ensures |s| == 4 + |payload|
  {
    CountBytes(count) + payload
  }

  /** What `bytes_to_floats` leaves in the carriers: the first `count + 4`
      get the stream's bytes as their fractions, the rest stay as they were. */
  function EncodeFloats(fs: seq<Number>, payload: seq<Byte>): (r: seq<Number>)
    ensures |r| == |fs|
  {
    var count := ClampedCount(|fs|, |payload|);
    var s := Stream(count, payload);
    seq(|fs|, i requires 0 <= i < |fs| =>
      if i < count + 4 then Conceal(fs[i], s[i]) else fs[i])
  }

  /** The thousandths of carriers `lo .. hi`, or `None` when the list ends
      first (Python's `IndexError`). */
  function Fractions(fs: seq<Number>, lo: nat, hi: int): (r: Option<seq<nat>>)
    ensures r.Some? <==> hi <= |fs| || hi <= lo
    ensures r.Some? ==> |r.value| == if hi <= lo then 0 else hi - lo
  {
    if hi <= lo then Some([])
    else if hi > |fs| then None
    else Some(seq<nat>(hi - lo, k requires 0 <= k < hi - lo => Thousandths(fs[lo + k])))
  }

  /** `floats_to_bytes`: without a count, the four count values and then
      the payload they announce; with a count, only that many payload values. */
  function DecodeFloats(fs: seq<Number>, numBytes: Option<int>): Option<seq<nat>>
  {
    match numBytes
    case Some(n) => Fractions(fs, 4, n + 4)
    case None =>
      match Fractions(fs, 0, 4)
      case None => None
      case Some(h) =>
        match Fractions(fs, 4, CountValue(h) + 4)
        case None => None
        case Some(body) => Some(h + body)
  }

  // ----- properties -----

  /** The encoding keeps every integer part, gives carrier `i` below
      `count + 4` the fraction of stream byte `i`, and leaves the other
      carriers alone. */
  lemma {:induction false} EncodeFloatsLayout(fs: seq<Number>, payload: seq<Byte>, i: nat)
    requires i < |fs|
    ensures var r, count := EncodeFloats(fs, payload), ClampedCount(|fs|, |payload|);
      && r[i].whole == fs[i].whole
      && (i < count + 4 ==> Thousandths(r[i]) == Stream(count, payload)[i])
      && (i >= count + 4 ==> r[i] == fs[i])
  {
    var count := ClampedCount(|fs|, |payload|);
    ClampedCountBounds(|fs|, |payload|);
    if i < count + 4 {
      ThousandthsOfThreeDigits(fs[i].whole, Stream(count, payload)[i]);
    }
  }

  /** The thousandths of the first `n` encoded carriers are the first `n`
      stream bytes. */
  lemma {:induction false} EncodedFractions(fs: seq<Number>, payload: seq<Byte>, lo: nat, hi: nat)
    requires lo <= hi <= ClampedCount(|fs|, |payload|) + 4
    ensures var count := ClampedCount(|fs|, |payload|);
      Fractions(EncodeFloats(fs, payload), lo, hi) == Some(Stream(count, payload)[lo..hi])
  {
    var count := ClampedCount(|fs|, |payload|);
    ClampedCountBounds(|fs|, |payload|);
    var r, s := EncodeFloats(fs, payload), Stream(count, payload);
    var got := Fractions(r, lo, hi).value;
    forall k | 0 <= k < hi - lo
      ensures got[k] == s[lo..hi][k]
    {
      EncodeFloatsLayout(fs, payload, lo + k);
    }
    assert got == s[lo..hi];
  }

  /** Decoding what was encoded, without a count, gives the four count
      bytes and then the payload up to the count they announce, which is
      the clamped count itself below 2^32 bytes; so dropping the first four
      gives the payload back, cut to the carriers available. Fewer than
      four carriers cannot be decoded. */
  lemma {:induction false} FloatsRoundTrip(fs: seq<Number>, payload: seq<Byte>)
    ensures var count := ClampedCount(|fs|, |payload|);
      && (|fs| < 4 ==> DecodeFloats(EncodeFloats(fs, payload), None) == None)
      && (|fs| >= 4 ==>
            DecodeFloats(EncodeFloats(fs, payload), None) ==
              Some(CountBytes(count) + payload[..count % 0x1_0000_0000]))
  {
    if |fs| >= 4 {
      FloatsRoundTripCarried(fs, payload);
    }
  }

  /** With four carriers or more, the header comes back first and the
      payload after it. */
  lemma {:induction false} FloatsRoundTripCarried(fs: seq<Number>, payload: seq<Byte>)
    requires |fs| >= 4
    ensures var count := ClampedCount(|fs|, |payload|);
      DecodeFloats(EncodeFloats(fs, payload), None) ==
        Some(CountBytes(count) + payload[..count % 0x1_0000_0000])
  {
    var count := ClampedCount(|fs|, |payload|);
    ClampedCountBounds(|fs|, |payload|);
    var s := Stream(count, payload);
    var n := count % 0x1_0000_0000;
    EncodedFractions(fs, payload, 0, 4);
    assert s[0..4] == CountBytes(count);
    EncodedFractions(fs, payload, 4, n + 4);
    assert s[4..n + 4] == payload[..n];
  }

  /** Decoding with the clamped count given gives the payload back, cut to
      the carriers available. */
  lemma {:induction false} FloatsRoundTripCounted(fs: seq<Number>, payload: seq<Byte>)
    requires |fs| >= 4
    ensures var count := ClampedCount(|fs|, |payload|);
      DecodeFloats(EncodeFloats(fs, payload), Some(count)) == Some(payload[..count])
  {
    var count := ClampedCount(|fs|, |payload|);
    ClampedCountBounds(|fs|, |payload|);
    EncodedFractions(fs, payload, 4, count + 4);
    assert Stream(count, payload)[4..count + 4] == payload[..count];
  }

  // ----- the codec as the program runs it -----

  /** `bytes_to_floats` */
  method BytesToFloats(floats: array<Number>, payload: seq<Byte>)
    modifies floats
    ensures floats[..] == EncodeFloats(old(floats[..]), payload)
  {
    ghost var fs := floats[..];
    var numBytes := |payload|;
    if numBytes + 4 > floats.Length {
      numBytes := floats.Length - 4;
    }
    var bytes: seq<Byte> := [];
    for i := 0 to 4
      invariant bytes == CountBytes(numBytes)[..i]
    {
      bytes := bytes + [CountByte(numBytes, i)];
    }
    bytes := bytes + payload;
    assert bytes == Stream(numBytes, payload);
    ClampedCountBounds(floats.Length, |payload|);
    for index := 0 to numBytes + 4
      invariant forall k :: 0 <= k < index ==> floats[k] == Conceal(fs[k], bytes[k])
      invariant forall k :: index <= k < floats.Length ==> floats[k] == fs[k]
    {
      floats[index] := Number(floats[index].whole, ThreeDigits(bytes[index]));
    }
    assert floats[..] == EncodeFloats(fs, payload);
  }

  /** `floats_to_bytes`; `None` stands for the `IndexError` raised when the
      carriers run out. */
  method FloatsToBytes(floats: array<Number>, numBytes: Option<int>) returns (r: Option<seq<nat>>)
    ensures r == DecodeFloats(floats[..], numBytes)
  {
    var bytes: seq<nat> := [];
    var count: int;
    if numBytes.None? {
      var header := ReadFractions(floats, 0, 4);
      if header.None? {
        return None;
      }
      bytes := header.value;
      count := SumCount(bytes);
    } else {
      count := numBytes.value;
    }
    var body := ReadFractions(floats, 4, count + 4);
    if body.None? {
      return None;
    }
    assert numBytes.Some? ==> bytes + body.value == body.value;
    return Some(bytes + body.value);
  }

  /** A loop of `floats_to_bytes` over `range(lo, hi)`: the thousandths of
      each carrier in turn, `None` where the list ends first. */
  method ReadFractions(floats: array<Number>, lo: nat, hi: int) returns (r: Option<seq<nat>>)
    ensures r == Fractions(floats[..], lo, hi)
  {
    var bytes: seq<nat> := [];
    var index := lo;
    while index < hi
      invariant lo <= index && (index <= hi || index == lo)
      invariant index <= floats.Length || index == lo
      invariant |bytes| == index - lo
      invariant forall k :: 0 <= k < index - lo ==> bytes[k] == Thousandths(floats[lo + k])
    {
      if index >= floats.Length {
        return None;
      }
      bytes := bytes + [Thousandths(floats[index])];
      index := index + 1;
    }
    if lo < hi {
      assert index == hi;
      var f := Fractions(floats[..], lo, hi).value;
      assert forall k :: 0 <= k < |f| ==> f[k] == bytes[k];
      assert f == bytes;
    }
    return Some(bytes);
  }

  /** The loop summing the four count bytes with weights 256^(3 - i). */
  method SumCount(bytes: seq<nat>) returns (count: nat)
    requires |bytes| == 4
    ensures count == CountValue(bytes)
  {
    count := 0;
    for i := 0 to 4
      invariant count == PartialCount(bytes, i)
    {
      count := count + bytes[i] * Weight(i);
    }
    assert PartialCount(bytes, 2) == bytes[0] * Weight(0) + bytes[1] * Weight(1);
  }

  /** The count as the loop summing it has it after `i` of the four bytes. */
  function PartialCount(h: seq<nat>, i: nat): nat
    requires i <= 4 <= |h|
  {
    if i == 0 then 0 else PartialCount(h, i - 1) + h[i - 1] * Weight(i - 1)
  }
}
