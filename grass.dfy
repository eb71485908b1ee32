/** The grass field codec: payload bits written into the fields of the
    PlantGrass and PlantTallGrass elements of a save file.

    Each element carries 70 bits: 18 in the number after the def name in its
    id, 6 in its health (stored plus 5), 26 in its growth (stored as a
    fraction over 10^8) and 20 in its age; an element without an age carries
    only the first 50. The bit stream starts with a 22-bit big-endian count of
    the payload bits that follow. */
module GrassCodec {
  import opened Wrappers
  import opened BitStream

  /** The fields of one plant element the codec reads and writes: the
      number the id (`element[1]`) carries after the def name, health (`element[4]`), growth as an exact numerator over
      10^8 (`element[5]`) and age (`element[6]`, absent on some plants). */
  datatype Grass = Grass(id: nat, health: int, growth: nat, age: Option<nat>)

  /** Bits one element carries: 70, or 50 without an age. */
  function Capacity(g: Grass): nat
  {
    if g.age.Some? then 70 else 50
  }

  /** `get_grass_bits` reads `health - 5` as a binary number, which only has
      binary digits when the health is at least 5. */
  predicate Readable(g: Grass)
  {
    g.health >= 5
  }

  /** Every field holds a value its bit width can express. */
  predicate Fits(g: Grass)
  {
    && g.id < Limit(18)
    && 5 <= g.health < 5 + Limit(6)
    && g.growth < Limit(26)
    && (g.age.Some? ==> g.age.value < Limit(20))
  }

  // ----- one element -----

  /** `get_grass_bits` for an element whose health is at least 5, as bits:
      the fields as zero-filled binary numbers of 18, 6, 26 and (with an age)
      20 digits; a value too wide for its field keeps all of its digits.
      `GetText` below is the text it returns for any health. */
  function GetBits(g: Grass): (r: seq<bool>)
    requires Readable(g)
    ensures |r| >= Capacity(g)
  {
    ZeroFilled(g.id, 18) + ZeroFilled(g.health - 5, 6) + ZeroFilled(g.growth, 26)
      + (if g.age.Some? then ZeroFilled(g.age.value, 20) else [])
  }

  /** What `set_grass_bits` writes into `g` from the 70 bits at `i`, read as
      zeros past the end of `bits`. */
  function SetGrass(g: Grass, bits: seq<bool>, i: nat): (h: Grass)
    requires i < |bits|
    ensures h.age.Some? == g.age.Some?
    ensures Fits(h) && Readable(h)
  {
    FieldBound(Window(bits, i, 18));
    FieldBound(Window(bits, i + 18, 6));
    FieldBound(Window(bits, i + 24, 26));
    FieldBound(Window(bits, i + 50, 20));
    Grass(FromBits(Window(bits, i, 18)), FromBits(Window(bits, i + 18, 6)) + 5,
          FromBits(Window(bits, i + 24, 26)),
          if g.age.Some? then Some(FromBits(Window(bits, i + 50, 20))) else None)
  }

  /** Reading an element back gives exactly the 70 (or 50) bits written into
      it, zero-padded past the end of the stream. */
  lemma {:induction false} GetAfterSet(g: Grass, bits: seq<bool>, i: nat)
    requires i < |bits|
    ensures GetBits(SetGrass(g, bits, i)) == Window(bits, i, Capacity(g))
  {
    ZeroFilledFromBits(Window(bits, i, 18));
    ZeroFilledFromBits(Window(bits, i + 18, 6));
    ZeroFilledFromBits(Window(bits, i + 24, 26));
    ZeroFilledFromBits(Window(bits, i + 50, 20));
    WindowAppend(bits, i, 18, 6);
    WindowAppend(bits, i, 24, 26);
    WindowAppend(bits, i, 50, 20);
  }

  /** The fields of an element whose values fit their widths sit at fixed
      offsets of its bits, and reading each offset gives the field back. */
  lemma {:induction false} GetBitsLayout(g: Grass)
    requires Readable(g) && Fits(g)
    ensures |GetBits(g)| == Capacity(g)
    ensures FromBits(Window(GetBits(g), 0, 18)) == g.id
    ensures FromBits(Window(GetBits(g), 18, 6)) == g.health - 5
    ensures FromBits(Window(GetBits(g), 24, 26)) == g.growth
    ensures g.age.Some? ==> FromBits(Window(GetBits(g), 50, 20)) == g.age.value
  {
    var s := GetBits(g);
    GetBitsWindows(g);
    FieldRead(s, 0, 18, g.id);
    FieldRead(s, 18, 6, g.health - 5);
    FieldRead(s, 24, 26, g.growth);
    if g.age.Some? {
      FieldRead(s, 50, 20, g.age.value);
    }
  }

  /** Each field's zero-filled digits sit at its offset of the element's bits. */
  lemma {:induction false} GetBitsWindows(g: Grass)
    requires Readable(g) && Fits(g)
    ensures |GetBits(g)| == Capacity(g)
    ensures Window(GetBits(g), 0, 18) == ZeroFilled(g.id, 18)
    ensures Window(GetBits(g), 18, 6) == ZeroFilled(g.health - 5, 6)
    ensures Window(GetBits(g), 24, 26) == ZeroFilled(g.growth, 26)
    ensures g.age.Some? ==> Window(GetBits(g), 50, 20) == ZeroFilled(g.age.value, 20)
  {
    FieldWidth(g.id, 18);
    FieldWidth(g.health - 5, 6);
    FieldWidth(g.growth, 26);
    var tail := if g.age.Some? then ZeroFilled(g.age.value, 20) else [];
    if g.age.Some? {
      FieldWidth(g.age.value, 20);
    }
    ConcatWindows(ZeroFilled(g.id, 18), ZeroFilled(g.health - 5, 6), ZeroFilled(g.growth, 26), tail);
  }

  /** Where each of four concatenated pieces sits in the whole. */
  lemma {:induction false} ConcatWindows(a: seq<bool>, b: seq<bool>, c: seq<bool>, d: seq<bool>)
    ensures var s := a + b + c + d;
      && Window(s, 0, |a|) == a
      && Window(s, |a|, |b|) == b
      && Window(s, |a| + |b|, |c|) == c
      && Window(s, |a| + |b| + |c|, |d|) == d
  {
  }

  /** An element whose fields fit their widths yields exactly its capacity,
      and writing those bits back into it changes nothing. */
  lemma {:induction false} SetAfterGet(g: Grass)
    requires Readable(g) && Fits(g)
    ensures |GetBits(g)| == Capacity(g)
    ensures SetGrass(g, GetBits(g), 0) == g
  {
    GetBitsLayout(g);
  }

  // ----- the whole element list -----

  /** The bit cursor of the encoding and decoding loops when they reach
      element `k`: the capacities of the elements before it. */
  function Cursor(gs: seq<Grass>, k: nat): nat
    requires k <= |gs|
    decreases k
  {
    if k == 0 then 0 else Cursor(gs, k - 1) + Capacity(gs[k - 1])
  }

  /** Bits the elements hold together. */
  function TotalCapacity(gs: seq<Grass>): nat
  {
    Cursor(gs, |gs|)
  }

  /** Each element holds 70 bits with an age, 50 without. */
  lemma {:induction false} CursorBounds(gs: seq<Grass>, k: nat)
    requires k <= |gs|
    ensures 50 * k <= Cursor(gs, k) <= 70 * k
    decreases k
  {
    if k > 0 {
      CursorBounds(gs, k - 1);
    }
  }

  lemma {:induction false} CursorMonotone(gs: seq<Grass>, a: nat, b: nat)
    requires a <= b <= |gs|
    ensures Cursor(gs, a) <= Cursor(gs, b)
    decreases b
  {
    if a < b {
      CursorMonotone(gs, a, b - 1);
    }
  }

  /** Payload sizes the 22-bit header can express. */
  const HeaderLimit := Limit(22)

  /** `payload_size`: the payload bits, clamped to 70 bits per element less
      the header. */
  function StoredBits(count: nat, payloadLength: nat): int
  {
    Min(count * 70 - 22, payloadLength * 8)
  }

  /** The header then the payload bits, as `bytes_to_grasses` lays them out. */
  function FramedBits(count: nat, p: seq<Byte>): (bits: seq<bool>)
    requires count > 0 && StoredBits(count, |p|) < HeaderLimit
    ensures |bits| == 22 + 8 * |p|
  {
    FieldExact(StoredBits(count, |p|), 22);
    ZeroFilled(StoredBits(count, |p|), 22) + BytesToBits(p)
  }

  /** The header and the payload within the framed bits. */
  lemma {:induction false} FramedParts(count: nat, p: seq<Byte>)
    requires count > 0 && StoredBits(count, |p|) < HeaderLimit
    ensures FramedBits(count, p)[..22] == ZeroFilled(StoredBits(count, |p|), 22)
    ensures FramedBits(count, p)[22..] == BytesToBits(p)
  {
    FieldExact(StoredBits(count, |p|), 22);
  }

  /** What `bytes_to_grasses` leaves in the element list. Its loop writes
      the bits at the cursor into each element it reaches and stops at the
      first element reached with the cursor at the header and payload size
      or past it. The cursor only grows, so the elements written are exactly
      those reached with the cursor still short of that size. */
  function EncodeGrasses(gs: seq<Grass>, p: seq<Byte>): (enc: seq<Grass>)
    requires StoredBits(|gs|, |p|) < HeaderLimit
    ensures |enc| == |gs|
  {
    if |gs| == 0 then []
    else WriteFrom(gs, FramedBits(|gs|, p), StoredBits(|gs|, |p|) + 22)
  }

  /** The elements after the loop of `bytes_to_grasses` wrote `bits` into
      them: an element reached with the cursor short of `num` holds the bits
      at the cursor, the others are unchanged. */
  function WriteFrom(gs: seq<Grass>, bits: seq<bool>, num: nat): (enc: seq<Grass>)
    requires num <= |bits|
    ensures |enc| == |gs|
  {
    seq(|gs|, j requires 0 <= j < |gs| => ElementAfter(gs, bits, num, j))
  }

  /** What element `j` holds after the loop. */
  function ElementAfter(gs: seq<Grass>, bits: seq<bool>, num: nat, j: nat): (g: Grass)
    requires num <= |bits| && j < |gs|
    ensures g.age.Some? == gs[j].age.Some?
    ensures Cursor(gs, j) < num ==> Fits(g) && Readable(g)
  {
    if Cursor(gs, j) < num then SetGrass(gs[j], bits, Cursor(gs, j)) else gs[j]
  }

  // ----- decoding -----

  /** `get_grass_bits` as the text it returns: the fields zero-filled to 18,
      6, 26 and (with an age) 20 characters. A health below 5 makes
      `bin(health - 5)[2:]` start with the letter 'b'. */
  function GetText(g: Grass): (t: seq<Symbol>)
    ensures |t| >= Capacity(g)
  {
    FieldText(g.id, 18) + FieldText(g.health - 5, 6) + FieldText(g.growth, 26)
      + (if g.age.Some? then FieldText(g.age.value, 20) else [])
  }

  /** A readable element's text spells its bits. */
  lemma {:induction false} TextOfReadable(g: Grass)
    requires Readable(g)
    ensures GetText(g) == AsText(GetBits(g))
  {
    var a, b, c := ZeroFilled(g.id, 18), ZeroFilled(g.health - 5, 6), ZeroFilled(g.growth, 26);
    var d := if g.age.Some? then ZeroFilled(g.age.value, 20) else [];
    AsTextAppend(a, b);
    AsTextAppend(a + b, c);
    AsTextAppend(a + b + c, d);
  }

  /** The text `get_grass_bits` returns for the first `k` elements, in order. */
  function TextUpTo(gs: seq<Grass>, k: nat): (r: seq<Symbol>)
    requires k <= |gs|
    ensures k > 0 ==> |r| >= 50
    decreases k
  {
    if k == 0 then [] else TextUpTo(gs, k - 1) + GetText(gs[k - 1])
  }

  /** Reading more elements only appends text. */
  lemma {:induction false} TextPrefix(gs: seq<Grass>, i: nat, j: nat)
    requires i <= j <= |gs|
    ensures |TextUpTo(gs, i)| <= |TextUpTo(gs, j)|
    ensures TextUpTo(gs, j)[..|TextUpTo(gs, i)|] == TextUpTo(gs, i)
    decreases j
  {
    if i < j {
      TextPrefix(gs, i, j - 1);
      assert TextUpTo(gs, j) == TextUpTo(gs, j - 1) + GetText(gs[j - 1]);
      PrefixAppend(TextUpTo(gs, i), TextUpTo(gs, j - 1), GetText(gs[j - 1]));
    }
  }

  /** A prefix of `b` is a prefix of `b + c`. */
  lemma PrefixAppend<T>(a: seq<T>, b: seq<T>, c: seq<T>)
    requires |a| <= |b| && b[..|a|] == a
    ensures |a| <= |b + c| && (b + c)[..|a|] == a
  {
    assert (b + c)[..|a|] == b[..|a|];
  }

  /** A slice from `i` is a prefix of the tail from `i`. */
  lemma TailSlice<T>(a: seq<T>, b: seq<T>, i: nat, j: nat)
    requires i <= j <= |a| && a[i..] == b
    ensures a[i..j] == b[..j - i]
  {
  }

  /** The first element's text is the text of the first element alone. */
  lemma {:induction false} FirstText(gs: seq<Grass>)
    requires |gs| > 0
    ensures TextUpTo(gs, 1) == GetText(gs[0])
  {
    assert TextUpTo(gs, 1) == [] + GetText(gs[0]);
  }

  /** Past the header, reading one more element appends its text. */
  lemma {:induction false} TextStep(gs: seq<Grass>, k: nat)
    requires k < |gs| && |TextUpTo(gs, k)| >= 22
    ensures |TextUpTo(gs, k + 1)| >= 22
    ensures TextUpTo(gs, k + 1)[22..] == TextUpTo(gs, k)[22..] + GetText(gs[k])
  {
    var read, next := TextUpTo(gs, k), GetText(gs[k]);
    assert TextUpTo(gs, k + 1) == read + next;
    TailAppend(read, next, 22);
  }

  /** Dropping a prefix of `a` from `a + b` leaves the rest of `a`, then `b`. */
  lemma TailAppend<T>(a: seq<T>, b: seq<T>, n: nat)
    requires n <= |a|
    ensures (a + b)[n..] == a[n..] + b
  {
  }

  /** Where the loop of `bytes_from_grasses`, at element `k`, stops: at the
      end of the list, or at the first element reached once the text after
      the 22 header characters is `num` long. The comparison counts the
      header in `num` but not in the text, so the loop may read one element
      more than the payload needs. */
  function ReadCount(gs: seq<Grass>, num: nat, k: nat): (n: nat)
    requires 1 <= k <= |gs|
    ensures k <= n <= |gs|
    ensures n == |gs| || |TextUpTo(gs, n)| - 22 >= num
    decreases |gs| - k
  {
    if k == |gs| || |TextUpTo(gs, k)| - 22 >= num then k else ReadCount(gs, num, k + 1)
  }

  /** Elements read before the text reaches `num` do not stop the loop. */
  lemma {:induction false} ReadCountFrom(gs: seq<Grass>, num: nat, k: nat, w: nat)
    requires 1 <= k <= w <= |gs|
    requires forall j :: k <= j < w ==> |TextUpTo(gs, j)| - 22 < num
    ensures ReadCount(gs, num, k) >= w
    decreases w - k
  {
    if k < w {
      ReadCountFrom(gs, num, k + 1, w);
    }
  }

  /** The payload text `bytes_from_grasses` keeps: the header is the first
      22 characters of the first element read as a number `h`; after the
      loop, the text past the header is cut to `h` characters. `None` where
      `elements[0]` raises `IndexError` or `int(..., 2)` of the header
      raises `ValueError`. */
  function DecodedText(gs: seq<Grass>): (r: Option<seq<Symbol>>)
    ensures r.Some? ==> |gs| > 0
  {
    if |gs| == 0 then None
    else
      match ParseBinary(GetText(gs[0])[..22])
      case None => None
      case Some(h) => Some(Kept(gs, h))
  }

  /** The text the decoder keeps for the header `h`: at most `h`
      characters of what it reads after the header. */
  function Kept(gs: seq<Grass>, h: nat): (t: seq<Symbol>)
    requires |gs| > 0
    ensures |t| <= h
  {
    Take(TextUpTo(gs, ReadCount(gs, h + 22, 1))[22..], h)
  }

  /** What `bytes_from_grasses` returns: the kept text in groups of eight
      characters, a short last group read as it is; `None` where it raises. */
  function DecodeGrasses(gs: seq<Grass>): (r: Option<seq<nat>>)
    ensures r.Some? ==> forall k :: 0 <= k < |r.value| ==> r.value[k] < 256
  {
    match DecodedText(gs)
    case None => None
    case Some(t) => ParseGroups(t)
  }

  // ----- encoding then decoding -----

  /** Element `i` of `enc` is that of `gs` with the bits at its cursor
      written in. */
  predicate WrittenAt(gs: seq<Grass>, enc: seq<Grass>, bits: seq<bool>, i: nat)
    requires i < |gs| && i < |enc|
  {
    Cursor(gs, i) < |bits| && enc[i] == SetGrass(gs[i], bits, Cursor(gs, i))
  }

  /** Elements `0 .. j` of `enc` are all written. */
  predicate Written(gs: seq<Grass>, enc: seq<Grass>, bits: seq<bool>, j: nat)
  {
    && j <= |gs| && j <= |enc|
    && forall i :: 0 <= i < j ==> WrittenAt(gs, enc, bits, i)
  }

  /** Elements written one after the other read back as the stream up to
      the cursor, zero-padded past its end. */
  lemma {:induction false} WrittenText(gs: seq<Grass>, enc: seq<Grass>, bits: seq<bool>, j: nat)
    requires Written(gs, enc, bits, j)
    ensures TextUpTo(enc, j) == AsText(Padded(bits, Cursor(gs, j)))
    decreases j
  {
    if j > 0 {
      var c, cap := Cursor(gs, j - 1), Capacity(gs[j - 1]);
      assert Written(gs, enc, bits, j - 1);
      WrittenText(gs, enc, bits, j - 1);
      assert WrittenAt(gs, enc, bits, j - 1);
      GetAfterSet(gs[j - 1], bits, c);
      TextOfReadable(enc[j - 1]);
      PaddedAppend(bits, c, cap);
      AsTextAppend(Padded(bits, c), Window(bits, c, cap));
    }
  }

  /** The encoding writes every element reached with the cursor short of
      the header and payload size. */
  lemma {:induction false} EncodedWritten(gs: seq<Grass>, p: seq<Byte>, j: nat)
    requires |gs| > 0 && StoredBits(|gs|, |p|) < HeaderLimit
    requires j <= |gs| && (j == 0 || Cursor(gs, j - 1) < StoredBits(|gs|, |p|) + 22)
    ensures Written(gs, EncodeGrasses(gs, p), FramedBits(|gs|, p), j)
  {
    var num := StoredBits(|gs|, |p|) + 22;
    forall i | 0 <= i < j
      ensures Cursor(gs, i) < num
    {
      CursorMonotone(gs, i, j - 1);
    }
  }

  /** The first element from `k` on that the encoding loop reaches with the
      cursor at `num` or past it, or the end of the list. */
  function Reach(gs: seq<Grass>, num: nat, k: nat): (w: nat)
    requires k <= |gs|
    ensures k <= w <= |gs| && (w == |gs| || Cursor(gs, w) >= num)
    ensures forall j :: k <= j < w ==> Cursor(gs, j) < num
    decreases |gs| - k
  {
    if k == |gs| || Cursor(gs, k) >= num then k else Reach(gs, num, k + 1)
  }

  /** The text the decoder keeps from elements whose first `c` characters
      spell the stream padded to `c` bits: the `s` payload bits after the
      header, or those up to `c` when all of the text is those `c`. */
  lemma {:induction false} KeptText(all: seq<Symbol>, bits: seq<bool>, c: nat, s: nat)
    requires 22 <= c <= |all| && s + 22 <= |bits|
    requires all[..c] == AsText(Padded(bits, c))
    requires c >= s + 22 || c == |all|
    ensures Take(all[22..], s) == AsText(bits[22..Min(s + 22, c)])
  {
    var m := Min(s + 22, c);
    PaddedSlice(bits, c, 22, m);
    AsTextSlice(Padded(bits, c), 22, m);
    assert Take(all[22..], s) == all[..c][22..m];
  }

  /** A text spelling the framed stream for the size `s` starts with a
      header that reads as `s`. */
  lemma {:induction false} HeaderText(bits: seq<bool>, s: nat, text: seq<Symbol>, c: nat)
    requires s < HeaderLimit && 22 <= c && 22 <= |bits| && bits[..22] == ZeroFilled(s, 22)
    requires text == AsText(Padded(bits, c))
    ensures ParseBinary(text[..22]) == Some(s)
  {
    PaddedSlice(bits, c, 0, 22);
    AsTextSlice(Padded(bits, c), 0, 22);
    assert text[..22] == AsText(ZeroFilled(s, 22));
    ParseFieldText(s, 22);
  }

  /** The header the decoder reads from the written elements is `s`. */
  lemma {:induction false} WrittenHeader(gs: seq<Grass>, enc: seq<Grass>, bits: seq<bool>, s: nat, w: nat)
    requires |gs| == |enc| > 0 && s < HeaderLimit && s + 22 <= |bits| && bits[..22] == ZeroFilled(s, 22)
    requires w == Reach(gs, s + 22, 0) && Written(gs, enc, bits, w)
    ensures ParseBinary(GetText(enc[0])[..22]) == Some(s)
  {
    var c := Cursor(gs, w);
    WrittenText(gs, enc, bits, w);
    CursorBounds(gs, w);
    var text := TextUpTo(enc, w);
    FirstText(enc);
    TextPrefix(enc, 1, w);
    assert GetText(enc[0])[..22] == text[..22];
    HeaderText(bits, s, text, c);
  }

  /** The decoding loop reads at least the written elements: the text of
      each shorter run of them is shorter than the announced size. */
  lemma {:induction false} WrittenRead(gs: seq<Grass>, enc: seq<Grass>, bits: seq<bool>, s: nat, w: nat)
    requires |gs| == |enc| > 0 && s + 22 <= |bits|
    requires w == Reach(gs, s + 22, 0) && Written(gs, enc, bits, w)
    ensures 1 <= w <= ReadCount(enc, s + 22, 1)
  {
    forall j | 1 <= j < w
      ensures |TextUpTo(enc, j)| - 22 < s + 22
    {
      assert Written(gs, enc, bits, j);
      WrittenText(gs, enc, bits, j);
    }
    ReadCountFrom(enc, s + 22, 1, w);
  }

  /** Elements written up to the first one the encoding loop reaches with
      the cursor at the header and payload size `s + 22` decode to the
      payload bits they hold, whatever the elements after them hold. */
  lemma {:induction false} DecodeWritten(gs: seq<Grass>, enc: seq<Grass>, bits: seq<bool>, s: nat, w: nat)
    requires |gs| == |enc| > 0 && s < HeaderLimit && s + 22 <= |bits| && bits[..22] == ZeroFilled(s, 22)
    requires w == Reach(gs, s + 22, 0) && Written(gs, enc, bits, w)
    ensures DecodedText(enc) == Some(AsText(bits[22..Min(s + 22, Cursor(gs, w))]))
  {
    WrittenHeader(gs, enc, bits, s, w);
    WrittenRead(gs, enc, bits, s, w);
    WrittenText(gs, enc, bits, w);
    CursorBounds(gs, w);
    var n := ReadCount(enc, s + 22, 1);
    TextPrefix(enc, w, n);
    KeptText(TextUpTo(enc, n), bits, Cursor(gs, w), s);
  }

  /** Decoding what was encoded gives the leading payload bits: all the
      clamped size announces, or fewer when elements without an age leave
      less room than the clamp assumed. Elements past those written are
      never read, or read only past the cut, whatever their fields hold. */
  lemma {:induction false} DecodeEncodedText(gs: seq<Grass>, p: seq<Byte>)
    requires |gs| > 0 && StoredBits(|gs|, |p|) < HeaderLimit
    ensures DecodedText(EncodeGrasses(gs, p)) ==
      Some(AsText(BytesToBits(p)[..Min(StoredBits(|gs|, |p|), TotalCapacity(gs) - 22)]))
  {
    var s := StoredBits(|gs|, |p|);
    var w := Reach(gs, s + 22, 0);
    EncodedWritten(gs, p, w);
    FramedParts(|gs|, p);
    DecodeStream(gs, EncodeGrasses(gs, p), FramedBits(|gs|, p), BytesToBits(p), s, w);
  }

  /** Elements written with a header of `s` followed by `payload` decode to
      the first `min(s, capacity - 22)` payload bits. */
  lemma {:induction false} DecodeStream(gs: seq<Grass>, enc: seq<Grass>, bits: seq<bool>, payload: seq<bool>, s: nat, w: nat)
    requires |gs| == |enc| > 0 && s < HeaderLimit && s + 22 <= |bits|
    requires bits[..22] == ZeroFilled(s, 22) && bits[22..] == payload
    requires w == Reach(gs, s + 22, 0) && Written(gs, enc, bits, w)
    ensures DecodedText(enc) == Some(AsText(payload[..Min(s, TotalCapacity(gs) - 22)]))
  {
    DecodeWritten(gs, enc, bits, s, w);
    ReachedLength(gs, s, w);
    TailSlice(bits, payload, 22, Min(s + 22, Cursor(gs, w)));
  }

  /** The loop stops writing at `s + 22` bits or at the end of the list,
      whichever comes first. */
  lemma {:induction false} ReachedLength(gs: seq<Grass>, s: nat, w: nat)
    requires |gs| > 0 && w == Reach(gs, s + 22, 0)
    ensures Min(s + 22, Cursor(gs, w)) - 22 == Min(s, TotalCapacity(gs) - 22)
  {
    CursorBounds(gs, |gs|);
    CursorBounds(gs, w);
    if w < |gs| {
      CursorMonotone(gs, w, |gs|);
    }
  }

  /** A payload that fits the elements is stored whole. */
  lemma {:induction false} RoomForPayload(gs: seq<Grass>, n: nat)
    requires |gs| > 0 && 8 * n + 22 <= TotalCapacity(gs)
    ensures Min(StoredBits(|gs|, n), TotalCapacity(gs) - 22) == 8 * n
  {
    CursorBounds(gs, |gs|);
  }

  /** Round trip: a payload that fits the elements, header included, comes
      back exactly, whatever the elements held before. */
  lemma {:induction false} GrassRoundTrip(gs: seq<Grass>, p: seq<Byte>)
    requires 8 * |p| + 22 <= TotalCapacity(gs) && 8 * |p| < HeaderLimit
    ensures |gs| > 0 && StoredBits(|gs|, |p|) < HeaderLimit
    ensures DecodeGrasses(EncodeGrasses(gs, p)) == Some(p)
  {
    assert |gs| > 0;
    RoomForPayload(gs, |p|);
    DecodeEncodedText(gs, p);
    BytesToBitsWhole(p);
    ParseGroupsText(BytesToBits(p));
  }

  // ----- the elements as objects -----

  /** The bits `set_grass_bits` slices its fields from: the stream, with
      zeros appended when fewer than 70 remain at `i`. */
  lemma {:induction false} PaddedWindow(bits: seq<bool>, i: nat, padded: seq<bool>)
    requires i < |bits|
    requires var rest := |bits| - i;
      padded == if rest < 70 then bits + ZerosTimes((rest + 69) / 70 * 70 - rest) else bits
    ensures i + 70 <= |padded|
    ensures padded[i..i + 18] == Window(bits, i, 18)
    ensures padded[i + 18..i + 24] == Window(bits, i + 18, 6)
    ensures padded[i + 24..i + 50] == Window(bits, i + 24, 26)
    ensures padded[i + 50..i + 70] == Window(bits, i + 50, 20)
  {
    var rest := |bits| - i;
    var z := if rest < 70 then 70 - rest else 0;
    assert padded == bits + Zeros(z) by {
      if rest < 70 {
        assert (rest + 69) / 70 == 1;
      } else {
        assert bits + Zeros(0) == bits;
      }
    }
    WindowOfPadded(bits, z, i, 18);
    WindowOfPadded(bits, z, i + 18, 6);
    WindowOfPadded(bits, z, i + 24, 26);
    WindowOfPadded(bits, z, i + 50, 20);
  }

  /** A plant element of the parsed save file, updated in place. */
  class Plant {
    /** The def name (`element[0]`), which the id text starts with. */
    const prefix: string
    var id: nat
    var health: int
    var growth: nat
    var age: Option<nat>

    function Fields(): Grass
      reads this
    {
      Grass(id, health, growth, age)
    }

    /** `set_grass_bits`: writes the bits at `bitIndex` into this element and
        returns the advanced cursor. */
    method SetGrassBits(bits: seq<bool>, bitIndex: nat) returns (next: nat)
      requires bitIndex < |bits|
      modifies this
      ensures Fields() == SetGrass(old(Fields()), bits, bitIndex)
      ensures next == bitIndex + Capacity(old(Fields()))
    {
      var padded := bits;
      var rest := |bits| - bitIndex;
      if rest < 70 {
        // ceil(rest / 70) * 70 - rest zeros
        padded := bits + ZerosTimes((rest + 69) / 70 * 70 - rest);
      }
      PaddedWindow(bits, bitIndex, padded);
      var index := bitIndex;
      id := FromBits(padded[index..index + 18]);
      index := index + 18;
      health := FromBits(padded[index..index + 6]) + 5;
      index := index + 6;
      growth := FromBits(padded[index..index + 26]);
      index := index + 26;
      var newAge := FromBits(padded[index..index + 20]);
      if age.Some? {
        age := Some(newAge);
        index := index + 20;
      }
      next := index;
    }
  }

  /** The fields of a list of plant elements. */
  function FieldsOf(elements: seq<Plant>): (gs: seq<Grass>)
    reads elements
    ensures |gs| == |elements|
  {
    seq(|elements|, k reads elements requires 0 <= k < |elements| => elements[k].Fields())
  }

  /** Elements `a` and `b` of the list are different objects. */
  predicate Apart(elements: seq<Plant>, a: nat, b: nat)
    requires a < |elements| && b < |elements|
  {
    elements[a] != elements[b]
  }

  /** `bytes_to_grasses` */
  method BytesToGrasses(elements: seq<Plant>, payload: seq<Byte>)
    requires forall a, b :: 0 <= a < b < |elements| ==> Apart(elements, a, b)
    requires StoredBits(|elements|, |payload|) < HeaderLimit
    modifies elements
    ensures FieldsOf(elements) == EncodeGrasses(old(FieldsOf(elements)), payload)
  {
    var payloadSize := Min(|elements| * 70 - 22, |payload| * 8);
    // negative only for an empty element list, where the loop writes nothing
    var header := if payloadSize >= 0 then ZeroFilled(payloadSize, 22) else [];
    var bits := header + BytesToBits(payload);
    var numBits := payloadSize + 22;
    assert |elements| > 0 ==> bits == FramedBits(|elements|, payload);
    ghost var gs := FieldsOf(elements);
    ghost var enc := WriteFrom(gs, bits, numBits);
    WriteFromPlanned(gs, bits, numBits, |gs|);
    WriteStream(elements, gs, enc, bits, numBits);
  }

  /** The loop of `bytes_to_grasses`: from the first element on, writes the
      bits at the cursor into each element and advances the cursor, until
      the cursor reaches `numBits`. The plan `enc` says what each element
      ends up holding. */
  method WriteStream(elements: seq<Plant>, ghost gs: seq<Grass>, ghost enc: seq<Grass>,
                     bits: seq<bool>, numBits: nat)
    requires forall a, b :: 0 <= a < b < |elements| ==> Apart(elements, a, b)
    requires numBits <= |bits| && |gs| == |enc| && Planned(enc, gs, bits, numBits, |gs|)
    requires FieldsOf(elements) == gs
    modifies elements
    ensures FieldsOf(elements) == enc
  {
    var bitIndex := 0;
    var k := 0;
    assert Mix(enc, gs, 0) == gs;
    while k < |elements|
      invariant 0 <= k <= |elements| && bitIndex == Cursor(gs, k)
      invariant FieldsOf(elements) == Mix(enc, gs, k)
    {
      if bitIndex >= numBits {
        break;
      }
      PlannedAt(enc, gs, bits, numBits, |gs|, k);
      Splice(enc, gs, k);
      bitIndex := WriteAt(elements, k, bits, bitIndex);
      k := k + 1;
    }
    PlannedRest(enc, gs, bits, numBits, k);
  }

  /** `set_grass_bits` on element `k` of a list of distinct elements: the
      others keep their fields. */
  method WriteAt(elements: seq<Plant>, k: nat, bits: seq<bool>, bitIndex: nat) returns (next: nat)
    requires forall a, b :: 0 <= a < b < |elements| ==> Apart(elements, a, b)
    requires k < |elements| && bitIndex < |bits|
    modifies elements[k]
    ensures FieldsOf(elements) == old(FieldsOf(elements))[k := SetGrass(old(elements[k].Fields()), bits, bitIndex)]
    ensures next == bitIndex + Capacity(old(elements[k].Fields()))
  {
    ghost var before := FieldsOf(elements);
    next := elements[k].SetGrassBits(bits, bitIndex);
    forall j | 0 <= j < |elements| && j != k
      ensures elements[j].Fields() == before[j]
    {
      assert if j < k then Apart(elements, j, k) else Apart(elements, k, j);
    }
  }

  /** The elements of `enc` before `k`, then those of `gs`. */
  function Mix<T>(enc: seq<T>, gs: seq<T>, k: nat): (r: seq<T>)
    requires |enc| == |gs|
    ensures |r| == |gs|
  {
    seq(|gs|, j requires 0 <= j < |gs| => if j < k then enc[j] else gs[j])
  }

  /** Writing element `k` of the mix moves the boundary on by one. */
  lemma {:induction false} Splice<T>(enc: seq<T>, gs: seq<T>, k: nat)
    requires k < |enc| == |gs|
    ensures Mix(enc, gs, k)[k] == gs[k]
    ensures Mix(enc, gs, k)[k := enc[k]] == Mix(enc, gs, k + 1)
  {
  }

  /** The first `n` elements of `enc` are what the loop of
      `bytes_to_grasses` leaves in them. */
  ghost predicate Planned(enc: seq<Grass>, gs: seq<Grass>, bits: seq<bool>, num: nat, n: nat)
    requires num <= |bits| && n <= |gs| == |enc|
    decreases n
  {
    n == 0 || (Planned(enc, gs, bits, num, n - 1) && enc[n - 1] == ElementAfter(gs, bits, num, n - 1))
  }

  lemma {:induction false} PlannedAt(enc: seq<Grass>, gs: seq<Grass>, bits: seq<bool>, num: nat, n: nat, k: nat)
    requires num <= |bits| && n <= |gs| == |enc| && Planned(enc, gs, bits, num, n) && k < n
    ensures enc[k] == ElementAfter(gs, bits, num, k)
    decreases n
  {
    if k < n - 1 {
      PlannedAt(enc, gs, bits, num, n - 1, k);
    }
  }

  /** `WriteFrom` is what the loop leaves. */
  lemma {:induction false} WriteFromPlanned(gs: seq<Grass>, bits: seq<bool>, num: nat, n: nat)
    requires num <= |bits| && n <= |gs|
    ensures Planned(WriteFrom(gs, bits, num), gs, bits, num, n)
    decreases n
  {
    if n > 0 {
      WriteFromPlanned(gs, bits, num, n - 1);
    }
  }

  /** The loop's exit: once the cursor has reached `num`, no later element
      is written. */
  lemma {:induction false} PlannedRest(enc: seq<Grass>, gs: seq<Grass>, bits: seq<bool>, num: nat, k: nat)
    requires num <= |bits| && |gs| == |enc| && Planned(enc, gs, bits, num, |gs|)
    requires k <= |gs| && (k == |gs| || Cursor(gs, k) >= num)
    ensures Mix(enc, gs, k) == enc
  {
    forall j | k <= j < |gs|
      ensures enc[j] == gs[j]
    {
      PlannedAt(enc, gs, bits, num, |gs|, j);
      CursorMonotone(gs, k, j);
    }
  }

  /** `bytes_from_grasses`. The loop compares the payload text gathered so
      far with a count that includes the 22 header characters, so it may
      read one element more than needed; the slice after it cuts the extra
      text off. `None` stands for the `IndexError` on an empty list and the
      `ValueError` of `int(..., 2)` on a text holding a stray 'b'. */
  method BytesFromGrasses(elements: seq<Plant>) returns (bytes: Option<seq<nat>>)
    ensures bytes == DecodeGrasses(FieldsOf(elements))
  {
    var gs := FieldsOf(elements);
    bytes := DecodeElements(gs);
  }

  /** The body of `bytes_from_grasses` over the fields it reads. */
  method DecodeElements(gs: seq<Grass>) returns (bytes: Option<seq<nat>>)
    ensures bytes == DecodeGrasses(gs)
  {
    if |gs| == 0 {
      return None;
    }
    var header := ParseBinary(GetText(gs[0])[..22]);
    DecodeByHeader(gs);
    if header.None? {
      return None;
    }
    var bits := ReadPayload(gs, header.value);
    bits := Take(bits, header.value);
    bits := PadToBytes(bits);
    bytes := TextToBytes(bits);
  }

  /** The zero padding of `bytes_from_grasses`: `ceil(len / 8) - len`
      zeros, a count that is never positive, so the text is unchanged. */
  method PadToBytes(bits: seq<Symbol>) returns (padded: seq<Symbol>)
    ensures padded == bits
  {
    padded := bits;
    if |padded| % 8 != 0 {
      NoPadding(padded);
      padded := padded + AsText(ZerosTimes((|padded| + 7) / 8 - |padded|));
    }
  }

  /** The text the loop reads, cut to the header's size, is the kept text. */
  lemma KeptRead(gs: seq<Grass>, h: nat, bits: seq<Symbol>)
    requires |gs| > 0 && bits == TextUpTo(gs, ReadCount(gs, h + 22, 1))[22..]
    ensures Take(bits, h) == Kept(gs, h)
  {
  }

  /** The decoder's result by the header it reads. */
  lemma DecodeByHeader(gs: seq<Grass>)
    requires |gs| > 0
    ensures DecodeGrasses(gs) ==
      match ParseBinary(GetText(gs[0])[..22])
      case None => None
      case Some(h) => ParseGroups(Kept(gs, h))
  {
  }

  /** The zero padding `bytes_from_grasses` appends is empty: the rounded
      up number of bytes never exceeds the number of characters. */
  lemma NoPadding(t: seq<Symbol>)
    ensures t + AsText(ZerosTimes((|t| + 7) / 8 - |t|)) == t
  {
    assert (|t| + 7) / 8 - |t| <= 0;
    assert AsText(ZerosTimes((|t| + 7) / 8 - |t|)) == [];
  }

  /** The loop of `bytes_from_grasses`: the first element's text after the
      header, then the text of each further element while the text so far
      is shorter than the announced size `h` plus the 22 header characters. */
  method ReadPayload(gs: seq<Grass>, h: nat) returns (bits: seq<Symbol>)
    requires |gs| > 0
    ensures bits == TextUpTo(gs, ReadCount(gs, h + 22, 1))[22..]
    ensures Take(bits, h) == Kept(gs, h)
  {
    var numBits := h + 22;
    bits := GetText(gs[0])[22..];
    var index := 1;
    FirstText(gs);
    while index < |gs|
      invariant 1 <= index <= |gs|
      invariant |TextUpTo(gs, index)| >= 22 && bits == TextUpTo(gs, index)[22..]
      invariant ReadCount(gs, numBits, index) == ReadCount(gs, numBits, 1)
    {
      ReadCountAt(gs, numBits, index);
      if |bits| >= numBits {
        break;
      }
      TextStep(gs, index);
      bits := bits + GetText(gs[index]);
      index := index + 1;
    }
    ReadCountAt(gs, numBits, index);
    KeptRead(gs, h, bits);
  }

  /** One step of `ReadCount`: stop at `k`, or go on to the next element. */
  lemma ReadCountAt(gs: seq<Grass>, num: nat, k: nat)
    requires 1 <= k <= |gs|
    ensures ReadCount(gs, num, k) ==
      if k == |gs| || |TextUpTo(gs, k)| - 22 >= num then k else ReadCount(gs, num, k + 1)
  {
  }

  /** The last loop of `bytes_from_grasses`: eight characters at a time, a
      short last group read as it is, stopping at the first group that is
      not a number. */
  method TextToBytes(bits: seq<Symbol>) returns (bytes: Option<seq<nat>>)
    ensures bytes == ParseGroups(bits)
  {
    var index := 0;
    var done: seq<nat> := [];
    assert bits[index..] == bits;
    BehindNothing(ParseGroups(bits));
    while index < |bits|
      invariant index <= |bits|
      invariant ParseGroups(bits) == Behind(done, ParseGroups(bits[index..]))
    {
      var next := Min(index + 8, |bits|);
      var value := ParseBinary(bits[index..next]);
      ParseGroupsFrom(bits, index);
      if value.None? {
        assert ParseGroups(bits[index..]) == None;
        return None;
      }
      BehindTwice(done, [value.value], ParseGroups(bits[next..]));
      done := done + [value.value];
      index := next;
    }
    assert bits[index..] == [];
    assert done + [] == done;
    bytes := Some(done);
  }
}
