/** Bits, bytes and the big-endian conversions between them.

    The program keeps bit strings as Python strings of '0' and '1'; here a bit
    string is a `seq<bool>` (true for '1'). */
module BitStream {
  import opened Wrappers

  /** A payload byte (the values of a Python byte list). */
  type Byte = x: int | 0 <= x < 256

  function Pow2(n: nat): (r: nat)
    ensures r >= 1
  {
    if n == 0 then 1 else 2 * Pow2(n - 1)
  }

  /** The powers of two the codecs' field widths give. */
  lemma {:induction false} Pow2Widths()
    ensures Pow2(6) == 64 && Pow2(8) == 256 && Pow2(18) == 0x4_0000
    ensures Pow2(20) == 0x10_0000 && Pow2(22) == 0x40_0000 && Pow2(26) == 0x400_0000
  {
  }

  lemma {:induction false} Pow2Monotone(a: nat, b: nat)
    requires a <= b
    ensures Pow2(a) <= Pow2(b)
  {
    if a < b {
      Pow2Monotone(a, b - 1);
    }
  }

  function Min(a: int, b: int): int { if a <= b then a else b }

  function BitValue(b: bool): nat { if b then 1 else 0 }

  /** `int(s, 2)`: the big-endian value of a non-empty bit string. */
  function FromBits(s: seq<bool>): nat
  {
    if |s| == 0 then 0 else 2 * FromBits(s[..|s| - 1]) + BitValue(s[|s| - 1])
  }

  /** A bit string of length `n` holds a value below 2^n. */
  lemma {:induction false} FromBitsBound(s: seq<bool>)
    ensures FromBits(s) < Pow2(|s|)
  {
    if s != [] {
      FromBitsBound(s[..|s| - 1]);
    }
  }

  /** `bin(n)[2:].zfill(w)`: the binary digits of `n`, left-padded with zeros
      to at least `w` digits; a value wider than `w` keeps all its digits. */
  function ZeroFilled(n: nat, w: nat): (r: seq<bool>)
    ensures |r| >= 1 && |r| >= w
    decreases n + w
  {
    if n < 2 && w <= 1 then [n == 1]
    else ZeroFilled(n / 2, if w == 0 then 0 else w - 1) + [n % 2 == 1]
  }

  /** `'0' * n` */
  function Zeros(n: nat): (r: seq<bool>)
    ensures |r| == n && forall k :: 0 <= k < n ==> !r[k]
  {
    seq(n, k => false)
  }

  /** `'0' * n`, which is empty when `n` is not positive. */
  function ZerosTimes(n: int): (r: seq<bool>)
    ensures |r| == (if n <= 0 then 0 else n)
    ensures forall k :: 0 <= k < |r| ==> !r[k]
  {
    if n <= 0 then [] else Zeros(n)
  }

  /** The zero bits that bring a bit string to a byte boundary. */
  function PadToByte(bits: seq<bool>): seq<bool>
  {
    if |bits| % 8 != 0 then bits + Zeros(8 - |bits| % 8) else bits
  }

  /** Python's slice `s[:n]` for a non-negative `n`. */
  function Take<T>(s: seq<T>, n: nat): (r: seq<T>)
    ensures |r| == Min(n, |s|) && r == s[..|r|]
  {
    if n <= |s| then s[..n] else s
  }

  /** The first `n` bits of `s`, followed by zero bits once `s` runs out. */
  function Padded(s: seq<bool>, n: nat): (r: seq<bool>)
    ensures |r| == n
  {
    seq(n, k requires 0 <= k < n => k < |s| && s[k])
  }

  /** The `n` bits of `s` from `i` on, followed by zero bits once `s` runs
      out: Python's `s[i:i + n]` of `s` with enough zeros appended. */
  function Window(s: seq<bool>, i: nat, n: nat): (r: seq<bool>)
    ensures |r| == n
  {
    seq(n, k requires 0 <= k < n => i + k < |s| && s[i + k])
  }

  /** Padding `s` out to `c` bits and then taking the next `m` bits is
      padding `s` out to `c + m` bits. */
  lemma {:induction false} PaddedAppend(s: seq<bool>, c: nat, m: nat)
    ensures Padded(s, c) + Window(s, c, m) == Padded(s, c + m)
  {
  }

  /** Two adjacent windows make one. */
  lemma {:induction false} WindowAppend(s: seq<bool>, i: nat, a: nat, b: nat)
    ensures Window(s, i, a) + Window(s, i + a, b) == Window(s, i, a + b)
  {
  }

  /** A slice of `s` with zeros appended is the window of `s` there. */
  lemma {:induction false} WindowOfPadded(s: seq<bool>, z: nat, i: nat, n: nat)
    requires i + n <= |s| + z
    ensures (s + Zeros(z))[i..i + n] == Window(s, i, n)
  {
  }

  /** Padding to fewer bits cuts the longer padding short. */
  lemma {:induction false} PaddedPrefix(s: seq<bool>, n: nat, m: nat)
    requires m <= n
    ensures Padded(s, n)[..m] == Padded(s, m)
  {
  }

  /** Within the bits `s` has, padding changes nothing. */
  lemma {:induction false} PaddedSlice(s: seq<bool>, n: nat, a: nat, b: nat)
    requires a <= b <= n && b <= |s|
    ensures Padded(s, n)[a..b] == s[a..b]
  {
  }

  /** `''.join([bin(x)[2:].zfill(8) for x in bytes])` */
  function BytesToBits(p: seq<Byte>): (r: seq<bool>)
    ensures |r| == 8 * |p|
  {
    if |p| == 0 then []
    else
      ByteWidth(p[0]);
      ZeroFilled(p[0], 8) + BytesToBits(p[1..])
  }

  /** The loop `while index < len(bits): append(int(bits[index:index+8], 2))`:
      groups of eight bits, the last group possibly shorter and read as is. */
  function Groups(s: seq<bool>): (r: seq<nat>)
    ensures |r| == (|s| + 7) / 8
    decreases |s|
  {
    if |s| == 0 then []
    else if |s| <= 8 then [FromBits(s)]
    else [FromBits(s[..8])] + Groups(s[8..])
  }

  /** One value per started group of eight bits, each below 256. */
  lemma {:induction false} GroupsShape(s: seq<bool>)
    ensures |Groups(s)| == (|s| + 7) / 8
    ensures forall k :: 0 <= k < |Groups(s)| ==> Groups(s)[k] < 256
    decreases |s|
  {
    if |s| == 0 {
    } else if |s| <= 8 {
      FromBitsBound(s);
      Pow2Monotone(|s|, 8);
    } else {
      FromBitsBound(s[..8]);
      GroupsShape(s[8..]);
    }
  }

  // ----- conversions are inverse to each other -----

  lemma {:induction false} FromZeroFilled(n: nat, w: nat)
    ensures FromBits(ZeroFilled(n, w)) == n
    decreases n + w
  {
    if n < 2 && w <= 1 {
    } else {
      var r := ZeroFilled(n, w);
      var w' := if w == 0 then 0 else w - 1;
      FromZeroFilled(n / 2, w');
      assert r[..|r| - 1] == ZeroFilled(n / 2, w');
    }
  }

  lemma {:induction false} ZeroFilledFromBits(s: seq<bool>)
    requires |s| >= 1
    ensures ZeroFilled(FromBits(s), |s|) == s
  {
    var init := s[..|s| - 1];
    if |s| == 1 {
      assert init == [];
    } else {
      ZeroFilledFromBits(init);
      assert s == init + [s[|s| - 1]];
    }
  }

  /** A value that fits in `w` bits is written in exactly `w` bits. */
  lemma {:induction false} ZeroFilledWidth(n: nat, w: nat)
    requires 1 <= w && n < Pow2(w)
    ensures |ZeroFilled(n, w)| == w
    decreases w
  {
    if !(n < 2 && w <= 1) {
      ZeroFilledWidth(n / 2, w - 1);
    }
  }

  /** A value that fits in `w` bits is written in exactly `w` bits and read back unchanged. */
  lemma {:induction false} ZeroFilledExact(n: nat, w: nat)
    requires 1 <= w && n < Pow2(w)
    ensures |ZeroFilled(n, w)| == w && FromBits(ZeroFilled(n, w)) == n
  {
    ZeroFilledWidth(n, w);
    FromZeroFilled(n, w);
  }

  /** 2^w for the bit widths the codecs use. */
  function Limit(w: nat): nat
    requires w in {6, 8, 18, 20, 22, 26}
  {
    if w == 6 then 64
    else if w == 8 then 256
    else if w == 18 then 0x4_0000
    else if w == 20 then 0x10_0000
    else if w == 22 then 0x40_0000
    else 0x400_0000
  }

  lemma {:induction false} LimitIsPow2(w: nat)
    requires w in {6, 8, 18, 20, 22, 26}
    ensures Limit(w) == Pow2(w)
  {
    Pow2Widths();
  }

  /** A value below 2^w is written in exactly `w` bits and read back unchanged. */
  lemma {:induction false} FieldExact(n: nat, w: nat)
    requires w in {6, 8, 18, 20, 22, 26} && n < Limit(w)
    ensures |ZeroFilled(n, w)| == w && FromBits(ZeroFilled(n, w)) == n
  {
    LimitIsPow2(w);
    ZeroFilledExact(n, w);
  }

  /** A value below 2^w is written in exactly `w` bits. */
  lemma {:induction false} FieldWidth(n: nat, w: nat)
    requires w in {6, 8, 18, 20, 22, 26} && n < Limit(w)
    ensures |ZeroFilled(n, w)| == w
  {
    LimitIsPow2(w);
    ZeroFilledWidth(n, w);
  }

  /** A window holding the zero-filled digits of a value that fits reads
      back as that value. */
  lemma {:induction false} FieldRead(s: seq<bool>, i: nat, w: nat, n: nat)
    requires w in {6, 8, 18, 20, 22, 26} && n < Limit(w) && Window(s, i, w) == ZeroFilled(n, w)
    ensures FromBits(Window(s, i, w)) == n
  {
    FieldExact(n, w);
  }

  /** A field of `w` bits holds a value below 2^w. */
  lemma {:induction false} FieldBound(s: seq<bool>)
    requires |s| in {6, 8, 18, 20, 22, 26}
    ensures FromBits(s) < Limit(|s|)
  {
    LimitIsPow2(|s|);
    FromBitsBound(s);
  }

  /** A byte is written in exactly eight bits and read back unchanged. */
  lemma {:induction false} ByteWidth(n: Byte)
    ensures |ZeroFilled(n, 8)| == 8 && FromBits(ZeroFilled(n, 8)) == n
  {
    FieldExact(n, 8);
  }

  /** A short last group of bits padded to a byte boundary reads as its
      value shifted left by the number of padding zeros. */
  lemma {:induction false} PaddedLastGroup(bits: seq<bool>, k: nat)
    requires 8 * k < |bits| < 8 * k + 8
    ensures |Groups(PadToByte(bits))| == k + 1
    ensures Groups(PadToByte(bits))[k] == FromBits(bits[8 * k ..]) * Pow2(8 * k + 8 - |bits|)
  {
    var m := 8 * k + 8 - |bits|;
    var padded := PadToByte(bits);
    assert padded == bits + Zeros(m);
    GroupsAt(padded, k);
    assert padded[8 * k .. Min(8 * k + 8, |padded|)] == bits[8 * k ..] + Zeros(m);
    FromBitsZeros(bits[8 * k ..], m);
  }

  /** Appending `m` zero bits multiplies the value by 2^m. */
  lemma {:induction false} FromBitsZeros(s: seq<bool>, m: nat)
    ensures FromBits(s + Zeros(m)) == FromBits(s) * Pow2(m)
  {
    if m > 0 {
      var shorter := s + Zeros(m - 1);
      assert s + Zeros(m) == shorter + [false];
      FromBitsZeros(s, m - 1);
      FromBitsSnoc(shorter, false);
      assert Pow2(m) == 2 * Pow2(m - 1);
      DoubleFactor(FromBits(s), Pow2(m - 1));
    } else {
      assert s + Zeros(0) == s;
    }
  }

  lemma {:induction false} DoubleFactor(a: int, b: int)
    ensures a * (2 * b) == 2 * (a * b)
  {
  }

  /** One more bit at the end doubles the value and adds the bit. */
  lemma {:induction false} FromBitsSnoc(s: seq<bool>, b: bool)
    ensures FromBits(s + [b]) == 2 * FromBits(s) + BitValue(b)
  {
    assert (s + [b])[..|s|] == s;
  }

  /** The bits of a byte list, cut at their own length, read back as that list. */
  lemma {:induction false} BytesToBitsWhole(p: seq<Byte>)
    ensures BytesToBits(p)[..8 * |p|] == BytesToBits(p)
    ensures Groups(BytesToBits(p)[..8 * |p|]) == p
  {
    GroupsOfBytes(p);
  }

  /** Bit `b` of byte `i` of the payload is bit `8*i + b` of the stream. */
  lemma {:induction false} BytesToBitsBit(p: seq<Byte>, i: nat, b: nat)
    requires i < |p| && b < 8
    ensures BytesToBits(p)[8 * i + b] == ZeroFilled(p[i], 8)[b]
  {
    FieldWidth(p[0], 8);
    var head, rest := ZeroFilled(p[0], 8), BytesToBits(p[1..]);
    assert BytesToBits(p) == head + rest;
    if i > 0 {
      BytesToBitsBit(p[1..], i - 1, b);
      assert p[1..][i - 1] == p[i];
    }
  }

  /** Byte `i` of the payload occupies bits `8*i .. 8*i+8`, most significant first. */
  lemma {:induction false} BytesToBitsAt(p: seq<Byte>, i: nat)
    requires i < |p|
    ensures BytesToBits(p)[8 * i .. 8 * i + 8] == ZeroFilled(p[i], 8)
    ensures FromBits(BytesToBits(p)[8 * i .. 8 * i + 8]) == p[i]
  {
    ByteWidth(p[i]);
    forall b | 0 <= b < 8
      ensures BytesToBits(p)[8 * i .. 8 * i + 8][b] == ZeroFilled(p[i], 8)[b]
    {
      BytesToBitsBit(p, i, b);
    }
  }

  lemma {:induction false} GroupsAppend(a: seq<bool>, b: seq<bool>)
    requires |a| % 8 == 0
    ensures Groups(a + b) == Groups(a) + Groups(b)
    decreases |a|
  {
    if |a| == 0 {
      assert a + b == b;
    } else if |b| == 0 {
      assert a + b == a;
    } else {
      var c := a + b;
      assert c[..8] == a[..8];
      assert c[8..] == a[8..] + b;
      GroupsAppend(a[8..], b);
      assert Groups(c) == [FromBits(a[..8])] + (Groups(a[8..]) + Groups(b));
      if |a| == 8 {
        assert a[..8] == a && a[8..] == [];
      }
      assert Groups(a) == [FromBits(a[..8])] + Groups(a[8..]);
    }
  }

  /** Reading one more group of eight bits appends its value. */
  lemma {:induction false} GroupsStep(s: seq<bool>, index: nat)
    requires index % 8 == 0 && index + 8 <= |s|
    ensures Groups(s[..index + 8]) == Groups(s[..index]) + [FromBits(s[index..index + 8])]
  {
    var group := s[index..index + 8];
    GroupsAppend(s[..index], group);
    assert Groups(group) == [FromBits(group)];
    assert s[..index + 8] == s[..index] + group;
  }

  /** A short last group is read as the number its bits spell. */
  lemma {:induction false} GroupsLast(s: seq<bool>, index: nat)
    requires index % 8 == 0 && index < |s| < index + 8
    ensures Groups(s) == Groups(s[..index]) + [FromBits(s[index..])]
  {
    GroupsAppend(s[..index], s[index..]);
    assert s[..index] + s[index..] == s;
  }

  /** Group `k` is bits `8*k .. 8*k+8` read as one number (fewer for a short last group). */
  lemma {:induction false} GroupsAt(s: seq<bool>, k: nat)
    requires k < (|s| + 7) / 8
    ensures |Groups(s)| == (|s| + 7) / 8
    ensures Groups(s)[k] == FromBits(s[8 * k .. Min(8 * k + 8, |s|)])
    decreases |s|
  {
    GroupsShape(s);
    if |s| <= 8 {
      assert s[0 .. Min(8, |s|)] == s;
    } else if k == 0 {
    } else {
      var t := s[8..];
      GroupsAt(t, k - 1);
      var hi := Min(8 * k + 8, |s|);
      assert Groups(s)[k] == Groups(t)[k - 1];
      assert Min(8 * (k - 1) + 8, |t|) == hi - 8;
      SliceOfDrop(s, 8, 8 * k - 8, hi - 8);
    }
  }

  /** A slice of a suffix is a slice of the whole. */
  lemma SliceOfDrop<T>(s: seq<T>, d: nat, x: nat, y: nat)
    requires d <= |s| && x <= y <= |s| - d
    ensures s[d..][x..y] == s[d + x .. d + y]
  {
  }

  /** Grouping the bits of a byte list gives the byte list back. */
  lemma {:induction false} GroupsOfBytes(p: seq<Byte>)
    ensures Groups(BytesToBits(p)) == p
  {
    if p != [] {
      var head := ZeroFilled(p[0], 8);
      ByteWidth(p[0]);
      GroupsOfBytes(p[1..]);
      GroupsAppend(head, BytesToBits(p[1..]));
      assert Groups(head) == [p[0]];
    }
  }
  // ----- bit strings as the program's text -----

  /** A character of the bit strings the program builds as text: a binary
      digit, or the letter 'b' that `bin(n)[2:]` leaves in front of the
      digits of a negative `n` (`bin(-3)` is "-0b11"). */
  datatype Symbol = Bit(value: bool) | LetterB

  /** A bit string written as text. */
  function AsText(s: seq<bool>): (t: seq<Symbol>)
    ensures |t| == |s|
  {
    seq(|s|, k requires 0 <= k < |s| => Bit(s[k]))
  }

  /** The bits a text spells, when it holds only binary digits. */
  function Digits(t: seq<Symbol>): (r: Option<seq<bool>>)
    ensures r.Some? <==> LetterB !in t
    ensures r.Some? ==> AsText(r.value) == t
  {
    if LetterB in t then None
    else
      var bits := seq(|t|, k requires 0 <= k < |t| => t[k].value);
      assert forall k :: 0 <= k < |t| ==> AsText(bits)[k] == t[k];
      Some(bits)
  }

  /** `bin(n)[2:].zfill(w)` for any integer `n`: for a negative `n` the
      letter 'b' and the digits of `-n`, zero-filled on the left. */
  function FieldText(n: int, w: nat): (t: seq<Symbol>)
    ensures |t| >= w
  {
    if n >= 0 then AsText(ZeroFilled(n, w))
    else
      var digits := [LetterB] + AsText(ZeroFilled(-n, 0));
      AsText(Zeros(if |digits| < w then w - |digits| else 0)) + digits
  }

  /** `int(t, 2)`: the value of a non-empty text of binary digits, also
      behind the prefix "0b" that Python accepts in base 2; `None` where
      Python raises `ValueError`. A text of `n` characters gives a value
      below 2^n. */
  function ParseBinary(t: seq<Symbol>): (r: Option<nat>)
    ensures r.Some? ==> r.value < Pow2(|t|)
  {
    if |t| > 0 && Digits(t).Some? then
      FromBitsBound(Digits(t).value);
      Some(FromBits(Digits(t).value))
    else if |t| > 2 && t[0] == Bit(false) && t[1] == LetterB && Digits(t[2..]).Some? then
      FromBitsBound(Digits(t[2..]).value);
      Pow2Monotone(|t| - 2, |t|);
      Some(FromBits(Digits(t[2..]).value))
    else None
  }

  /** A non-empty bit string as text is read as its value. */
  lemma {:induction false} ParseText(s: seq<bool>)
    requires |s| > 0
    ensures ParseBinary(AsText(s)) == Some(FromBits(s))
  {
    assert forall k :: 0 <= k < |s| ==> AsText(s)[k] != LetterB;
    assert Digits(AsText(s)).value == s;
  }

  /** `int(t, 2)` accepts a text exactly when it is a non-empty string of
      digits, or "0b" followed by a non-empty string of digits: an empty
      text, a lone "0b", or a 'b' anywhere else raises. */
  lemma {:induction false} ParseBinaryAccepts(t: seq<Symbol>)
    ensures ParseBinary(t).Some? <==>
      (|t| > 0 && LetterB !in t) ||
      (|t| > 2 && t[0] == Bit(false) && t[1] == LetterB && LetterB !in t[2..])
  {
    if |t| > 2 && t[0] == Bit(false) && t[1] == LetterB {
      assert LetterB in t;
    }
  }

  /** Behind the prefix "0b", digits read as their value. */
  lemma {:induction false} ParsePrefixedText(s: seq<bool>)
    requires |s| > 0
    ensures ParseBinary([Bit(false), LetterB] + AsText(s)) == Some(FromBits(s))
  {
    var t := [Bit(false), LetterB] + AsText(s);
    assert t[2..] == AsText(s);
    assert forall k :: 0 <= k < |s| ==> AsText(s)[k] != LetterB;
    assert Digits(AsText(s)).value == s;
  }

  /** A value that fits `w` digits, written and read as text, comes back. */
  lemma {:induction false} ParseFieldText(n: nat, w: nat)
    requires w in {6, 8, 18, 20, 22, 26} && n < Limit(w)
    ensures ParseBinary(FieldText(n, w)) == Some(n)
  {
    FieldExact(n, w);
    ParseText(ZeroFilled(n, w));
  }

  /** The text of joined bit strings is the joined texts. */
  lemma AsTextAppend(a: seq<bool>, b: seq<bool>)
    ensures AsText(a + b) == AsText(a) + AsText(b)
  {
  }

  /** A slice of the text is the text of the slice. */
  lemma AsTextSlice(s: seq<bool>, i: nat, j: nat)
    requires i <= j <= |s|
    ensures AsText(s)[i..j] == AsText(s[i..j])
  {
  }

  /** `match o`: `None` stays, `Some(v)` gets `head` in front. */
  function Behind<T>(head: seq<T>, o: Option<seq<T>>): Option<seq<T>>
  {
    match o
    case None => None
    case Some(v) => Some(head + v)
  }

  /** Two heads in turn are one head. */
  lemma BehindTwice<T>(a: seq<T>, b: seq<T>, o: Option<seq<T>>)
    ensures Behind(a, Behind(b, o)) == Behind(a + b, o)
  {
    if o.Some? {
      assert a + (b + o.value) == (a + b) + o.value;
    }
  }

  /** The loop `while index < len(bits): append(int(bits[index:index+8], 2))`
      on a text: groups of eight characters, the last possibly shorter, each
      read as a number below 256; `None` (Python's `ValueError`) as soon as
      one group is not a number. */
  function ParseGroups(t: seq<Symbol>): (r: Option<seq<nat>>)
    ensures r.Some? ==> |r.value| == (|t| + 7) / 8
    ensures r.Some? ==> forall k :: 0 <= k < |r.value| ==> r.value[k] < 256
    decreases |t|
  {
    if |t| == 0 then Some([])
    else
      var n := Min(8, |t|);
      match ParseBinary(t[..n])
      case None => None
      case Some(v) =>
        Pow2Monotone(n, 8);
        Pow2Widths();
        Behind([v], ParseGroups(t[n..]))
  }

  /** An empty head changes nothing. */
  lemma BehindNothing<T>(o: Option<seq<T>>)
    ensures Behind([], o) == o
  {
    if o.Some? {
      assert [] + o.value == o.value;
    }
  }

  /** Reading the groups from `index` on: the group there, then the rest. */
  lemma {:induction false} ParseGroupsFrom(t: seq<Symbol>, index: nat)
    requires index < |t|
    ensures var next := Min(index + 8, |t|);
      ParseGroups(t[index..]) ==
        match ParseBinary(t[index..next])
        case None => None
        case Some(v) => Behind([v], ParseGroups(t[next..]))
  {
    var next := Min(index + 8, |t|);
    assert t[index..][..next - index] == t[index..next];
    assert t[index..][next - index..] == t[next..];
  }

  /** A bit string as text is read in groups as `Groups` reads it. */
  lemma {:induction false} ParseGroupsText(s: seq<bool>)
    ensures ParseGroups(AsText(s)) == Some(Groups(s))
    decreases |s|
  {
    if |s| > 0 {
      var n, t := Min(8, |s|), AsText(s);
      AsTextSlice(s, 0, n);
      AsTextSlice(s, n, |s|);
      assert t[..n] == AsText(s[..n]) && t[n..] == AsText(s[n..]);
      ParseText(s[..n]);
      ParseGroupsText(s[n..]);
      assert ParseGroups(t) == Behind([FromBits(s[..n])], Some(Groups(s[n..])));
      if |s| <= 8 {
        assert s[..n] == s && s[n..] == [];
        assert Groups(s) == [FromBits(s)] == [FromBits(s)] + [];
      } else {
        assert Groups(s) == [FromBits(s[..8])] + Groups(s[8..]);
      }
    }
  }
}
