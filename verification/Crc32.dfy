/** The checksum of kernel/src/util/crc.c: computed most significant bit first on reflected
    bytes, proved to be the CRC of section 8 of RFC 1952, and proved to see every change that
    stays within 32 bits. Machine words are their bits, the least significant first, so a
    u32_t has 32 of them and every shift drops what falls off. */
module Crc32 {
  type Bits = seq<bool>

  function Zeros(n: nat): (r: Bits)
    ensures |r| == n && forall i | 0 <= i < n :: !r[i]
  {
    if n == 0 then [] else Zeros(n - 1) + [false]
  }

  type Word = w: Bits | |w| == 32 witness Zeros(32)
  type Byte = b: Bits | |b| == 8 witness Zeros(8)

  function Shl(x: Bits): (r: Bits)
    requires x != []
    ensures |r| == |x|
  {
    [false] + x[..|x| - 1]
  }

  function Shr(x: Bits): (r: Bits)
    requires x != []
    ensures |r| == |x|
  {
    x[1..] + [false]
  }

  function Xor(x: Bits, y: Bits): (r: Bits)
    requires |x| == |y|
    ensures |r| == |x| && forall i | 0 <= i < |x| :: r[i] == (x[i] != y[i])
  {
    seq(|x|, i requires 0 <= i < |x| => x[i] != y[i])
  }

  function Not(x: Bits): (r: Bits)
    ensures |r| == |x| && forall i | 0 <= i < |x| :: r[i] == !x[i]
  {
    seq(|x|, i requires 0 <= i < |x| => !x[i])
  }

  /** All bits in the opposite order. */
  function Reverse(x: Bits): (r: Bits)
    ensures |r| == |x| && forall i | 0 <= i < |x| :: r[i] == x[|x| - 1 - i]
  {
    seq(|x|, i requires 0 <= i < |x| => x[|x| - 1 - i])
  }

  /** The exponents of x in the generator polynomial, below x^32. */
  predicate Exponent(i: int) {
    i == 26 || i == 23 || i == 22 || i == 16 || i == 12 || i == 11 || i == 10 || i == 8
    || i == 7 || i == 5 || i == 4 || i == 2 || i == 1 || i == 0
  }

  function GeneratorBits(): (r: Bits)
    ensures |r| == 32 && forall i | 0 <= i < 32 :: r[i] == Exponent(i)
  {
    seq(32, i => Exponent(i))
  }

  /** CRC32_POLYNOMIAL. */
  const POLYNOMIAL: Word := GeneratorBits()
  /** The same polynomial as RFC 1952 writes it. */
  const REFLECTED_POLYNOMIAL: Word := Reverse(GeneratorBits())

  /** The value of the byte of a word that starts at bit `k`. */
  function ByteValue(w: Word, k: nat): nat
    requires k <= 24
  {
    (if w[k] then 1 else 0) + (if w[k + 1] then 2 else 0) + (if w[k + 2] then 4 else 0) + (if w[k + 3] then 8 else 0)
    + (if w[k + 4] then 16 else 0) + (if w[k + 5] then 32 else 0) + (if w[k + 6] then 64 else 0) + (if w[k + 7] then 128 else 0)
  }

  /** The constants: 0x04C11DB7 in crc.c and 0xEDB88320 in section 8 of RFC 1952. */
  lemma PolynomialBytes()
    ensures ByteValue(POLYNOMIAL, 24) == 0x04 && ByteValue(POLYNOMIAL, 16) == 0xC1
    ensures ByteValue(POLYNOMIAL, 8) == 0x1D && ByteValue(POLYNOMIAL, 0) == 0xB7
    ensures ByteValue(REFLECTED_POLYNOMIAL, 24) == 0xED && ByteValue(REFLECTED_POLYNOMIAL, 16) == 0xB8
    ensures ByteValue(REFLECTED_POLYNOMIAL, 8) == 0x83 && ByteValue(REFLECTED_POLYNOMIAL, 0) == 0x20
  {
  }

  const ALL_ONES: Word := Not(Zeros(32))

  lemma ReflectTurn(value: Bits, rest: Bits, ret: Bits, i: nat)
    requires i < |value| == |rest| == |ret|
    requires Reflected(value, rest, ret, i)
    ensures Reflected(value, Shr(rest), Shl(ret)[0 := rest[0]], i + 1)
  {
    var ret', rest' := Shl(ret)[0 := rest[0]], Shr(rest);
    forall k | 0 <= k < i + 1 ensures ret'[k] == value[i - k] {
      if k > 0 { assert ret'[k] == ret[k - 1]; }
    }
    forall k | 0 <= k < |value| - i - 1 ensures rest'[k] == value[k + i + 1] {
      assert rest'[k] == rest[k + 1];
    }
  }

  /** After `i` turns: `rest` is what is left of `value`, `ret` the first `i` bits reversed. */
  predicate Reflected(value: Bits, rest: Bits, ret: Bits, i: nat)
    requires i <= |value| == |rest| == |ret|
  {
    && (forall k | 0 <= k < |value| - i :: rest[k] == value[k + i])
    && (forall k | 0 <= k < i :: ret[k] == value[i - 1 - k])
  }

  /** The loop of reflect32 and reflect8, for any width: `ret` takes the low bit of `value` in
      at its low end. */
  method Reflect(value: Bits) returns (ret: Bits)
    requires value != []
    ensures ret == Reverse(value)
  {
    ret := Zeros(|value|);
    var rest := value;
    for i := 0 to |value|
      invariant |rest| == |ret| == |value| && Reflected(value, rest, ret, i)
    {
      ReflectTurn(value, rest, ret, i);
      ret := Shl(ret)[0 := rest[0]];
      rest := Shr(rest);
    }
  }

  // ----- The remainder, both ways round -----

  /** One turn of the inner loop of calc_crc32. */
  function Step(r: Word): (r': Word) {
    if r[31] then Xor(Shl(r), POLYNOMIAL) else Shl(r)
  }

  /** reflect8(byte) << 24. */
  function AtTheTop(b: Byte): Word {
    Zeros(24) + b
  }

  /** The byte as a 32-bit number. */
  function Widen(b: Byte): Word {
    b + Zeros(24)
  }

  function Steps(r: Word, n: nat): Word
    decreases n
  {
    if n == 0 then r else Step(Steps(r, n - 1))
  }

  function AddByte(r: Word, b: Byte): Word {
    Steps(Xor(r, AtTheTop(Reverse(b))), 8)
  }

  function Remainder(r: Word, data: seq<Byte>): Word
    decreases |data|
  {
    if data == [] then r else AddByte(Remainder(r, data[..|data| - 1]), data[|data| - 1])
  }

  /** The shift of RFC 1952: least significant bit first. */
  function ReflectedStep(c: Word): (c': Word) {
    if c[0] then Xor(Shr(c), REFLECTED_POLYNOMIAL) else Shr(c)
  }

  function ReflectedSteps(c: Word, n: nat): Word
    decreases n
  {
    if n == 0 then c else ReflectedStep(ReflectedSteps(c, n - 1))
  }

  function ReflectedAddByte(c: Word, b: Byte): Word {
    ReflectedSteps(Xor(c, Widen(b)), 8)
  }

  function ReflectedRemainder(c: Word, data: seq<Byte>): Word
    decreases |data|
  {
    if data == [] then c else ReflectedAddByte(ReflectedRemainder(c, data[..|data| - 1]), data[|data| - 1])
  }

  /** The CRC of section 8 of RFC 1952: start with all ones, end with the complement. */
  function Rfc1952(data: seq<Byte>): Word {
    Not(ReflectedRemainder(ALL_ONES, data))
  }

  lemma ReverseOfShl(x: Bits)
    requires x != []
    ensures Reverse(Shl(x)) == Shr(Reverse(x))
  {
    forall i | 0 <= i < |x| ensures Reverse(Shl(x))[i] == Shr(Reverse(x))[i] {
      assert Reverse(Shl(x))[i] == Shl(x)[|x| - 1 - i];
    }
  }

  lemma ReverseOfXor(x: Bits, y: Bits)
    requires |x| == |y|
    ensures Reverse(Xor(x, y)) == Xor(Reverse(x), Reverse(y))
  {
  }

  lemma ReverseOfStep(r: Word)
    ensures Reverse(Step(r)) == ReflectedStep(Reverse(r))
  {
    ReverseOfShl(r);
    ReverseOfXor(Shl(r), POLYNOMIAL);
  }

  lemma {:induction false} ReverseOfSteps(r: Word, n: nat)
    ensures Reverse(Steps(r, n)) == ReflectedSteps(Reverse(r), n)
    decreases n
  {
    if n > 0 {
      ReverseOfSteps(r, n - 1);
      ReverseOfStep(Steps(r, n - 1));
    }
  }

  lemma ReverseOfInput(r: Word, b: Byte)
    ensures Reverse(Xor(r, AtTheTop(Reverse(b)))) == Xor(Reverse(r), Widen(b))
  {
    var top, wide := AtTheTop(Reverse(b)), Widen(b);
    forall i | 0 <= i < 32 ensures top[31 - i] == wide[i] {
    }
  }

  /** Bit-reversed, the kernel's remainder is that of RFC 1952. */
  lemma {:induction false} ReverseOfRemainder(r: Word, data: seq<Byte>)
    ensures Reverse(Remainder(r, data)) == ReflectedRemainder(Reverse(r), data)
    decreases |data|
  {
    if data != [] {
      var before, b := data[..|data| - 1], data[|data| - 1];
      ReverseOfRemainder(r, before);
      ReverseOfInput(Remainder(r, before), b);
      ReverseOfSteps(Xor(Remainder(r, before), AtTheTop(Reverse(b))), 8);
    }
  }

  /** calc_crc32 of any data is its RFC 1952 checksum. */
  lemma ChecksumIsRfc1952(data: seq<Byte>)
    ensures Reverse(Not(Remainder(ALL_ONES, data))) == Rfc1952(data)
  {
    assert Reverse(ALL_ONES) == ALL_ONES;
    ReverseOfRemainder(ALL_ONES, data);
    assert Reverse(Not(Remainder(ALL_ONES, data))) == Not(Reverse(Remainder(ALL_ONES, data)));
  }

  lemma {:induction false} RemainderConcat(r: Word, a: seq<Byte>, b: seq<Byte>)
    ensures Remainder(r, a + b) == Remainder(Remainder(r, a), b)
    decreases |b|
  {
    if b == [] {
      assert a + b == a;
    } else {
      assert (a + b)[..|a + b| - 1] == a + b[..|b| - 1];
      RemainderConcat(r, a, b[..|b| - 1]);
    }
  }

  // ----- The functions of crc.c -----

  method CalcCrc32(data: seq<Byte>) returns (crc: Word)
    ensures crc == Rfc1952(data)
  {
    var remainder: Word := ALL_ONES;
    for i := 0 to |data|
      invariant remainder == Remainder(ALL_ONES, data[..i])
    {
      remainder := AddByteLoop(remainder, data[i]);
      assert data[..i + 1][..i] == data[..i];
    }
    assert data[..|data|] == data;
    ChecksumIsRfc1952(data);
    crc := Reflect(Not(remainder));
  }

  /** The body of the loop over the data. */
  method AddByteLoop(start: Word, byte: Byte) returns (remainder: Word)
    ensures remainder == AddByte(start, byte)
  {
    var reflected := Reflect(byte);
    var input: Word := Xor(start, AtTheTop(reflected));
    remainder := input;
    for j := 0 to 8
      invariant remainder == Steps(input, j)
    {
      if remainder[31] {
        remainder := Xor(Shl(remainder), POLYNOMIAL);
      } else {
        remainder := Shl(remainder);
      }
    }
  }

  method BeginCalcCrc32() returns (remainder: Word)
    ensures remainder == ALL_ONES
  {
    remainder := ALL_ONES;
  }

  method ContinueCalcCrc32(start: Word, data: seq<Byte>) returns (remainder: Word)
    ensures remainder == Remainder(start, data)
  {
    remainder := start;
    for i := 0 to |data|
      invariant remainder == Remainder(start, data[..i])
    {
      remainder := AddByteLoop(remainder, data[i]);
      assert data[..i + 1][..i] == data[..i];
    }
    assert data[..|data|] == data;
  }

  method EndCalcCrc32(remainder: Word) returns (crc: Word)
    ensures crc == Reverse(Not(remainder))
  {
    crc := Reflect(Not(remainder));
  }

  function Flatten(chunks: seq<seq<Byte>>): seq<Byte>
    decreases |chunks|
  {
    if chunks == [] then [] else Flatten(chunks[..|chunks| - 1]) + chunks[|chunks| - 1]
  }

  /** Feeding the data in pieces, cut anywhere, gives the checksum of the whole. */
  method Incremental(chunks: seq<seq<Byte>>) returns (crc: Word)
    ensures crc == Rfc1952(Flatten(chunks))
  {
    var remainder := BeginCalcCrc32();
    for i := 0 to |chunks|
      invariant remainder == Remainder(ALL_ONES, Flatten(chunks[..i]))
    {
      remainder := ContinueCalcCrc32(remainder, chunks[i]);
      assert chunks[..i + 1][..i] == chunks[..i];
      RemainderConcat(ALL_ONES, Flatten(chunks[..i]), chunks[i]);
    }
    assert chunks[..|chunks|] == chunks;
    ChecksumIsRfc1952(Flatten(chunks));
    crc := EndCalcCrc32(remainder);
  }

  // ----- Changes within four bytes -----

  /** The step can be undone: the polynomial has a constant term. */
  lemma StepInjective(x: Word, y: Word)
    requires ReflectedStep(x) == ReflectedStep(y)
    ensures x == y
  {
    assert REFLECTED_POLYNOMIAL[31];
    var x', y' := ReflectedStep(x), ReflectedStep(y);
    assert x'[31] == x[0] && y'[31] == y[0];
    forall i | 0 <= i < 32 ensures x[i] == y[i] {
      if i > 0 { assert x'[i - 1] == y'[i - 1] && Shr(x)[i - 1] == x[i] && Shr(y)[i - 1] == y[i]; }
    }
  }

  lemma {:induction false} StepsInjective(x: Word, y: Word, n: nat)
    requires ReflectedSteps(x, n) == ReflectedSteps(y, n)
    ensures x == y
    decreases n
  {
    if n > 0 {
      StepInjective(ReflectedSteps(x, n - 1), ReflectedSteps(y, n - 1));
      StepsInjective(x, y, n - 1);
    }
  }

  lemma StepMovesDifference(x: Word, d: Word)
    requires !d[31]
    ensures ReflectedStep(Xor(x, Shl(d))) == Xor(ReflectedStep(x), d)
  {
    var a, b := ReflectedStep(Xor(x, Shl(d))), Xor(ReflectedStep(x), d);
    assert Xor(x, Shl(d))[0] == x[0];
    forall i | 0 <= i < 32 ensures a[i] == b[i] {
      assert Shr(Xor(x, Shl(d)))[i] == (Shr(x)[i] != d[i]) by {
        if i < 31 { assert Xor(x, Shl(d))[i + 1] == (x[i + 1] != Shl(d)[i + 1]); }
      }
    }
  }

  // ----- Bit by bit -----

  /** One bit of the message, xored into the lowest bit of the register. */
  function BitStep(c: Word, b: bool): Word {
    ReflectedStep(c[0 := c[0] != b])
  }

  function BitRemainder(c: Word, bits: Bits): Word
    decreases |bits|
  {
    if bits == [] then c else BitStep(BitRemainder(c, bits[..|bits| - 1]), bits[|bits| - 1])
  }

  function Pad(bits: Bits): (w: Word)
    requires |bits| <= 32
    ensures forall i | 0 <= i < 32 :: w[i] == (i < |bits| && bits[i])
  {
    bits + Zeros(32 - |bits|)
  }

  /** Up to 32 bits may be xored in at once: those not yet consumed only move down. */
  lemma {:induction false} Preloaded(c: Word, bits: Bits, n: nat)
    requires n <= |bits| <= 32
    ensures ReflectedSteps(Xor(c, Pad(bits)), n) == Xor(BitRemainder(c, bits[..n]), Pad(bits[n..]))
    decreases n
  {
    if n == 0 {
      assert bits[0..] == bits && bits[..0] == [];
    } else {
      Preloaded(c, bits, n - 1);
      assert bits[..n][..n - 1] == bits[..n - 1];
      PreloadStep(BitRemainder(c, bits[..n - 1]), bits[n - 1..]);
      assert bits[n - 1..][1..] == bits[n..];
    }
  }

  lemma PreloadStep(x: Word, bits: Bits)
    requires 0 < |bits| <= 32
    ensures ReflectedStep(Xor(x, Pad(bits))) == Xor(BitStep(x, bits[0]), Pad(bits[1..]))
  {
    var x', d := x[0 := x[0] != bits[0]], Pad(bits[1..]);
    forall i | 0 <= i < 32 ensures Xor(x', Shl(d))[i] == Xor(x, Pad(bits))[i] {
      if i > 0 { assert Shl(d)[i] == d[i - 1]; }
    }
    assert Xor(x', Shl(d)) == Xor(x, Pad(bits));
    StepMovesDifference(x', d);
  }

  lemma AllConsumed(c: Word, bits: Bits)
    requires |bits| <= 32
    ensures ReflectedSteps(Xor(c, Pad(bits)), |bits|) == BitRemainder(c, bits)
  {
    Preloaded(c, bits, |bits|);
    assert bits[..|bits|] == bits && bits[|bits|..] == [];
    var r := BitRemainder(c, bits);
    assert Xor(r, Pad([])) == r;
  }

  /** Up to 32 bits on top of the same register are determined by the result. */
  lemma BurstInjective(c: Word, u: Bits, v: Bits)
    requires |u| == |v| <= 32 && BitRemainder(c, u) == BitRemainder(c, v)
    ensures u == v
  {
    AllConsumed(c, u);
    AllConsumed(c, v);
    StepsInjective(Xor(c, Pad(u)), Xor(c, Pad(v)), |u|);
    forall i | 0 <= i < |u| ensures u[i] == v[i] { assert Xor(c, Pad(u))[i] == Xor(c, Pad(v))[i]; }
  }

  /** The same bits keep different registers different. */
  lemma {:induction false} BitsInjective(x: Word, y: Word, bits: Bits)
    requires BitRemainder(x, bits) == BitRemainder(y, bits)
    ensures x == y
    decreases |bits|
  {
    if bits != [] {
      var n := |bits| - 1;
      var x', y' := BitRemainder(x, bits[..n]), BitRemainder(y, bits[..n]);
      var u, v := x'[0 := x'[0] != bits[n]], y'[0 := y'[0] != bits[n]];
      StepInjective(u, v);
      forall i | 0 <= i < 32 ensures x'[i] == y'[i] { assert u[i] == v[i]; }
      BitsInjective(x, y, bits[..n]);
    }
  }

  lemma {:induction false} BitsConcat(c: Word, a: Bits, b: Bits)
    ensures BitRemainder(c, a + b) == BitRemainder(BitRemainder(c, a), b)
    decreases |b|
  {
    if b == [] {
      assert a + b == a;
    } else {
      assert (a + b)[..|a + b| - 1] == a + b[..|b| - 1];
      BitsConcat(c, a, b[..|b| - 1]);
    }
  }

  /** The message as bits, the least significant bit of each byte first. */
  function BitsOf(data: seq<Byte>): (bits: Bits)
    ensures |bits| == 8 * |data|
    decreases |data|
  {
    if data == [] then [] else BitsOf(data[..|data| - 1]) + data[|data| - 1]
  }

  lemma {:induction false} RemainderOfBits(c: Word, data: seq<Byte>)
    ensures ReflectedRemainder(c, data) == BitRemainder(c, BitsOf(data))
    decreases |data|
  {
    if data != [] {
      var before, b := data[..|data| - 1], data[|data| - 1];
      RemainderOfBits(c, before);
      AllConsumed(ReflectedRemainder(c, before), b);
      assert Pad(b) == Widen(b);
      BitsConcat(c, BitsOf(before), b);
    }
  }

  lemma {:induction false} BitOf(data: seq<Byte>, i: nat)
    requires i < 8 * |data|
    ensures BitsOf(data)[i] == data[i / 8][i % 8]
    decreases |data|
  {
    var n := |data| - 1;
    if i < 8 * n { BitOf(data[..n], i); }
  }

  lemma NotInjective(x: Word, y: Word)
    requires Not(x) == Not(y)
    ensures x == y
  {
    forall i | 0 <= i < 32 ensures x[i] == y[i] { assert Not(x)[i] == Not(y)[i]; }
  }

  /** Two bit strings that agree around a burst and give the same remainder are the same. */
  lemma SameBurst(c: Word, a: Bits, u: Bits, v: Bits, z: Bits)
    requires |u| == |v| <= 32 && BitRemainder(c, a + u + z) == BitRemainder(c, a + v + z)
    ensures u == v
  {
    BitsConcat(c, a + u, z);
    BitsConcat(c, a + v, z);
    BitsConcat(c, a, u);
    BitsConcat(c, a, v);
    BitsInjective(BitRemainder(BitRemainder(c, a), u), BitRemainder(BitRemainder(c, a), v), z);
    BurstInjective(BitRemainder(c, a), u, v);
  }

  lemma SameAround(x: Bits, y: Bits, from: nat, to: nat)
    requires |x| == |y| && from <= to <= |x|
    requires forall i | 0 <= i < |x| && !(from <= i < to) :: x[i] == y[i]
    ensures x == x[..from] + x[from..to] + x[to..]
    ensures y == x[..from] + y[from..to] + x[to..]
  {
    assert y[..from] == x[..from] && y[to..] == x[to..];
    assert y == y[..from] + y[from..to] + y[to..];
  }

  lemma {:induction false} BitsDetermineData(data: seq<Byte>, data': seq<Byte>)
    requires |data| == |data'| && BitsOf(data) == BitsOf(data')
    ensures data == data'
  {
    forall i, j | 0 <= i < |data| && 0 <= j < 8 ensures data[i][j] == data'[i][j] {
      BitOf(data, 8 * i + j);
      BitOf(data', 8 * i + j);
    }
    forall i | 0 <= i < |data| ensures data[i] == data'[i] {
      assert forall j | 0 <= j < 8 :: data[i][j] == data'[i][j];
    }
  }

  /** Any burst is detected: two messages of the same length that differ, and only inside 32
      consecutive bits, wherever these begin, never have the same checksum. */
  lemma BurstDetected(data: seq<Byte>, data': seq<Byte>, k: nat)
    requires |data| == |data'| && data != data'
    requires forall i | 0 <= i < 8 * |data| && !(k <= i < k + 32) :: BitsOf(data)[i] == BitsOf(data')[i]
    ensures Rfc1952(data) != Rfc1952(data')
  {
    if Rfc1952(data) == Rfc1952(data') {
      NotInjective(ReflectedRemainder(ALL_ONES, data), ReflectedRemainder(ALL_ONES, data'));
      RemainderOfBits(ALL_ONES, data);
      RemainderOfBits(ALL_ONES, data');
      SameOutsideBurst(BitsOf(data), BitsOf(data'), k);
      BitsDetermineData(data, data');
      assert false;
    }
  }

  lemma SameOutsideBurst(x: Bits, y: Bits, k: nat)
    requires |x| == |y| && BitRemainder(ALL_ONES, x) == BitRemainder(ALL_ONES, y)
    requires forall i | 0 <= i < |x| && !(k <= i < k + 32) :: x[i] == y[i]
    ensures x == y
  {
    var from := if k < |x| then k else |x|;
    var to := if k + 32 < |x| then k + 32 else |x|;
    SameAround(x, y, from, to);
    SameBurst(ALL_ONES, x[..from], x[from..to], y[from..to], x[to..]);
  }

  /** In particular two messages that differ only inside four consecutive bytes. */
  lemma WindowDetected(data: seq<Byte>, data': seq<Byte>, k: nat)
    requires |data| == |data'| && data != data'
    requires forall i | 0 <= i < |data| && !(k <= i < k + 4) :: data[i] == data'[i]
    ensures Rfc1952(data) != Rfc1952(data')
  {
    forall i | 0 <= i < 8 * |data| && !(8 * k <= i < 8 * k + 32) ensures BitsOf(data)[i] == BitsOf(data')[i] {
      BitOf(data, i);
      BitOf(data', i);
    }
    BurstDetected(data, data', 8 * k);
  }
}
