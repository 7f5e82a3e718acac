/**
 Equihash's bit unpacker: `ExpandArray` cuts a byte string into groups of `bit_len`
 bits, most significant first, and writes each group as big-endian bytes.
 */
module BitPacking {
  import opened Arithmetic
  import opened Words

  type Bytes = seq<Byte>

  // ---------- big-endian bits ----------

  /** The number that a run of bits denotes, most significant bit first. */
  function Val(bits: Bits): nat {
    if bits == [] then 0 else 2 * Val(bits[..|bits| - 1]) + (if bits[|bits| - 1] then 1 else 0)
  }

  /** The low `width` bits of `n`, most significant first. */
  function BitsOfNat(n: nat, width: nat): (bits: Bits)
    ensures |bits| == width
  {
    if width == 0 then [] else BitsOfNat(n / 2, width - 1) + [n % 2 == 1]
  }

  function BitsOf(bytes: Bytes): (bits: Bits)
    ensures |bits| == 8 * |bytes|
  {
    if bytes == [] then [] else BitsOf(bytes[..|bytes| - 1]) + BitsOfNat(bytes[|bytes| - 1], 8)
  }

  /** `n` as `width` big-endian bytes. */
  function BigEndian(n: nat, width: nat): (bytes: Bytes)
    ensures |bytes| == width
  {
    if width == 0 then [] else BigEndian(n / 256, width - 1) + [n % 256]
  }

  /** Group `j` of `len` bits. */
  function Group(bits: Bits, len: nat, j: nat): (g: Bits)
    requires (j + 1) * len <= |bits|
    ensures |g| == len
  {
    Times(j, len);
    bits[j * len..(j + 1) * len]
  }

  lemma Times(j: nat, len: nat)
    ensures 0 <= j * len && (j + 1) * len == j * len + len
  {
  }

  /** The first `n` groups, each as `width` big-endian bytes. */
  function Expanded(bits: Bits, len: nat, width: nat, n: nat): (out: Bytes)
    requires n * len <= |bits|
    ensures |out| == n * width
  {
    if n == 0 then []
    else
      Times(n - 1, len);
      Times(n - 1, width);
      Expanded(bits, len, width, n - 1) + BigEndian(Val(Group(bits, len, n - 1)), width)
  }

  lemma {:induction false} ValBound(bits: Bits)
    ensures Val(bits) < Pow2(|bits|)
  {
    if bits != [] {
      ValBound(bits[..|bits| - 1]);
    }
  }

  lemma {:induction false} ValConcat(a: Bits, b: Bits)
    ensures Val(a + b) == Val(a) * Pow2(|b|) + Val(b)
  {
    if b == [] {
      assert a + b == a;
    } else {
      var c := b[..|b| - 1];
      ValConcat(a, c);
      assert (a + b)[..|a + b| - 1] == a + c;
      assert Val(a) * Pow2(|b|) == 2 * (Val(a) * Pow2(|c|));
    }
  }

  lemma {:induction false} ValBitsOfNat(n: nat, width: nat)
    ensures Val(BitsOfNat(n, width)) == n % Pow2(width)
  {
    if width == 0 {
    } else {
      ValBitsOfNat(n / 2, width - 1);
      var b := BitsOfNat(n, width);
      assert b[..width - 1] == BitsOfNat(n / 2, width - 1);
      HalfMod(n, Pow2(width - 1));
    }
  }

  lemma HalfMod(n: nat, p: nat)
    requires p > 0
    ensures n % (2 * p) == 2 * (n / 2 % p) + n % 2
  {
    var q := n / 2 / p;
    assert n / 2 == q * p + n / 2 % p;
    assert n == q * (2 * p) + (2 * (n / 2 % p) + n % 2) by {
      assert n == 2 * (n / 2) + n % 2;
      assert 2 * (q * p) == q * (2 * p);
    }
    DivMod(n, 2 * p, q, 2 * (n / 2 % p) + n % 2);
  }

  lemma Distance(q: int, q': int, d: int)
    ensures (q - q') * d == q * d - q' * d
  {
  }

  lemma {:induction false} BitsOfNatVal(bits: Bits)
    ensures BitsOfNat(Val(bits), |bits|) == bits
  {
    if bits != [] {
      BitsOfNatVal(bits[..|bits| - 1]);
      assert bits == bits[..|bits| - 1] + [bits[|bits| - 1]];
    }
  }

  // ---------- C operators on unsigned words ----------

  /** `x & y` */
  function AndN(x: nat, y: nat): (r: nat)
    ensures r <= x && r <= y
  {
    if x == 0 || y == 0 then 0
    else 2 * AndN(x / 2, y / 2) + (if x % 2 == 1 && y % 2 == 1 then 1 else 0)
  }

  lemma AndStep(x: nat, y: nat)
    ensures AndN(x, y) == 2 * AndN(x / 2, y / 2) + (if x % 2 == 1 && y % 2 == 1 then 1 else 0)
    ensures AndN(x, 0) == 0
  {
  }

  /** And-ing with a run of ones keeps the low bits. */
  lemma {:induction false} AndOnes(x: nat, w: nat)
    ensures AndN(x, Pow2(w) - 1) == x % Pow2(w)
    decreases w
  {
    hide AndN;
    AndStep(x, Pow2(w) - 1);
    if w > 0 {
      var p := Pow2(w - 1);
      assert (2 * p - 1) / 2 == p - 1 && (2 * p - 1) % 2 == 1;
      AndOnes(x / 2, w - 1);
      HalfMod(x, p);
    }
  }

  /** `x & y` is symmetric. */
  lemma {:induction false} AndSym(x: nat, y: nat)
    ensures AndN(x, y) == AndN(y, x)
  {
    if x > 0 && y > 0 {
      AndSym(x / 2, y / 2);
    }
  }

  // ---------- division by powers of two ----------

  lemma Divided(x: nat, d: nat)
    requires d > 0
    ensures x == x / d * d + x % d && x / d >= 0 && 0 <= x % d < d
  {
  }

  /** Division in two steps as one division with remainder. */
  lemma Nested(x: nat, a: nat, b: nat)
    requires a > 0 && b > 0
    ensures x == x / a / b * (a * b) + (x / a % b * a + x % a)
    ensures x / a % b * a + x % a < a * b
  {
    Divided(x, a);
    Divided(x / a, b);
    Regroup(x / a / b, b, x / a % b, a);
    Below(x / a % b, a, b);
  }

  lemma Regroup(q: nat, b: nat, r: nat, a: nat)
    ensures (q * b + r) * a == q * (a * b) + r * a
  {
  }

  lemma Below(r: nat, a: nat, b: nat)
    requires r < b
    ensures r * a <= a * b - a
  {
    assert r * a <= (b - 1) * a;
    assert (b - 1) * a == a * b - a;
  }

  /** Reducing modulo `a * b` before dividing by `a` only reduces the quotient modulo `b`. */
  lemma ModDiv(x: nat, a: nat, b: nat)
    requires a > 0 && b > 0
    ensures a * b > 0 && x % (a * b) / a == x / a % b
    ensures x % (a * b) % a == x % a
  {
    var r, s := x / a % b, x % a;
    Nested(x, a, b);
    assert a * b > 0;
    DivMod(x, a * b, x / a / b, r * a + s);
    DivMod(r * a + s, a, r, s);
  }

  // ---------- one output byte ----------

  function Div(x: nat, d: nat): nat
    requires d > 0
  {
    x / d
  }

  /** `x >> k` */
  function ShrN(x: nat, k: nat): nat {
    Div(x, Pow2(k))
  }

  /** `(1 << k) - 1` */
  function Ones(k: nat): nat {
    Pow2(k) - 1
  }

  lemma OnesQuotient(a: nat, b: nat)
    requires a > 0 && b > 0
    ensures a * b > 0 && (a * b - 1) / a == b - 1
  {
    assert (b - 1) * a == b * a - a;
    assert a * b >= a;
    DivMod(a * b - 1, a, b - 1, a - 1);
  }

  lemma OnesShift(len: nat, k: nat)
    requires k <= len
    ensures ShrN(Ones(len), k) == Ones(len - k)
  {
    PowAdd(k, len - k);
    OnesQuotient(Pow2(k), Pow2(len - k));
  }

  lemma Grows(a: nat, c: nat)
    requires c > 0
    ensures a <= a * c
  {
  }

  lemma Pow8()
    ensures Pow2(8) == 256
  {
  }

  lemma MaskByte(len: nat, k: nat)
    requires k < len
    ensures AndN(ShrN(Ones(len), k), 0xff) == Ones(if len - k < 8 then len - k else 8)
  {
    hide AndN, Pow2, ShrN;
    var m := len - k;
    OnesShift(len, k);
    Pow8();
    AndOnes(Ones(m), 8);
    if m < 8 {
      PowAdd(m, 8 - m);
      Grows(Pow2(m), Pow2(8 - m));
    } else {
      PowAdd(8, m - 8);
      OnesModByte(Pow2(m - 8));
    }
  }

  lemma OnesModByte(b: nat)
    requires b > 0
    ensures (256 * b - 1) % 256 == 255
  {
  }

  /** Reducing to `m` bits and then to a byte is reducing to the smaller of the two. */
  lemma LowByteOf(y: nat, m: nat)
    ensures y % Pow2(m) % 256 == y % Pow2(if m < 8 then m else 8)
  {
    hide Pow2;
    Pow8();
    if m < 8 {
      PowAdd(m, 8 - m);
      Grows(Pow2(m), Pow2(8 - m));
    } else {
      PowAdd(8, m - 8);
      ModDiv(y, 256, Pow2(m - 8));
    }
  }

  /** The value of the group of `len` bits that lies above the low `accBits` bits. */
  function GroupValue(acc: nat, accBits: nat, len: nat): (v: nat)
    ensures v < Pow2(len)
  {
    ShrN(acc, accBits) % Pow2(len)
  }

  /** The expression that `ExpandArray` stores. */
  function StoredByte(acc: nat, accBits: nat, len: nat, k: nat): Byte {
    AndN(ShrN(acc, accBits + k), AndN(ShrN(Ones(len), k), 0xff))
  }

  /** It is a byte of the group's value. */
  lemma StoredByteIs(acc: nat, accBits: nat, len: nat, k: nat)
    requires k < len
    ensures StoredByte(acc, accBits, len, k) == ShrN(GroupValue(acc, accBits, len), k) % 256
  {
    hide AndN, Pow2;
    var z, m := ShrN(acc, accBits), len - k;
    var y, t := ShrN(z, k), if m < 8 then m else 8;
    PowAdd(accBits, k);
    DivDiv(acc, Pow2(accBits), Pow2(k));
    MaskByte(len, k);
    AndOnes(y, t);
    PowAdd(k, m);
    ModDiv(z, Pow2(k), Pow2(m));
    LowByteOf(y, m);
  }

  lemma {:induction false} BigEndianAt(n: nat, width: nat, x: nat)
    requires x < width
    ensures BigEndian(n, width)[x] == ShrN(n, 8 * (width - x - 1)) % 256
  {
    if x < width - 1 {
      BigEndianAt(n / 256, width - 1, x);
      var k := 8 * (width - x - 2);
      PowAdd(8, k);
      assert Pow2(8) == 256;
      DivDiv(n, 256, Pow2(k));
    }
  }

  lemma HighBytesZero(v: nat, len: nat, k: nat)
    requires v < Pow2(len) && len <= k
    ensures ShrN(v, k) % 256 == 0
  {
    PowAdd(len, k - len);
    Grows(Pow2(len), Pow2(k - len));
    DivMod(v, Pow2(k), 0, v);
  }

  // ---------- the accumulator ----------

  /** The accumulator's low `accBits` bits are the input bits from `start` to `stop`. */
  predicate Accumulated(acc: nat, accBits: nat, bits: Bits, start: nat, stop: nat) {
    && acc < 0x1_0000_0000
    && start <= stop <= |bits| && stop - start == accBits
    && acc % Pow2(accBits) == Val(bits[start..stop])
  }

  /** `(acc << 8) | b` on a 32-bit word; the low byte of the shifted word is zero. */
  function Append(acc: nat, b: Byte): (r: nat)
    ensures r < 0x1_0000_0000
  {
    acc * 256 % 0x1_0000_0000 + b
  }

  lemma Pow32()
    ensures Pow2(32) == 0x1_0000_0000
  {
    assert Pow2(8) == 0x100;
    PowAdd(8, 8);
    PowAdd(16, 16);
  }

  /** Taking in a byte: bits shifted out at the top do not reach the low ones. */
  lemma AppendByte(acc: nat, accBits: nat, bits: Bits, start: nat, stop: nat, b: Byte)
    requires Accumulated(acc, accBits, bits, start, stop) && accBits + 8 <= 32
    requires stop + 8 <= |bits| && bits[stop..stop + 8] == BitsOfNat(b, 8)
    ensures Accumulated(Append(acc, b), accBits + 8, bits, start, stop + 8)
  {
    hide Val, BitsOfNat, Pow2;
    var p, m := Pow2(accBits), accBits + 8;
    var low, byte := bits[start..stop], bits[stop..stop + 8];
    assert bits[start..stop + 8] == low + byte;
    ValConcat(low, byte);
    ValBitsOfNat(b, 8);
    Pow8();
    Pow32();
    PowAdd(m, 32 - m);
    PowAdd(8, accBits);
    // dropping the top keeps the value modulo 2^m
    ModDiv(acc * 256, Pow2(m), Pow2(32 - m));
    var r := acc * 256 % 0x1_0000_0000;
    AddByteMod(acc, p, r, b);
  }

  lemma AddByteMod(acc: nat, p: nat, r: nat, b: Byte)
    requires p > 0 && r % (256 * p) == acc * 256 % (256 * p)
    ensures (r + b) % (256 * p) == acc % p * 256 + b
  {
    var q := acc / p;
    assert acc * 256 == q * (256 * p) + acc % p * 256 by {
      assert acc == q * p + acc % p;
      assert (q * p) * 256 == q * (256 * p);
    }
    assert acc % p * 256 + b < 256 * p by {
      assert acc % p + 1 <= p;
    }
    DivMod(acc * 256, 256 * p, q, acc % p * 256);
    var t := r / (256 * p);
    assert r == t * (256 * p) + acc % p * 256;
    DivMod(r + b, 256 * p, t, acc % p * 256 + b);
  }

  /** Splitting off a full group at the top of the accumulated bits. */
  lemma TakeGroup(acc: nat, accBits: nat, bits: Bits, start: nat, stop: nat, len: nat)
    requires Accumulated(acc, accBits, bits, start, stop) && len <= accBits
    ensures GroupValue(acc, accBits - len, len) == Val(bits[start..start + len])
    ensures Accumulated(acc, accBits - len, bits, start + len, stop)
  {
    hide Val, Pow2;
    var rest := accBits - len;
    var group, tail := bits[start..start + len], bits[start + len..stop];
    assert bits[start..stop] == group + tail;
    ValConcat(group, tail);
    ValBound(tail);
    PowAdd(rest, len);
    ModDiv(acc, Pow2(rest), Pow2(len));
    DivMod(acc % Pow2(accBits), Pow2(rest), Val(group), Val(tail));
  }

  lemma {:induction false} BitsOfByte(bytes: Bytes, i: nat)
    requires i < |bytes|
    ensures BitsOf(bytes)[8 * i..8 * i + 8] == BitsOfNat(bytes[i], 8)
  {
    hide BitsOfNat;
    var n := |bytes| - 1;
    var before, last := BitsOf(bytes[..n]), BitsOfNat(bytes[n], 8);
    assert BitsOf(bytes) == before + last && |before| == 8 * n;
    if i < n {
      BitsOfByte(bytes[..n], i);
      assert (before + last)[8 * i..8 * i + 8] == before[8 * i..8 * i + 8];
    } else {
      assert (before + last)[8 * n..8 * n + 8] == last;
    }
  }

  // ---------- ExpandArray ----------

  /** `b` in place of the bytes from `j` on. */
  function Spliced(s: Bytes, j: nat, b: Bytes): Bytes
    requires j + |b| <= |s|
  {
    s[..j] + b + s[j + |b|..]
  }

  /** Writes the big-endian bytes of one group, after `bytePad` zero bytes. */
  method WriteGroup(out: array<Byte>, j: nat, acc: nat, accBits: nat, bitLen: nat, bytePad: nat, outWidth: nat)
    requires 8 <= bitLen <= 25 && outWidth == (bitLen + 7) / 8 + bytePad && j + outWidth <= out.Length
    modifies out
    ensures out[..] == Spliced(old(out[..]), j, BigEndian(GroupValue(acc, accBits, bitLen), outWidth))
  {
    hide StoredByte, GroupValue, Pow2, BigEndian, ShrN, StoredTo;
    ghost var v := GroupValue(acc, accBits, bitLen);
    ghost var target, before := BigEndian(v, outWidth), out[..];
    NothingStored(before, target, j);
    for x := 0 to bytePad
      invariant StoredTo(out[..], before, target, j, x)
    {
      BigEndianAt(v, outWidth, x);
      HighBytesZero(v, bitLen, 8 * (outWidth - x - 1));
      ghost var now := out[..];
      StoreStep(now, before, target, j, x);
      out[j + x] := 0;
      assert out[..] == now[j + x := target[x]];
    }
    for x := bytePad to outWidth
      invariant StoredTo(out[..], before, target, j, x)
    {
      BigEndianAt(v, outWidth, x);
      StoredByteIs(acc, accBits, bitLen, 8 * (outWidth - x - 1));
      ghost var now := out[..];
      StoreStep(now, before, target, j, x);
      out[j + x] := StoredByte(acc, accBits, bitLen, 8 * (outWidth - x - 1));
      assert out[..] == now[j + x := target[x]];
    }
    StoredLength(out[..], before, target, j, outWidth);
  }

  /** The first `x` bytes of `target` have been stored from `j` on. */
  predicate StoredTo(out: Bytes, before: Bytes, target: Bytes, j: nat, x: nat)
    requires j + |target| <= |before| && x <= |target|
  {
    out == before[..j] + target[..x] + before[j + x..]
  }

  lemma NothingStored(before: Bytes, target: Bytes, j: nat)
    requires j + |target| <= |before|
    ensures StoredTo(before, before, target, j, 0)
  {
  }

  lemma StoredLength(out: Bytes, before: Bytes, target: Bytes, j: nat, x: nat)
    requires j + |target| <= |before| && x <= |target| && StoredTo(out, before, target, j, x)
    ensures |out| == |before|
    ensures x == |target| ==> out == before[..j] + target + before[j + |target|..]
  {
    assert target[..|target|] == target;
  }

  lemma StoreStep(out: Bytes, before: Bytes, target: Bytes, j: nat, x: nat)
    requires j + |target| <= |before| && x < |target| && StoredTo(out, before, target, j, x)
    ensures |out| == |before| && StoredTo(out[j + x := target[x]], before, target, j, x + 1)
  {
    assert target[..x + 1] == target[..x] + [target[x]];
    assert before[j + x..] == [before[j + x]] + before[j + x + 1..];
  }

  /** Everything that `ExpandArray` writes: all the whole groups of the input. */
  function ExpandedArray(input: Bytes, bitLen: nat, bytePad: nat): (out: Bytes)
    requires bitLen > 0
  {
    Divided(8 * |input|, bitLen);
    Expanded(BitsOf(input), bitLen, (bitLen + 7) / 8 + bytePad, 8 * |input| / bitLen)
  }

  lemma ExpandedLength(input: Bytes, bitLen: nat, bytePad: nat)
    requires bitLen > 0
    ensures |ExpandedArray(input, bitLen, bytePad)| == 8 * |input| / bitLen * ((bitLen + 7) / 8 + bytePad)
  {
    Divided(8 * |input|, bitLen);
  }

  /** `ExpandArray`: the output is exactly the groups of the input, in order. */
  method ExpandArray(input: Bytes, out: array<Byte>, bitLen: nat, bytePad: nat)
    requires 8 <= bitLen <= 25 && |ExpandedArray(input, bitLen, bytePad)| <= out.Length
    modifies out
    ensures out[..] == ExpandedArray(input, bitLen, bytePad) + old(out[|ExpandedArray(input, bitLen, bytePad)|..])
  {
    hide Spliced, GroupValue, Pow2, ShrN, BigEndian, Accumulated, Append, Written, ExpandedArray, BitsOf, BitsOfNat,
      Val;
    var outWidth := (bitLen + 7) / 8 + bytePad;
    ghost var bits, p := BitsOf(input), out[..];
    ghost var n: nat, start: nat := 0, 0;
    var accBits: nat, accValue: nat, j: nat := 0, 0, 0;
    NothingYet(bits, bitLen, outWidth, p);
    for i := 0 to |input|
      invariant accBits < bitLen && accBits + start == 8 * i
      invariant Accumulated(accValue, accBits, bits, start, 8 * i)
      invariant Written(out[..], p, n, start, j, bitLen, outWidth, bits)
    {
      BitsOfByte(input, i);
      AppendByte(accValue, accBits, bits, start, 8 * i, input[i]);
      accValue := Append(accValue, input[i]);
      accBits := accBits + 8;
      if accBits >= bitLen {
        GroupFits(out[..], p, n, start, j, bitLen, outWidth, input, bytePad);
        TakeGroup(accValue, accBits, bits, start, 8 * i + 8, bitLen);
        accBits := accBits - bitLen;
        ghost var before := out[..];
        WriteGroup(out, j, accValue, accBits, bitLen, bytePad, outWidth);
        GroupWritten(before, out[..], p, n, start, j, bitLen, outWidth, bits);
        j := j + outWidth;
        start := start + bitLen;
        n := n + 1;
      }
    }
    AllGroups(out[..], p, n, start, j, bitLen, outWidth, input, bytePad);
  }

  /** After `n` groups: `start` is the first unread bit and `j` the next free byte. */
  predicate Written(out: Bytes, p: Bytes, n: nat, start: nat, j: nat, len: nat, width: nat, bits: Bits) {
    && start == n * len && start <= |bits|
    && j == n * width && j <= |p| == |out|
    && out == Expanded(bits, len, width, n) + p[j..]
  }

  lemma NothingYet(bits: Bits, len: nat, width: nat, p: Bytes)
    ensures Accumulated(0, 0, bits, 0, 0) && Written(p, p, 0, 0, 0, len, width, bits)
  {
  }

  lemma MultipleBelow(k: int, d: int)
    requires d > 0
    ensures k * d < d ==> k <= 0
  {
    if k >= 1 {
      assert k * d >= d;
    }
  }

  lemma AtMostQuotient(k: nat, len: nat, size: nat)
    requires len > 0 && k * len <= size
    ensures k <= size / len
  {
    Divided(size, len);
    Distance(k, size / len, len);
    MultipleBelow(k - size / len, len);
  }

  /** While a whole group is pending the output still has room for it. */
  lemma GroupFits(out: Bytes, p: Bytes, n: nat, start: nat, j: nat, len: nat, width: nat, input: Bytes, pad: nat)
    requires len > 0 && Written(out, p, n, start, j, len, width, BitsOf(input)) && width == (len + 7) / 8 + pad
    requires start + len <= 8 * |input| && |ExpandedArray(input, len, pad)| <= |p|
    ensures j + width <= |out|
  {
    hide Expanded;
    ExpandedLength(input, len, pad);
    Times(n, len);
    Times(n, width);
    AtMostQuotient(n + 1, len, 8 * |input|);
    Scale(n + 1, 8 * |input| / len, width);
  }

  lemma GroupWritten(out: Bytes, out': Bytes, p: Bytes, n: nat, start: nat, j: nat, len: nat, width: nat, bits: Bits)
    requires len > 0 && Written(out, p, n, start, j, len, width, bits)
    requires start + len <= |bits| && j + width <= |out|
    requires out' == Spliced(out, j, BigEndian(Val(bits[start..start + len]), width))
    ensures Written(out', p, n + 1, start + len, j + width, len, width, bits)
  {
    hide BigEndian, Val;
    Times(n, len);
    Times(n, width);
    assert out[..j] == Expanded(bits, len, width, n);
  }

  lemma GroupCount(size: nat, len: nat, n: nat)
    requires len > 0 && n * len <= size < n * len + len
    ensures size / len == n
  {
    DivMod(size, len, n, size - n * len);
  }

  lemma AllGroups(out: Bytes, p: Bytes, n: nat, start: nat, j: nat, len: nat, width: nat, input: Bytes, pad: nat)
    requires len > 0 && Written(out, p, n, start, j, len, width, BitsOf(input)) && width == (len + 7) / 8 + pad
    requires 8 * |input| < start + len
    ensures |ExpandedArray(input, len, pad)| <= |p|
    ensures out == ExpandedArray(input, len, pad) + p[|ExpandedArray(input, len, pad)|..]
  {
    hide Expanded, BitsOf;
    GroupCount(8 * |input|, len, n);
  }

  // ---------- packing, which the unpacker inverts ----------

  /** The values in `len` bits each, one after the other. */
  function Packed(values: seq<nat>, len: nat): (bits: Bits)
    ensures |bits| == |values| * len
  {
    if values == [] then []
    else
      Times(|values| - 1, len);
      Packed(values[..|values| - 1], len) + BitsOfNat(values[|values| - 1], len)
  }

  /** The values in `width` big-endian bytes each. */
  function Rows(values: seq<nat>, width: nat): (bytes: Bytes)
    ensures |bytes| == |values| * width
  {
    if values == [] then []
    else
      Times(|values| - 1, width);
      Rows(values[..|values| - 1], width) + BigEndian(values[|values| - 1], width)
  }

  function BytesOf(bits: Bits): (bytes: Bytes)
    requires |bits| % 8 == 0
    ensures 8 * |bytes| == |bits|
  {
    if bits == [] then []
    else
      var last := bits[|bits| - 8..];
      Pow8();
      ValBound(last);
      BytesOf(bits[..|bits| - 8]) + [Val(last)]
  }

  lemma {:induction false} BitsOfBytesOf(bits: Bits)
    requires |bits| % 8 == 0
    ensures BitsOf(BytesOf(bits)) == bits
  {
    if bits == [] {
    } else {
      var rest, last := bits[..|bits| - 8], bits[|bits| - 8..];
      BitsOfBytesOf(rest);
      BitsOfNatVal(last);
      assert BytesOf(bits)[..|BytesOf(bits)| - 1] == BytesOf(rest);
      assert bits == rest + last;
    }
  }

  lemma {:induction false} ExpandedPacked(values: seq<nat>, len: nat, width: nat, rest: Bits)
    requires forall j :: 0 <= j < |values| ==> values[j] < Pow2(len)
    ensures Expanded(Packed(values, len) + rest, len, width, |values|) == Rows(values, width)
    decreases |values|
  {
    hide Val, BitsOfNat, BigEndian, Pow2;
    if values != [] {
      var n := |values| - 1;
      var last := BitsOfNat(values[n], len);
      Times(n, len);
      ExpandedPacked(values[..n], len, width, last + rest);
      assert Packed(values, len) + rest == Packed(values[..n], len) + (last + rest);
      ValBitsOfNat(values[n], len);
      SmallMod(values[n], Pow2(len));
    }
  }

  lemma SmallMod(x: nat, d: nat)
    requires x < d
    ensures x % d == x
  {
  }

  /** Unpacking undoes packing: values of `len` bits packed into whole bytes come back
      as big-endian rows. */
  lemma ExpandInvertsPacking(values: seq<nat>, len: nat, pad: nat)
    requires len > 0 && |values| * len % 8 == 0
    requires forall j :: 0 <= j < |values| ==> values[j] < Pow2(len)
    ensures ExpandedArray(BytesOf(Packed(values, len)), len, pad) == Rows(values, (len + 7) / 8 + pad)
  {
    hide Packed, Expanded, Rows;
    var bits := Packed(values, len);
    BitsOfBytesOf(bits);
    DivMod(|bits|, len, |values|, 0);
    ExpandedPacked(values, len, (len + 7) / 8 + pad, []);
    assert bits + [] == bits;
  }
}
