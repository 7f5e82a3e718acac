/**
 The byte streams of the Bitcoin serializer: little-endian words, variable-size counts and
 counted lists, written to the end of a stream and read back from its position.
 */
module BtcStream {
  import opened Arithmetic
  import opened Words

  type Bytes = seq<Byte>

  datatype Option<T> = None | Some(value: T)

  /** What a reader gives: a value and what is left, or nothing at the stream's end. */
  type Read<T> = Option<(T, Bytes)>

  function Pow256(k: nat): (p: nat)
    ensures p >= 1
  {
    if k == 0 then 1 else 256 * Pow256(k - 1)
  }

  /** `writele` on a word of `k` bytes. */
  function LittleEndian(x: nat, k: nat): (r: Bytes)
    ensures |r| == k
  {
    if k == 0 then [] else [(x % 256) as Byte] + LittleEndian(x / 256, k - 1)
  }

  /** Byte `i` is the digit of weight 256^i. */
  lemma {:induction false} LittleEndianDigit(x: nat, k: nat, i: nat)
    requires i < k
    ensures LittleEndian(x, k)[i] as nat == x / Pow256(i) % 256
  {
    if i > 0 {
      LittleEndianDigit(x / 256, k - 1, i - 1);
      DivDiv(x, 256, Pow256(i - 1));
    }
  }

  function FromLittleEndian(s: Bytes): nat {
    if s == [] then 0 else s[0] as nat + 256 * FromLittleEndian(s[1..])
  }

  lemma {:induction false} LittleEndianRoundTrip(x: nat, k: nat)
    requires x < Pow256(k)
    ensures FromLittleEndian(LittleEndian(x, k)) == x
  {
    if k > 0 {
      LittleEndianRoundTrip(x / 256, k - 1);
      assert LittleEndian(x, k)[1..] == LittleEndian(x / 256, k - 1);
    }
  }

  lemma Pow256Values()
    ensures Pow256(1) == 0x100 && Pow256(2) == 0x1_0000 && Pow256(4) == 0x1_0000_0000
      && Pow256(8) == 0x1_0000_0000_0000_0000
  {
    assert Pow256(3) == 0x100_0000 && Pow256(5) == 0x100_0000_0000 && Pow256(6) == 0x1_0000_0000_0000
      && Pow256(7) == 0x100_0000_0000_0000;
  }

  // ---------- reading ----------

  function ReadBytes(s: Bytes, n: nat): Read<Bytes> {
    if n <= |s| then Some((s[..n], s[n..])) else None
  }

  function ReadWord(s: Bytes, k: nat): Read<nat> {
    match ReadBytes(s, k)
    case None => None
    case Some((b, rest)) => Some((FromLittleEndian(b), rest))
  }

  lemma ReadWritten(b: Bytes, tail: Bytes)
    ensures ReadBytes(b + tail, |b|) == Some((b, tail))
  {
    assert (b + tail)[..|b|] == b && (b + tail)[|b|..] == tail;
  }

  lemma WordRoundTrip(x: nat, k: nat, tail: Bytes)
    requires x < Pow256(k)
    ensures ReadWord(LittleEndian(x, k) + tail, k) == Some((x, tail))
  {
    ReadWritten(LittleEndian(x, k), tail);
    LittleEndianRoundTrip(x, k);
  }

  // ---------- variable-size counts ----------

  /** `serializeVarSize` */
  function VarSize(v: nat): (r: Bytes)
    ensures |r| >= 1
  {
    if v < 0xFD then [v as Byte]
    else if v <= 0xFFFF then [0xFD] + LittleEndian(v, 2)
    else if v <= 0xFFFF_FFFF then [0xFE] + LittleEndian(v, 4)
    else [0xFF] + LittleEndian(v, 8)
  }

  /** `serializedVarSizeLength` */
  function VarSizeLength(v: nat): nat {
    if v < 0xFD then 1 else if v <= 0xFFFF then 3 else if v <= 0xFFFF_FFFF then 5 else 9
  }

  /** The forms of a count: one byte below 253, else a mark and 2, 4 or 8 bytes, each least
      significant first, the shortest that holds it. */
  lemma VarSizeForm(v: nat, i: nat)
    requires v < 0x1_0000_0000_0000_0000
    ensures v < 253 ==> VarSize(v) == [v as Byte]
    ensures v >= 253 ==>
      var k := if v < 0x1_0000 then 2 else if v < 0x1_0000_0000 then 4 else 8;
      && |VarSize(v)| == k + 1
      && VarSize(v)[0] == (if k == 2 then 253 else if k == 4 then 254 else 255)
      && (i < k ==> VarSize(v)[1 + i] as nat == v / Pow256(i) % 256)
  {
    hide LittleEndian, Pow256;
    var k := if v < 0x1_0000 then 2 else if v < 0x1_0000_0000 then 4 else 8;
    if i < k {
      LittleEndianDigit(v, k, i);
    }
  }

  lemma VarSizeLengthIsRight(v: nat)
    ensures |VarSize(v)| == VarSizeLength(v)
  {
  }

  /** `unserializeVarSize` */
  function ReadVarSize(s: Bytes): Read<nat> {
    if s == [] then None
    else if s[0] < 0xFD then Some((s[0] as nat, s[1..]))
    else if s[0] == 0xFD then ReadWord(s[1..], 2)
    else if s[0] == 0xFE then ReadWord(s[1..], 4)
    else ReadWord(s[1..], 8)
  }

  lemma VarSizeRoundTrip(v: nat, tail: Bytes)
    requires v < 0x1_0000_0000_0000_0000
    ensures ReadVarSize(VarSize(v) + tail) == Some((v, tail))
  {
    hide LittleEndian, ReadWord;
    Pow256Values();
    var s := VarSize(v) + tail;
    if v < 0xFD {
      assert s[1..] == tail;
    } else {
      var k := if v <= 0xFFFF then 2 else if v <= 0xFFFF_FFFF then 4 else 8;
      assert s[1..] == LittleEndian(v, k) + tail;
      WordRoundTrip(v, k, tail);
    }
  }

  // ---------- counted lists ----------

  function ListBytes<T>(bytes: T -> Bytes, items: seq<T>): Bytes {
    if items == [] then [] else bytes(items[0]) + ListBytes(bytes, items[1..])
  }

  /** `serialize` of a vector: the count, then the elements. */
  function VectorBytes<T>(bytes: T -> Bytes, items: seq<T>): Bytes {
    VarSize(|items|) + ListBytes(bytes, items)
  }

  function ReadList<T>(read: Bytes -> Read<T>, n: nat, s: Bytes): Read<seq<T>> {
    if n == 0 then Some(([], s))
    else
      match read(s)
      case None => None
      case Some((x, rest)) =>
        match ReadList(read, n - 1, rest)
        case None => None
        case Some((xs, end)) => Some(([x] + xs, end))
  }

  /** `unserialize` of a vector: a count above what is left of the stream is refused. */
  function ReadVector<T>(read: Bytes -> Read<T>, s: Bytes): Read<seq<T>> {
    match ReadVarSize(s)
    case None => None
    case Some((n, rest)) => if n > |rest| then None else ReadList(read, n, rest)
  }

  /** Reading undoes writing for one element, up to `image`, whatever follows. */
  ghost predicate Undoes<T(!new)>(bytes: T -> Bytes, read: Bytes -> Read<T>, x: T, image: T) {
    forall tail: Bytes :: read(bytes(x) + tail) == Some((image, tail))
  }

  lemma {:induction false} ListRoundTrip<T(!new)>(bytes: T -> Bytes, read: Bytes -> Read<T>, items: seq<T>,
      images: seq<T>, tail: Bytes)
    requires |images| == |items| && forall i :: 0 <= i < |items| ==> Undoes(bytes, read, items[i], images[i])
    ensures ReadList(read, |items|, ListBytes(bytes, items) + tail) == Some((images, tail))
  {
    if items == [] {
      assert ListBytes(bytes, items) + tail == tail;
    } else {
      var rest := ListBytes(bytes, items[1..]) + tail;
      assert ListBytes(bytes, items) + tail == bytes(items[0]) + rest;
      assert Undoes(bytes, read, items[0], images[0]);
      assert read(bytes(items[0]) + rest) == Some((images[0], rest));
      assert [images[0]] + images[1..] == images;
      assert forall i :: 0 <= i < |items[1..]| ==> Undoes(bytes, read, items[1..][i], images[1..][i]) by {
        forall i | 0 <= i < |items[1..]|
          ensures Undoes(bytes, read, items[1..][i], images[1..][i])
        {
          assert Undoes(bytes, read, items[i + 1], images[i + 1]);
        }
      }
      ListRoundTrip(bytes, read, items[1..], images[1..], tail);
    }
  }

  lemma {:induction false} ListIsLong<T>(bytes: T -> Bytes, items: seq<T>)
    requires forall i :: 0 <= i < |items| ==> |bytes(items[i])| >= 1
    ensures |ListBytes(bytes, items)| >= |items|
  {
    if items != [] {
      ListIsLong(bytes, items[1..]);
    }
  }

  /** A vector reads back as its images, whatever follows. */
  lemma VectorRoundTrip<T(!new)>(bytes: T -> Bytes, read: Bytes -> Read<T>, items: seq<T>, images: seq<T>, tail: Bytes)
    requires |images| == |items| < 0x1_0000_0000_0000_0000
    requires forall i :: 0 <= i < |items| ==> Undoes(bytes, read, items[i], images[i]) && |bytes(items[i])| >= 1
    ensures ReadVector(read, VectorBytes(bytes, items) + tail) == Some((images, tail))
  {
    hide VarSize, ReadVarSize, Undoes;
    var rest := ListBytes(bytes, items) + tail;
    assert VectorBytes(bytes, items) + tail == VarSize(|items|) + rest;
    VarSizeRoundTrip(|items|, rest);
    ListIsLong(bytes, items);
    ListRoundTrip(bytes, read, items, images, tail);
  }

  /** The special case of a byte vector. */
  function ByteVector(b: Bytes): Bytes {
    VarSize(|b|) + b
  }

  function ReadByteVector(s: Bytes): Read<Bytes> {
    match ReadVarSize(s)
    case None => None
    case Some((n, rest)) => ReadBytes(rest, n)
  }

  lemma ByteVectorRoundTrip(b: Bytes, tail: Bytes)
    requires |b| < 0x1_0000_0000_0000_0000
    ensures ReadByteVector(ByteVector(b) + tail) == Some((b, tail))
  {
    hide VarSize, ReadVarSize;
    assert ByteVector(b) + tail == VarSize(|b|) + (b + tail);
    VarSizeRoundTrip(|b|, b + tail);
    ReadWritten(b, tail);
  }

  // ---------- the stream ----------

  /** A stream that is written at its end and read from its position. A read past the end
      puts the position at the end and marks the stream. */
  class Stream {
    var data: Bytes
    var pos: nat
    var failed: bool

    predicate Valid()
      reads this
    {
      pos <= |data|
    }

    function Left(): Bytes
      requires Valid()
      reads this
    {
      data[pos..]
    }

    /** The state after an attempt to read. */
    ghost predicate After<T>(r: Read<T>, x: T)
      reads this
    {
      && Valid()
      && match r
         case None => failed
         case Some((v, rest)) => !failed && v == x && Left() == rest
    }

    constructor (data: Bytes)
      ensures Valid() && this.data == data && pos == 0 && !failed
    {
      this.data, pos, failed := data, 0, false;
    }

    method Write(b: Bytes)
      modifies this`data
      ensures data == old(data) + b
    {
      data := data + b;
    }

    method WriteVarSize(v: nat)
      modifies this`data
      ensures data == old(data) + VarSize(v)
    {
      hide LittleEndian;
      if v < 0xFD {
        Write([v as Byte]);
      } else if v <= 0xFFFF {
        WriteMarked(0xFD, LittleEndian(v, 2));
      } else if v <= 0xFFFF_FFFF {
        WriteMarked(0xFE, LittleEndian(v, 4));
      } else {
        WriteMarked(0xFF, LittleEndian(v, 8));
      }
    }

    method WriteMarked(mark: Byte, b: Bytes)
      modifies this`data
      ensures data == old(data) + ([mark] + b)
    {
      Write([mark]);
      Write(b);
    }

    /** `seekEnd(0, true)` */
    method Fail()
      requires Valid()
      modifies this`pos, this`failed
      ensures Valid() && failed
    {
      pos := |data|;
      failed := true;
    }

    method Take(n: nat) returns (b: Bytes)
      requires Valid()
      modifies this`pos, this`failed
      ensures Valid() && (old(failed) ==> failed)
      ensures !old(failed) ==> After(ReadBytes(old(Left()), n), b)
    {
      if n <= |data| - pos {
        b := data[pos..pos + n];
        assert b == data[pos..][..n] && data[pos + n..] == data[pos..][n..];
        pos := pos + n;
      } else {
        b := [];
        Fail();
      }
    }

    method TakeWord(k: nat) returns (x: nat)
      requires Valid()
      modifies this`pos, this`failed
      ensures Valid() && (old(failed) ==> failed)
      ensures !old(failed) ==> After(ReadWord(old(Left()), k), x)
    {
      var b := Take(k);
      x := FromLittleEndian(b);
    }

    method TakeVarSize() returns (v: nat)
      requires Valid()
      modifies this`pos, this`failed
      ensures Valid() && (old(failed) ==> failed)
      ensures !old(failed) ==> After(ReadVarSize(old(Left())), v)
    {
      hide ReadWord;
      var b := Take(1);
      var first: Byte := if b == [] then 0 else b[0];
      if first < 0xFD {
        v := first as nat;
      } else if first == 0xFD {
        v := TakeWord(2);
      } else if first == 0xFE {
        v := TakeWord(4);
      } else {
        v := TakeWord(8);
      }
    }

    method TakeByteVector() returns (b: Bytes)
      requires Valid()
      modifies this`pos, this`failed
      ensures Valid() && (old(failed) ==> failed)
      ensures !old(failed) ==> After(ReadByteVector(old(Left())), b)
    {
      hide ReadVarSize;
      b := [];
      var n := TakeVarSize();
      if n > |data| - pos {
        Fail();
      } else {
        b := Take(n);
      }
    }
  }
}
