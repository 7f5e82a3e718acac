/**
 Bitcoin transactions: their legacy and witness serialisation (BIP 144), reading them
 back, and when that gives the same transaction. Integers are their unsigned bit patterns.
 */
module BtcTransaction {
  import opened BtcStream
  import opened Words

  datatype TxIn = TxIn(previousHash: Bytes, previousIndex: nat, scriptSig: Bytes, witnessStack: seq<Bytes>,
      sequence: nat)

  datatype TxOut = TxOut(value: nat, pkScript: Bytes)

  datatype Transaction = Transaction(version: nat, txIn: seq<TxIn>, txOut: seq<TxOut>, lockTime: nat)

  predicate IsSize(n: nat) {
    n < 0x1_0000_0000_0000_0000
  }

  predicate IsWord32(x: nat) {
    x < 0x1_0000_0000
  }

  /** The values the source's types can hold. */
  predicate InRange(i: TxIn) {
    && |i.previousHash| == 32 && IsWord32(i.previousIndex) && IsWord32(i.sequence) && IsSize(|i.scriptSig|)
    && IsSize(|i.witnessStack|) && forall k :: 0 <= k < |i.witnessStack| ==> IsSize(|i.witnessStack[k]|)
  }

  predicate OutInRange(o: TxOut) {
    o.value < 0x1_0000_0000_0000_0000 && IsSize(|o.pkScript|)
  }

  predicate Valid(tx: Transaction) {
    && IsWord32(tx.version) && IsWord32(tx.lockTime) && IsSize(|tx.txIn|) && IsSize(|tx.txOut|)
    && (forall k :: 0 <= k < |tx.txIn| ==> InRange(tx.txIn[k]))
    && (forall k :: 0 <= k < |tx.txOut| ==> OutInRange(tx.txOut[k]))
  }

  predicate HasWitness(ins: seq<TxIn>) {
    exists k :: 0 <= k < |ins| && ins[k].witnessStack != []
  }

  // ---------- writing ----------

  function InBytes(i: TxIn): Bytes {
    i.previousHash + LittleEndian(i.previousIndex, 4) + ByteVector(i.scriptSig) + LittleEndian(i.sequence, 4)
  }

  function OutBytes(o: TxOut): Bytes {
    LittleEndian(o.value, 8) + ByteVector(o.pkScript)
  }

  function StackBytes(i: TxIn): Bytes {
    VectorBytes(ByteVector, i.witnessStack)
  }

  function StacksBytes(ins: seq<TxIn>): Bytes {
    ListBytes(StackBytes, ins)
  }

  /** The witness form puts a zero count and a flag before the inputs, and the stacks of all
      inputs after the outputs. */
  function TransactionBytes(tx: Transaction, withWitness: bool): Bytes {
    var flagged := withWitness && HasWitness(tx.txIn);
    LittleEndian(tx.version, 4) + (if flagged then VarSize(0) + [1] else [])
    + VectorBytes(InBytes, tx.txIn) + VectorBytes(OutBytes, tx.txOut)
    + (if flagged then StacksBytes(tx.txIn) else []) + LittleEndian(tx.lockTime, 4)
  }

  // ---------- reading ----------

  function ReadIn(s: Bytes): Read<TxIn> {
    match ReadBytes(s, 32)
    case None => None
    case Some((hash, s1)) =>
      match ReadWord(s1, 4)
      case None => None
      case Some((index, s2)) =>
        match ReadByteVector(s2)
        case None => None
        case Some((script, s3)) =>
          match ReadWord(s3, 4)
          case None => None
          case Some((sequence, s4)) => Some((TxIn(hash, index, script, [], sequence), s4))
  }

  function ReadOut(s: Bytes): Read<TxOut> {
    match ReadWord(s, 8)
    case None => None
    case Some((value, s1)) =>
      match ReadByteVector(s1)
      case None => None
      case Some((script, s2)) => Some((TxOut(value, script), s2))
  }

  function ReadStack(s: Bytes): Read<seq<Bytes>> {
    ReadVector(ReadByteVector, s)
  }

  function WithStacks(ins: seq<TxIn>, stacks: seq<seq<Bytes>>): (r: seq<TxIn>)
    requires |ins| == |stacks|
    ensures |r| == |ins|
  {
    seq(|ins|, k requires 0 <= k < |ins| => ins[k].(witnessStack := stacks[k]))
  }

  function ReadLock(tx: Transaction, s: Bytes): Read<Transaction> {
    match ReadWord(s, 4)
    case None => None
    case Some((lockTime, rest)) => Some((tx.(lockTime := lockTime), rest))
  }

  lemma {:induction false} ReadListLength<T>(read: Bytes -> Read<T>, n: nat, s: Bytes)
    ensures ReadList(read, n, s).Some? ==> |ReadList(read, n, s).value.0| == n
  {
    if n > 0 && read(s).Some? {
      ReadListLength(read, n - 1, read(s).value.1);
    }
  }

  /** The end of the extended form: what the flags ask for, then the lock time. Unknown flags,
      and a witness that is empty everywhere, are refused. */
  function ReadExtended(version: nat, flags: nat, s: Bytes): Read<Transaction> {
    match ReadVector(ReadIn, s)
    case None => None
    case Some((ins, s1)) =>
      match ReadVector(ReadOut, s1)
      case None => None
      case Some((outs, s2)) =>
        if flags % 2 == 1 then
          match ReadList(ReadStack, |ins|, s2)
          case None => None
          case Some((stacks, s3)) =>
            var all := if |stacks| == |ins| then WithStacks(ins, stacks) else ins;
            if !HasWitness(all) || flags != 1 then None
            else ReadLock(Transaction(version, all, outs, 0), s3)
        else None
  }

  /** `unserialize` of a transaction. */
  function ReadTransaction(s: Bytes): Read<Transaction> {
    match ReadWord(s, 4)
    case None => None
    case Some((version, s1)) =>
      match ReadVector(ReadIn, s1)
      case None => None
      case Some((ins, s2)) =>
        if ins == [] then
          match ReadBytes(s2, 1)
          case None => None
          case Some((flags, s3)) =>
            if flags == [0] then ReadLock(Transaction(version, [], [], 0), s3)
            else ReadExtended(version, FromLittleEndian(flags), s3)
        else
          match ReadVector(ReadOut, s2)
          case None => None
          case Some((outs, s3)) => ReadLock(Transaction(version, ins, outs, 0), s3)
  }

  // ---------- one field at a time ----------

  function Stripped(i: TxIn): TxIn {
    i.(witnessStack := [])
  }

  function StrippedAll(ins: seq<TxIn>): (r: seq<TxIn>)
    ensures |r| == |ins|
  {
    seq(|ins|, k requires 0 <= k < |ins| => Stripped(ins[k]))
  }

  /** What is left of a transaction without its witness. */
  function Legacy(tx: Transaction): Transaction {
    tx.(txIn := StrippedAll(tx.txIn))
  }

  lemma InRoundTrip(i: TxIn)
    requires InRange(i)
    ensures Undoes(InBytes, ReadIn, i, Stripped(i)) && |InBytes(i)| >= 1
  {
    forall tail: Bytes
      ensures ReadIn(InBytes(i) + tail) == Some((Stripped(i), tail))
    {
      InReadsBack(i, tail);
    }
  }

  lemma InReadsBack(i: TxIn, tail: Bytes)
    requires InRange(i)
    ensures ReadIn(InBytes(i) + tail) == Some((Stripped(i), tail))
  {
    hide LittleEndian, ByteVector, ReadBytes, ReadWord, ReadByteVector;
    Pow256Values();
    var s3 := LittleEndian(i.sequence, 4) + tail;
    var s2 := ByteVector(i.scriptSig) + s3;
    var s1 := LittleEndian(i.previousIndex, 4) + s2;
    assert InBytes(i) + tail == i.previousHash + s1;
    ReadWritten(i.previousHash, s1);
    WordRoundTrip(i.previousIndex, 4, s2);
    ByteVectorRoundTrip(i.scriptSig, s3);
    WordRoundTrip(i.sequence, 4, tail);
  }

  lemma OutRoundTrip(o: TxOut)
    requires OutInRange(o)
    ensures Undoes(OutBytes, ReadOut, o, o) && |OutBytes(o)| >= 1
  {
    forall tail: Bytes
      ensures ReadOut(OutBytes(o) + tail) == Some((o, tail))
    {
      OutReadsBack(o, tail);
    }
  }

  lemma OutReadsBack(o: TxOut, tail: Bytes)
    requires OutInRange(o)
    ensures ReadOut(OutBytes(o) + tail) == Some((o, tail))
  {
    hide LittleEndian, ByteVector, ReadWord, ReadByteVector;
    Pow256Values();
    var s1 := ByteVector(o.pkScript) + tail;
    assert OutBytes(o) + tail == LittleEndian(o.value, 8) + s1;
    WordRoundTrip(o.value, 8, s1);
    ByteVectorRoundTrip(o.pkScript, tail);
  }

  lemma StackReadsBack(i: TxIn, tail: Bytes)
    requires InRange(i)
    ensures ReadStack(StackBytes(i) + tail) == Some((i.witnessStack, tail))
  {
    hide VectorBytes, ReadVector, ByteVector, ReadByteVector;
    var stack := i.witnessStack;
    forall k | 0 <= k < |stack|
      ensures Undoes(ByteVector, ReadByteVector, stack[k], stack[k]) && |ByteVector(stack[k])| >= 1
    {
      ItemRoundTrip(stack[k]);
    }
    VectorRoundTrip(ByteVector, ReadByteVector, stack, stack, tail);
  }

  lemma ItemRoundTrip(b: Bytes)
    requires IsSize(|b|)
    ensures Undoes(ByteVector, ReadByteVector, b, b) && |ByteVector(b)| >= 1
  {
    forall tail: Bytes
      ensures ReadByteVector(ByteVector(b) + tail) == Some((b, tail))
    {
      ByteVectorRoundTrip(b, tail);
    }
  }

  lemma {:induction false} StacksReadBack(ins: seq<TxIn>, tail: Bytes)
    requires forall k :: 0 <= k < |ins| ==> InRange(ins[k])
    ensures ReadList(ReadStack, |ins|, StacksBytes(ins) + tail) == Some((StacksOf(ins), tail))
  {
    hide StackBytes, ReadStack, InRange;
    if ins == [] {
      assert StacksBytes(ins) + tail == tail;
      assert StacksOf(ins) == [];
    } else {
      var rest := StacksBytes(ins[1..]) + tail;
      assert StacksBytes(ins) + tail == StackBytes(ins[0]) + rest;
      StackReadsBack(ins[0], rest);
      StacksReadBack(ins[1..], tail);
      assert StacksOf(ins) == [ins[0].witnessStack] + StacksOf(ins[1..]);
    }
  }

  function StacksOf(ins: seq<TxIn>): (r: seq<seq<Bytes>>)
    ensures |r| == |ins|
  {
    seq(|ins|, k requires 0 <= k < |ins| => ins[k].witnessStack)
  }

  // ---------- the whole transaction ----------

  lemma InsReadBack(ins: seq<TxIn>, tail: Bytes)
    requires IsSize(|ins|) && forall k :: 0 <= k < |ins| ==> InRange(ins[k])
    ensures ReadVector(ReadIn, VectorBytes(InBytes, ins) + tail) == Some((StrippedAll(ins), tail))
  {
    hide InBytes, ReadIn, VectorBytes, ReadVector, InRange;
    forall k | 0 <= k < |ins|
      ensures Undoes(InBytes, ReadIn, ins[k], StrippedAll(ins)[k]) && |InBytes(ins[k])| >= 1
    {
      InRoundTrip(ins[k]);
    }
    VectorRoundTrip(InBytes, ReadIn, ins, StrippedAll(ins), tail);
  }

  lemma OutsReadBack(outs: seq<TxOut>, tail: Bytes)
    requires IsSize(|outs|) && forall k :: 0 <= k < |outs| ==> OutInRange(outs[k])
    ensures ReadVector(ReadOut, VectorBytes(OutBytes, outs) + tail) == Some((outs, tail))
  {
    hide OutBytes, ReadOut, VectorBytes, ReadVector, OutInRange;
    forall k | 0 <= k < |outs|
      ensures Undoes(OutBytes, ReadOut, outs[k], outs[k]) && |OutBytes(outs[k])| >= 1
    {
      OutRoundTrip(outs[k]);
    }
    VectorRoundTrip(OutBytes, ReadOut, outs, outs, tail);
  }

  lemma LockReadsBack(tx: Transaction, lockTime: nat, tail: Bytes)
    requires IsWord32(lockTime)
    ensures ReadLock(tx, LittleEndian(lockTime, 4) + tail) == Some((tx.(lockTime := lockTime), tail))
  {
    Pow256Values();
    WordRoundTrip(lockTime, 4, tail);
  }

  /** A transaction with inputs, in the legacy form. */
  lemma LegacyRoundTrip(tx: Transaction, tail: Bytes)
    requires Valid(tx) && tx.txIn != []
    ensures ReadTransaction(TransactionBytes(tx, false) + tail) == Some((Legacy(tx), tail))
  {
    hide LittleEndian, VectorBytes, ReadVector, ReadWord, ReadLock, InRange, OutInRange;
    Pow256Values();
    var s3 := LittleEndian(tx.lockTime, 4) + tail;
    var s2 := VectorBytes(OutBytes, tx.txOut) + s3;
    var s1 := VectorBytes(InBytes, tx.txIn) + s2;
    assert TransactionBytes(tx, false) + tail == LittleEndian(tx.version, 4) + s1;
    WordRoundTrip(tx.version, 4, s1);
    InsReadBack(tx.txIn, s2);
    OutsReadBack(tx.txOut, s3);
    assert StrippedAll(tx.txIn) != [];
    LockReadsBack(Transaction(tx.version, StrippedAll(tx.txIn), tx.txOut, 0), tx.lockTime, tail);
  }

  /** A transaction with a witness, in the witness form. */
  lemma WitnessRoundTrip(tx: Transaction, tail: Bytes)
    requires Valid(tx) && HasWitness(tx.txIn)
    ensures ReadTransaction(TransactionBytes(tx, true) + tail) == Some((tx, tail))
  {
    hide LittleEndian, VectorBytes, ReadVector, ReadWord, ReadLock, InRange, OutInRange, ReadExtended, StacksBytes,
      InBytes, OutBytes;
    Pow256Values();
    var s4 := ExtendedBytes(tx) + tail;
    assert TransactionBytes(tx, true) + tail == LittleEndian(tx.version, 4) + ([0] + ([1] + s4));
    WordRoundTrip(tx.version, 4, [0] + ([1] + s4));
    NoInsReadBack([1] + s4);
    ReadWritten([1], s4);
    assert FromLittleEndian([1]) == 1;
    ExtendedReadsBack(tx, tail);
  }

  lemma NoInsReadBack(tail: Bytes)
    ensures ReadVector(ReadIn, [0] + tail) == Some(([], tail))
  {
    hide ReadIn;
    assert ([0] + tail)[1..] == tail;
  }

  function ExtendedBytes(tx: Transaction): Bytes {
    VectorBytes(InBytes, tx.txIn) + VectorBytes(OutBytes, tx.txOut) + StacksBytes(tx.txIn)
      + LittleEndian(tx.lockTime, 4)
  }

  lemma ExtendedReadsBack(tx: Transaction, tail: Bytes)
    requires Valid(tx) && HasWitness(tx.txIn)
    ensures ReadExtended(tx.version, 1, ExtendedBytes(tx) + tail) == Some((tx, tail))
  {
    hide LittleEndian, VectorBytes, ReadVector, ReadLock, InRange, OutInRange, StacksBytes, ReadList, ReadStack,
      ReadIn, ReadOut, InBytes, OutBytes;
    var s3 := LittleEndian(tx.lockTime, 4) + tail;
    var s2 := StacksBytes(tx.txIn) + s3;
    var s1 := VectorBytes(OutBytes, tx.txOut) + s2;
    assert ExtendedBytes(tx) + tail == VectorBytes(InBytes, tx.txIn) + s1;
    InsReadBack(tx.txIn, s1);
    OutsReadBack(tx.txOut, s2);
    StacksReadBack(tx.txIn, s3);
    assert WithStacks(StrippedAll(tx.txIn), StacksOf(tx.txIn)) == tx.txIn;
    LockReadsBack(Transaction(tx.version, tx.txIn, tx.txOut, 0), tx.lockTime, tail);
  }

  lemma WithoutWitness(tx: Transaction)
    requires !HasWitness(tx.txIn)
    ensures Legacy(tx) == tx && TransactionBytes(tx, true) == TransactionBytes(tx, false)
  {
    assert StrippedAll(tx.txIn) == tx.txIn;
  }

  /** A transaction without inputs reads back only when it has no outputs either: its output
      count is taken for the flags. */
  lemma NoInputs(tx: Transaction, withWitness: bool, tail: Bytes)
    requires Valid(tx) && tx.txIn == []
    ensures ReadTransaction(TransactionBytes(tx, withWitness) + tail) == Some((tx, tail)) <==> tx.txOut == []
  {
    hide LittleEndian, ReadWord, ReadLock, InRange, OutInRange, ReadExtended, ReadVector, VectorBytes, InBytes,
      OutBytes;
    Pow256Values();
    var s2 := VectorBytes(OutBytes, tx.txOut) + LittleEndian(tx.lockTime, 4) + tail;
    NoInputBytes(tx);
    assert TransactionBytes(tx, withWitness) + tail == LittleEndian(tx.version, 4) + ([0] + s2);
    WordRoundTrip(tx.version, 4, [0] + s2);
    NoInsReadBack(s2);
    CountByte(tx.txOut);
    var count := VectorBytes(OutBytes, tx.txOut);
    var s3 := count[1..] + LittleEndian(tx.lockTime, 4) + tail;
    assert s2 == [count[0]] + s3;
    ReadWritten([count[0]], s3);
    if tx.txOut == [] {
      assert s3 == LittleEndian(tx.lockTime, 4) + tail;
      LockReadsBack(Transaction(tx.version, [], [], 0), tx.lockTime, tail);
    } else {
      ExtendedHasInputs(tx.version, FromLittleEndian([count[0]]), s3);
    }
  }

  lemma NoInputBytes(tx: Transaction)
    requires tx.txIn == []
    ensures VectorBytes(InBytes, tx.txIn) == [0] && !HasWitness(tx.txIn)
  {
    assert ListBytes(InBytes, []) == [];
  }

  lemma CountByte(outs: seq<TxOut>)
    ensures |VectorBytes(OutBytes, outs)| >= 1
    ensures outs == [] ==> VectorBytes(OutBytes, outs) == [0]
    ensures outs != [] ==> VectorBytes(OutBytes, outs)[0] != 0
  {
    hide LittleEndian, OutBytes;
    assert outs == [] ==> ListBytes(OutBytes, outs) == [];
  }

  /** The extended form never gives a transaction without inputs. */
  lemma ExtendedHasInputs(version: nat, flags: nat, s: Bytes)
    ensures ReadExtended(version, flags, s).Some? ==> ReadExtended(version, flags, s).value.0.txIn != []
  {
    hide ReadVector, ReadList, ReadIn, ReadOut, ReadStack;
  }

  /** Reading undoes writing, whatever follows, exactly for the transactions that have an
      input or no output. */
  lemma RoundTrip(tx: Transaction, tail: Bytes)
    requires Valid(tx)
    ensures ReadTransaction(TransactionBytes(tx, true) + tail) == Some((tx, tail)) <==> tx.txIn != [] || tx.txOut == []
  {
    hide ReadTransaction, TransactionBytes, Valid, HasWitness;
    if tx.txIn == [] {
      NoInputs(tx, true, tail);
    } else if HasWitness(tx.txIn) {
      WitnessRoundTrip(tx, tail);
    } else {
      WithoutWitness(tx);
      LegacyRoundTrip(tx, tail);
    }
  }

  // ---------- the serializer ----------

  method WriteIn(dst: Stream, i: TxIn)
    modifies dst`data
    ensures dst.data == old(dst.data) + InBytes(i)
  {
    hide LittleEndian, VarSize;
    dst.Write(i.previousHash);
    dst.Write(LittleEndian(i.previousIndex, 4));
    dst.WriteVarSize(|i.scriptSig|);
    dst.Write(i.scriptSig);
    dst.Write(LittleEndian(i.sequence, 4));
  }

  method WriteOut(dst: Stream, o: TxOut)
    modifies dst`data
    ensures dst.data == old(dst.data) + OutBytes(o)
  {
    hide LittleEndian, VarSize;
    dst.Write(LittleEndian(o.value, 8));
    dst.WriteVarSize(|o.pkScript|);
    dst.Write(o.pkScript);
  }

  lemma {:induction false} ListAppend<T>(bytes: T -> Bytes, items: seq<T>, x: T)
    ensures ListBytes(bytes, items + [x]) == ListBytes(bytes, items) + bytes(x)
  {
    if items == [] {
      assert [x][1..] == [];
      assert ListBytes(bytes, [x]) == bytes(x) + [];
    } else {
      assert (items + [x])[1..] == items[1..] + [x];
      ListAppend(bytes, items[1..], x);
    }
  }

  method WriteIns(dst: Stream, ins: seq<TxIn>)
    modifies dst`data
    ensures dst.data == old(dst.data) + VectorBytes(InBytes, ins)
  {
    hide InBytes, VarSize;
    dst.WriteVarSize(|ins|);
    for k := 0 to |ins|
      invariant dst.data == old(dst.data) + VarSize(|ins|) + ListBytes(InBytes, ins[..k])
    {
      ListAppend(InBytes, ins[..k], ins[k]);
      assert ins[..k] + [ins[k]] == ins[..k + 1];
      WriteIn(dst, ins[k]);
    }
    assert ins[..|ins|] == ins;
  }

  method WriteOuts(dst: Stream, outs: seq<TxOut>)
    modifies dst`data
    ensures dst.data == old(dst.data) + VectorBytes(OutBytes, outs)
  {
    hide OutBytes, VarSize;
    dst.WriteVarSize(|outs|);
    for k := 0 to |outs|
      invariant dst.data == old(dst.data) + VarSize(|outs|) + ListBytes(OutBytes, outs[..k])
    {
      ListAppend(OutBytes, outs[..k], outs[k]);
      assert outs[..k] + [outs[k]] == outs[..k + 1];
      WriteOut(dst, outs[k]);
    }
    assert outs[..|outs|] == outs;
  }

  method WriteStack(dst: Stream, i: TxIn)
    modifies dst`data
    ensures dst.data == old(dst.data) + StackBytes(i)
  {
    hide VarSize;
    var stack := i.witnessStack;
    dst.WriteVarSize(|stack|);
    for k := 0 to |stack|
      invariant dst.data == old(dst.data) + VarSize(|stack|) + ListBytes(ByteVector, stack[..k])
    {
      ListAppend(ByteVector, stack[..k], stack[k]);
      assert stack[..k] + [stack[k]] == stack[..k + 1];
      dst.WriteVarSize(|stack[k]|);
      dst.Write(stack[k]);
    }
    assert stack[..|stack|] == stack;
  }

  method AnyWitness(ins: seq<TxIn>) returns (any: bool)
    ensures any == HasWitness(ins)
  {
    for k := 0 to |ins|
      invariant forall j :: 0 <= j < k ==> ins[j].witnessStack == []
    {
      if ins[k].witnessStack != [] {
        return true;
      }
    }
    any := false;
  }

  /** `serialize` of a transaction. */
  method WriteTransaction(dst: Stream, tx: Transaction, withWitness: bool)
    modifies dst`data
    ensures dst.data == old(dst.data) + TransactionBytes(tx, withWitness)
  {
    hide LittleEndian, VectorBytes, StacksBytes;
    var flags: Byte := 0;
    ghost var start, flagged := dst.data, withWitness && HasWitness(tx.txIn);
    ghost var mark: Bytes := if flagged then VarSize(0) + [1] else [];
    ghost var head := LittleEndian(tx.version, 4) + mark;
    ghost var ins, outs := VectorBytes(InBytes, tx.txIn), VectorBytes(OutBytes, tx.txOut);
    ghost var stacks: Bytes := if flagged then StacksBytes(tx.txIn) else [];
    dst.Write(LittleEndian(tx.version, 4));
    var any := AnyWitness(tx.txIn);
    if any && withWitness {
      flags := 1;
      dst.WriteVarSize(0);
      dst.Write([flags]);
    }
    assert dst.data == start + head;
    WriteIns(dst, tx.txIn);
    Joins(start, head, ins);
    WriteOuts(dst, tx.txOut);
    Joins(start, head + ins, outs);
    if flags != 0 {
      WriteStacks(dst, tx.txIn);
    }
    Joins(start, head + ins + outs, stacks);
    assert dst.data == start + (head + ins + outs + stacks);
    dst.Write(LittleEndian(tx.lockTime, 4));
    Joins(start, head + ins + outs + stacks, LittleEndian(tx.lockTime, 4));
  }

  lemma Joins(a: Bytes, b: Bytes, c: Bytes)
    ensures a + b + c == a + (b + c)
  {
  }

  method WriteStacks(dst: Stream, ins: seq<TxIn>)
    modifies dst`data
    ensures dst.data == old(dst.data) + StacksBytes(ins)
  {
    hide StackBytes;
    for k := 0 to |ins|
      invariant dst.data == old(dst.data) + ListBytes(StackBytes, ins[..k])
    {
      ListAppend(StackBytes, ins[..k], ins[k]);
      assert ins[..k] + [ins[k]] == ins[..k + 1];
      WriteStack(dst, ins[k]);
    }
    assert ins[..|ins|] == ins;
  }

  // ---------- the reader ----------

  method TakeIn(src: Stream) returns (i: TxIn)
    requires src.Valid()
    modifies src`pos, src`failed
    ensures src.Valid() && (old(src.failed) ==> src.failed)
    ensures !old(src.failed) ==> src.After(ReadIn(old(src.Left())), i)
  {
    hide ReadBytes, ReadWord, ReadByteVector;
    var hash := src.Take(32);
    var index := src.TakeWord(4);
    var script := src.TakeByteVector();
    var sequence := src.TakeWord(4);
    i := TxIn(hash, index, script, [], sequence);
  }

  method TakeOut(src: Stream) returns (o: TxOut)
    requires src.Valid()
    modifies src`pos, src`failed
    ensures src.Valid() && (old(src.failed) ==> src.failed)
    ensures !old(src.failed) ==> src.After(ReadOut(old(src.Left())), o)
  {
    hide ReadWord, ReadByteVector;
    var value := src.TakeWord(8);
    var script := src.TakeByteVector();
    o := TxOut(value, script);
  }

  function Prefixed<T>(items: seq<T>, r: Read<seq<T>>): Read<seq<T>> {
    match r
    case None => None
    case Some((xs, rest)) => Some((items + xs, rest))
  }

  /** One more element of a list is read. */
  lemma PrefixedNext<T>(read: Bytes -> Read<T>, items: seq<T>, n: nat, s: Bytes)
    requires n > 0
    ensures match read(s)
            case None => Prefixed(items, ReadList(read, n, s)) == None
            case Some((x, rest)) =>
              Prefixed(items, ReadList(read, n, s)) == Prefixed(items + [x], ReadList(read, n - 1, rest))
  {
    if read(s).Some? {
      var (x, rest) := read(s).value;
      if ReadList(read, n - 1, rest).Some? {
        var xs := ReadList(read, n - 1, rest).value.0;
        assert items + ([x] + xs) == items + [x] + xs;
      }
    }
  }

  lemma PrefixedNone<T>(read: Bytes -> Read<T>, n: nat, s: Bytes)
    ensures Prefixed([], ReadList(read, n, s)) == ReadList(read, n, s)
    ensures forall items: seq<T> :: Prefixed(items, ReadList(read, 0, s)) == Some((items, s))
  {
    if ReadList(read, n, s).Some? {
      var xs := ReadList(read, n, s).value.0;
      assert [] + xs == xs;
    }
    forall items: seq<T>
      ensures Prefixed(items, ReadList(read, 0, s)) == Some((items, s))
    {
      assert items + [] == items;
    }
  }

  method TakeIns(src: Stream) returns (ins: seq<TxIn>)
    requires src.Valid()
    modifies src`pos, src`failed
    ensures src.Valid() && (old(src.failed) ==> src.failed)
    ensures !old(src.failed) ==> src.After(ReadVector(ReadIn, old(src.Left())), ins)
  {
    hide ReadVarSize, ReadIn, ReadList, Prefixed;
    ins := [];
    var n := src.TakeVarSize();
    if n > |src.data| - src.pos {
      src.Fail();
      return;
    }
    ghost var start, ended := src.Left(), src.failed;
    PrefixedNone(ReadIn, n, start);
    for k := 0 to n
      invariant src.Valid() && (ended ==> src.failed)
      invariant !ended ==> ReadList(ReadIn, n, start) == if src.failed then None
        else Prefixed(ins, ReadList(ReadIn, n - k, src.Left()))
    {
      PrefixedNext(ReadIn, ins, n - k, src.Left());
      var i := TakeIn(src);
      ins := ins + [i];
    }
    PrefixedNone(ReadIn, 0, src.Left());
  }

  method TakeOuts(src: Stream) returns (outs: seq<TxOut>)
    requires src.Valid()
    modifies src`pos, src`failed
    ensures src.Valid() && (old(src.failed) ==> src.failed)
    ensures !old(src.failed) ==> src.After(ReadVector(ReadOut, old(src.Left())), outs)
  {
    hide ReadVarSize, ReadOut, ReadList, Prefixed;
    outs := [];
    var n := src.TakeVarSize();
    if n > |src.data| - src.pos {
      src.Fail();
      return;
    }
    ghost var start, ended := src.Left(), src.failed;
    PrefixedNone(ReadOut, n, start);
    for k := 0 to n
      invariant src.Valid() && (ended ==> src.failed)
      invariant !ended ==> ReadList(ReadOut, n, start) == if src.failed then None
        else Prefixed(outs, ReadList(ReadOut, n - k, src.Left()))
    {
      PrefixedNext(ReadOut, outs, n - k, src.Left());
      var o := TakeOut(src);
      outs := outs + [o];
    }
    PrefixedNone(ReadOut, 0, src.Left());
  }

  method TakeStack(src: Stream) returns (stack: seq<Bytes>)
    requires src.Valid()
    modifies src`pos, src`failed
    ensures src.Valid() && (old(src.failed) ==> src.failed)
    ensures !old(src.failed) ==> src.After(ReadStack(old(src.Left())), stack)
  {
    hide ReadVarSize, ReadByteVector, ReadList, Prefixed;
    stack := [];
    var n := src.TakeVarSize();
    if n > |src.data| - src.pos {
      src.Fail();
      return;
    }
    ghost var start, ended := src.Left(), src.failed;
    PrefixedNone(ReadByteVector, n, start);
    for k := 0 to n
      invariant src.Valid() && (ended ==> src.failed)
      invariant !ended ==> ReadList(ReadByteVector, n, start) == if src.failed then None
        else Prefixed(stack, ReadList(ReadByteVector, n - k, src.Left()))
    {
      PrefixedNext(ReadByteVector, stack, n - k, src.Left());
      var item := src.TakeByteVector();
      stack := stack + [item];
    }
    PrefixedNone(ReadByteVector, 0, src.Left());
  }

  method TakeStacks(src: Stream, count: nat) returns (stacks: seq<seq<Bytes>>)
    requires src.Valid()
    modifies src`pos, src`failed
    ensures src.Valid() && (old(src.failed) ==> src.failed) && |stacks| == count
    ensures !old(src.failed) ==> src.After(ReadList(ReadStack, count, old(src.Left())), stacks)
  {
    hide ReadStack, ReadList, Prefixed;
    stacks := [];
    ghost var start, ended := src.Left(), src.failed;
    PrefixedNone(ReadStack, count, start);
    for k := 0 to count
      invariant src.Valid() && (ended ==> src.failed) && |stacks| == k
      invariant !ended ==> ReadList(ReadStack, count, start) == if src.failed then None
        else Prefixed(stacks, ReadList(ReadStack, count - k, src.Left()))
    {
      PrefixedNext(ReadStack, stacks, count - k, src.Left());
      var stack := TakeStack(src);
      stacks := stacks + [stack];
    }
    PrefixedNone(ReadStack, 0, src.Left());
  }

  /** `unserialize` of a transaction. */
  method TakeTransaction(src: Stream) returns (tx: Transaction)
    requires src.Valid() && !src.failed
    modifies src`pos, src`failed
    ensures src.After(ReadTransaction(old(src.Left())), tx)
  {
    hide ReadWord, ReadVector, ReadList, ReadExtended, ReadLock;
    var version := src.TakeWord(4);
    var ins := TakeIns(src);
    if ins == [] {
      var flags := src.Take(1);
      if src.failed {
        return Transaction(version, [], [], 0);
      }
      FlagByte(flags);
      assert |flags| == 1;
      assert flags[0] == 0 ==> flags == [0];
      if flags == [0] {
        tx := TakeLock(src, Transaction(version, [], [], 0));
      } else {
        tx := TakeExtended(src, version, FromLittleEndian(flags));
      }
    } else {
      var outs := TakeOuts(src);
      tx := TakeLock(src, Transaction(version, ins, outs, 0));
    }
  }

  lemma FlagByte(flags: Bytes)
    ensures |flags| == 1 ==> FromLittleEndian(flags) == flags[0] as nat
  {
  }

  method TakeLock(src: Stream, partial: Transaction) returns (tx: Transaction)
    requires src.Valid()
    modifies src`pos, src`failed
    ensures src.Valid() && (old(src.failed) ==> src.failed)
    ensures !old(src.failed) ==> src.After(ReadLock(partial, old(src.Left())), tx)
  {
    hide ReadWord;
    var lockTime := src.TakeWord(4);
    tx := partial.(lockTime := lockTime);
  }

  method TakeExtended(src: Stream, version: nat, flags0: nat) returns (tx: Transaction)
    requires src.Valid() && !src.failed && flags0 > 0
    modifies src`pos, src`failed
    ensures src.After(ReadExtended(version, flags0, old(src.Left())), tx)
  {
    hide ReadVector, ReadList, ReadLock, WithStacks;
    var flags := flags0;
    var ins := TakeIns(src);
    var outs := TakeOuts(src);
    tx := Transaction(version, ins, outs, 0);
    if flags % 2 == 1 {
      flags := flags - 1;
      var stacks := TakeStacks(src, |ins|);
      var all := WithStacks(ins, stacks);
      var any := AnyWitness(all);
      tx := Transaction(version, all, outs, 0);
      if !any {
        src.Fail();
        return;
      }
    }
    if flags != 0 {
      src.Fail();
      return;
    }
    tx := TakeLock(src, tx);
  }
}
