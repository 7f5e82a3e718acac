/**
 The coinbase transaction: where the builder says the extra nonce is, and the later
 overwriting of those bytes in the serialised forms. The offsets are taken while the
 scriptSig is still empty, so they count one byte for its length.
 */
module BtcCoinbase {
  import opened BtcStream
  import opened BtcTransaction
  import opened BtcWire
  import opened Words

  /** `scriptSigOffset` and `getFirstScriptSigOffset` */
  function FirstScriptSigOffset(tx: Transaction, withWitness: bool): nat
    requires tx.txIn != []
  {
    4 + (if withWitness && HasWitness(tx.txIn) then VarSizeLength(0) + 1 else 0)
    + VarSizeLength(|tx.txIn|) + (32 + 4 + VarSizeLength(|tx.txIn[0].scriptSig|))
  }

  function WithScript(tx: Transaction, script: Bytes): Transaction
    requires tx.txIn != []
  {
    tx.(txIn := [tx.txIn[0].(scriptSig := script)] + tx.txIn[1..])
  }

  /** Writing `b` over the bytes from `at` on. */
  function Overwritten(s: Bytes, at: nat, b: Bytes): (r: Bytes)
    requires at + |b| <= |s|
    ensures |r| == |s|
  {
    s[..at] + b + s[at + |b|..]
  }

  // ---------- the serialised form around the scriptSig ----------

  /** Everything before the scriptSig's length. */
  function Before(tx: Transaction, withWitness: bool): Bytes
    requires tx.txIn != []
  {
    LittleEndian(tx.version, 4) + (if withWitness && HasWitness(tx.txIn) then VarSize(0) + [1] else [])
    + VarSize(|tx.txIn|) + tx.txIn[0].previousHash + LittleEndian(tx.txIn[0].previousIndex, 4)
  }

  /** Everything after the scriptSig. */
  function AfterScript(tx: Transaction, withWitness: bool): Bytes
    requires tx.txIn != []
  {
    LittleEndian(tx.txIn[0].sequence, 4) + ListBytes(InBytes, tx.txIn[1..])
    + VectorBytes(OutBytes, tx.txOut) + (if withWitness && HasWitness(tx.txIn) then StacksBytes(tx.txIn) else [])
    + LittleEndian(tx.lockTime, 4)
  }

  lemma Split(tx: Transaction, withWitness: bool)
    requires tx.txIn != []
    ensures TransactionBytes(tx, withWitness) == Before(tx, withWitness) + ByteVector(tx.txIn[0].scriptSig)
      + AfterScript(tx, withWitness)
  {
    hide LittleEndian, VarSize, ByteVector, OutBytes, StacksBytes;
    var i, rest := tx.txIn[0], ListBytes(InBytes, tx.txIn[1..]);
    var flagged := withWitness && HasWitness(tx.txIn);
    var head := LittleEndian(tx.version, 4) + (if flagged then VarSize(0) + [1] else []);
    var tail := VectorBytes(OutBytes, tx.txOut) + (if flagged then StacksBytes(tx.txIn) else [])
      + LittleEndian(tx.lockTime, 4);
    SplitParts(head, VarSize(|tx.txIn|), i.previousHash, LittleEndian(i.previousIndex, 4), ByteVector(i.scriptSig),
               LittleEndian(i.sequence, 4), rest, VectorBytes(OutBytes, tx.txOut),
               if flagged then StacksBytes(tx.txIn) else [], LittleEndian(tx.lockTime, 4));
  }

  lemma SplitParts(head: Bytes, n: Bytes, a: Bytes, b: Bytes, script: Bytes, c: Bytes, rest: Bytes, outs: Bytes,
      stacks: Bytes, lock: Bytes)
    ensures head + (n + (a + b + script + c + rest)) + outs + stacks + lock
         == (head + n + a + b) + script + (c + rest + outs + stacks + lock)
  {
  }

  /** Only the scriptSig changes. */
  lemma SameAround(tx: Transaction, script: Bytes, withWitness: bool)
    requires tx.txIn != []
    ensures Before(WithScript(tx, script), withWitness) == Before(tx, withWitness)
    ensures AfterScript(WithScript(tx, script), withWitness) == AfterScript(tx, withWitness)
  {
    hide LittleEndian, VarSize, OutBytes, InBytes, StackBytes;
    var other := WithScript(tx, script);
    assert other.txIn[1..] == tx.txIn[1..];
    assert forall k :: 0 <= k < |tx.txIn| ==> other.txIn[k].witnessStack == tx.txIn[k].witnessStack;
    assert HasWitness(other.txIn) <==> HasWitness(tx.txIn);
    SameStacks(other.txIn, tx.txIn);
  }

  lemma {:induction false} SameStacks(a: seq<TxIn>, b: seq<TxIn>)
    requires |a| == |b| && forall k :: 0 <= k < |a| ==> a[k].witnessStack == b[k].witnessStack
    ensures StacksBytes(a) == StacksBytes(b)
  {
    hide VectorBytes;
    if a != [] {
      SameStacks(a[1..], b[1..]);
    }
  }

  lemma OffsetIsBefore(tx: Transaction, withWitness: bool)
    requires tx.txIn != [] && |tx.txIn[0].previousHash| == 32
    ensures FirstScriptSigOffset(tx, withWitness) == |Before(tx, withWitness)| + VarSizeLength(|tx.txIn[0].scriptSig|)
  {
    hide LittleEndian;
    VarSizeLengthIsRight(0);
    VarSizeLengthIsRight(|tx.txIn|);
  }

  // ---------- overwriting the extra nonce ----------

  /** The bytes at the builder's offset, taken with an empty scriptSig. */
  function NonceOffset(tx: Transaction, pre: Bytes, withWitness: bool): nat
    requires tx.txIn != []
  {
    |pre| + FirstScriptSigOffset(WithScript(tx, []), withWitness)
  }

  lemma SerializedWith(tx: Transaction, pre: Bytes, mid: Bytes, post: Bytes, withWitness: bool)
    requires tx.txIn != [] && |tx.txIn[0].previousHash| == 32
    ensures var script := pre + mid + post;
      && TransactionBytes(WithScript(tx, script), withWitness)
        == Before(tx, withWitness) + VarSize(|script|) + script + AfterScript(tx, withWitness)
      && NonceOffset(tx, pre, withWitness) == |Before(tx, withWitness)| + 1 + |pre|
  {
    hide VarSize, FirstScriptSigOffset, Before, AfterScript, TransactionBytes;
    var script := pre + mid + post;
    Split(WithScript(tx, script), withWitness);
    SameAround(tx, script, withWitness);
    SameAround(tx, [], withWitness);
    OffsetIsBefore(WithScript(tx, []), withWitness);
    assert Before(tx, withWitness) + (VarSize(|script|) + script)
      == Before(tx, withWitness) + VarSize(|script|) + script;
  }

  /** Below 253 bytes of scriptSig, overwriting the extra nonce in either form is the same as
      serialising the transaction with the new extra nonce. */
  lemma OverwriteSerializes(tx: Transaction, pre: Bytes, mid: Bytes, post: Bytes, nonce: Bytes, withWitness: bool)
    requires tx.txIn != [] && |tx.txIn[0].previousHash| == 32 && |nonce| == |mid| && |pre| + |mid| + |post| < 253
    ensures var at, s := NonceOffset(tx, pre, withWitness),
      TransactionBytes(WithScript(tx, pre + mid + post), withWitness);
      at + |nonce| <= |s| && Overwritten(s, at, nonce)
        == TransactionBytes(WithScript(tx, pre + nonce + post), withWitness)
  {
    hide NonceOffset, TransactionBytes, Before, AfterScript, WithScript;
    SerializedWith(tx, pre, mid, post, withWitness);
    SerializedWith(tx, pre, nonce, post, withWitness);
    var count := VarSize(|pre + mid + post|);
    assert |count| == 1;
    OverwriteMiddle(Before(tx, withWitness) + count + pre, mid, nonce, post + AfterScript(tx, withWitness));
    Regroup(Before(tx, withWitness) + count, pre, mid, post, AfterScript(tx, withWitness));
    Regroup(Before(tx, withWitness) + count, pre, nonce, post, AfterScript(tx, withWitness));
  }

  lemma Regroup(head: Bytes, pre: Bytes, mid: Bytes, post: Bytes, tail: Bytes)
    ensures head + (pre + mid + post) + tail == head + pre + mid + (post + tail)
  {
  }

  lemma OverwriteMiddle(head: Bytes, mid: Bytes, nonce: Bytes, tail: Bytes)
    requires |nonce| == |mid|
    ensures Overwritten(head + mid + tail, |head|, nonce) == head + nonce + tail
  {
    var s := head + mid + tail;
    assert s[..|head|] == head;
    assert s[|head| + |nonce|..] == tail;
  }

  /** Overwriting works for every extra nonce. */
  ghost predicate OverwriteWorks(tx: Transaction, pre: Bytes, mid: Bytes, post: Bytes, withWitness: bool)
    requires tx.txIn != []
  {
    forall nonce: Bytes :: |nonce| == |mid| ==>
      var at, s := NonceOffset(tx, pre, withWitness), TransactionBytes(WithScript(tx, pre + mid + post), withWitness);
      at + |nonce| <= |s| && Overwritten(s, at, nonce)
        == TransactionBytes(WithScript(tx, pre + nonce + post), withWitness)
  }

  /** The limit is exact: from 253 bytes on the length takes more than the byte the offset
      counts, and some extra nonce lands in the wrong place. */
  lemma OverwriteWorksBelow253(tx: Transaction, pre: Bytes, mid: Bytes, post: Bytes, withWitness: bool)
    requires tx.txIn != [] && |tx.txIn[0].previousHash| == 32 && mid != []
    ensures OverwriteWorks(tx, pre, mid, post, withWitness) <==> |pre| + |mid| + |post| < 253
  {
    hide NonceOffset, TransactionBytes, WithScript, Overwritten;
    if |pre| + |mid| + |post| < 253 {
      forall nonce: Bytes | |nonce| == |mid|
        ensures var at, s := NonceOffset(tx, pre, withWitness),
          TransactionBytes(WithScript(tx, pre + mid + post), withWitness);
          at + |nonce| <= |s| && Overwritten(s, at, nonce)
            == TransactionBytes(WithScript(tx, pre + nonce + post), withWitness)
      {
        OverwriteSerializes(tx, pre, mid, post, nonce, withWitness);
      }
    } else {
      var nonce := OverwriteMisses(tx, pre, mid, post, withWitness);
    }
  }

  /** Changing the last byte of the extra nonce is lost: it lies behind the bytes overwritten. */
  lemma OverwriteMisses(tx: Transaction, pre: Bytes, mid: Bytes, post: Bytes, withWitness: bool) returns (nonce: Bytes)
    requires tx.txIn != [] && |tx.txIn[0].previousHash| == 32 && mid != [] && |pre| + |mid| + |post| >= 253
    ensures |nonce| == |mid|
    ensures var at, s := NonceOffset(tx, pre, withWitness),
      TransactionBytes(WithScript(tx, pre + mid + post), withWitness);
      at + |nonce| <= |s| && Overwritten(s, at, nonce) != TransactionBytes(WithScript(tx, pre + nonce + post),
        withWitness)
  {
    hide NonceOffset, TransactionBytes, Before, AfterScript, WithScript, VarSize;
    var last := |mid| - 1;
    var other: Byte := if mid[last] == 0 then 1 else 0;
    nonce := mid[last := other];
    SerializedWith(tx, pre, mid, post, withWitness);
    SerializedWith(tx, pre, nonce, post, withWitness);
    LongCount(|pre + mid + post|);
    var head := Before(tx, withWitness) + VarSize(|pre + mid + post|);
    var place := |head| + |pre| + last;
    ByteInside(head, pre, mid, post, AfterScript(tx, withWitness), last);
    ByteInside(head, pre, nonce, post, AfterScript(tx, withWitness), last);
    var at, s := NonceOffset(tx, pre, withWitness), TransactionBytes(WithScript(tx, pre + mid + post), withWitness);
    assert at + |nonce| <= place < |s|;
    assert Overwritten(s, at, nonce)[place] == s[place];
  }

  lemma LongCount(n: nat)
    requires n >= 253
    ensures |VarSize(n)| >= 2
  {
    hide LittleEndian;
  }

  lemma ByteInside(head: Bytes, pre: Bytes, mid: Bytes, post: Bytes, tail: Bytes, k: nat)
    requires k < |mid|
    ensures var s := head + (pre + mid + post) + tail; |head| + |pre| + k < |s| && s[|head| + |pre| + k] == mid[k]
  {
  }

  // ---------- the builder ----------

  datatype CoinbaseTx = CoinbaseTx(data: Bytes, extraDataOffset: nat, extraNonceOffset: nat)

  /** The parts of a coinbase transaction that do not depend on the scriptSig. */
  function Skeleton(segwit: bool, outs: seq<TxOut>): Transaction {
    var stack := if segwit then [seq(32, _ => 0 as Byte)] else [];
    Transaction(if segwit then 2 else 1, [TxIn(seq(32, _ => 0 as Byte), 0xFFFF_FFFF, [], stack, 0xFFFF_FFFF)], outs, 0)
  }

  /** One input, the null outpoint; version 2 and one 32-byte reserved value in the witness
      exactly for segregated witness; no lock time. */
  lemma SkeletonIsCoinbase(segwit: bool, outs: seq<TxOut>)
    ensures |Skeleton(segwit, outs).txIn| == 1
    ensures
      var tx, i := Skeleton(segwit, outs), Skeleton(segwit, outs).txIn[0];
      && |i.previousHash| == 32 && (forall k :: 0 <= k < 32 ==> i.previousHash[k] == 0)
      && i.previousIndex == 0x1_0000_0000 - 1 && i.sequence == 0x1_0000_0000 - 1 && i.scriptSig == []
      && |i.witnessStack| == (if segwit then 1 else 0)
      && (segwit ==> |i.witnessStack[0]| == 32 && forall k :: 0 <= k < 32 ==> i.witnessStack[0][k] == 0)
      && tx.version == (if segwit then 2 else 1) && tx.lockTime == 0 && tx.txOut == outs
  {
  }

  /** On the wire the outpoint is 32 zero bytes and four bytes of ones, whatever the script. */
  lemma CoinbaseOnWire(segwit: bool, outs: seq<TxOut>, script: Bytes, k: nat)
    requires k < 4
    ensures
      var tx := WithScript(Skeleton(segwit, outs), script);
      var s := InBytes(tx.txIn[0]);
      && |s| >= 40 && (forall j :: 0 <= j < 32 ==> s[j] == 0) && s[32 + k] == 255 && s[|s| - 4 + k] == 255
  {
    hide VarSize;
    var i := WithScript(Skeleton(segwit, outs), script).txIn[0];
    InForm(i, k);
    AllOnes(k);
    assert forall j :: 0 <= j < 32 ==> InBytes(i)[j] == InBytes(i)[..32][j];
  }

  lemma AllOnes(k: nat)
    requires k < 4
    ensures 0xFFFF_FFFF / Pow256(k) % 256 == 255
  {
    Pow256Values();
    assert Pow256(3) == 0x100_0000 && Pow256(0) == 1;
  }

  /** `CoinbaseBuilder::build`. `push` is the height's script push, `outs` are the outputs,
      and `reserved` is whatever the bytes kept for the extra nonce hold. */
  method Build(push: Bytes, coinbaseData: Bytes, message: Bytes, reserved: Bytes, segwit: bool, outs: seq<TxOut>)
    returns (legacy: CoinbaseTx, witnessed: CoinbaseTx)
    ensures var pre, tx := push + coinbaseData + message, Skeleton(segwit, outs);
      && legacy == CoinbaseTx(TransactionBytes(WithScript(tx, pre + reserved + []), false),
        NonceOffset(tx, push, false), NonceOffset(tx, pre, false))
      && witnessed == CoinbaseTx(TransactionBytes(WithScript(tx, pre + reserved + []), true),
        NonceOffset(tx, push, true), NonceOffset(tx, pre, true))
  {
    hide TransactionBytes, HasWitness;
    var tx := Skeleton(segwit, outs);
    assert WithScript(tx, []) == tx;
    var script := new Stream([]);
    script.Write(push);
    var extraDataOffset := |script.data|;
    script.Write(coinbaseData);
    script.Write(message);
    var legacyNonce := |script.data| + FirstScriptSigOffset(tx, false);
    var legacyData := extraDataOffset + FirstScriptSigOffset(tx, false);
    var witnessNonce := |script.data| + FirstScriptSigOffset(tx, true);
    var witnessData := extraDataOffset + FirstScriptSigOffset(tx, true);
    script.Write(reserved);
    assert script.data == push + coinbaseData + message + reserved + [];
    tx := WithScript(tx, script.data);
    var plain := new Stream([]);
    var full := new Stream([]);
    WriteTransaction(plain, tx, false);
    WriteTransaction(full, tx, true);
    legacy := CoinbaseTx(plain.data, legacyData, legacyNonce);
    witnessed := CoinbaseTx(full.data, witnessData, witnessNonce);
  }

  /** The part of `Prepare::prepare` that writes the extra nonce: the worker's fixed bytes and
      then the submitted ones, which must have the configured size. */
  method WriteExtraNonce(c: CoinbaseTx, fixedPart: Bytes, mutablePart: Bytes, mutableSize: nat)
    returns (ok: bool, data: Bytes)
    requires c.extraNonceOffset + |fixedPart| + mutableSize <= |c.data|
    ensures ok <==> |mutablePart| == mutableSize
    ensures data == if ok then Overwritten(c.data, c.extraNonceOffset, fixedPart + mutablePart) else c.data
  {
    data := c.data;
    ok := |mutablePart| == mutableSize;
    if ok {
      var at := c.extraNonceOffset;
      data := data[..at] + fixedPart + data[at + |fixedPart|..];
      at := at + |fixedPart|;
      data := data[..at] + mutablePart + data[at + |mutablePart|..];
      assert data == Overwritten(c.data, c.extraNonceOffset, fixedPart + mutablePart);
    }
  }

  /** Building and then writing the extra nonce, while the scriptSig is below 253 bytes: both
      forms are the serialisations of the coinbase transaction with that extra nonce. */
  method BuildAndPrepare(push: Bytes, coinbaseData: Bytes, message: Bytes, reserved: Bytes, fixedPart: Bytes,
      mutablePart: Bytes, segwit: bool, outs: seq<TxOut>)
    returns (legacy: Bytes, witnessed: Bytes)
    requires |reserved| == |fixedPart| + |mutablePart|
    requires |push| + |coinbaseData| + |message| + |reserved| < 253
    ensures var script := push + coinbaseData + message + (fixedPart + mutablePart) + [];
      var tx := WithScript(Skeleton(segwit, outs), script);
      legacy == TransactionBytes(tx, false) && witnessed == TransactionBytes(tx, true)
  {
    hide TransactionBytes, NonceOffset, WithScript, Overwritten;
    var tx := Skeleton(segwit, outs);
    var l, w := Build(push, coinbaseData, message, reserved, segwit, outs);
    var pre, nonce := push + coinbaseData + message, fixedPart + mutablePart;
    OverwriteSerializes(tx, pre, reserved, [], nonce, false);
    OverwriteSerializes(tx, pre, reserved, [], nonce, true);
    var ok;
    ok, legacy := WriteExtraNonce(l, fixedPart, mutablePart, |mutablePart|);
    ok, witnessed := WriteExtraNonce(w, fixedPart, mutablePart, |mutablePart|);
  }
}
