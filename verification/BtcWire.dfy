/**
 Where the fields of a serialised transaction stand, byte by byte: the layout that the
 Bitcoin protocol and BIP 144 fix, stated on the bytes alone.
 */
module BtcWire {
  import opened BtcStream
  import opened BtcTransaction
  import opened Words

  lemma {:induction false} ListInOrder<T>(bytes: T -> Bytes, items: seq<T>, k: nat)
    requires k < |items|
    ensures ListBytes(bytes, items)
         == ListBytes(bytes, items[..k]) + bytes(items[k]) + ListBytes(bytes, items[k + 1..])
  {
    if k > 0 {
      ListInOrder(bytes, items[1..], k - 1);
      assert items[1..][..k - 1] == items[..k][1..] && items[1..][k..] == items[k + 1..];
    }
  }

  // ---------- inputs and outputs ----------

  /** An input: the hash, the index, the counted script and the sequence number. */
  lemma InForm(i: TxIn, k: nat)
    requires |i.previousHash| == 32 && k < 4
    ensures |InBytes(i)| == 32 + 4 + |VarSize(|i.scriptSig|)| + |i.scriptSig| + 4
    ensures InBytes(i)[..32] == i.previousHash
    ensures InBytes(i)[32 + k] as nat == i.previousIndex / Pow256(k) % 256
    ensures InBytes(i)[36..|InBytes(i)| - 4] == VarSize(|i.scriptSig|) + i.scriptSig
    ensures InBytes(i)[|InBytes(i)| - 4 + k] as nat == i.sequence / Pow256(k) % 256
  {
    hide LittleEndian, VarSize, Pow256;
    LittleEndianDigit(i.previousIndex, 4, k);
    LittleEndianDigit(i.sequence, 4, k);
  }

  /** An output: the value and the counted script. */
  lemma OutForm(o: TxOut, k: nat)
    requires k < 8
    ensures |OutBytes(o)| >= 8
    ensures OutBytes(o)[k] as nat == o.value / Pow256(k) % 256
    ensures OutBytes(o)[8..] == VarSize(|o.pkScript|) + o.pkScript
  {
    hide LittleEndian, VarSize, Pow256;
    LittleEndianDigit(o.value, 8, k);
  }

  // ---------- the transaction ----------

  predicate Flagged(tx: Transaction, withWitness: bool) {
    withWitness && exists k :: 0 <= k < |tx.txIn| && tx.txIn[k].witnessStack != []
  }

  /** The version comes first and the lock time last. */
  lemma WireEnds(tx: Transaction, withWitness: bool, i: nat)
    requires i < 4
    ensures |TransactionBytes(tx, withWitness)| >= 8
    ensures
      var s := TransactionBytes(tx, withWitness);
      && s[i] as nat == tx.version / Pow256(i) % 256
      && s[|s| - 4 + i] as nat == tx.lockTime / Pow256(i) % 256
  {
    hide LittleEndian, VectorBytes, StacksBytes, VarSize, Pow256, HasWitness;
    LittleEndianDigit(tx.version, 4, i);
    LittleEndianDigit(tx.lockTime, 4, i);
  }

  /** The marker and the flag stand behind the version exactly when a witness is written;
      the inputs, outputs and stacks follow in their order, and the lock time. */
  lemma WireMiddle(tx: Transaction, withWitness: bool)
    ensures |TransactionBytes(tx, withWitness)| >= 8
    ensures
      var s := TransactionBytes(tx, withWitness);
      s[4..|s| - 4] == (if Flagged(tx, withWitness) then [0, 1] else [])
        + (VarSize(|tx.txIn|) + ListBytes(InBytes, tx.txIn)) + (VarSize(|tx.txOut|) + ListBytes(OutBytes, tx.txOut))
        + (if Flagged(tx, withWitness) then ListBytes(StackBytes, tx.txIn) else [])
  {
    hide LittleEndian, VarSize, InBytes, OutBytes, ListBytes;
    assert VarSize(0) == [0] by {
      VarSizeForm(0, 0);
    }
    Middle(LittleEndian(tx.version, 4), if Flagged(tx, withWitness) then [0, 1] else [],
           VectorBytes(InBytes, tx.txIn), VectorBytes(OutBytes, tx.txOut),
           if Flagged(tx, withWitness) then ListBytes(StackBytes, tx.txIn) else [], LittleEndian(tx.lockTime, 4));
  }

  lemma Middle(a: Bytes, b: Bytes, c: Bytes, d: Bytes, e: Bytes, f: Bytes)
    requires |a| == |f| == 4
    ensures
      var s := a + b + c + d + e + f;
      |s| >= 8 && s[4..|s| - 4] == b + c + d + e
  {
  }
}
