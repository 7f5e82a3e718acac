/**
 Structs with the array layout: a JSON array whose elements are the fields by position.
 This module holds the schema, the values, and what a value looks like when it is printed
 and read back, independently of the generated code.
 */
module ArrayLayout {

  datatype NullIn = Deny | Allow | Presence

  /** `Mandatory` covers plain, array, fixed array, variant and map fields. A default is
      the printed form of the static default value. */
  datatype Kind = Mandatory | WithDefault(default_: string) | Optional(nullIn: NullIn)

  datatype Slot = Absent | Present(text: string)

  datatype Token = Open | Close | Comma | Null | Value(text: string)

  type Fields = seq<Kind>
  type Object = seq<Slot>

  predicate IsTrailing(k: Kind) {
    k.WithDefault? || k.Optional?
  }

  /** The schema check: no mandatory field after an optional or defaulted one. */
  predicate ValidOrder(fields: Fields) {
    forall i, j :: 0 <= i < j < |fields| && IsTrailing(fields[i]) ==> IsTrailing(fields[j])
  }

  /** Every field but an optional one holds a value. */
  predicate Fits(fields: Fields, v: Object) {
    |v| == |fields| && forall i :: 0 <= i < |fields| && !fields[i].Optional? ==> v[i].Present?
  }

  /** What a field holds before anything is read. */
  function FreshSlot(k: Kind): Slot {
    if k.WithDefault? then Present(k.default_) else Absent
  }

  function Fresh(fields: Fields): (v: Object)
    ensures |v| == |fields|
  {
    seq(|fields|, i requires 0 <= i < |fields| => FreshSlot(fields[i]))
  }

  /** The first optional or defaulted field. */
  function FirstTrailing(fields: Fields, i: nat): (r: nat)
    requires i <= |fields|
    decreases |fields| - i
    ensures i <= r <= |fields|
    ensures forall j :: i <= j < r ==> !IsTrailing(fields[j])
    ensures r < |fields| ==> IsTrailing(fields[r])
  {
    if i == |fields| || IsTrailing(fields[i]) then i else FirstTrailing(fields, i + 1)
  }

  /** An absent optional field whose null the parser rejects. */
  predicate IsBarrier(k: Kind, s: Slot) {
    k == Optional(Deny) && s == Absent
  }

  /** The first barrier. Nothing from it on can be printed. */
  function Stop(fields: Fields, v: Object, i: nat): (r: nat)
    requires |v| == |fields| && i <= |fields|
    decreases |fields| - i
    ensures i <= r <= |fields|
    ensures forall j :: i <= j < r ==> !IsBarrier(fields[j], v[j])
    ensures r < |fields| ==> IsBarrier(fields[r], v[r])
  {
    if i == |fields| || IsBarrier(fields[i], v[i]) then i else Stop(fields, v, i + 1)
  }

  /** A field that reading nothing would not restore. */
  predicate IsSignificant(k: Kind, s: Slot) {
    s != FreshSlot(k)
  }

  /** One past the last significant field before the barrier, and at least `last`. */
  function LastFrom(fields: Fields, v: Object, i: nat, last: nat): (r: nat)
    requires |v| == |fields| && i <= |fields|
    decreases |fields| - i
  {
    if i == |fields| || IsBarrier(fields[i], v[i]) then last
    else LastFrom(fields, v, i + 1, if IsSignificant(fields[i], v[i]) then i + 1 else last)
  }

  /** How many elements are printed. */
  function Count(fields: Fields, v: Object): nat
    requires |v| == |fields|
  {
    var first := FirstTrailing(fields, 0);
    LastFrom(fields, v, first, first)
  }

  function Element(s: Slot): Token {
    if s.Present? then Value(s.text) else Null
  }

  /** The tokens of an array with the first `n` fields, and nothing else but one comma
      between neighbours. */
  predicate IsPrinted(tokens: seq<Token>, v: Object, n: nat) {
    && n <= |v| && |tokens| == (if n == 0 then 2 else 2 * n + 1)
    && tokens[0] == Open && tokens[|tokens| - 1] == Close
    && (forall i :: 0 <= i < n ==> tokens[2 * i + 1] == Element(v[i]))
    && (forall i :: 1 <= i < n ==> tokens[2 * i] == Comma)
  }

  /** The value that reading the printed form gives: everything from the first barrier on
      is lost. */
  function Truncated(fields: Fields, v: Object): (r: Object)
    requires |v| == |fields|
    ensures |r| == |v|
  {
    seq(|v|, i requires 0 <= i < |v| => if i < Stop(fields, v, 0) then v[i] else FreshSlot(fields[i]))
  }

  // ---------- what the count means ----------

  lemma {:induction false} LastFromBounds(fields: Fields, v: Object, i: nat, last: nat)
    requires |v| == |fields| && last <= i <= |fields|
    decreases |fields| - i
    ensures last <= LastFrom(fields, v, i, last) <= Stop(fields, v, i)
    ensures var r := LastFrom(fields, v, i, last); r > last ==> i < r && IsSignificant(fields[r - 1], v[r - 1])
    ensures forall j :: i <= j < Stop(fields, v, i) && LastFrom(fields, v, i, last) <= j ==>
      !IsSignificant(fields[j], v[j])
  {
    if i < |fields| && !IsBarrier(fields[i], v[i]) {
      LastFromBounds(fields, v, i + 1, if IsSignificant(fields[i], v[i]) then i + 1 else last);
    }
  }

  lemma {:induction false} StopLater(fields: Fields, v: Object, i: nat, j: nat)
    requires |v| == |fields| && i <= j <= |fields|
    requires forall k :: i <= k < j ==> !IsBarrier(fields[k], v[k])
    decreases j - i
    ensures Stop(fields, v, i) == Stop(fields, v, j)
  {
    if i < j {
      StopLater(fields, v, i + 1, j);
    }
  }

  /** The printed elements are all mandatory fields, and the trailing ones up to the last
      significant field before the first barrier. */
  lemma CountMeans(fields: Fields, v: Object)
    requires Fits(fields, v)
    ensures FirstTrailing(fields, 0) <= Count(fields, v) <= Stop(fields, v, 0)
    ensures Count(fields, v) > FirstTrailing(fields, 0) ==>
      IsSignificant(fields[Count(fields, v) - 1], v[Count(fields, v) - 1])
    ensures forall j :: Count(fields, v) <= j < Stop(fields, v, 0) ==> !IsSignificant(fields[j], v[j])
  {
    var first := FirstTrailing(fields, 0);
    LastFromBounds(fields, v, first, first);
    StopLater(fields, v, 0, first);
  }

  /** No null is printed for a field that denies it. */
  lemma NoDeniedNull(fields: Fields, v: Object, i: nat)
    requires Fits(fields, v) && i < Count(fields, v) && i < |v| && Element(v[i]) == Null
    ensures i < |fields| && fields[i].Optional? && fields[i].nullIn != Deny
  {
    CountMeans(fields, v);
    assert !IsBarrier(fields[i], v[i]);
  }

  /** Reading back is exact if and only if nothing after the first barrier is significant. */
  lemma TruncationIsExact(fields: Fields, v: Object)
    requires |v| == |fields|
    ensures Truncated(fields, v) == v <==> forall i :: Stop(fields, v, 0) <= i < |v| ==> !IsSignificant(fields[i], v[i])
  {
    if Truncated(fields, v) == v {
      forall i | Stop(fields, v, 0) <= i < |v|
        ensures !IsSignificant(fields[i], v[i])
      {
        assert Truncated(fields, v)[i] == v[i];
      }
    }
  }

  lemma {:induction false} SameStop(fields: Fields, v: Object, w: Object, i: nat)
    requires |v| == |w| == |fields| && i <= |fields|
    requires forall j :: i <= j < |fields| && j <= Stop(fields, v, i) ==> v[j] == w[j]
    decreases |fields| - i
    ensures Stop(fields, w, i) == Stop(fields, v, i)
  {
    if i < |fields| && !IsBarrier(fields[i], v[i]) {
      SameStop(fields, v, w, i + 1);
    }
  }

  lemma {:induction false} SameLast(fields: Fields, v: Object, w: Object, i: nat, last: nat)
    requires |v| == |w| == |fields| && i <= |fields|
    requires forall j :: i <= j < |fields| && j <= Stop(fields, v, i) ==> v[j] == w[j]
    decreases |fields| - i
    ensures LastFrom(fields, w, i, last) == LastFrom(fields, v, i, last)
  {
    if i < |fields| && !IsBarrier(fields[i], v[i]) {
      SameLast(fields, v, w, i + 1, if IsSignificant(fields[i], v[i]) then i + 1 else last);
    }
  }

  /** Printing what was read back prints the same elements: truncation happens once. */
  lemma TruncationIsStable(fields: Fields, v: Object)
    requires Fits(fields, v)
    ensures Truncated(fields, Truncated(fields, v)) == Truncated(fields, v)
    ensures Count(fields, Truncated(fields, v)) == Count(fields, v)
    ensures forall i :: 0 <= i < |v| && i < Count(fields, v) ==> Truncated(fields, v)[i] == v[i]
  {
    var first, w := FirstTrailing(fields, 0), Truncated(fields, v);
    SameStop(fields, v, w, 0);
    StopLater(fields, v, 0, first);
    SameLast(fields, v, w, first, first);
    CountMeans(fields, v);
  }
}
