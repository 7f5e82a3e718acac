/**
 Merged mining: the slots of the secondary chains in the tree of chain hashes. The
 source searches tree heights and, at each height, nonces, until the pseudo-random slots
 of all chains are distinct. Both multipliers of the slot formula are odd, so the nonce
 never matters: the slots are distinct exactly when the chain ids are distinct modulo
 the tree's width.
 */
module ChainMap {
  import opened Arithmetic
  import opened Words

  const MULTIPLIER: nat := 1103515245
  const INCREMENT: nat := 12345
  const WORD: nat := 0x1_0000_0000

  function FloorLog2(x: nat): nat
    requires x >= 1
  {
    if x == 1 then 0 else 1 + FloorLog2(x / 2)
  }

  /** `merklePathSize`: 31 minus the leading zeros of a 32-bit word is its binary
      logarithm, and doubling wraps. */
  function MerklePathSize(count: nat): nat
    requires count < WORD
  {
    if count > 1 then FloorLog2((count * 2 + WORD - 1) % WORD) else 0
  }

  lemma {:induction false} FloorLog2Bounds(x: nat)
    requires x >= 1
    ensures Pow2(FloorLog2(x)) <= x < 2 * Pow2(FloorLog2(x))
  {
    if x > 1 {
      FloorLog2Bounds(x / 2);
    }
  }

  /** Up to 2^31 chains the path size is the binary logarithm, rounded up. */
  lemma PathSizeIsCeilLog2(count: nat)
    requires 1 <= count <= 0x8000_0000
    ensures count <= Pow2(MerklePathSize(count))
    ensures Pow2(MerklePathSize(count)) < 2 * count
  {
    if count > 1 {
      FloorLog2Bounds(2 * count - 1);
    }
  }

  /** One step of the source's generator on 32-bit words that wrap. */
  function Lcg(x: nat): (r: nat)
    ensures r < WORD
  {
    (x * MULTIPLIER + INCREMENT) % WORD
  }

  /** `getExpectedIndex` */
  function ExpectedIndex(nonce: nat, chainId: nat, h: nat): (slot: nat)
    ensures slot < Pow2(h)
  {
    Lcg((Lcg(nonce) + chainId) % WORD) % Pow2(h)
  }

  function ChainId(version: nat): nat {
    version / 65536
  }

  // ---------- when slots are distinct ----------

  predicate SameMod(a: int, b: int, m: nat)
    requires m >= 1
  {
    a % m == b % m
  }

  lemma SameModByQuotient(a: int, b: int, m: nat, q: int)
    requires m >= 1 && a == b + m * q
    ensures SameMod(a, b, m)
  {
    var k, r := b / m, b % m;
    assert a == m * (k + q) + r;
    DivMod(a, m, k + q, r);
  }

  lemma QuotientOf(a: int, b: int, m: nat) returns (q: int)
    requires m >= 1 && SameMod(a, b, m)
    ensures a == b + m * q
  {
    q := a / m - b / m;
    assert a == m * (a / m) + a % m;
    assert b == m * (b / m) + b % m;
  }

  /** A tree width of at most 2^7 divides 2^7 and the word size. */
  lemma WidthDivides(h: nat) returns (k: nat)
    requires h < 8
    ensures 128 == Pow2(h) * k && WORD == Pow2(h) * (k * 0x200_0000)
  {
    k := Pow2(7 - h);
    assert Pow2(7 - h) * Pow2(h) == 128 by {
      PowAdd(7 - h, h);
      assert Pow2(7) == 128;
    }
    assert 0x200_0000 * 128 == WORD;
    assert Pow2(h) * (k * 0x200_0000) == Pow2(h) * k * 0x200_0000;
  }

  lemma WordIsPower()
    ensures Pow2(32) == WORD
  {
    assert Pow2(8) == 256;
    PowAdd(8, 8);
    PowAdd(16, 16);
  }

  /** Reducing modulo the word size first changes no residue modulo a width up to it. */
  lemma WrapKeepsResidue(x: nat, h: nat)
    requires h <= 32
    ensures SameMod(x % WORD, x, Pow2(h))
  {
    WordIsPower();
    PowAdd(h, 32 - h);
    hide Pow2;
    RemainderTwice(x, Pow2(h), Pow2(32 - h));
  }

  lemma StepKeepsResidue(a: int, b: int, m: nat)
    requires m >= 1 && SameMod(a, b, m)
    ensures SameMod(a * MULTIPLIER + INCREMENT, b * MULTIPLIER + INCREMENT, m)
  {
    var q := QuotientOf(a, b, m);
    assert a * MULTIPLIER == b * MULTIPLIER + m * (q * MULTIPLIER) by {
      assert m * q * MULTIPLIER == m * (q * MULTIPLIER);
    }
    SameModByQuotient(a * MULTIPLIER + INCREMENT, b * MULTIPLIER + INCREMENT, m, q * MULTIPLIER);
  }

  /** The multiplier times 101 is 1 modulo 128, so a step can be undone. */
  lemma StepLosesNothing(a: int, b: int, h: nat)
    requires h < 8 && SameMod(a * MULTIPLIER + INCREMENT, b * MULTIPLIER + INCREMENT, Pow2(h))
    ensures SameMod(a, b, Pow2(h))
  {
    var m, d := Pow2(h), a - b;
    var q := QuotientOf(a * MULTIPLIER + INCREMENT, b * MULTIPLIER + INCREMENT, m);
    var k := WidthDivides(h);
    var t := (MULTIPLIER * 101 - 1) / 128;
    Undone(d, m, k, q, t);
    SameModByQuotient(a, b, m, 101 * q - k * t * d);
  }

  lemma Undone(d: int, m: int, k: int, q: int, t: int)
    requires d * MULTIPLIER == m * q && MULTIPLIER * 101 == 1 + 128 * t && 128 == m * k
    ensures d == m * (101 * q - k * t * d)
  {
    assert d * MULTIPLIER * 101 == d + 128 * t * d;
    assert m * q * 101 == m * (101 * q);
    assert m * k * (t * d) == m * (k * t * d);
  }

  lemma SameModTransfers(a: int, x: int, b: int, y: int, m: nat)
    requires m >= 1 && SameMod(a, x, m) && SameMod(b, y, m)
    ensures SameMod(a, b, m) <==> SameMod(x, y, m)
  {
  }

  lemma LcgCollision(a: nat, b: nat, h: nat)
    requires h < 8
    ensures SameMod(Lcg(a), Lcg(b), Pow2(h)) <==> SameMod(a, b, Pow2(h))
  {
    hide SameMod, Pow2;
    var x, y, m := a * MULTIPLIER + INCREMENT, b * MULTIPLIER + INCREMENT, Pow2(h);
    WrapKeepsResidue(x, h);
    WrapKeepsResidue(y, h);
    SameModTransfers(Lcg(a), x, Lcg(b), y, m);
    if SameMod(a, b, m) {
      StepKeepsResidue(a, b, m);
    }
    if SameMod(x, y, m) {
      StepLosesNothing(a, b, h);
    }
  }

  /** Two chains collide exactly when their ids agree modulo the width, whatever the nonce. */
  lemma IndexCollision(nonce: nat, i: nat, j: nat, h: nat)
    requires h < 8
    ensures ExpectedIndex(nonce, i, h) == ExpectedIndex(nonce, j, h) <==> SameMod(i, j, Pow2(h))
  {
    hide Lcg, Pow2, SameMod;
    var r, m := Lcg(nonce), Pow2(h);
    var a, b := (r + i) % WORD, (r + j) % WORD;
    IsSameMod(Lcg(a), Lcg(b), m);
    LcgCollision(a, b, h);
    WrapKeepsResidue(r + i, h);
    WrapKeepsResidue(r + j, h);
    SameModTransfers(a, r + i, b, r + j, m);
    ShiftKeepsResidue(i, j, r, m);
  }

  lemma IsSameMod(a: int, b: int, m: nat)
    requires m >= 1
    ensures a % m == b % m <==> SameMod(a, b, m)
  {
  }

  lemma ShiftKeepsResidue(i: int, j: int, r: int, m: nat)
    requires m >= 1
    ensures SameMod(r + i, r + j, m) <==> SameMod(i, j, m)
  {
    if SameMod(i, j, m) {
      var q := QuotientOf(i, j, m);
      SameModByQuotient(r + i, r + j, m, q);
    }
    if SameMod(r + i, r + j, m) {
      var q := QuotientOf(r + i, r + j, m);
      SameModByQuotient(i, j, m, q);
    }
  }

  /** The chain ids are pairwise distinct modulo the tree's width. */
  predicate DistinctAt(versions: seq<nat>, h: nat) {
    forall i, j :: 0 <= i < j < |versions| ==> !SameMod(ChainId(versions[i]), ChainId(versions[j]), Pow2(h))
  }

  /** The least height from `h` on at which the ids are distinct, or 8. */
  function LeastHeight(versions: seq<nat>, h: nat): (r: nat)
    requires h <= 8
    decreases 8 - h
    ensures h <= r <= 8
    ensures r < 8 ==> DistinctAt(versions, r)
    ensures forall k :: h <= k < r ==> !DistinctAt(versions, k)
  {
    if h == 8 || DistinctAt(versions, h) then h else LeastHeight(versions, h + 1)
  }

  lemma FinerCollision(a: int, b: int, h: nat, g: nat)
    requires h <= g && SameMod(a, b, Pow2(g))
    ensures SameMod(a, b, Pow2(h))
  {
    hide SameMod, Pow2;
    var q := QuotientOf(a, b, Pow2(g));
    PowAdd(h, g - h);
    assert Pow2(h) * Pow2(g - h) * q == Pow2(h) * (Pow2(g - h) * q);
    SameModByQuotient(a, b, Pow2(h), Pow2(g - h) * q);
  }

  // ---------- the slot in closed form ----------

  /** Both generator steps without the wraps: for every tree width up to the word size. */
  lemma IndexClosedForm(nonce: nat, chainId: nat, h: nat)
    requires h <= 32
    ensures ExpectedIndex(nonce, chainId, h)
         == ((nonce * 1103515245 + 12345 + chainId) * 1103515245 + 12345) % Pow2(h)
  {
    hide Pow2, Lcg, SameMod;
    var first := nonce * MULTIPLIER + INCREMENT;
    SameModItself(nonce, Pow2(h));
    LcgResidue(nonce, nonce, h);
    SecondStep(Lcg(nonce), first, chainId, h);
    SameModMeans(ExpectedIndexWide(nonce, chainId), (first + chainId) * MULTIPLIER + INCREMENT, Pow2(h));
  }

  /** The second step's word, before it is cut to the width. */
  function ExpectedIndexWide(nonce: nat, chainId: nat): nat {
    Lcg((Lcg(nonce) + chainId) % WORD)
  }

  lemma SecondStep(x: nat, y: nat, c: nat, h: nat)
    requires h <= 32 && SameMod(x, y, Pow2(h))
    ensures SameMod(Lcg((x + c) % WORD), (y + c) * MULTIPLIER + INCREMENT, Pow2(h))
  {
    hide Pow2, Lcg, SameMod;
    SameModSum(x, y, c, Pow2(h));
    WrapKeepsResidue(x + c, h);
    SameModThrough((x + c) % WORD, x + c, y + c, Pow2(h));
    LcgResidue((x + c) % WORD, y + c, h);
  }

  lemma LcgResidue(x: nat, y: nat, h: nat)
    requires h <= 32 && SameMod(x, y, Pow2(h))
    ensures SameMod(Lcg(x), y * MULTIPLIER + INCREMENT, Pow2(h))
  {
    hide Pow2, SameMod;
    var z := x * MULTIPLIER + INCREMENT;
    WrapKeepsResidue(z, h);
    StepKeepsResidue(x, y, Pow2(h));
    SameModThrough(z % WORD, z, y * MULTIPLIER + INCREMENT, Pow2(h));
  }

  lemma SameModItself(x: int, m: nat)
    requires m >= 1
    ensures SameMod(x, x, m)
  {
  }

  lemma SameModSum(x: nat, y: nat, c: nat, m: nat)
    requires m >= 1 && SameMod(x, y, m)
    ensures SameMod(x + c, y + c, m)
  {
    SumRemainder(x, c, y, c, m);
  }

  lemma SameModThrough(x: int, y: int, z: int, m: nat)
    requires m >= 1 && SameMod(x, y, m) && SameMod(y, z, m)
    ensures SameMod(x, z, m)
  {
  }

  lemma SameModMeans(x: int, y: int, m: nat)
    requires m >= 1 && SameMod(x, y, m)
    ensures x % m == y % m
  {
  }

  /** The next chain id lies one multiplier further on, cyclically. */
  lemma NextChainId(nonce: nat, chainId: nat, h: nat)
    requires h <= 32
    ensures ExpectedIndex(nonce, chainId + 1, h) == (ExpectedIndex(nonce, chainId, h) + 1103515245) % Pow2(h)
  {
    hide Pow2, ExpectedIndex;
    IndexClosedForm(nonce, chainId, h);
    IndexClosedForm(nonce, chainId + 1, h);
    MovedOn((nonce * 1103515245 + 12345 + chainId) * 1103515245 + 12345, 1103515245, Pow2(h));
  }

  /** The next nonce moves every slot by the square of the multiplier. */
  lemma NextNonce(nonce: nat, chainId: nat, h: nat)
    requires h <= 32
    ensures ExpectedIndex(nonce + 1, chainId, h)
         == (ExpectedIndex(nonce, chainId, h) + 1103515245 * 1103515245) % Pow2(h)
  {
    hide Pow2, ExpectedIndex;
    IndexClosedForm(nonce, chainId, h);
    IndexClosedForm(nonce + 1, chainId, h);
    MovedOn((nonce * 1103515245 + 12345 + chainId) * 1103515245 + 12345, 1103515245 * 1103515245, Pow2(h));
  }

  lemma MovedOn(x: nat, d: nat, m: nat)
    requires m >= 1
    ensures (x + d) % m == (x % m + d) % m
  {
    SameRemainder(x, x % m, m, x / m);
    SumRemainder(x, d, x % m, d, m);
  }

  /** Ids that are distinct at one height are distinct at every greater one. */
  lemma DistinctUpward(versions: seq<nat>, h: nat, g: nat)
    requires h <= g && DistinctAt(versions, h)
    ensures DistinctAt(versions, g)
  {
    hide SameMod, Pow2, ChainId;
    forall i, j | 0 <= i < j < |versions|
      ensures !SameMod(ChainId(versions[i]), ChainId(versions[j]), Pow2(g))
    {
      if SameMod(ChainId(versions[i]), ChainId(versions[j]), Pow2(g)) {
        FinerCollision(ChainId(versions[i]), ChainId(versions[j]), h, g);
      }
    }
  }

  /** Starting at most at height 7, the search succeeds exactly when the ids are distinct
      modulo 128. */
  lemma HeightExists(versions: seq<nat>, h: nat)
    requires h < 8
    ensures LeastHeight(versions, h) < 8 <==> DistinctAt(versions, 7)
  {
    if LeastHeight(versions, h) < 8 {
      DistinctUpward(versions, LeastHeight(versions, h), 7);
    }
  }

  /** Distinct ids are at most as many as the tree has slots. */
  lemma DistinctAreFew(versions: seq<nat>, h: nat)
    requires DistinctAt(versions, h)
    ensures |versions| <= Pow2(h)
  {
    var residues := seq(|versions|, i requires 0 <= i < |versions| => ChainId(versions[i]) % Pow2(h));
    forall i, j | 0 <= i < j < |versions|
      ensures residues[i] != residues[j]
    {
      assert !SameMod(ChainId(versions[i]), ChainId(versions[j]), Pow2(h));
    }
    FewDistinct(residues, Pow2(h));
  }

  // ---------- the search ----------

  /** Every chain has its slot of the tree of height `h`, and no two share one. */
  predicate Allocated(versions: seq<nat>, slots: seq<nat>, nonce: nat, h: nat) {
    && |slots| == |versions|
    && (forall w :: 0 <= w < |slots| ==> slots[w] == ExpectedIndex(nonce, ChainId(versions[w]), h))
    && (forall v, w :: 0 <= v < w < |slots| ==> slots[v] != slots[w])
  }

  /** What the slots are: the upper half of the version, taken through both generator steps. */
  lemma SlotsInClosedForm(versions: seq<nat>, slots: seq<nat>, nonce: nat, h: nat, w: nat)
    requires Allocated(versions, slots, nonce, h) && h <= 32 && w < |slots|
    ensures slots[w] == ((nonce * 1103515245 + 12345 + versions[w] / 65536) * 1103515245 + 12345) % Pow2(h)
  {
    hide Pow2, ExpectedIndex;
    IndexClosedForm(nonce, versions[w] / 65536, h);
  }

  /** One attempt: the slots of all chains, or a collision. */
  method TryNonce(versions: seq<nat>, nonce: nat, h: nat, chainMap: array<int>, result: array<nat>)
    returns (finished: bool)
    requires h < 8 && chainMap.Length == Pow2(h) && result.Length == |versions|
    modifies chainMap, result
    ensures finished <==> DistinctAt(versions, h)
    ensures finished ==> Allocated(versions, result[..], nonce, h)
  {
    hide ExpectedIndex, SameMod, Pow2, ChainId;
    finished := true;
    forall k | 0 <= k < chainMap.Length {
      chainMap[k] := 0;
    }
    for w := 0 to |versions|
      invariant finished
      invariant forall v :: 0 <= v < w ==>
        result[v] == ExpectedIndex(nonce, ChainId(versions[v]), h) && chainMap[result[v]] == 1
      invariant forall k :: 0 <= k < chainMap.Length && chainMap[k] != 0 ==> k in result[..w]
      invariant forall i, j :: 0 <= i < j < w ==> !SameMod(ChainId(versions[i]), ChainId(versions[j]), Pow2(h))
      invariant forall i, j :: 0 <= i < j < w ==> result[i] != result[j]
    {
      var index := ExpectedIndex(nonce, ChainId(versions[w]), h);
      if chainMap[index] == 0 {
        forall v | 0 <= v < w
          ensures result[v] != index && !SameMod(ChainId(versions[v]), ChainId(versions[w]), Pow2(h))
        {
          IndexCollision(nonce, ChainId(versions[v]), ChainId(versions[w]), h);
        }
        ghost var before := result[..w];
        chainMap[index] := 1;
        result[w] := index;
        assert result[..w + 1] == before + [index];
      } else {
        ghost var v :| 0 <= v < w && result[..w][v] == index;
        IndexCollision(nonce, ChainId(versions[v]), ChainId(versions[w]), h);
        finished := false;
        return;
      }
    }
  }

  /** `buildChainMap`. The two output parameters keep their values when no height is tried. */
  method BuildChainMap(versions: seq<nat>, nonceIn: nat, hashesIn: nat)
    returns (chains: seq<nat>, nonce: nat, virtualHashesNum: nat)
    ensures chains != [] <==> versions != [] && (MerklePathSize(|versions| % WORD) >= 8 || DistinctAt(versions, 7))
    ensures MerklePathSize(|versions| % WORD) >= 8 ==>
      chains == seq(|versions|, _ => 0) && nonce == nonceIn && virtualHashesNum == hashesIn
    ensures MerklePathSize(|versions| % WORD) < 8 && chains != [] ==>
              var h := LeastHeight(versions, MerklePathSize(|versions| % WORD));
              h < 8 && virtualHashesNum == Pow2(h) && nonce == 0 && Allocated(versions, chains, 0, h)
  {
    hide DistinctAt, Allocated, MerklePathSize, Pow2;
    nonce, virtualHashesNum := nonceIn, hashesIn;
    var result := new nat[|versions|](_ => 0);
    var finished := true;
    var start := MerklePathSize(|versions| % WORD);
    var pathSize := start;
    while pathSize < 8
      invariant start <= pathSize && if start < 8 then pathSize <= 8 else pathSize == start
      invariant pathSize == start ==>
        finished && nonce == nonceIn && virtualHashesNum == hashesIn && result[..] == seq(|versions|, _ => 0)
      invariant pathSize > start ==> !finished
      invariant forall k :: start <= k < pathSize ==> !DistinctAt(versions, k)
    {
      virtualHashesNum := Pow2(pathSize);
      var chainMap := new int[virtualHashesNum];
      nonce := 0;
      while nonce < virtualHashesNum
        invariant nonce <= virtualHashesNum
        invariant nonce > 0 ==> !finished && !DistinctAt(versions, pathSize)
      {
        finished := TryNonce(versions, nonce, pathSize, chainMap, result);
        if finished {
          break;
        }
        nonce := nonce + 1;
      }
      if finished {
        break;
      }
      pathSize := pathSize + 1;
    }
    chains := if finished then result[..] else [];
    if start < 8 {
      HeightExists(versions, start);
      FoundLeast(versions, start, pathSize);
      if finished {
        AllocatedLength(versions, chains, 0, pathSize);
      }
    }
  }

  lemma AllocatedLength(versions: seq<nat>, slots: seq<nat>, nonce: nat, h: nat)
    requires Allocated(versions, slots, nonce, h)
    ensures |slots| == |versions|
  {
  }

  lemma FoundLeast(versions: seq<nat>, h: nat, r: nat)
    requires h <= r <= 8 && (r < 8 ==> DistinctAt(versions, r)) && forall k :: h <= k < r ==> !DistinctAt(versions, k)
    ensures LeastHeight(versions, h) == r
  {
    hide DistinctAt;
    var l: nat := LeastHeight(versions, h);
    assert l != r ==> DistinctAt(versions, l) || l == 8;
  }

  /** For 1 to 128 chains the source's answer is exact: a map is found if and only if the
      ids are distinct modulo 128. From 129 to 2^31 chains no height is tried and the list
      of zeros that is returned puts every chain into one slot. */
  method AnswerBySize(versions: seq<nat>) returns (chains: seq<nat>)
    requires 1 <= |versions| <= 0x8000_0000
    ensures |versions| <= 128 ==> (chains != [] <==> DistinctAt(versions, 7))
    ensures |versions| > 128 ==> !DistinctAt(versions, 7) && chains == seq(|versions|, _ => 0)
  {
    hide DistinctAt, Allocated, MerklePathSize, LeastHeight;
    var nonce, hashes;
    chains, nonce, hashes := BuildChainMap(versions, 0, 0);
    TriedSizes(|versions|);
    if |versions| > 128 && DistinctAt(versions, 7) {
      DistinctAreFew(versions, 7);
    }
  }

  lemma TriedSizes(count: nat)
    requires 1 <= count <= 0x8000_0000
    ensures MerklePathSize(count) < 8 <==> count <= 128
  {
    hide MerklePathSize;
    var p := MerklePathSize(count);
    PathSizeIsCeilLog2(count);
    if p >= 8 {
      PowGrows(8, p);
    } else {
      PowGrows(p, 7);
    }
  }
}
