/**
 The code generator's own context analysis: which context parameters a struct takes, and
 which one each field is handed. Fields share a parameter exactly when they are in one group
 and ask for the same slot. The analysis agrees with the earlier pass about which structs
 need context at all.
 */
module StructAnalysis {
  import opened ParameterNames
  import opened StructContext
  import opened StructOrder

  /** One of the contexts of a derived type that a struct takes. */
  datatype Slot = Slot(derived: Name, ordinal: nat)

  /** A slot that a field needs, as one value or as a vector with one value an element. */
  datatype Ask = Ask(slot: Slot, isVector: bool)

  /** How the fields of one group use a slot. */
  datatype Use = Use(slot: Slot, scalar: bool, vector: bool)

  /** A parameter of the generated functions. */
  datatype Need = Need(slot: Slot, name: string, isVector: bool)

  /** What a field passes on for one of its slots. */
  datatype Arg = Arg(slot: Slot, name: string, isVector: bool)

  /** The analysis of one struct: its parameters, the group of each field name and what each
      field is handed. */
  datatype Analysis = Analysis(needs: seq<Need>, groupOf: map<string, nat>, captures: seq<seq<Arg>>)

  /** The analyses of the structs already passed. */
  type Analyses = map<Name, Analysis>

  /** What a field asks for: its own (declared) derived type's one slot, or all parameters of its
      struct, as vectors when it is an array of that struct. */
  function Asked(f: Field, children: Analyses): seq<Ask> {
    match f.fieldType
    case Derived(t) => [Ask(Slot(t, 0), false)]
    case Reference(d) =>
      if d in children then
        var needs := children[d].needs;
        seq(|needs|, k requires 0 <= k < |needs| => Ask(needs[k].slot, needs[k].isVector || f.isArray))
      else []
    case _ => []
  }

  /** What is asked, ask by ask: a field of a derived type asks for one value of it; a reference
      passes on every parameter of its struct, one value each unless the parameter is a vector
      already or the field an array; nothing else asks. */
  lemma AsksAre(f: Field, children: Analyses, x: Ask)
    ensures x in Asked(f, children) <==>
      || (f.fieldType.Derived? && x == Ask(Slot(f.fieldType.derived, 0), false))
      || (f.fieldType.Reference? && f.fieldType.target in children
          && exists k :: 0 <= k < |children[f.fieldType.target].needs|
               && x.slot == children[f.fieldType.target].needs[k].slot
               && x.isVector == (f.isArray || children[f.fieldType.target].needs[k].isVector))
  {
    if f.fieldType.Reference? && f.fieldType.target in children {
      var needs := children[f.fieldType.target].needs;
      forall k | 0 <= k < |needs|
        ensures Asked(f, children)[k] == Ask(needs[k].slot, needs[k].isVector || f.isArray)
      {
      }
    }
  }

  predicate InGroup(f: Field, groupOf: map<string, nat>, g: nat) {
    f.name in groupOf && groupOf[f.name] == g
  }

  function AskSet(asks: seq<Ask>): set<Ask> {
    set x | x in asks
  }

  // ---------- groups ----------

  predicate IsListed(s: Struct, g: nat, name: string) {
    g < |s.groups| && name in s.groups[g]
  }

  /** A declared group holds the names it lists; any other group holds one field. */
  predicate GroupsAre(s: Struct, groupOf: map<string, nat>, count: nat) {
    && (forall name :: name in groupOf ==> groupOf[name] < count)
    && (forall name :: name in groupOf && groupOf[name] < |s.groups| ==> IsListed(s, groupOf[name], name))
    && (forall a, b :: a in groupOf && b in groupOf && a != b && groupOf[a] == groupOf[b] ==> groupOf[a] < |s.groups|)
  }

  /** Every name that the first `n` declared groups list has a group from there on. */
  predicate ListedHave(s: Struct, groupOf: map<string, nat>, n: nat) {
    forall g, k :: 0 <= g < n && g < |s.groups| && 0 <= k < |s.groups[g]| ==>
      s.groups[g][k] in groupOf && g <= groupOf[s.groups[g][k]] < |s.groups|
  }

  predicate AllListed(s: Struct, groupOf: map<string, nat>, n: nat) {
    forall name :: name in groupOf ==> groupOf[name] < n && IsListed(s, groupOf[name], name)
  }

  /** The declared groups. A name listed twice would get its last group. */
  method AssignDeclared(s: Struct) returns (groupOf: map<string, nat>)
    ensures AllListed(s, groupOf, |s.groups|) && ListedHave(s, groupOf, |s.groups|)
  {
    groupOf := map[];
    for g := 0 to |s.groups|
      invariant AllListed(s, groupOf, g) && ListedHave(s, groupOf, g)
    {
      groupOf := AssignNames(s, groupOf, g);
    }
  }

  method AssignNames(s: Struct, before: map<string, nat>, g: nat) returns (groupOf: map<string, nat>)
    requires g < |s.groups| && AllListed(s, before, g) && ListedHave(s, before, g)
    ensures AllListed(s, groupOf, g + 1) && ListedHave(s, groupOf, g + 1)
  {
    groupOf := before;
    for k := 0 to |s.groups[g]|
      invariant AllListed(s, groupOf, g + 1)
      invariant forall name :: name in before ==> name in groupOf && before[name] <= groupOf[name]
      invariant forall j :: 0 <= j < k ==> s.groups[g][j] in groupOf && groupOf[s.groups[g][j]] == g
    {
      assert IsListed(s, g, s.groups[g][k]);
      groupOf := groupOf[s.groups[g][k] := g];
    }
  }

  /** The group of every field name; fields outside all groups that need context get groups
      of their own. */
  method AssignGroups(s: Struct, children: Analyses) returns (groupOf: map<string, nat>, count: nat)
    ensures GroupsAre(s, groupOf, count) && ListedHave(s, groupOf, |s.groups|)
    ensures forall i :: 0 <= i < |s.fields| && Asked(s.fields[i], children) != [] ==> s.fields[i].name in groupOf
  {
    hide Asked, IsListed;
    groupOf := AssignDeclared(s);
    count := |s.groups|;
    for i := 0 to |s.fields|
      invariant GroupsAre(s, groupOf, count) && ListedHave(s, groupOf, |s.groups|) && |s.groups| <= count
      invariant forall k :: 0 <= k < i && Asked(s.fields[k], children) != [] ==> s.fields[k].name in groupOf
    {
      if Asked(s.fields[i], children) != [] && s.fields[i].name !in groupOf {
        OwnGroup(s, groupOf, count, s.fields[i].name);
        groupOf := groupOf[s.fields[i].name := count];
        count := count + 1;
      }
    }
  }

  lemma OwnGroup(s: Struct, groupOf: map<string, nat>, count: nat, name: string)
    requires GroupsAre(s, groupOf, count) && ListedHave(s, groupOf, |s.groups|)
    requires |s.groups| <= count && name !in groupOf
    ensures GroupsAre(s, groupOf[name := count], count + 1) && ListedHave(s, groupOf[name := count], |s.groups|)
  {
    hide IsListed;
  }

  /** What the first `n` fields ask of group `g`. */
  function AskedOf(s: Struct, children: Analyses, groupOf: map<string, nat>, g: nat, n: nat): set<Ask>
    requires n <= |s.fields|
  {
    if n == 0 then {}
    else
      var f := s.fields[n - 1];
      AskedOf(s, children, groupOf, g, n - 1) + if InGroup(f, groupOf, g) then AskSet(Asked(f, children)) else {}
  }

  predicate SlotsDiffer(group: seq<Use>) {
    forall i, j :: 0 <= i < j < |group| ==> group[i].slot != group[j].slot
  }

  predicate HasSlot(group: seq<Use>, x: Slot) {
    exists i :: 0 <= i < |group| && group[i].slot == x
  }

  predicate IsUse(u: Use, asked: set<Ask>) {
    && (u.scalar <==> Ask(u.slot, false) in asked)
    && (u.vector <==> Ask(u.slot, true) in asked)
    && (u.scalar || u.vector)
  }

  /** The group's uses are what was asked of it, one for every slot. */
  predicate Represents(group: seq<Use>, asked: set<Ask>) {
    && SlotsDiffer(group)
    && (forall i :: 0 <= i < |group| ==> IsUse(group[i], asked))
    && (forall a :: a in asked ==> HasSlot(group, a.slot))
  }

  /** `mergeGroupNeed`: a slot that the group already has is not added again. */
  method MergeNeed(group: seq<Use>, x: Ask, ghost asked: set<Ask>) returns (r: seq<Use>)
    requires Represents(group, asked)
    ensures Represents(r, asked + {x})
  {
    for i := 0 to |group|
      invariant forall k :: 0 <= k < i ==> group[k].slot != x.slot
    {
      if group[i].slot == x.slot {
        r := group[i := if x.isVector then group[i].(vector := true) else group[i].(scalar := true)];
        UseKept(group, asked, i, x, r);
        return;
      }
    }
    r := group + [Use(x.slot, !x.isVector, x.isVector)];
    UseAdded(group, asked, x, r);
  }

  lemma UseKept(group: seq<Use>, asked: set<Ask>, i: nat, x: Ask, r: seq<Use>)
    requires Represents(group, asked) && i < |group| && group[i].slot == x.slot
    requires r == group[i := if x.isVector then group[i].(vector := true) else group[i].(scalar := true)]
    ensures Represents(r, asked + {x})
  {
    forall a | a in asked + {x}
      ensures HasSlot(r, a.slot)
    {
      if a in asked {
        var k :| 0 <= k < |group| && group[k].slot == a.slot;
        assert r[k].slot == a.slot;
      } else {
        assert r[i].slot == a.slot;
      }
    }
  }

  lemma UseAdded(group: seq<Use>, asked: set<Ask>, x: Ask, r: seq<Use>)
    requires Represents(group, asked) && forall k :: 0 <= k < |group| ==> group[k].slot != x.slot
    requires r == group + [Use(x.slot, !x.isVector, x.isVector)]
    ensures Represents(r, asked + {x})
  {
    assert !HasSlot(group, x.slot);
    forall a | a in asked + {x}
      ensures HasSlot(r, a.slot)
    {
      if a in asked {
        var k :| 0 <= k < |group| && group[k].slot == a.slot;
        assert r[k].slot == a.slot;
      } else {
        assert r[|group|].slot == a.slot;
      }
    }
  }

  method MergeAll(group: seq<Use>, xs: seq<Ask>, ghost asked: set<Ask>) returns (r: seq<Use>)
    requires Represents(group, asked)
    ensures Represents(r, asked + AskSet(xs))
  {
    hide Represents;
    r := group;
    assert asked + AskSet(xs[..0]) == asked;
    for i := 0 to |xs|
      invariant Represents(r, asked + AskSet(xs[..i]))
    {
      r := MergeNeed(r, xs[i], asked + AskSet(xs[..i]));
      assert xs[..i + 1] == xs[..i] + [xs[i]];
      assert asked + AskSet(xs[..i]) + {xs[i]} == asked + AskSet(xs[..i + 1]);
    }
    assert xs[..|xs|] == xs;
  }

  predicate GroupsHold(s: Struct, children: Analyses, groupOf: map<string, nat>, groups: seq<seq<Use>>, n: nat)
    requires n <= |s.fields|
  {
    forall g :: 0 <= g < |groups| ==> Represents(groups[g], AskedOf(s, children, groupOf, g, n))
  }

  method CollectGroups(s: Struct, children: Analyses, groupOf: map<string, nat>, count: nat)
    returns (groups: seq<seq<Use>>)
    requires forall name :: name in groupOf ==> groupOf[name] < count
    ensures |groups| == count && GroupsHold(s, children, groupOf, groups, |s.fields|)
  {
    hide Represents, Asked, AskSet;
    groups := seq(count, _ => []);
    NothingAsked();
    for i := 0 to |s.fields|
      invariant |groups| == count && GroupsHold(s, children, groupOf, groups, i)
    {
      var f := s.fields[i];
      if f.name in groupOf {
        var g := groupOf[f.name];
        var merged := MergeAll(groups[g], Asked(f, children), AskedOf(s, children, groupOf, g, i));
        groups := groups[g := merged];
      }
      forall h | 0 <= h < count && !InGroup(f, groupOf, h)
        ensures AskedOf(s, children, groupOf, h, i + 1) == AskedOf(s, children, groupOf, h, i)
      {
      }
    }
  }

  lemma NothingAsked()
    ensures Represents([], {})
  {
  }

  /** What a field asks is asked of its own group. */
  lemma {:induction false} FieldAsks(s: Struct, children: Analyses, groupOf: map<string, nat>, n: nat, i: nat)
    requires i < n <= |s.fields| && s.fields[i].name in groupOf
    ensures AskSet(Asked(s.fields[i], children)) <= AskedOf(s, children, groupOf, groupOf[s.fields[i].name], n)
  {
    if i < n - 1 {
      FieldAsks(s, children, groupOf, n - 1, i);
    }
  }

  /** Nothing is asked of a group that no field of it asked for. */
  lemma {:induction false} SlotWasAsked(s: Struct, children: Analyses, groupOf: map<string, nat>, g: nat, n: nat,
      x: Ask)
    returns (i: nat)
    requires n <= |s.fields| && x in AskedOf(s, children, groupOf, g, n)
    ensures i < n && InGroup(s.fields[i], groupOf, g) && x in Asked(s.fields[i], children)
  {
    var f := s.fields[n - 1];
    if InGroup(f, groupOf, g) && x in AskSet(Asked(f, children)) {
      i := n - 1;
    } else {
      i := SlotWasAsked(s, children, groupOf, g, n - 1, x);
    }
  }

  // ---------- the struct's parameters ----------

  /** The uses of all groups, in order. */
  function Flat(groups: seq<seq<Use>>): seq<Use> {
    if groups == [] then [] else Flat(groups[..|groups| - 1]) + groups[|groups| - 1]
  }

  /** How many of the first `n` uses are of type `t`. */
  function CountOf(uses: seq<Use>, n: nat, t: Name): nat
    requires n <= |uses|
  {
    if n == 0 then 0 else CountOf(uses, n - 1, t) + if uses[n - 1].slot.derived == t then 1 else 0
  }

  /** The parameter of use `p`: the next number of its type, and a vector only where every
      field that shares it passes a vector. */
  function NeedAt(uses: seq<Use>, p: nat): Need
    requires p < |uses|
  {
    var t := uses[p].slot.derived;
    var ordinal := CountOf(uses, p, t);
    Need(Slot(t, ordinal), ParameterName(t, ordinal, CountOf(uses, |uses|, t)), uses[p].vector && !uses[p].scalar)
  }

  predicate AreNeeds(needs: seq<Need>, uses: seq<Use>) {
    |needs| <= |uses| && forall p :: 0 <= p < |needs| ==> needs[p] == NeedAt(uses, p)
  }

  lemma {:induction false} CountGrows(uses: seq<Use>, m: nat, n: nat, t: Name)
    requires m <= n <= |uses|
    ensures CountOf(uses, m, t) <= CountOf(uses, n, t)
    ensures m < n && uses[m].slot.derived == t ==> CountOf(uses, m, t) < CountOf(uses, n, t)
  {
    if m < n {
      CountGrows(uses, m, n - 1, t);
    }
  }

  /** Different uses have different parameters, and different names. */
  lemma NamesDiffer(uses: seq<Use>, p: nat, q: nat)
    requires p < q < |uses|
    ensures NeedAt(uses, p).name != NeedAt(uses, q).name
    ensures NeedAt(uses, p).slot != NeedAt(uses, q).slot
  {
    hide ParameterName;
    var t, u, n := uses[p].slot.derived, uses[q].slot.derived, |uses|;
    var i, j := CountOf(uses, p, t), CountOf(uses, q, u);
    CountGrows(uses, p, q, t);
    CountGrows(uses, q, n, u);
    if NeedAt(uses, p).name == NeedAt(uses, q).name {
      NameDetermines(t, u, i, j, CountOf(uses, n, t), CountOf(uses, n, u));
    }
  }

  /** Where use `k` of group `g` stands among all uses. */
  function Place(groups: seq<seq<Use>>, g: nat, k: nat): nat
    requires g <= |groups|
  {
    |Flat(groups[..g])| + k
  }

  lemma {:induction false} FlatPrefix(groups: seq<seq<Use>>, g: nat)
    requires g <= |groups|
    decreases |groups| - g
    ensures Flat(groups[..g]) <= Flat(groups)
  {
    if g == |groups| {
      assert groups[..g] == groups;
    } else {
      FlatPrefix(groups, g + 1);
      assert groups[..g + 1][..g] == groups[..g];
    }
  }

  lemma PlaceHolds(groups: seq<seq<Use>>, g: nat, k: nat)
    requires g < |groups| && k < |groups[g]|
    ensures Place(groups, g, k) < |Flat(groups)| && Flat(groups)[Place(groups, g, k)] == groups[g][k]
    ensures Place(groups, g, k) < |Flat(groups[..g + 1])|
  {
    FlatPrefix(groups, g + 1);
    assert groups[..g + 1][..g] == groups[..g];
    assert Flat(groups[..g + 1])[Place(groups, g, k)] == groups[g][k];
  }

  lemma PlacesDiffer(groups: seq<seq<Use>>, g: nat, k: nat, h: nat, l: nat)
    requires g < |groups| && k < |groups[g]| && h < |groups| && l < |groups[h]|
    ensures Place(groups, g, k) == Place(groups, h, l) <==> g == h && k == l
  {
    if g < h {
      PlaceHolds(groups, g, k);
      FlatPrefix(groups[..h], g + 1);
      assert groups[..h][..g + 1] == groups[..g + 1];
    } else if h < g {
      PlaceHolds(groups, h, l);
      FlatPrefix(groups[..g], h + 1);
      assert groups[..g][..h + 1] == groups[..h + 1];
    }
  }

  /** The parameters of one type are numbered from 0 without gaps. */
  lemma {:induction false} NumbersHaveNoGaps(uses: seq<Use>, n: nat, t: Name, j: nat) returns (p: nat)
    requires n <= |uses| && j < CountOf(uses, n, t)
    ensures p < n && NeedAt(uses, p).slot == Slot(t, j)
  {
    if j == CountOf(uses, n - 1, t) {
      p := n - 1;
    } else {
      p := NumbersHaveNoGaps(uses, n - 1, t, j);
    }
  }

  function Looked(m: map<Name, nat>, t: Name): nat {
    if t in m then m[t] else 0
  }

  /** The counters after the first `n` uses. */
  ghost predicate IsCounted(m: map<Name, nat>, uses: seq<Use>, n: nat)
    requires n <= |uses|
  {
    forall t :: Looked(m, t) == CountOf(uses, n, t)
  }

  lemma CountNext(m: map<Name, nat>, uses: seq<Use>, n: nat)
    requires n < |uses| && IsCounted(m, uses, n)
    ensures var t := uses[n].slot.derived; IsCounted(m[t := Looked(m, t) + 1], uses, n + 1)
  {
    var t := uses[n].slot.derived;
    var next := m[t := Looked(m, t) + 1];
    forall x
      ensures Looked(next, x) == CountOf(uses, n + 1, x)
    {
      assert Looked(m, x) == CountOf(uses, n, x);
    }
  }

  /** `perTypeGroupCount` */
  method CountTypes(groups: seq<seq<Use>>) returns (counts: map<Name, nat>)
    ensures IsCounted(counts, Flat(groups), |Flat(groups)|)
  {
    ghost var uses := Flat(groups);
    counts := map[];
    for g := 0 to |groups|
      invariant |Flat(groups[..g])| <= |uses| && IsCounted(counts, uses, |Flat(groups[..g])|)
    {
      FlatNext(groups, g);
      for k := 0 to |groups[g]|
        invariant Place(groups, g, k) <= |uses| && IsCounted(counts, uses, Place(groups, g, k))
      {
        PlaceHolds(groups, g, k);
        CountNext(counts, uses, Place(groups, g, k));
        var t := groups[g][k].slot.derived;
        counts := counts[t := Looked(counts, t) + 1];
      }
    }
    assert groups[..|groups|] == groups;
  }

  lemma FlatNext(groups: seq<seq<Use>>, g: nat)
    requires g < |groups|
    ensures |Flat(groups[..g + 1])| == |Flat(groups[..g])| + |groups[g]| <= |Flat(groups)|
  {
    FlatPrefix(groups, g + 1);
    assert groups[..g + 1][..g] == groups[..g];
  }

  /** The names and flags recorded for the slots of one group. */
  predicate Records(m: map<Slot, Need>, uses: seq<Use>, at: nat, group: seq<Use>, n: nat)
    requires n <= |group| && at + n <= |uses|
  {
    forall k :: 0 <= k < n ==> group[k].slot in m && m[group[k].slot] == NeedAt(uses, at + k)
  }

  /** Numbers and names the parameters of one group. */
  method NumberGroup(groups: seq<seq<Use>>, g: nat, totals: map<Name, nat>, before: seq<Need>, ordinals: map<Name, nat>)
    returns (needs: seq<Need>, next: map<Name, nat>, recorded: map<Slot, Need>)
    requires g < |groups| && SlotsDiffer(groups[g])
    requires IsCounted(totals, Flat(groups), |Flat(groups)|)
    requires |before| == |Flat(groups[..g])| && AreNeeds(before, Flat(groups))
    requires IsCounted(ordinals, Flat(groups), |before|)
    ensures |needs| == |Flat(groups[..g + 1])| && AreNeeds(needs, Flat(groups))
    ensures IsCounted(next, Flat(groups), |needs|)
    ensures Place(groups, g, |groups[g]|) <= |Flat(groups)|
    ensures Records(recorded, Flat(groups), Place(groups, g, 0), groups[g], |groups[g]|)
  {
    hide ParameterName, CountOf, Flat;
    ghost var uses := Flat(groups);
    needs, next, recorded := before, ordinals, map[];
    FlatNext(groups, g);
    for k := 0 to |groups[g]|
      invariant Place(groups, g, k) <= |uses|
      invariant |needs| == Place(groups, g, k) && AreNeeds(needs, uses) && IsCounted(next, uses, |needs|)
      invariant Records(recorded, uses, Place(groups, g, 0), groups[g], k)
    {
      PlaceHolds(groups, g, k);
      CountNext(next, uses, |needs|);
      var use := groups[g][k];
      var t := use.slot.derived;
      var ordinal := Looked(next, t);
      next := next[t := ordinal + 1];
      var need := Need(Slot(t, ordinal), ParameterName(t, ordinal, Looked(totals, t)), use.vector && !use.scalar);
      assert need == NeedAt(uses, Place(groups, g, k));
      recorded := recorded[use.slot := need];
      needs := needs + [need];
    }
  }

  /** The records of the first groups. */
  predicate AllRecorded(recorded: seq<map<Slot, Need>>, groups: seq<seq<Use>>) {
    && |recorded| <= |groups|
    && (forall g :: 0 <= g < |recorded| ==> Place(groups, g, |groups[g]|) <= |Flat(groups)|)
    && (forall g :: 0 <= g < |recorded| ==>
          Records(recorded[g], Flat(groups), Place(groups, g, 0), groups[g], |groups[g]|))
  }

  method NumberGroups(groups: seq<seq<Use>>) returns (needs: seq<Need>, recorded: seq<map<Slot, Need>>)
    requires forall g :: 0 <= g < |groups| ==> SlotsDiffer(groups[g])
    ensures |needs| == |Flat(groups)| && AreNeeds(needs, Flat(groups)) && |recorded| == |groups|
    ensures AllRecorded(recorded, groups)
  {
    hide AreNeeds, SlotsDiffer, Records, AllRecorded, IsCounted, Flat;
    var totals := CountTypes(groups);
    needs, recorded := [], [];
    var ordinals: map<Name, nat> := map[];
    NoNeeds(groups);
    for g := 0 to |groups|
      invariant |needs| == |Flat(groups[..g])| <= |Flat(groups)| && AreNeeds(needs, Flat(groups)) && |recorded| == g
      invariant IsCounted(ordinals, Flat(groups), |needs|)
      invariant AllRecorded(recorded, groups)
    {
      var found;
      FlatNext(groups, g);
      needs, ordinals, found := NumberGroup(groups, g, totals, needs, ordinals);
      RecordedNext(recorded, groups, found);
      recorded := recorded + [found];
    }
    assert groups[..|groups|] == groups;
  }

  lemma NoNeeds(groups: seq<seq<Use>>)
    ensures AreNeeds([], Flat(groups)) && IsCounted(map[], Flat(groups), 0)
    ensures Flat([]) == [] && AllRecorded([], groups)
  {
  }

  lemma RecordedNext(recorded: seq<map<Slot, Need>>, groups: seq<seq<Use>>, m: map<Slot, Need>)
    requires AllRecorded(recorded, groups) && |recorded| < |groups|
    requires var g := |recorded|;
      && Place(groups, g, |groups[g]|) <= |Flat(groups)|
      && Records(m, Flat(groups), Place(groups, g, 0), groups[g], |groups[g]|)
    ensures AllRecorded(recorded + [m], groups)
  {
    hide Records, Flat;
  }

  // ---------- what the fields are handed ----------

  function SlotIndex(group: seq<Use>, x: Slot): (k: nat)
    requires HasSlot(group, x)
    ensures k < |group| && group[k].slot == x
  {
    if group[0].slot == x then 0
    else
      assert HasSlot(group[1..], x) by {
        var k :| 0 <= k < |group| && group[k].slot == x;
        assert group[1..][k - 1].slot == x;
      }
      SlotIndex(group[1..], x) + 1
  }

  /** The parameter that a slot of a group stands for. */
  function PlaceOf(groups: seq<seq<Use>>, g: nat, x: Slot): nat
    requires g < |groups| && HasSlot(groups[g], x)
  {
    Place(groups, g, SlotIndex(groups[g], x))
  }

  function ArgOf(x: Slot, need: Need): Arg {
    Arg(x, need.name, need.isVector)
  }

  /** Field `i` has a group, and the group an entry for the field's slot `k`. */
  predicate IsServed(s: Struct, children: Analyses, groupOf: map<string, nat>, groups: seq<seq<Use>>, i: nat, k: nat)
    requires i < |s.fields| && k < |Asked(s.fields[i], children)|
  {
    && s.fields[i].name in groupOf && groupOf[s.fields[i].name] < |groups|
    && HasSlot(groups[groupOf[s.fields[i].name]], Asked(s.fields[i], children)[k].slot)
  }

  predicate AllServed(s: Struct, children: Analyses, groupOf: map<string, nat>, groups: seq<seq<Use>>) {
    forall i, k :: 0 <= i < |s.fields| && 0 <= k < |Asked(s.fields[i], children)| ==>
      IsServed(s, children, groupOf, groups, i, k)
  }

  lemma HoldingServes(s: Struct, children: Analyses, groupOf: map<string, nat>, groups: seq<seq<Use>>)
    requires GroupsHold(s, children, groupOf, groups, |s.fields|) && GroupsAre(s, groupOf, |groups|)
    requires forall i :: 0 <= i < |s.fields| && Asked(s.fields[i], children) != [] ==> s.fields[i].name in groupOf
    ensures AllServed(s, children, groupOf, groups)
  {
    hide Asked, SlotsDiffer, IsUse, HasSlot, AskedOf;
    forall i, k | 0 <= i < |s.fields| && 0 <= k < |Asked(s.fields[i], children)|
      ensures IsServed(s, children, groupOf, groups, i, k)
    {
      assert Asked(s.fields[i], children) != [];
      FieldAsks(s, children, groupOf, |s.fields|, i);
      assert Asked(s.fields[i], children)[k] in AskSet(Asked(s.fields[i], children));
    }
  }

  /** The place of the parameter for slot `k` of field `i`. */
  function PlaceFor(s: Struct, children: Analyses, groupOf: map<string, nat>, groups: seq<seq<Use>>, i: nat,
      k: nat): nat
    requires i < |s.fields| && k < |Asked(s.fields[i], children)|
    requires IsServed(s, children, groupOf, groups, i, k)
  {
    PlaceOf(groups, groupOf[s.fields[i].name], Asked(s.fields[i], children)[k].slot)
  }

  /** The argument is that parameter. */
  predicate IsArg(s: Struct, children: Analyses, groupOf: map<string, nat>, groups: seq<seq<Use>>,
                  i: nat, k: nat, arg: Arg)
    requires i < |s.fields| && k < |Asked(s.fields[i], children)|
  {
    && IsServed(s, children, groupOf, groups, i, k)
    && var p := PlaceFor(s, children, groupOf, groups, i, k);
       p < |Flat(groups)| && arg == ArgOf(Asked(s.fields[i], children)[k].slot, NeedAt(Flat(groups), p))
  }

  /** The last loop of `analyzeContext`, for one field: its slots with the names recorded for
      its group. */
  method CaptureField(s: Struct, children: Analyses, groupOf: map<string, nat>, groups: seq<seq<Use>>,
                      recorded: seq<map<Slot, Need>>, i: nat)
    returns (args: seq<Arg>)
    requires AllServed(s, children, groupOf, groups) && |recorded| == |groups| && AllRecorded(recorded, groups)
    requires i < |s.fields|
    ensures |args| == |Asked(s.fields[i], children)|
    ensures forall k :: 0 <= k < |args| ==> IsArg(s, children, groupOf, groups, i, k, args[k])
  {
    hide Asked, HasSlot, NeedAt, Flat;
    var asked := Asked(s.fields[i], children);
    args := [];
    for k := 0 to |asked|
      invariant |args| == k
      invariant forall j :: 0 <= j < k ==> IsArg(s, children, groupOf, groups, i, j, args[j])
    {
      assert IsServed(s, children, groupOf, groups, i, k);
      var g, x := groupOf[s.fields[i].name], asked[k].slot;
      FoundInRecord(recorded, groups, g, x);
      args := args + [ArgOf(x, recorded[g][x])];
    }
  }

  lemma RecordAt(m: map<Slot, Need>, uses: seq<Use>, at: nat, group: seq<Use>, n: nat, k: nat)
    requires n <= |group| && at + n <= |uses| && Records(m, uses, at, group, n) && k < n
    ensures group[k].slot in m && m[group[k].slot] == NeedAt(uses, at + k)
  {
    hide NeedAt;
  }

  lemma FoundInRecord(recorded: seq<map<Slot, Need>>, groups: seq<seq<Use>>, g: nat, x: Slot)
    requires g < |recorded| && AllRecorded(recorded, groups) && HasSlot(groups[g], x)
    ensures PlaceOf(groups, g, x) < |Flat(groups)|
    ensures x in recorded[g] && recorded[g][x] == NeedAt(Flat(groups), PlaceOf(groups, g, x))
  {
    hide NeedAt, HasSlot, Flat, Records;
    var k := SlotIndex(groups[g], x);
    PlaceHolds(groups, g, k);
    RecordAt(recorded[g], Flat(groups), Place(groups, g, 0), groups[g], |groups[g]|, k);
    assert Place(groups, g, 0) + k == Place(groups, g, k);
  }

  method CaptureFields(s: Struct, children: Analyses, groupOf: map<string, nat>, groups: seq<seq<Use>>,
                       recorded: seq<map<Slot, Need>>)
    returns (captures: seq<seq<Arg>>)
    requires AllServed(s, children, groupOf, groups) && |recorded| == |groups| && AllRecorded(recorded, groups)
    ensures |captures| == |s.fields|
    ensures forall i :: 0 <= i < |s.fields| ==> IsCaptured(s, children, groupOf, groups, i, captures[i])
  {
    hide Asked, AllServed, AllRecorded, IsArg;
    captures := [];
    for i := 0 to |s.fields|
      invariant |captures| == i
      invariant forall j :: 0 <= j < i ==> IsCaptured(s, children, groupOf, groups, j, captures[j])
    {
      var args := CaptureField(s, children, groupOf, groups, recorded, i);
      captures := captures + [args];
    }
  }

  predicate IsCaptured(s: Struct, children: Analyses, groupOf: map<string, nat>, groups: seq<seq<Use>>,
                       i: nat, args: seq<Arg>)
    requires i < |s.fields|
  {
    && |args| == |Asked(s.fields[i], children)|
    && forall k :: 0 <= k < |args| ==> IsArg(s, children, groupOf, groups, i, k, args[k])
  }

  // ---------- the analysis of one struct ----------

  predicate AnyAsks(s: Struct, children: Analyses) {
    exists i :: 0 <= i < |s.fields| && Asked(s.fields[i], children) != []
  }

  predicate NamesAreDistinct(needs: seq<Need>) {
    forall p, q :: 0 <= p < q < |needs| ==> needs[p].name != needs[q].name && needs[p].slot != needs[q].slot
  }

  /** How many of the first `n` parameters are of type `t`. */
  function OfType(needs: seq<Need>, n: nat, t: Name): nat
    requires n <= |needs|
  {
    if n == 0 then 0 else OfType(needs, n - 1, t) + if needs[n - 1].slot.derived == t then 1 else 0
  }

  /** The parameters of every type are numbered in order and named by their numbers. */
  predicate AreNumbered(needs: seq<Need>) {
    forall p :: 0 <= p < |needs| ==>
      var (t, n) := (needs[p].slot.derived, needs[p].slot.ordinal);
      n == OfType(needs, p, t) && needs[p].name == ParameterName(t, n, OfType(needs, |needs|, t))
  }

  lemma {:induction false} SameCounts(needs: seq<Need>, uses: seq<Use>, n: nat, t: Name)
    requires |needs| == |uses| && AreNeeds(needs, uses) && n <= |needs|
    ensures OfType(needs, n, t) == CountOf(uses, n, t)
  {
    if n > 0 {
      SameCounts(needs, uses, n - 1, t);
      assert needs[n - 1] == NeedAt(uses, n - 1);
    }
  }

  lemma NeedsAreNumbered(needs: seq<Need>, uses: seq<Use>)
    requires |needs| == |uses| && AreNeeds(needs, uses)
    ensures AreNumbered(needs)
  {
    hide ParameterName, CountOf, OfType;
    forall p | 0 <= p < |needs|
      ensures
        var (t, n) := (needs[p].slot.derived, needs[p].slot.ordinal);
        n == OfType(needs, p, t) && needs[p].name == ParameterName(t, n, OfType(needs, |needs|, t))
    {
      var t := needs[p].slot.derived;
      assert needs[p] == NeedAt(uses, p);
      SameCounts(needs, uses, p, t);
      SameCounts(needs, uses, |uses|, t);
    }
  }

  /** Some field of the group needs the slot as one value. */
  predicate AsksScalar(s: Struct, children: Analyses, groupOf: map<string, nat>, g: nat, x: Slot) {
    exists j :: 0 <= j < |s.fields| && InGroup(s.fields[j], groupOf, g) && Ask(x, false) in Asked(s.fields[j], children)
  }

  predicate IsParameter(need: Need, arg: Arg) {
    need.name == arg.name && need.slot.derived == arg.slot.derived && need.isVector == arg.isVector
  }

  /** Argument `k` of field `i` is for the slot the field asked for, and there is a parameter
      of its type with its name; it is a vector exactly when no field of the group needs one
      value. */
  predicate IsHanded(s: Struct, children: Analyses, groupOf: map<string, nat>, needs: seq<Need>,
                     i: nat, k: nat, arg: Arg)
    requires i < |s.fields| && k < |Asked(s.fields[i], children)|
  {
    && s.fields[i].name in groupOf
    && arg.slot == Asked(s.fields[i], children)[k].slot
    && (exists p :: 0 <= p < |needs| && IsParameter(needs[p], arg))
    && (arg.isVector <==> !AsksScalar(s, children, groupOf, groupOf[s.fields[i].name], arg.slot))
  }

  predicate AllHanded(s: Struct, children: Analyses, groupOf: map<string, nat>, needs: seq<Need>,
                      captures: seq<seq<Arg>>) {
    && |captures| == |s.fields|
    && (forall i :: 0 <= i < |s.fields| ==> |captures[i]| == |Asked(s.fields[i], children)|)
    && (forall i, k :: 0 <= i < |s.fields| && 0 <= k < |captures[i]| ==>
          IsHanded(s, children, groupOf, needs, i, k, captures[i][k]))
  }

  /** Two arguments have one name exactly when their fields are in one group and ask for the
      same slot. */
  predicate SharedRightly(s: Struct, groupOf: map<string, nat>, captures: seq<seq<Arg>>)
    requires |captures| == |s.fields|
  {
    && (forall i :: 0 <= i < |s.fields| && captures[i] != [] ==> s.fields[i].name in groupOf)
    && (forall i, k, j, l ::
      0 <= i < |s.fields| && 0 <= k < |captures[i]| && 0 <= j < |s.fields| && 0 <= l < |captures[j]| ==>
      (captures[i][k].name == captures[j][l].name
       <==> groupOf[s.fields[i].name] == groupOf[s.fields[j].name] && captures[i][k].slot == captures[j][l].slot))
  }

  lemma NeedsAreDistinct(needs: seq<Need>, uses: seq<Use>)
    requires |needs| == |uses| && AreNeeds(needs, uses)
    ensures NamesAreDistinct(needs)
  {
    hide NeedAt;
    forall p, q | 0 <= p < q < |needs|
      ensures needs[p].name != needs[q].name && needs[p].slot != needs[q].slot
    {
      NamesDiffer(uses, p, q);
    }
  }

  /** A use is a vector exactly when no field of its group needs one value. */
  lemma VectorMeans(s: Struct, children: Analyses, groupOf: map<string, nat>, groups: seq<seq<Use>>, g: nat, u: Use)
    requires GroupsHold(s, children, groupOf, groups, |s.fields|) && g < |groups| && u in groups[g]
    ensures u.vector && !u.scalar <==> !AsksScalar(s, children, groupOf, g, u.slot)
  {
    hide Asked, SlotsDiffer, HasSlot;
    var asked := AskedOf(s, children, groupOf, g, |s.fields|);
    assert IsUse(u, asked);
    if u.scalar {
      var j := SlotWasAsked(s, children, groupOf, g, |s.fields|, Ask(u.slot, false));
    }
    if AsksScalar(s, children, groupOf, g, u.slot) {
      var j: nat :| j < |s.fields| && InGroup(s.fields[j], groupOf, g)
        && Ask(u.slot, false) in Asked(s.fields[j], children);
      FieldAsks(s, children, groupOf, |s.fields|, j);
      assert Ask(u.slot, false) in AskSet(Asked(s.fields[j], children));
    }
  }

  lemma ArgIsHanded(s: Struct, children: Analyses, groupOf: map<string, nat>, groups: seq<seq<Use>>,
                    needs: seq<Need>, i: nat, k: nat, arg: Arg)
    requires GroupsHold(s, children, groupOf, groups, |s.fields|)
    requires |needs| == |Flat(groups)| && AreNeeds(needs, Flat(groups))
    requires i < |s.fields| && k < |Asked(s.fields[i], children)| && IsArg(s, children, groupOf, groups, i, k, arg)
    ensures IsHanded(s, children, groupOf, needs, i, k, arg)
  {
    hide Asked, GroupsHold, HasSlot, Flat, CountOf, AsksScalar;
    var g, x := groupOf[s.fields[i].name], Asked(s.fields[i], children)[k].slot;
    var l := SlotIndex(groups[g], x);
    var p := PlaceOf(groups, g, x);
    PlaceHolds(groups, g, l);
    VectorMeans(s, children, groupOf, groups, g, groups[g][l]);
    assert IsParameter(needs[p], arg);
  }

  lemma ArgsAreShared(s: Struct, children: Analyses, groupOf: map<string, nat>, groups: seq<seq<Use>>,
                      i: nat, k: nat, a: Arg, j: nat, l: nat, b: Arg)
    requires i < |s.fields| && k < |Asked(s.fields[i], children)| && IsArg(s, children, groupOf, groups, i, k, a)
    requires j < |s.fields| && l < |Asked(s.fields[j], children)| && IsArg(s, children, groupOf, groups, j, l, b)
    ensures a.name == b.name <==> groupOf[s.fields[i].name] == groupOf[s.fields[j].name] && a.slot == b.slot
  {
    hide Asked, HasSlot, Flat, NeedAt;
    var g, x := groupOf[s.fields[i].name], Asked(s.fields[i], children)[k].slot;
    var h, y := groupOf[s.fields[j].name], Asked(s.fields[j], children)[l].slot;
    var p, q := PlaceOf(groups, g, x), PlaceOf(groups, h, y);
    PlacesDiffer(groups, g, SlotIndex(groups[g], x), h, SlotIndex(groups[h], y));
    if p < q {
      NamesDiffer(Flat(groups), p, q);
    } else if q < p {
      NamesDiffer(Flat(groups), q, p);
    }
  }

  /** What the analysis of a struct promises. */
  ghost predicate IsAnalysis(s: Struct, children: Analyses, a: Analysis) {
    && (a.needs != [] <==> AnyAsks(s, children))
    && NamesAreDistinct(a.needs) && AreNumbered(a.needs)
    && (exists count :: GroupsAre(s, a.groupOf, count))
    && ListedHave(s, a.groupOf, |s.groups|)
    && AllHanded(s, children, a.groupOf, a.needs, a.captures)
    && SharedRightly(s, a.groupOf, a.captures)
  }

  /** `analyzeContext` */
  method AnalyzeContext(s: Struct, children: Analyses) returns (a: Analysis)
    ensures IsAnalysis(s, children, a)
  {
    hide Asked, GroupsHold, Represents, AllServed, AllRecorded, AreNeeds, NamesAreDistinct, IsArg, IsHanded, ListedHave,
      AreNumbered;
    var groupOf, count := AssignGroups(s, children);
    var groups := CollectGroups(s, children, groupOf, count);
    SlotsAreDistinct(s, children, groupOf, groups);
    HoldingServes(s, children, groupOf, groups);
    var needs, recorded := NumberGroups(groups);
    NeedsAreDistinct(needs, Flat(groups));
    NeedsAreNumbered(needs, Flat(groups));
    var captures := CaptureFields(s, children, groupOf, groups, recorded);
    forall i, k | 0 <= i < |s.fields| && 0 <= k < |captures[i]|
      ensures IsHanded(s, children, groupOf, needs, i, k, captures[i][k])
    {
      ArgIsHanded(s, children, groupOf, groups, needs, i, k, captures[i][k]);
    }
    CapturesAreShared(s, children, groupOf, groups, captures);
    AgreesOnEmptiness(s, children, groupOf, groups);
    a := Analysis(needs, groupOf, captures);
  }

  lemma CapturesAreShared(s: Struct, children: Analyses, groupOf: map<string, nat>, groups: seq<seq<Use>>,
      captures: seq<seq<Arg>>)
    requires |captures| == |s.fields| && AllServed(s, children, groupOf, groups)
    requires forall i :: 0 <= i < |s.fields| ==> IsCaptured(s, children, groupOf, groups, i, captures[i])
    ensures SharedRightly(s, groupOf, captures)
  {
    hide Asked, IsArg;
    forall i | 0 <= i < |s.fields| && captures[i] != []
      ensures s.fields[i].name in groupOf
    {
      assert IsServed(s, children, groupOf, groups, i, 0);
    }
    forall i, k, j, l |
      0 <= i < |s.fields| && 0 <= k < |captures[i]| && 0 <= j < |s.fields| && 0 <= l < |captures[j]|
      ensures captures[i][k].name == captures[j][l].name
         <==> groupOf[s.fields[i].name] == groupOf[s.fields[j].name] && captures[i][k].slot == captures[j][l].slot
    {
      ArgsAreShared(s, children, groupOf, groups, i, k, captures[i][k], j, l, captures[j][l]);
    }
  }

  lemma SlotsAreDistinct(s: Struct, children: Analyses, groupOf: map<string, nat>, groups: seq<seq<Use>>)
    requires GroupsHold(s, children, groupOf, groups, |s.fields|)
    ensures forall g :: 0 <= g < |groups| ==> SlotsDiffer(groups[g])
  {
    hide SlotsDiffer;
  }

  lemma {:induction false} FlatIsEmpty(groups: seq<seq<Use>>)
    ensures Flat(groups) == [] <==> forall g :: 0 <= g < |groups| ==> groups[g] == []
  {
    if groups != [] {
      var front := groups[..|groups| - 1];
      FlatIsEmpty(front);
      assert forall g :: 0 <= g < |front| ==> front[g] == groups[g];
      assert Flat(groups) == [] <==> Flat(front) == [] && groups[|groups| - 1] == [];
    }
  }

  lemma AgreesOnEmptiness(s: Struct, children: Analyses, groupOf: map<string, nat>, groups: seq<seq<Use>>)
    requires GroupsHold(s, children, groupOf, groups, |s.fields|) && AllServed(s, children, groupOf, groups)
    ensures Flat(groups) != [] <==> AnyAsks(s, children)
  {
    hide Asked, SlotsDiffer, AskedOf;
    FlatIsEmpty(groups);
    if Flat(groups) != [] {
      var g :| 0 <= g < |groups| && groups[g] != [];
      var u := groups[g][0];
      assert IsUse(u, AskedOf(s, children, groupOf, g, |s.fields|));
      var i := SlotWasAsked(s, children, groupOf, g, |s.fields|, Ask(u.slot, !u.scalar));
    }
    if AnyAsks(s, children) {
      var i :| 0 <= i < |s.fields| && Asked(s.fields[i], children) != [];
      assert IsServed(s, children, groupOf, groups, i, 0);
    }
  }

  // ---------- all structs ----------

  predicate SameAsks(s: Struct, a: Analyses, b: Analyses) {
    forall i :: 0 <= i < |s.fields| ==> Asked(s.fields[i], a) == Asked(s.fields[i], b)
  }

  /** The promise depends on the other analyses only through what the fields ask for. */
  lemma SamePromise(s: Struct, a: Analyses, b: Analyses, x: Analysis)
    requires SameAsks(s, a, b) && IsAnalysis(s, a, x)
    ensures IsAnalysis(s, b, x)
  {
    hide Asked, NamesAreDistinct, GroupsAre, ListedHave, SharedRightly, IsHanded, AsksScalar;
    forall i, k | 0 <= i < |s.fields| && 0 <= k < |x.captures[i]|
      ensures IsHanded(s, b, x.groupOf, x.needs, i, k, x.captures[i][k])
    {
      assert IsHanded(s, a, x.groupOf, x.needs, i, k, x.captures[i][k]);
      SameHanded(s, a, b, x, i, k);
    }
  }

  lemma SameHanded(s: Struct, a: Analyses, b: Analyses, x: Analysis, i: nat, k: nat)
    requires SameAsks(s, a, b) && i < |s.fields| && k < |Asked(s.fields[i], a)|
    requires i < |x.captures| && k < |x.captures[i]| && IsHanded(s, a, x.groupOf, x.needs, i, k, x.captures[i][k])
    ensures IsHanded(s, b, x.groupOf, x.needs, i, k, x.captures[i][k])
  {
    hide Asked;
    var g, slot := x.groupOf[s.fields[i].name], x.captures[i][k].slot;
    assert AsksScalar(s, a, x.groupOf, g, slot) <==> AsksScalar(s, b, x.groupOf, g, slot);
  }

  /** The structs passed so far keep every promise, and take parameters exactly when a derived
      field is reachable. */
  ghost predicate Analysed(file: File, done: set<Name>, analyses: Analyses) {
    && analyses.Keys == done && done <= file.Keys
    && (forall n :: n in done ==> IsAnalysis(file[n], analyses, analyses[n]))
    && (forall n :: n in done ==> (analyses[n].needs != [] <==> NeedsContext(file, n)))
  }

  ghost predicate TargetsIn(s: Struct, done: set<Name>) {
    forall i :: 0 <= i < |s.fields| && s.fields[i].fieldType.Reference? ==> s.fields[i].fieldType.target in done
  }

  lemma AsksIfNeeds(file: File, s: Struct, done: set<Name>, analyses: Analyses)
    requires Analysed(file, done, analyses) && TargetsIn(s, done)
    ensures AnyAsks(s, analyses) <==> AnyFieldNeeds(file, s)
  {
    hide NeedsContext, IsAnalysis;
    forall i | 0 <= i < |s.fields|
      ensures Asked(s.fields[i], analyses) != [] <==> FieldNeeds(file, s.fields[i])
    {
    }
  }

  /** The analysis of all structs in their order. It finds parameters for exactly the structs
      from which a derived field is reachable, as `validateContextGroups` does. */
  method AnalyzeAll(file: File, order: seq<Name>) returns (analyses: Analyses)
    requires WellTyped(file) && IsOrdered(GraphOf(file), order)
    ensures Analysed(file, file.Keys, analyses)
  {
    hide NeedsContext, NoRepeats, UniqueFields, Analysed, IsAnalysis, AnyAsks, AnyFieldNeeds, Dependencies;
    analyses := map[];
    ghost var done := {};
    NoAnalyses(file);
    for k := 0 to |order|
      invariant done == Elements(order[..k]) && Analysed(file, done, analyses)
      invariant forall n :: n in done ==> n in file && TargetsIn(file[n], done - {n})
    {
      var name := order[k];
      assert name in GraphOf(file) && GraphOf(file)[name] <= done;
      EarlierTargets(file, name, done);
      AsksIfNeeds(file, file[name], done, analyses);
      NeedsByField(file, name);
      NotYetListed(order, k);
      var a := AnalyzeContext(file[name], analyses);
      AnalysisAdded(file, done, analyses, name, a);
      analyses := analyses[name := a];
      done := done + {name};
      assert order[..k + 1] == order[..k] + [name];
    }
    assert order[..|order|] == order;
    assert GraphOf(file).Keys == file.Keys;
  }

  lemma NotYetListed(order: seq<Name>, k: nat)
    requires NoRepeats(order) && k < |order|
    ensures order[k] !in Elements(order[..k])
  {
  }

  lemma NoAnalyses(file: File)
    ensures Analysed(file, {}, map[])
  {
  }

  lemma AnalysisAdded(file: File, done: set<Name>, analyses: Analyses, n: Name, a: Analysis)
    requires Analysed(file, done, analyses) && n in file && n !in done && TargetsIn(file[n], done)
    requires forall m :: m in done ==> m in file && TargetsIn(file[m], done - {m})
    requires IsAnalysis(file[n], analyses, a) && (AnyAsks(file[n], analyses) <==> NeedsContext(file, n))
    ensures Analysed(file, done + {n}, analyses[n := a])
    ensures forall m :: m in done + {n} ==> m in file && TargetsIn(file[m], done + {n} - {m})
  {
    hide NeedsContext, IsAnalysis, AnyAsks;
    assert a.needs != [] <==> AnyAsks(file[n], analyses) by {
      NeedsIfAsks(file[n], analyses, a);
    }
    forall m | m in done + {n}
      ensures IsAnalysis(file[m], analyses[n := a], (analyses[n := a])[m])
    {
      AsksOfEarlier(file[m], analyses, n, a, done);
      SamePromise(file[m], analyses, analyses[n := a], if m == n then a else analyses[m]);
    }
  }

  lemma NeedsIfAsks(s: Struct, children: Analyses, a: Analysis)
    requires IsAnalysis(s, children, a)
    ensures a.needs != [] <==> AnyAsks(s, children)
  {
  }

  lemma AsksOfEarlier(s: Struct, analyses: Analyses, n: Name, a: Analysis, done: set<Name>)
    requires TargetsIn(s, done) && n !in done && analyses.Keys == done
    ensures SameAsks(s, analyses, analyses[n := a])
  {
  }

  /** Ordering, validation and analysis together, on every file. */
  method Resolve(file: File, names: seq<Name>) returns (ok: bool, summaries: map<Name, bool>, analyses: Analyses)
    requires WellTyped(file) && NoRepeats(names) && Elements(names) == file.Keys
    ensures ok <==> !HasCycle(GraphOf(file)) && forall n :: n in file ==> GroupsFit(file, file[n])
    ensures ok ==> summaries.Keys == file.Keys && Analysed(file, file.Keys, analyses)
    ensures ok ==> forall n :: n in file ==> (summaries[n] <==> NeedsContext(file, n))
  {
    hide HasCycle, NoRepeats, IsOrdered, GroupsFit, NeedsContext, Analysed;
    summaries, analyses := map[], map[];
    var order;
    ok, order := OrderStructs(file, names);
    if ok {
      ok, summaries := ValidateContextGroups(file, order);
      if ok {
        analyses := AnalyzeAll(file, order);
      }
    }
  }
}
