/**
 Which structs need a context to be parsed: those from which a field of a derived type is
 reachable through plain references. The source decides this in one pass over the ordered
 structs, and rejects files whose context groups do not fit.
 */
module StructContext {
  import opened StructOrder

  /** A field's type, as far as context is concerned. `Other` covers scalars, enums and user
      types; a variant's alternatives never carry context. */
  datatype FieldType = Derived(derived: Name) | Reference(target: Name) | Variant(targets: set<Name>) | Other

  datatype Field = Field(name: string, fieldType: FieldType, isArray: bool)

  datatype Struct = Struct(fields: seq<Field>, parseVerbose: bool, groups: seq<seq<string>>)

  type File = map<Name, Struct>

  function FieldDependencies(f: Field): set<Name> {
    match f.fieldType
    case Reference(t) => {t}
    case Variant(ts) => ts
    case _ => {}
  }

  function Dependencies(fields: seq<Field>): set<Name> {
    if fields == [] then {} else Dependencies(fields[..|fields| - 1]) + FieldDependencies(fields[|fields| - 1])
  }

  /** A dependency is a struct that some field refers to, plainly or as one of the alternatives
      of a variant. */
  lemma {:induction false} DependsThroughField(fields: seq<Field>, d: Name)
    ensures d in Dependencies(fields) <==>
            exists i :: 0 <= i < |fields| &&
              (fields[i].fieldType == Reference(d)
               || (fields[i].fieldType.Variant? && d in fields[i].fieldType.targets))
  {
    if fields != [] {
      var n := |fields| - 1;
      DependsThroughField(fields[..n], d);
      if d in Dependencies(fields[..n]) {
        var i :| 0 <= i < n && (fields[..n][i].fieldType == Reference(d)
                                || (fields[..n][i].fieldType.Variant? && d in fields[..n][i].fieldType.targets));
        assert fields[i] == fields[..n][i];
      }
      if i :| 0 <= i < |fields| && (fields[i].fieldType == Reference(d)
                                    || (fields[i].fieldType.Variant? && d in fields[i].fieldType.targets)) {
        assert i < n ==> fields[..n][i] == fields[i];
      }
    }
  }

  function GraphOf(file: File): Graph {
    map n | n in file :: Dependencies(file[n].fields)
  }

  predicate UniqueFields(s: Struct) {
    forall i, j :: 0 <= i < j < |s.fields| ==> s.fields[i].name != s.fields[j].name
  }

  /** What earlier checks establish: every reference is to a struct of the file, and a
      struct's fields have different names. */
  predicate WellTyped(file: File) {
    Closed(GraphOf(file)) && forall n :: n in file ==> UniqueFields(file[n])
  }

  // ---------- reachability ----------

  predicate HasDerived(s: Struct) {
    exists i :: 0 <= i < |s.fields| && s.fields[i].fieldType.Derived?
  }

  predicate Refers(s: Struct, d: Name) {
    exists i :: 0 <= i < |s.fields| && s.fields[i].fieldType == Reference(d)
  }

  /** A chain of plain references, a variant not counting as one. */
  predicate IsChain(file: File, p: seq<Name>) {
    && |p| >= 1 && (forall i :: 0 <= i < |p| ==> p[i] in file)
    && forall i :: 0 <= i < |p| - 1 ==> Refers(file[p[i]], p[i + 1])
  }

  predicate LeadsToDerived(file: File, n: Name, p: seq<Name>) {
    IsChain(file, p) && p[0] == n && HasDerived(file[p[|p| - 1]])
  }

  /** A derived field is reachable from the struct. */
  ghost predicate NeedsContext(file: File, n: Name) {
    exists p :: LeadsToDerived(file, n, p)
  }

  ghost predicate FieldNeeds(file: File, f: Field) {
    f.fieldType.Derived? || (f.fieldType.Reference? && NeedsContext(file, f.fieldType.target))
  }

  ghost predicate AnyFieldNeeds(file: File, s: Struct) {
    exists i :: 0 <= i < |s.fields| && FieldNeeds(file, s.fields[i])
  }

  /** A struct needs context exactly when one of its fields does. */
  lemma NeedsByField(file: File, n: Name)
    requires n in file
    ensures NeedsContext(file, n) <==> AnyFieldNeeds(file, file[n])
  {
    var s := file[n];
    if NeedsContext(file, n) {
      var p :| LeadsToDerived(file, n, p);
      if |p| == 1 {
        var i :| 0 <= i < |s.fields| && s.fields[i].fieldType.Derived?;
        assert FieldNeeds(file, s.fields[i]);
      } else {
        assert Refers(file[p[0]], p[0 + 1]);
        var i :| 0 <= i < |s.fields| && s.fields[i].fieldType == Reference(p[1]);
        TailLeads(file, p);
        assert FieldNeeds(file, s.fields[i]);
      }
    }
    if AnyFieldNeeds(file, s) {
      var i :| 0 <= i < |s.fields| && FieldNeeds(file, s.fields[i]);
      if s.fields[i].fieldType.Derived? {
        assert LeadsToDerived(file, n, [n]);
      } else {
        var d := s.fields[i].fieldType.target;
        var q :| LeadsToDerived(file, d, q);
        assert Refers(s, d);
        LongerLeads(file, n, q);
      }
    }
  }

  lemma TailLeads(file: File, p: seq<Name>)
    requires IsChain(file, p) && |p| >= 2 && HasDerived(file[p[|p| - 1]])
    ensures LeadsToDerived(file, p[1], p[1..])
  {
    var q := p[1..];
    forall i | 0 <= i < |q| - 1
      ensures Refers(file[q[i]], q[i + 1])
    {
      assert Refers(file[p[i + 1]], p[i + 1 + 1]);
    }
  }

  lemma LongerLeads(file: File, n: Name, q: seq<Name>)
    requires n in file && |q| >= 1 && LeadsToDerived(file, q[0], q) && Refers(file[n], q[0])
    ensures LeadsToDerived(file, n, [n] + q)
  {
    var p := [n] + q;
    forall i | 0 <= i < |p| - 1
      ensures Refers(file[p[i]], p[i + 1])
    {
      if i > 0 {
        assert Refers(file[q[i - 1]], q[i - 1 + 1]);
      }
    }
  }

  // ---------- dependencies ----------

  lemma {:induction false} ReferenceIsDependency(fields: seq<Field>, i: nat)
    requires i < |fields| && fields[i].fieldType.Reference?
    ensures fields[i].fieldType.target in Dependencies(fields)
  {
    if i < |fields| - 1 {
      ReferenceIsDependency(fields[..|fields| - 1], i);
    }
  }

  /** The graph that is sorted. */
  method BuildGraph(file: File, names: seq<Name>) returns (g: Graph)
    requires NoRepeats(names) && Elements(names) == file.Keys
    ensures g == GraphOf(file)
  {
    g := map[];
    for i := 0 to |names|
      invariant g.Keys == Elements(names[..i]) && forall n :: n in g ==>
        n in file && g[n] == Dependencies(file[n].fields)
    {
      assert names[i] in Elements(names);
      var fields := file[names[i]].fields;
      var deps := {};
      for j := 0 to |fields|
        invariant deps == Dependencies(fields[..j])
      {
        assert fields[..j + 1][..j] == fields[..j];
        deps := deps + FieldDependencies(fields[j]);
      }
      assert fields[..|fields|] == fields;
      g := g[names[i] := deps];
      assert names[..i + 1] == names[..i] + [names[i]];
    }
    assert names[..|names|] == names;
  }

  /** `topologicalSort` on the file's own references. */
  method OrderStructs(file: File, names: seq<Name>) returns (ok: bool, order: seq<Name>)
    requires WellTyped(file) && NoRepeats(names) && Elements(names) == file.Keys
    ensures ok <==> !HasCycle(GraphOf(file))
    ensures ok ==> IsOrdered(GraphOf(file), order)
  {
    hide HasCycle, NoRepeats, IsOrdered;
    var g := BuildGraph(file, names);
    ok, order := TopologicalSort(g, names);
  }

  // ---------- the pass ----------

  function Grouped(groups: seq<seq<string>>): seq<string> {
    if groups == [] then [] else Grouped(groups[..|groups| - 1]) + groups[|groups| - 1]
  }

  ghost predicate IsNeedingField(file: File, s: Struct, name: string) {
    exists i :: 0 <= i < |s.fields| && s.fields[i].name == name && FieldNeeds(file, s.fields[i])
  }

  /** What the groups of a struct must satisfy: every listed field exists, needs context and
      is listed once; and neither groups nor verbose parsing are asked for in vain. */
  ghost predicate GroupsFit(file: File, s: Struct) {
    && (s.parseVerbose ==> !AnyFieldNeeds(file, s))
    && NoRepeats(Grouped(s.groups))
    && (forall name :: name in Grouped(s.groups) ==> IsNeedingField(file, s, name))
    && (s.groups != [] ==> AnyFieldNeeds(file, s))
  }

  /** The summaries of the structs already passed. */
  ghost predicate Summarised(file: File, done: set<Name>, summaries: map<Name, bool>) {
    summaries.Keys == done && done <= file.Keys && forall n :: n in done ==> (summaries[n] <==> NeedsContext(file, n))
  }

  /** Which fields need context, from the summaries of earlier structs. */
  method FieldsNeeding(file: File, s: Struct, ghost done: set<Name>, summaries: map<Name, bool>)
    returns (needs: seq<bool>, hasContext: bool)
    requires Summarised(file, done, summaries)
    requires forall i :: 0 <= i < |s.fields| && s.fields[i].fieldType.Reference? ==>
      s.fields[i].fieldType.target in done
    ensures |needs| == |s.fields| && forall i :: 0 <= i < |needs| ==> (needs[i] <==> FieldNeeds(file, s.fields[i]))
    ensures hasContext <==> AnyFieldNeeds(file, s)
  {
    hide NeedsContext;
    needs := [];
    hasContext := false;
    for i := 0 to |s.fields|
      invariant |needs| == i && forall k :: 0 <= k < i ==> (needs[k] <==> FieldNeeds(file, s.fields[k]))
      invariant hasContext <==> exists k :: 0 <= k < i && needs[k]
    {
      var f := s.fields[i];
      var need := f.fieldType.Derived? || (f.fieldType.Reference? && f.fieldType.target in summaries
        && summaries[f.fieldType.target]);
      needs := needs + [need];
      hasContext := hasContext || need;
    }
  }

  /** The checks on one struct's groups. */
  method CheckGroups(file: File, s: Struct, needs: seq<bool>, hasContext: bool) returns (ok: bool)
    requires UniqueFields(s)
    requires |needs| == |s.fields| && forall i :: 0 <= i < |needs| ==> (needs[i] <==> FieldNeeds(file, s.fields[i]))
    requires hasContext <==> AnyFieldNeeds(file, s)
    ensures ok <==> GroupsFit(file, s)
  {
    hide FieldNeeds, NoRepeats;
    if s.parseVerbose && hasContext {
      return false;
    }
    var listed: seq<string>;
    ok, listed := ListGroups(s);
    if !ok {
      FitIsListable(file, s);
      return;
    }
    for i := 0 to |s.fields|
      invariant forall k :: 0 <= k < i && s.fields[k].name in listed ==> needs[k]
    {
      if s.fields[i].name in listed && !needs[i] {
        ByName(file, s, i);
        return false;
      }
    }
    forall name | name in listed
      ensures IsNeedingField(file, s, name)
    {
      var i :| 0 <= i < |s.fields| && s.fields[i].name == name;
      assert needs[i];
    }
    if !hasContext && s.groups != [] {
      return false;
    }
  }

  lemma ByName(file: File, s: Struct, i: nat)
    requires UniqueFields(s) && i < |s.fields|
    ensures IsNeedingField(file, s, s.fields[i].name) ==> FieldNeeds(file, s.fields[i])
  {
    hide FieldNeeds;
    if IsNeedingField(file, s, s.fields[i].name) {
      var j :| 0 <= j < |s.fields| && s.fields[j].name == s.fields[i].name && FieldNeeds(file, s.fields[j]);
      assert i == j;
    }
  }

  predicate IsField(s: Struct, name: string) {
    exists i :: 0 <= i < |s.fields| && s.fields[i].name == name
  }

  predicate Listable(s: Struct, names: seq<string>) {
    NoRepeats(names) && forall name :: name in names ==> IsField(s, name)
  }

  lemma FitIsListable(file: File, s: Struct)
    ensures GroupsFit(file, s) ==> Listable(s, Grouped(s.groups))
  {
    hide FieldNeeds, NoRepeats;
    if GroupsFit(file, s) {
      forall name | name in Grouped(s.groups)
        ensures IsField(s, name)
      {
        assert IsNeedingField(file, s, name);
      }
    }
  }

  /** Goes through all groups; `listed` are the fields that got a group so far. */
  method ListGroups(s: Struct) returns (ok: bool, listed: seq<string>)
    ensures ok <==> Listable(s, Grouped(s.groups))
    ensures ok ==> listed == Grouped(s.groups)
  {
    hide NoRepeats, IsField;
    listed := [];
    EmptyHasNone();
    for g := 0 to |s.groups|
      invariant listed == Grouped(s.groups[..g]) && Listable(s, listed)
    {
      var group := s.groups[g];
      assert s.groups[..g + 1][..g] == s.groups[..g];
      ghost var before := listed;
      for k := 0 to |group|
        invariant listed == before + group[..k] && Listable(s, listed)
      {
        assert group[..k + 1] == group[..k] + [group[k]];
        if !IsField(s, group[k]) || group[k] in listed {
          NextRejected(s, before + group[..k], group[k]);
          assert before + group[..k + 1] == before + group[..k] + [group[k]];
          PrefixRejected(s, before + group[..k + 1], group[k + 1..]);
          assert before + group == before + group[..k + 1] + group[k + 1..];
          GroupedPrefix(s.groups, g + 1);
          var rest := GroupedRest(s.groups, g + 1);
          PrefixRejected(s, Grouped(s.groups[..g + 1]), rest);
          ok := false;
          return;
        }
        Pushed(listed, group[k]);
        listed := listed + [group[k]];
      }
      assert group[..|group|] == group;
    }
    assert s.groups[..|s.groups|] == s.groups;
    ok := true;
  }

  lemma NextRejected(s: Struct, names: seq<string>, x: string)
    requires !IsField(s, x) || x in names
    ensures !Listable(s, names + [x])
  {
    var all := names + [x];
    assert all[|names|] == x;
    assert x in all;
    if x in names {
      var i :| 0 <= i < |names| && names[i] == x;
      assert all[i] == all[|names|];
    }
  }

  lemma PrefixRejected(s: Struct, a: seq<string>, b: seq<string>)
    requires !Listable(s, a)
    ensures !Listable(s, a + b)
  {
    assert forall i :: 0 <= i < |a| ==> (a + b)[i] == a[i];
    assert forall x :: x in a ==> x in a + b;
  }

  lemma {:induction false} GroupedRest(groups: seq<seq<string>>, g: nat) returns (rest: seq<string>)
    requires g <= |groups|
    decreases |groups| - g
    ensures Grouped(groups) == Grouped(groups[..g]) + rest
  {
    if g == |groups| {
      assert groups[..g] == groups;
      rest := [];
    } else {
      assert groups[..g + 1][..g] == groups[..g];
      rest := GroupedRest(groups, g + 1);
      rest := groups[g] + rest;
    }
  }

  lemma GroupedPrefix(groups: seq<seq<string>>, g: nat)
    requires 0 < g <= |groups|
    ensures Grouped(groups[..g]) == Grouped(groups[..g - 1]) + groups[g - 1]
  {
    assert groups[..g][..g - 1] == groups[..g - 1];
  }

  /** `validateContextGroups`, after the structs are ordered: one pass gives every struct its
      exact answer. */
  method ValidateContextGroups(file: File, order: seq<Name>) returns (ok: bool, summaries: map<Name, bool>)
    requires WellTyped(file) && IsOrdered(GraphOf(file), order)
    ensures ok <==> forall n :: n in file ==> GroupsFit(file, file[n])
    ensures ok ==> Summarised(file, file.Keys, summaries)
  {
    hide NeedsContext, GroupsFit, NoRepeats, Summarised, Closed, Dependencies, AnyFieldNeeds, FieldNeeds;
    summaries := map[];
    ghost var done := {};
    assert Summarised(file, {}, map[]) by { NoSummaries(file); }
    for k := 0 to |order|
      invariant done == Elements(order[..k]) && Summarised(file, done, summaries)
      invariant forall n :: n in done ==> n in file && GroupsFit(file, file[n])
    {
      var name := order[k];
      assert name in GraphOf(file) && GraphOf(file)[name] <= done;
      var s := file[name];
      EarlierTargets(file, name, done);
      var needs, hasContext := FieldsNeeding(file, s, done, summaries);
      ok := CheckGroups(file, s, needs, hasContext);
      if !ok {
        return;
      }
      NeedsByField(file, name);
      SummaryAdded(file, done, summaries, name, hasContext);
      summaries := summaries[name := hasContext];
      done := done + {name};
      assert order[..k + 1] == order[..k] + [name];
    }
    assert order[..|order|] == order;
    assert GraphOf(file).Keys == file.Keys;
    ok := true;
  }

  lemma NoSummaries(file: File)
    ensures Summarised(file, {}, map[])
  {
  }

  lemma SummaryAdded(file: File, done: set<Name>, summaries: map<Name, bool>, n: Name, hasContext: bool)
    requires Summarised(file, done, summaries) && n in file && (hasContext <==> NeedsContext(file, n))
    ensures Summarised(file, done + {n}, summaries[n := hasContext])
  {
    hide NeedsContext;
  }

  lemma EarlierTargets(file: File, n: Name, done: set<Name>)
    requires n in file && Dependencies(file[n].fields) <= done
    ensures forall i :: 0 <= i < |file[n].fields| && file[n].fields[i].fieldType.Reference? ==>
      file[n].fields[i].fieldType.target in done
  {
    forall i | 0 <= i < |file[n].fields| && file[n].fields[i].fieldType.Reference?
      ensures file[n].fields[i].fieldType.target in done
    {
      ReferenceIsDependency(file[n].fields, i);
    }
  }
}
