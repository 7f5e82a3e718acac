/**
 Commas between the members of a printed JSON object. The generator knows at generation
 time whether something was printed before, as long as only unconditional members came
 first; from the first conditional one on it leaves the question to a run-time flag.
 */
module MemberCommas {
  import opened GeneratedCode

  // ---------- the fields ----------

  datatype Kind =
    | Required
    | HasDefault
    | OptionalObject
    | Array
    | OptionalArray
    | FixedArray
    | OptionalFixedArray
    | Variant
    | OptionalVariant
    | Map
    | OptionalMap

  /** `Static` is a string, number or boolean; the other two read the clock. */
  datatype Default = NoDefault | Static | Now | NowOffset

  datatype EmptyOut = Omit | NullOut

  /** What a field's type refers to. A derived type is always a declared one, because that is
      how type resolution finds it; a referenced struct may need context. */
  datatype FieldType = Plain | UserType | Derived | Reference(needsContext: bool)

  datatype Field = Field(kind: Kind, default_: Default, emptyOut: EmptyOut, fieldType: FieldType)

  datatype Capture = Free | Direct | Inline | Nested

  predicate IsOptional(k: Kind) {
    k in {OptionalObject, OptionalArray, OptionalFixedArray, OptionalVariant, OptionalMap}
  }

  predicate EmptyOutIsNull(f: Field) {
    IsOptional(f.kind) && f.emptyOut == NullOut
  }

  predicate HasStaticDefault(f: Field) {
    f.kind == HasDefault && f.default_ != Now && f.default_ != NowOffset
  }

  /** `isConditionallySerialized`, which decides where the run-time flag starts. */
  predicate IsConditional(f: Field) {
    (IsOptional(f.kind) && !EmptyOutIsNull(f)) || HasStaticDefault(f)
  }

  /** How `analyzeContext` captures a field. It never chooses `Inline`. */
  function CaptureOf(f: Field): Capture {
    match f.fieldType
    case Plain => Free
    case UserType => Free
    case Derived => Direct
    case Reference(needsContext) => if needsContext then Nested else Free
  }

  /** What the emitters write for a field: nothing, its key and value, or both inside a
      test of a condition on the value at run time. */
  datatype Form = Nothing | Always | IfShown

  function OptionalForm(f: Field): Form {
    if EmptyOutIsNull(f) then Always else IfShown
  }

  /** The cases of the context serializer for `Direct` and `Nested`. */
  function ContextForm(f: Field): Form {
    match f.kind
    case Required => Always
    case HasDefault => Always
    case Array => Always
    case FixedArray => Always
    case OptionalObject => OptionalForm(f)
    case OptionalArray => OptionalForm(f)
    case OptionalFixedArray => OptionalForm(f)
    case Variant => Nothing
    case OptionalVariant => Nothing
    case Map => Nothing
    case OptionalMap => Nothing
  }

  /** The cases of `emitDerivedInlineSerialize`: a default that can be written in C++ is
      compared with the value. */
  function InlineForm(f: Field): Form {
    match f.kind
    case Required => Always
    case HasDefault => if f.default_ == NoDefault then Always else IfShown
    case Array => Always
    case FixedArray => Always
    case OptionalObject => OptionalForm(f)
    case OptionalArray => OptionalForm(f)
    case OptionalFixedArray => OptionalForm(f)
    case Variant => Nothing
    case OptionalVariant => Nothing
    case Map => Nothing
    case OptionalMap => Nothing
  }

  /** The cases of `generateSerializeField`: a derived field gets an empty string. */
  function FreeForm(f: Field): Form {
    if f.fieldType.Derived? then Always
    else
      match f.kind
      case Required => Always
      case HasDefault => Always
      case Array => Always
      case FixedArray => Always
      case Map => Always
      case Variant => Always
      case OptionalObject => OptionalForm(f)
      case OptionalArray => OptionalForm(f)
      case OptionalFixedArray => OptionalForm(f)
      case OptionalMap => OptionalForm(f)
      case OptionalVariant => OptionalForm(f)
  }

  function FormOf(f: Field, c: Capture): Form {
    match c
    case Direct => ContextForm(f)
    case Nested => ContextForm(f)
    case Inline => InlineForm(f)
    case Free => FreeForm(f)
  }

  /** The two parts of the generator agree on a field except in one case: inline, a default
      that reads the clock is tested at run time but counts as unconditional. */
  lemma GuardIsMarked(f: Field, c: Capture)
    ensures (FormOf(f, c) == IfShown ==> IsConditional(f))
       <==> !(c == Inline && f.kind == HasDefault && f.default_ in {Now, NowOffset})
    ensures FormOf(f, CaptureOf(f)) == IfShown ==> IsConditional(f)
  {
  }

  /** What the comma scheme depends on: `conditional` is what `IsConditional` says, `form`
      what is emitted. */
  datatype Member = Member(conditional: bool, form: Form)

  function MemberOf(f: Field): Member {
    Member(IsConditional(f), FormOf(f, CaptureOf(f)))
  }

  function MembersOf(fields: seq<Field>): (r: seq<Member>)
    ensures |r| == |fields|
  {
    seq(|fields|, i requires 0 <= i < |fields| => MemberOf(fields[i]))
  }

  datatype Token = Comma | Entry(member: nat)

  datatype Instr =
    | DeclareFlag
    | IfPresent(member: nat)
    | CommaIfNeeded
    | SetFlag
    | WriteComma
    | WriteEntry(member: nat)
    | End

  datatype State = State(output: seq<Token>, needComma: bool)

  function Skip(code: Code<Instr>): (r: Code<Instr>)
    ensures Size(r) <= Size(code)
  {
    match code
    case Done => Done
    case Line(i, rest) => if i == End then rest else Skip(rest)
  }

  function IsPresent(presence: seq<bool>, i: nat): bool {
    i < |presence| && presence[i]
  }

  function Run(code: Code<Instr>, presence: seq<bool>, s: State): State
    decreases Size(code)
  {
    match code
    case Done => s
    case Line(i, rest) =>
      match i
      case DeclareFlag => Run(rest, presence, s.(needComma := false))
      case IfPresent(m) => Run(if IsPresent(presence, m) then rest else Skip(rest), presence, s)
      case CommaIfNeeded => Run(rest, presence, if s.needComma then s.(output := s.output + [Comma]) else s)
      case SetFlag => Run(rest, presence, s.(needComma := true))
      case WriteComma => Run(rest, presence, s.(output := s.output + [Comma]))
      case WriteEntry(m) => Run(rest, presence, s.(output := s.output + [Entry(m)]))
      case End => Run(rest, presence, s)
  }

  // ---------- the emitted code ----------

  /** `emitKey` with the value after it, in the mode reached so far. */
  function EntryLines(m: nat, first: bool, runtime: bool): seq<Instr> {
    if runtime then [CommaIfNeeded, SetFlag, WriteEntry(m)]
    else if first then [WriteEntry(m)]
    else [WriteComma, WriteEntry(m)]
  }

  function MemberLines(m: Member, i: nat, first: bool, runtime: bool): seq<Instr> {
    match m.form
    case Nothing => []
    case Always => EntryLines(i, first, runtime)
    case IfShown => [IfPresent(i)] + EntryLines(i, first, runtime) + [End]
  }

  function StartsFlag(m: Member, first: bool, runtime: bool): bool {
    !runtime && first && m.conditional
  }

  /** The code for all members from `i` on. */
  function CodeFrom(members: seq<Member>, i: nat, first: bool, runtime: bool): Code<Instr>
    requires i <= |members|
    decreases |members| - i
  {
    if i == |members| then Done
    else
      var m := members[i];
      var now := runtime || StartsFlag(m, first, runtime);
      var stillFirst := first && (now || m.form == Nothing);
      var rest := Plug(MemberLines(m, i, first, now), CodeFrom(members, i + 1, stillFirst, now));
      if StartsFlag(m, first, runtime) then Line(DeclareFlag, rest) else rest
  }

  /** The loop of `generateContextSerializeBody`, which the plain serializer shares. */
  method Generate(fields: seq<Field>) returns (code: seq<Instr>)
    ensures Plug(code, Done) == CodeFrom(MembersOf(fields), 0, true, false)
  {
    hide MemberLines, MemberOf;
    ghost var members := MembersOf(fields);
    code := [];
    var first, runtime := true, false;
    for i := 0 to |fields|
      invariant Plug(code, CodeFrom(members, i, first, runtime)) == CodeFrom(members, 0, true, false)
    {
      var m := MemberOf(fields[i]);
      ghost var now := runtime || StartsFlag(m, first, runtime);
      ghost var rest := CodeFrom(members, i + 1, first && (now || m.form == Nothing), now);
      if !runtime && first && m.conditional {
        PlugOne(code, DeclareFlag, Plug(MemberLines(m, i, first, now), rest));
        code := code + [DeclareFlag];
        runtime := true;
      }
      PlugAppend(code, MemberLines(m, i, first, runtime), rest);
      code := code + MemberLines(m, i, first, runtime);
      if !runtime && m.form != Nothing {
        first := false;
      }
    }
  }

  // ---------- what it prints ----------

  predicate IsShown(m: Member, present: bool) {
    m.form == Always || (m.form == IfShown && present)
  }

  /** The members that are printed, in order. */
  function Shown(members: seq<Member>, presence: seq<bool>, n: nat): seq<nat>
    requires n <= |members|
  {
    if n == 0 then []
    else Shown(members, presence, n - 1) + if IsShown(members[n - 1], IsPresent(presence, n - 1)) then [n - 1] else []
  }

  /** The entries in order, one comma between neighbours, and nothing else. */
  predicate IsSeparated(output: seq<Token>, shown: seq<nat>) {
    && |output| == (if shown == [] then 0 else 2 * |shown| - 1)
    && (forall j :: 0 <= j < |shown| ==> output[2 * j] == Entry(shown[j]))
    && (forall j :: 0 <= j < |shown| - 1 ==> output[2 * j + 1] == Comma)
  }

  lemma SeparatedNext(output: seq<Token>, shown: seq<nat>, m: nat)
    requires IsSeparated(output, shown)
    ensures IsSeparated(if shown == [] then output + [Entry(m)] else output + [Comma] + [Entry(m)], shown + [m])
    ensures output == [] <==> shown == []
  {
  }

  /** In static mode nothing was printed exactly while `first` holds; in run-time mode the
      flag says whether something was. */
  predicate Agrees(s: State, shown: seq<nat>, first: bool, runtime: bool) {
    && IsSeparated(s.output, shown)
    && if runtime then s.needComma == (shown != []) else first == (shown == [])
  }

  lemma MemberLinesAre(m: Member, i: nat, first: bool, runtime: bool, rest: Code<Instr>)
    ensures var entry := if m.form == IfShown then Line(End, rest) else rest;
      var lines := if runtime then Line(CommaIfNeeded, Line(SetFlag, Line(WriteEntry(i), entry)))
                   else if first then Line(WriteEntry(i), entry)
                   else Line(WriteComma, Line(WriteEntry(i), entry));
      Plug(MemberLines(m, i, first, runtime), rest)
      == if m.form == Nothing then rest else if m.form == IfShown then Line(IfPresent(i), lines) else lines
  {
    var entry := if m.form == IfShown then Line(End, rest) else rest;
    var key := EntryLines(i, first, runtime);
    PlugTwo([], CommaIfNeeded, SetFlag, Line(WriteEntry(i), entry));
    PlugOne([CommaIfNeeded, SetFlag], WriteEntry(i), entry);
    assert [] + [CommaIfNeeded, SetFlag] == [CommaIfNeeded, SetFlag];
    assert [CommaIfNeeded, SetFlag] + [WriteEntry(i)] == [CommaIfNeeded, SetFlag, WriteEntry(i)];
    PlugTwo([], WriteComma, WriteEntry(i), entry);
    assert [] + [WriteComma, WriteEntry(i)] == [WriteComma, WriteEntry(i)];
    assert [WriteEntry(i)][1..] == [];
    PlugAppend([IfPresent(i)] + key, [End], rest);
    PlugAppend([IfPresent(i)], key, Line(End, rest));
    assert [IfPresent(i)][1..] == [] && [End][1..] == [];
  }

  /** One member's code keeps the agreement. */
  lemma RunMember(m: Member, i: nat, presence: seq<bool>, first: bool, runtime: bool, rest: Code<Instr>, s: State,
      shown: seq<nat>) returns (t: State)
    requires Agrees(s, shown, first, runtime) && (m.form == IfShown && first ==> runtime)
    ensures Run(Plug(MemberLines(m, i, first, runtime), rest), presence, s) == Run(rest, presence, t)
    ensures Agrees(t, shown + (if IsShown(m, IsPresent(presence, i)) then [i] else []), first
      && (runtime || m.form == Nothing), runtime)
  {
    hide MemberLines, IsSeparated;
    MemberLinesAre(m, i, first, runtime, rest);
    SeparatedNext(s.output, shown, i);
    t := s;
    if IsShown(m, IsPresent(presence, i)) {
      var comma := if shown == [] then s else s.(output := s.output + [Comma]);
      t := comma.(output := comma.output + [Entry(i)], needComma := runtime || s.needComma);
      var entry := if m.form == IfShown then Line(End, rest) else rest;
      assert Run(entry, presence, t) == Run(rest, presence, t);
      var flagged := comma.(needComma := runtime || s.needComma);
      assert Run(Line(WriteEntry(i), entry), presence, flagged) == Run(entry, presence, t);
      assert runtime ==> Run(Line(SetFlag, Line(WriteEntry(i), entry)), presence, comma) == Run(entry, presence, t);
    } else {
      assert shown + [] == shown;
      if m.form != Nothing {
        SkipEntry(i, first, runtime, rest);
      }
    }
  }

  lemma SkipEntry(i: nat, first: bool, runtime: bool, rest: Code<Instr>)
    ensures Skip(if runtime then Line(CommaIfNeeded, Line(SetFlag, Line(WriteEntry(i), Line(End, rest))))
                 else if first then Line(WriteEntry(i), Line(End, rest))
                 else Line(WriteComma, Line(WriteEntry(i), Line(End, rest)))) == rest
  {
    assert Skip(Line(WriteEntry(i), Line(End, rest))) == rest;
    assert Skip(Line(SetFlag, Line(WriteEntry(i), Line(End, rest)))) == rest;
  }

  // ---------- when the commas come out right ----------

  function Output(members: seq<Member>, presence: seq<bool>): seq<Token> {
    Run(CodeFrom(members, 0, true, false), presence, State([], false)).output
  }

  predicate IsRight(members: seq<Member>, presence: seq<bool>) {
    IsSeparated(Output(members, presence), Shown(members, presence, |members|))
  }

  /** Nothing before `i` was printed, nor has it started the flag. */
  predicate IsBlank(members: seq<Member>, i: nat) {
    i <= |members| && forall k :: 0 <= k < i ==> members[k] == Member(false, Nothing)
  }

  /** The generator takes `i` for the unconditional first entry, but it may be left out. */
  predicate IsExposed(members: seq<Member>, i: nat) {
    i < |members| && IsBlank(members, i) && members[i] == Member(false, IfShown)
  }

  predicate PrintsLater(members: seq<Member>, i: nat) {
    exists j: nat :: i < j < |members| && members[j].form != Nothing
  }

  lemma {:induction false} RunFrom(members: seq<Member>, presence: seq<bool>, i: nat,
                                   first: bool, runtime: bool, s: State)
    requires i <= |members| && (first && !runtime ==> IsBlank(members, i))
    requires Agrees(s, Shown(members, presence, i), first, runtime)
    requires forall k :: i <= k < |members| && IsExposed(members, k) ==> !PrintsLater(members, k)
    decreases |members| - i
    ensures IsSeparated(Run(CodeFrom(members, i, first, runtime), presence, s).output,
                        Shown(members, presence, |members|))
  {
    hide MemberLines, IsSeparated, IsShown;
    if i < |members| {
      var m := members[i];
      var starts := StartsFlag(m, first, runtime);
      var now := runtime || starts;
      if m == Member(false, IfShown) && first && !now {
        assert IsExposed(members, i);
        RunLast(members, presence, i, s);
      } else {
        var begun := if starts then s.(needComma := false) else s;
        var rest := CodeFrom(members, i + 1, first && (now || m.form == Nothing), now);
        var t := RunMember(m, i, presence, first, now, rest, begun, Shown(members, presence, i));
        RunFrom(members, presence, i + 1, first && (now || m.form == Nothing), now, t);
      }
    }
  }

  /** With nothing printed after it, an exposed member does no harm. */
  lemma RunLast(members: seq<Member>, presence: seq<bool>, i: nat, s: State)
    requires IsExposed(members, i) && !PrintsLater(members, i)
    requires Agrees(s, Shown(members, presence, i), true, false)
    ensures IsSeparated(Run(CodeFrom(members, i, true, false), presence, s).output,
                        Shown(members, presence, |members|))
  {
    hide MemberLines;
    var rest := CodeFrom(members, i + 1, false, false);
    MemberLinesAre(members[i], i, true, false, rest);
    SkipEntry(i, true, false, rest);
    var t := if IsPresent(presence, i) then s.(output := s.output + [Entry(i)]) else s;
    assert Run(Line(WriteEntry(i), Line(End, rest)), presence, s)
        == Run(rest, presence, s.(output := s.output + [Entry(i)]));
    RunNothing(members, presence, i + 1, t);
  }

  lemma {:induction false} RunNothing(members: seq<Member>, presence: seq<bool>, i: nat, s: State)
    requires i <= |members| && forall k :: i <= k < |members| ==> members[k].form == Nothing
    decreases |members| - i
    ensures Run(CodeFrom(members, i, false, false), presence, s) == s
    ensures Shown(members, presence, |members|) == Shown(members, presence, i)
  {
    if i < |members| {
      RunNothing(members, presence, i + 1, s);
    }
  }

  lemma {:induction false} OutputGrows(code: Code<Instr>, presence: seq<bool>, s: State)
    ensures s.output <= Run(code, presence, s).output
    decreases Size(code)
  {
    match code
    case Done =>
    case Line(i, rest) =>
      match i
      case DeclareFlag => OutputGrows(rest, presence, s.(needComma := false));
      case IfPresent(m) => OutputGrows(if IsPresent(presence, m) then rest else Skip(rest), presence, s);
      case CommaIfNeeded =>
        OutputGrows(rest, presence, if s.needComma then s.(output := s.output + [Comma]) else s);
      case SetFlag => OutputGrows(rest, presence, s.(needComma := true));
      case WriteComma => OutputGrows(rest, presence, s.(output := s.output + [Comma]));
      case WriteEntry(m) => OutputGrows(rest, presence, s.(output := s.output + [Entry(m)]));
      case End => OutputGrows(rest, presence, s);
  }

  /** A member's code after the generator has counted an earlier entry. */
  lemma RunCounted(m: Member, i: nat, presence: seq<bool>, rest: Code<Instr>, s: State)
    ensures Run(Plug(MemberLines(m, i, false, false), rest), presence, s)
         == Run(rest, presence, if IsShown(m, IsPresent(presence, i))
                                then s.(output := s.output + [Comma] + [Entry(i)]) else s)
  {
    hide MemberLines;
    MemberLinesAre(m, i, false, false, rest);
    SkipEntry(i, false, false, rest);
    var entry := if m.form == IfShown then Line(End, rest) else rest;
    var comma := s.(output := s.output + [Comma]);
    assert Run(Line(WriteEntry(i), entry), presence, comma)
        == Run(entry, presence, s.(output := s.output + [Comma] + [Entry(i)]));
  }

  /** Then the next member that is printed puts a comma first. */
  lemma {:induction false} RunCounting(members: seq<Member>, presence: seq<bool>, i: nat, j: nat, s: State)
    requires i <= j < |members| && IsShown(members[j], IsPresent(presence, j))
    decreases j - i
    ensures s.output + [Comma] <= Run(CodeFrom(members, i, false, false), presence, s).output
  {
    hide MemberLines, IsShown;
    var rest := CodeFrom(members, i + 1, false, false);
    RunCounted(members[i], i, presence, rest, s);
    if IsShown(members[i], IsPresent(presence, i)) {
      var t := s.(output := s.output + [Comma] + [Entry(i)]);
      OutputGrows(rest, presence, t);
      assert s.output + [Comma] <= t.output;
    } else {
      RunCounting(members, presence, i + 1, j, s);
    }
  }

  lemma {:induction false} ShownHas(members: seq<Member>, presence: seq<bool>, n: nat, j: nat)
    requires j < n <= |members| && IsShown(members[j], IsPresent(presence, j))
    ensures j in Shown(members, presence, n)
  {
    if j < n - 1 {
      ShownHas(members, presence, n - 1, j);
    }
  }

  lemma {:induction false} RunBlank(members: seq<Member>, presence: seq<bool>, i: nat, k: nat, s: State)
    requires k <= i && IsBlank(members, i)
    decreases i - k
    ensures Run(CodeFrom(members, k, true, false), presence, s) == Run(CodeFrom(members, i, true, false), presence, s)
  {
    if k < i {
      RunBlank(members, presence, i, k + 1, s);
    }
  }

  /** An exposed member left out before a printed one: the output starts with a comma. */
  lemma ExposedBreaks(members: seq<Member>, presence: seq<bool>, i: nat, j: nat)
    requires IsExposed(members, i) && !IsPresent(presence, i)
    requires i < j < |members| && IsShown(members[j], IsPresent(presence, j))
    ensures [Comma] <= Output(members, presence) && !IsRight(members, presence)
  {
    hide MemberLines, IsShown;
    var s, rest := State([], false), CodeFrom(members, i + 1, false, false);
    RunBlank(members, presence, i, 0, s);
    MemberLinesAre(members[i], i, true, false, rest);
    SkipEntry(i, true, false, rest);
    RunCounting(members, presence, i + 1, j, s);
    assert [] + [Comma] == [Comma];
    ShownHas(members, presence, |members|, j);
    assert Output(members, presence)[2 * 0] == Comma;
  }

  /** For every list of members: the commas are right whatever is present, exactly when no
      exposed member has something printed after it. */
  lemma RightExactly(members: seq<Member>)
    ensures (forall presence :: IsRight(members, presence))
       <==> !exists i: nat :: IsExposed(members, i) && PrintsLater(members, i)
  {
    hide Run, CodeFrom;
    if i: nat :| IsExposed(members, i) && PrintsLater(members, i) {
      var j: nat :| i < j < |members| && members[j].form != Nothing;
      var presence := seq(|members|, k => k == j);
      ExposedBreaks(members, presence, i, j);
      assert !IsRight(members, presence);
    } else {
      forall presence: seq<bool>
        ensures IsRight(members, presence)
      {
        RunFrom(members, presence, 0, true, false, State([], false));
      }
    }
  }

  /** The emitters never leave a field exposed, so the commas are right for every struct and
      every value. */
  lemma NoFieldIsExposed(fields: seq<Field>, presence: seq<bool>)
    ensures IsRight(MembersOf(fields), presence)
  {
    var members := MembersOf(fields);
    forall i | 0 <= i < |members|
      ensures !IsExposed(members, i)
    {
      GuardIsMarked(fields[i], CaptureOf(fields[i]));
    }
    RightExactly(members);
  }

  /** Generating the serializer and running it: the members that have something to print come
      out in order with exactly one comma between them. */
  method Print(fields: seq<Field>, presence: seq<bool>) returns (output: seq<Token>)
    ensures IsSeparated(output, Shown(MembersOf(fields), presence, |fields|))
  {
    hide Run, CodeFrom, IsSeparated, Shown, MembersOf;
    var code := Generate(fields);
    output := Run(Plug(code, Done), presence, State([], false)).output;
    NoFieldIsExposed(fields, presence);
  }
}
