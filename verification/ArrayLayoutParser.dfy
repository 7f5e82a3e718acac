/**
 The code that the IDL compiler emits to parse a struct with the array layout, the
 generator that emits it, and what running it on printed tokens gives.
 */
module ArrayLayoutParser {
  import opened ArrayLayout
  import opened GeneratedCode
  import Printer = ArrayLayoutPrinter

  /** One emitted line; each opener has a matching `End`. */
  datatype Instr =
    | ExpectOpen
    | IfNotClose
    | ExpectCommaElse
    | IfComma
    | ReadField(field: nat)
    | SkipElements
    | SkipRest
    | End
    | ExpectClose
    | ReturnFound(mask: set<nat>)

  datatype State = State(pos: nat, obj: Object, found: set<nat>, valid: bool)

  datatype Parsed = Failed | Accepted(obj: Object, pos: nat)

  /** The code after the `End` that closes the current block. */
  function Skip(code: Code<Instr>, level: nat): (r: Code<Instr>)
    ensures Size(r) <= Size(code)
  {
    match code
    case Done => Done
    case Line(i, rest) =>
      match i
      case IfNotClose => Skip(rest, level + 1)
      case ExpectCommaElse => Skip(rest, level + 1)
      case IfComma => Skip(rest, level + 1)
      case End => if level == 0 then rest else Skip(rest, level - 1)
      case _ => Skip(rest, level)
  }

  predicate At(input: seq<Token>, pos: nat, t: Token) {
    pos < |input| && input[pos] == t
  }

  predicate ValueAt(input: seq<Token>, pos: nat) {
    pos < |input| && input[pos].Value?
  }

  predicate IsRequired(k: Kind) {
    k == Mandatory || k == Optional(Presence)
  }

  /** The emitted code of one field, `generateParseField`. */
  function Read(k: Kind, i: nat, input: seq<Token>, s: State): State {
    if k.Optional? && At(input, s.pos, Null) then
      var t := s.(pos := s.pos + 1, valid := s.valid && k.nullIn != Deny);
      if IsRequired(k) && t.valid then t.(found := t.found + {i}) else t
    else if ValueAt(input, s.pos) && i < |s.obj| then
      var t := s.(pos := s.pos + 1, obj := s.obj[i := Present(input[s.pos].text)]);
      if IsRequired(k) && (k.Mandatory? || t.valid) then t.(found := t.found + {i}) else t
    else s.(valid := false)
  }

  /** The loop over unknown trailing elements. */
  function ReadRest(input: seq<Token>, s: State): State
    decreases |input| - s.pos
  {
    if !At(input, s.pos, Comma) then s
    else if ValueAt(input, s.pos + 1) || At(input, s.pos + 1, Null) then ReadRest(input, s.(pos := s.pos + 2))
    else s.(pos := s.pos + 1, valid := false)
  }

  function Run(code: Code<Instr>, fields: Fields, input: seq<Token>, s: State): Parsed
    decreases Size(code)
  {
    match code
    case Done => Failed
    case Line(i, rest) =>
      match i
      case ExpectOpen => if At(input, s.pos, Open) then Run(rest, fields, input, s.(pos := s.pos + 1)) else Failed
      case IfNotClose => Run(if s.pos < |input| && input[s.pos] != Close then rest else Skip(rest, 0), fields, input, s)
      case ExpectCommaElse =>
        if At(input, s.pos, Comma) then Run(rest, fields, input, s.(pos := s.pos + 1))
        else Run(Skip(rest, 0), fields, input, s.(valid := false))
      case IfComma =>
        if At(input, s.pos, Comma) then Run(rest, fields, input, s.(pos := s.pos + 1))
        else Run(Skip(rest, 0), fields, input, s)
      case ReadField(f) =>
        Run(rest, fields, input, if f < |fields| then Read(fields[f], f, input, s) else s)
      case SkipElements =>
        if ValueAt(input, s.pos) || At(input, s.pos, Null) then
          var t := ReadRest(input, s.(pos := s.pos + 1));
          if t.valid then Run(rest, fields, input, t) else Failed
        else Failed
      case SkipRest => Run(rest, fields, input, ReadRest(input, s))
      case End => Run(rest, fields, input, s)
      case ExpectClose => if At(input, s.pos, Close) then Run(rest, fields, input, s.(pos := s.pos + 1)) else Failed
      case ReturnFound(mask) => if s.valid && mask <= s.found then Accepted(s.obj, s.pos) else Failed
  }

  // ---------- the emitted code ----------

  function RequiredMask(fields: Fields): set<nat> {
    set i: nat | i < |fields| && IsRequired(fields[i])
  }

  function Ends(n: nat, rest: Code<Instr>): Code<Instr> {
    if n == 0 then rest else Line(End, Ends(n - 1, rest))
  }

  function Final(fields: Fields): Code<Instr> {
    Line(ExpectClose, Line(ReturnFound(RequiredMask(fields)), Done))
  }

  /** From trailing field `i` on, inside `depth` open blocks. */
  function TrailingCode(fields: Fields, skipUnknown: bool, i: nat, depth: nat): Code<Instr>
    requires i <= |fields|
    decreases |fields| - i
  {
    if i == |fields| then
      var closing := Ends(depth, Final(fields));
      if skipUnknown then Line(SkipRest, closing) else closing
    else if i == 0 then Line(ReadField(i), TrailingCode(fields, skipUnknown, i + 1, depth))
    else Line(IfComma, Line(ReadField(i), TrailingCode(fields, skipUnknown, i + 1, depth + 1)))
  }

  /** From mandatory field `i` on, inside `depth` open blocks. */
  function MandatoryCode(fields: Fields, skipUnknown: bool, i: nat, first: nat, depth: nat): Code<Instr>
    requires i <= first <= |fields|
    decreases first - i
  {
    if i == first then TrailingCode(fields, skipUnknown, first, depth)
    else if i == 0 then Line(ReadField(i), MandatoryCode(fields, skipUnknown, i + 1, first, depth))
    else Line(ExpectCommaElse, Line(ReadField(i), MandatoryCode(fields, skipUnknown, i + 1, first, depth + 1)))
  }

  function ParserCode(fields: Fields, skipUnknown: bool): Code<Instr> {
    if fields == [] then
      Line(ExpectOpen, if skipUnknown then Line(IfNotClose, Line(SkipElements, Line(End, Final(fields))))
        else Final(fields))
    else
      Line(ExpectOpen, Line(IfNotClose, MandatoryCode(fields, skipUnknown, 0, FirstTrailing(fields, 0), 1)))
  }

  // ---------- the generator ----------

  /** The required fields, each with its bit. */
  method FindRequired(fields: Fields) returns (mask: set<nat>)
    ensures mask == RequiredMask(fields)
  {
    mask := {};
    for i := 0 to |fields|
      invariant mask == set j: nat | j < i && IsRequired(fields[j])
    {
      if IsRequired(fields[i]) {
        mask := mask + {i};
      }
    }
  }

  /** `generateArrayLayoutParseBody`: the number of blocks it closes at the end is counted
      while it opens them. */
  method GenerateParser(fields: Fields, skipUnknown: bool) returns (code: seq<Instr>)
    ensures Plug(code, Done) == ParserCode(fields, skipUnknown)
  {
    hide RequiredMask, FirstTrailing;
    ghost var whole, final := ParserCode(fields, skipUnknown), Final(fields);
    var mask := FindRequired(fields);
    code := [ExpectOpen];
    assert Plug(code, Done) == Line(ExpectOpen, Done);
    if fields == [] {
      if skipUnknown {
        PlugTwo(code, IfNotClose, SkipElements, Line(End, final));
        code := code + [IfNotClose, SkipElements];
        PlugOne(code, End, final);
        code := code + [End];
      }
      code := EmitFinal(code, mask, fields);
      return;
    }
    var first := Printer.FindFirstTrailing(fields);
    PlugOne(code, IfNotClose, MandatoryCode(fields, skipUnknown, 0, first, 1));
    code := code + [IfNotClose];
    var depth := 1;
    for i := 0 to first
      invariant Plug(code, MandatoryCode(fields, skipUnknown, i, first, depth)) == whole && depth >= 1
    {
      ghost var rest := MandatoryCode(fields, skipUnknown, i + 1, first, if i > 0 then depth + 1 else depth);
      if i > 0 {
        PlugOne(code, ExpectCommaElse, Line(ReadField(i), rest));
        code := code + [ExpectCommaElse];
        depth := depth + 1;
      }
      PlugOne(code, ReadField(i), rest);
      code := code + [ReadField(i)];
    }
    var trailingDepth := depth;
    for i := first to |fields|
      invariant Plug(code, TrailingCode(fields, skipUnknown, i, depth)) == whole && depth >= trailingDepth >= 1
    {
      ghost var rest := TrailingCode(fields, skipUnknown, i + 1, if i > 0 then depth + 1 else depth);
      if i != 0 {
        PlugOne(code, IfComma, Line(ReadField(i), rest));
        code := code + [IfComma];
        depth := depth + 1;
      }
      PlugOne(code, ReadField(i), rest);
      code := code + [ReadField(i)];
    }
    if skipUnknown {
      PlugOne(code, SkipRest, Ends(depth, final));
      code := code + [SkipRest];
    }
    var i := depth;
    while i > trailingDepth
      invariant trailingDepth <= i && Plug(code, Ends(i, final)) == whole
    {
      PlugOne(code, End, Ends(i - 1, final));
      code := code + [End];
      i := i - 1;
    }
    i := trailingDepth;
    while i > 1
      invariant 1 <= i && Plug(code, Ends(i, final)) == whole
    {
      PlugOne(code, End, Ends(i - 1, final));
      code := code + [End];
      i := i - 1;
    }
    PlugOne(code, End, final);
    assert Ends(1, final) == Line(End, Ends(0, final));
    code := code + [End];
    code := EmitFinal(code, mask, fields);
  }

  method EmitFinal(before: seq<Instr>, mask: set<nat>, fields: Fields) returns (code: seq<Instr>)
    requires mask == RequiredMask(fields)
    ensures Plug(code, Done) == Plug(before, Final(fields))
  {
    PlugTwo(before, ExpectClose, ReturnFound(mask), Done);
    code := before + [ExpectClose, ReturnFound(mask)];
  }

  // ---------- the emitted blocks close ----------

  lemma {:induction false} SkipEnds(n: nat, level: nat, rest: Code<Instr>)
    requires level < n
    ensures Skip(Ends(n, rest), level) == Ends(n - 1 - level, rest)
  {
    if level > 0 {
      SkipEnds(n - 1, level - 1, rest);
    }
  }

  /** From anywhere in the trailing code, leaving an open block lands on the closing ends. */
  lemma {:induction false} SkipTrailing(fields: Fields, skipUnknown: bool, i: nat, depth: nat, level: nat)
    requires i <= |fields| && level < depth
    decreases |fields| - i
    ensures Skip(TrailingCode(fields, skipUnknown, i, depth), level) == Ends(depth - 1 - level, Final(fields))
  {
    if i == |fields| {
      SkipEnds(depth, level, Final(fields));
    } else if i == 0 {
      SkipTrailing(fields, skipUnknown, i + 1, depth, level);
    } else {
      SkipTrailing(fields, skipUnknown, i + 1, depth + 1, level + 1);
    }
  }

  lemma {:induction false} SkipMandatory(fields: Fields, skipUnknown: bool, i: nat, first: nat, depth: nat, level: nat)
    requires i <= first <= |fields| && level < depth
    decreases first - i
    ensures Skip(MandatoryCode(fields, skipUnknown, i, first, depth), level) == Ends(depth - 1 - level, Final(fields))
  {
    if i == first {
      SkipTrailing(fields, skipUnknown, i, depth, level);
    } else if i == 0 {
      SkipMandatory(fields, skipUnknown, i + 1, first, depth, level);
    } else {
      SkipMandatory(fields, skipUnknown, i + 1, first, depth + 1, level + 1);
    }
  }

  lemma {:induction false} RunEnds(n: nat, rest: Code<Instr>, fields: Fields, input: seq<Token>, s: State)
    ensures Run(Ends(n, rest), fields, input, s) == Run(rest, fields, input, s)
  {
    if n > 0 {
      RunEnds(n - 1, rest, fields, input, s);
    }
  }

  // ---------- reading what was printed ----------

  function PosOf(i: nat): nat {
    if i == 0 then 1 else 2 * i
  }

  /** After `i` printed elements: those fields are read, the others untouched. */
  predicate HasRead(fields: Fields, v: Object, i: nat, s: State) {
    && |v| == |fields| && i <= |fields| && |s.obj| == |fields| && s.valid && s.pos == PosOf(i)
    && (forall j :: 0 <= j < |fields| ==> s.obj[j] == if j < i then v[j] else FreshSlot(fields[j]))
    && s.found == set j: nat | j < i && IsRequired(fields[j])
  }

  /** Every printed element is one its field accepts. */
  predicate Acceptable(fields: Fields, v: Object, n: nat) {
    Fits(fields, v) && n <= |v| && forall i :: 0 <= i < n ==> !IsBarrier(fields[i], v[i])
  }

  lemma ReadNext(fields: Fields, v: Object, n: nat, input: seq<Token>, i: nat, s: State)
    requires Acceptable(fields, v, n) && IsPrinted(input, v, n) && i < n
    requires HasRead(fields, v, i, s)
    ensures HasRead(fields, v, i + 1, Read(fields[i], i, input, s.(pos := 2 * i + 1)))
  {
    var t := s.(pos := 2 * i + 1);
    var r := Read(fields[i], i, input, t);
    assert input[t.pos] == Element(v[i]);
    assert !IsBarrier(fields[i], v[i]);
    FoundNext(fields, i);
    assert IsRequired(fields[i]) ==> r.found == s.found + {i};
    assert !IsRequired(fields[i]) ==> r.found == s.found;
  }

  lemma FoundNext(fields: Fields, i: nat)
    requires i < |fields|
    ensures (set j: nat | j < i + 1 && IsRequired(fields[j]))
         == (set j: nat | j < i && IsRequired(fields[j])) + if IsRequired(fields[i]) then {i} else {}
  {
  }

  lemma {:induction false} RunTrailing(fields: Fields, skipUnknown: bool, v: Object, n: nat, input: seq<Token>, i: nat,
      depth: nat, s: State) returns (t: State)
    requires Acceptable(fields, v, n) && IsPrinted(input, v, n) && 0 < n
    requires i <= n && depth >= 1
    requires HasRead(fields, v, i, s)
    decreases |fields| - i
    ensures HasRead(fields, v, n, t)
    ensures Run(TrailingCode(fields, skipUnknown, i, depth), fields, input, s) == Run(Final(fields), fields, input, t)
  {
    hide IsPrinted, Acceptable, HasRead, Read, Final, Ends;
    CommaOrClose(fields, v, n, input, i, s);
    t := s;
    if i == |fields| {
      assert Run(TrailingCode(fields, skipUnknown, i, depth), fields, input, s)
        == Run(Ends(depth, Final(fields)), fields, input, s);
      RunEnds(depth, Final(fields), fields, input, s);
    } else if i < n {
      ReadNext(fields, v, n, input, i, s);
      var r := Read(fields[i], i, input, s.(pos := 2 * i + 1));
      var next := TrailingCode(fields, skipUnknown, i + 1, if i == 0 then depth else depth + 1);
      assert Run(Line(ReadField(i), next), fields, input, s.(pos := 2 * i + 1)) == Run(next, fields, input, r);
      t := RunTrailing(fields, skipUnknown, v, n, input, i + 1, if i == 0 then depth else depth + 1, r);
    } else {
      SkipTrailing(fields, skipUnknown, i + 1, depth + 1, 0);
      assert Run(TrailingCode(fields, skipUnknown, i, depth), fields, input, s)
        == Run(Ends(depth, Final(fields)), fields, input, s);
      RunEnds(depth, Final(fields), fields, input, s);
    }
  }

  lemma CommaOrClose(fields: Fields, v: Object, n: nat, input: seq<Token>, i: nat, s: State)
    requires Acceptable(fields, v, n) && IsPrinted(input, v, n) && 0 < n && i <= n
    requires HasRead(fields, v, i, s)
    ensures s.pos == PosOf(i) && i <= |fields| && n <= |fields|
    ensures 0 < i < n ==> At(input, s.pos, Comma)
    ensures i == n ==> At(input, s.pos, Close)
  {
  }

  lemma {:induction false} RunMandatory(fields: Fields, skipUnknown: bool, v: Object, n: nat, input: seq<Token>,
      i: nat, first: nat, depth: nat, s: State) returns (t: State)
    requires Acceptable(fields, v, n) && IsPrinted(input, v, n) && 0 < n
    requires i <= first <= n && depth >= 1
    requires HasRead(fields, v, i, s)
    decreases first - i
    ensures n <= |fields| && HasRead(fields, v, n, t)
    ensures Run(MandatoryCode(fields, skipUnknown, i, first, depth), fields, input, s)
      == Run(Final(fields), fields, input, t)
  {
    hide IsPrinted, Acceptable, HasRead, Read, Final, Ends;
    CommaOrClose(fields, v, n, input, i, s);
    if i == first {
      t := RunTrailing(fields, skipUnknown, v, n, input, i, depth, s);
    } else {
      ReadNext(fields, v, n, input, i, s);
      var r := Read(fields[i], i, input, s.(pos := 2 * i + 1));
      var next := MandatoryCode(fields, skipUnknown, i + 1, first, if i == 0 then depth else depth + 1);
      assert Run(Line(ReadField(i), next), fields, input, s.(pos := 2 * i + 1)) == Run(next, fields, input, r);
      t := RunMandatory(fields, skipUnknown, v, n, input, i + 1, first, if i == 0 then depth else depth + 1, r);
    }
  }

  /** The parser's answer on `n` printed elements: accepted with the whole input consumed,
      unless a field whose presence is required was not printed. */
  lemma FinalAnswer(fields: Fields, v: Object, n: nat, input: seq<Token>, s: State)
    requires Acceptable(fields, v, n) && IsPrinted(input, v, n) && HasRead(fields, v, n, s)
    ensures Run(Final(fields), fields, input, s)
         == if (forall i :: n <= i < |fields| ==> !IsRequired(fields[i])) then Accepted(s.obj, |input|) else Failed
  {
    hide IsPrinted, Acceptable, RequiredMask, IsRequired;
    var mask := RequiredMask(fields);
    ClosedAfter(fields, v, n, input, s);
    MaskIsFound(fields, n, s.found);
    assert Run(Final(fields), fields, input, s)
      == Run(Line(ReturnFound(mask), Done), fields, input, s.(pos := s.pos + 1));
  }

  lemma ClosedAfter(fields: Fields, v: Object, n: nat, input: seq<Token>, s: State)
    requires IsPrinted(input, v, n) && HasRead(fields, v, n, s)
    ensures At(input, s.pos, Close) && s.pos + 1 == |input|
  {
  }

  lemma MaskIsFound(fields: Fields, n: nat, found: set<nat>)
    requires n <= |fields| && found == set j: nat | j < n && IsRequired(fields[j])
    ensures RequiredMask(fields) <= found <==> forall i :: n <= i < |fields| ==> !IsRequired(fields[i])
  {
    hide IsRequired;
    forall i: nat | n <= i < |fields|
      ensures i in RequiredMask(fields) <==> IsRequired(fields[i])
    {
    }
  }

  /** Parsing a printed value: it is accepted, with nothing left over, exactly when every
      field whose presence is required was printed, and gives the value up to its first
      barrier. */
  lemma ParserReads(fields: Fields, skipUnknown: bool, v: Object, input: seq<Token>)
    requires Fits(fields, v) && ValidOrder(fields) && IsPrinted(input, v, Count(fields, v))
    ensures Run(ParserCode(fields, skipUnknown), fields, input, State(0, Fresh(fields), {}, true))
         == if (forall i :: Count(fields, v) <= i < |fields| ==> fields[i] != Optional(Presence))
            then Accepted(Truncated(fields, v), |input|) else Failed
  {
    hide MandatoryCode, Stop, Count, FirstTrailing;
    var n, first := Count(fields, v), FirstTrailing(fields, 0);
    CountMeans(fields, v);
    var s := State(1, Fresh(fields), {}, true);
    assert HasRead(fields, v, 0, s);
    var t := s;
    if n > 0 {
      assert input[1] == Element(v[0]);
      t := RunMandatory(fields, skipUnknown, v, n, input, 0, first, 1, s);
      RunOpened(fields, skipUnknown, input, s, true);
    } else {
      assert input[1] == Close;
      SkipMandatory(fields, skipUnknown, 0, first, 1, 0);
      RunOpened(fields, skipUnknown, input, s, false);
    }
    assert Run(ParserCode(fields, skipUnknown), fields, input, State(0, Fresh(fields), {}, true))
      == Run(Final(fields), fields, input, t);
    assert forall i :: n <= i < |fields| ==> IsTrailing(fields[i]) by {
      TrailingFrom(fields, n);
    }
    FinalAnswer(fields, v, n, input, t);
    forall i | 0 <= i < |fields|
      ensures t.obj[i] == Truncated(fields, v)[i]
    {
      assert n <= i < Stop(fields, v, 0) ==> !IsSignificant(fields[i], v[i]);
    }
    assert t.obj == Truncated(fields, v);
  }

  lemma TrailingFrom(fields: Fields, n: nat)
    requires ValidOrder(fields) && FirstTrailing(fields, 0) <= n
    ensures forall i :: n <= i < |fields| ==> IsTrailing(fields[i])
  {
  }

  lemma RunOpened(fields: Fields, skipUnknown: bool, input: seq<Token>, s: State, some: bool)
    requires s.pos == 1 < |input| && input[0] == Open && (input[1] != Close <==> some) && (some ==> fields != [])
    requires !some ==> Skip(MandatoryCode(fields, skipUnknown, 0, FirstTrailing(fields, 0), 1), 0) == Final(fields)
    ensures Run(ParserCode(fields, skipUnknown), fields, input, s.(pos := 0))
         == if some then Run(MandatoryCode(fields, skipUnknown, 0, FirstTrailing(fields, 0), 1), fields, input, s)
            else Run(Final(fields), fields, input, s)
  {
    hide MandatoryCode, Final, FirstTrailing;
    var empty := if skipUnknown then Line(IfNotClose, Line(SkipElements, Line(End, Final(fields)))) else Final(fields);
    var code := if fields == [] then empty
                else Line(IfNotClose, MandatoryCode(fields, skipUnknown, 0, FirstTrailing(fields, 0), 1));
    assert Run(ParserCode(fields, skipUnknown), fields, input, s.(pos := 0)) == Run(code, fields, input, s);
    assert Skip(Line(SkipElements, Line(End, Final(fields))), 0) == Final(fields);
  }

  /** The generated parser's answer on the given input. */
  function Parse(fields: Fields, skipUnknown: bool, input: seq<Token>): Parsed {
    Run(ParserCode(fields, skipUnknown), fields, input, State(0, Fresh(fields), {}, true))
  }

  /** Nothing from the first barrier on differs from what a field holds before reading, and
      every field whose presence is required is printed. */
  predicate Survives(fields: Fields, v: Object)
    requires |v| == |fields|
  {
    && (forall i :: Stop(fields, v, 0) <= i < |v| ==> !IsSignificant(fields[i], v[i]))
    && (forall i :: Count(fields, v) <= i < |fields| ==> fields[i] != Optional(Presence))
  }

  /** The parser gives the printed value back if and only if the value survives. */
  lemma RoundTripIsExact(fields: Fields, skipUnknown: bool, v: Object, input: seq<Token>)
    requires Fits(fields, v) && ValidOrder(fields) && IsPrinted(input, v, Count(fields, v))
    ensures Parse(fields, skipUnknown, input) == Accepted(v, |input|) <==> Survives(fields, v)
  {
    hide Run, ParserCode, IsPrinted, Truncated, Stop, Count;
    ParserReads(fields, skipUnknown, v, input);
    TruncationIsExact(fields, v);
  }

  /** A value that is accepted but comes back with a field lost: an absent field that denies
      null, followed by a present one. */
  lemma LosesAfterBarrier(skipUnknown: bool, text: string)
    ensures var fields, v := [Optional(Deny), Optional(Allow)], [Absent, Present(text)];
      && Fits(fields, v) && ValidOrder(fields) && IsPrinted([Open, Close], v, Count(fields, v))
      && !Survives(fields, v)
      && Parse(fields, skipUnknown, [Open, Close]) == Accepted([Absent, Absent], 2)
  {
    hide Run, ParserCode;
    var fields, v := [Optional(Deny), Optional(Allow)], [Absent, Present(text)];
    assert Stop(fields, v, 0) == FirstTrailing(fields, 0) == 0 && IsSignificant(fields[1], v[1]);
    assert Truncated(fields, v) == [Absent, Absent];
    ParserReads(fields, skipUnknown, v, [Open, Close]);
  }

  /** A value whose printed form is refused: nothing is significant, so the field whose
      presence is required is not printed. */
  lemma RefusedWithoutPresence(skipUnknown: bool)
    ensures var fields, v := [Optional(Presence)], [Absent];
      && Fits(fields, v) && ValidOrder(fields) && IsPrinted([Open, Close], v, Count(fields, v))
      && Parse(fields, skipUnknown, [Open, Close]) == Failed
  {
    hide Run, ParserCode;
    var fields, v := [Optional(Presence)], [Absent];
    assert FirstTrailing(fields, 0) == 0 && LastFrom(fields, v, 1, 0) == 0;
    assert fields[0] == Optional(Presence);
    ParserReads(fields, skipUnknown, v, [Open, Close]);
  }

  /** Emitting both programs and running them one after the other. */
  method RoundTrip(fields: Fields, skipUnknown: bool, v: Object) returns (tokens: seq<Token>, parsed: Parsed)
    requires Fits(fields, v) && ValidOrder(fields)
    ensures IsPrinted(tokens, v, Count(fields, v))
    ensures parsed == if (forall i :: Count(fields, v) <= i < |fields| ==> fields[i] != Optional(Presence))
                      then Accepted(Truncated(fields, v), |tokens|) else Failed
    ensures parsed == Accepted(v, |tokens|) <==> Survives(fields, v)
  {
    hide Run, ParserCode, IsPrinted, Truncated, Count, Survives;
    tokens := Printer.Print(fields, v);
    var code := GenerateParser(fields, skipUnknown);
    parsed := Run(Plug(code, Done), fields, tokens, State(0, Fresh(fields), {}, true));
    ParserReads(fields, skipUnknown, v, tokens);
    RoundTripIsExact(fields, skipUnknown, v, tokens);
  }

  /** Without a field whose presence is required, whatever is printed is accepted. */
  lemma AlwaysAccepted(fields: Fields, skipUnknown: bool, v: Object, input: seq<Token>)
    requires Fits(fields, v) && ValidOrder(fields) && IsPrinted(input, v, Count(fields, v))
    requires forall i :: 0 <= i < |fields| ==> fields[i] != Optional(Presence)
    ensures Run(ParserCode(fields, skipUnknown), fields, input, State(0, Fresh(fields), {}, true))
      == Accepted(Truncated(fields, v), |input|)
  {
    hide Run, ParserCode, IsPrinted, Truncated, Count;
    ParserReads(fields, skipUnknown, v, input);
  }
}
