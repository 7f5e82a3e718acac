/**
 The code that the IDL compiler emits to print a struct with the array layout, the
 generator that emits it, and what running it prints.
 */
module ArrayLayoutPrinter {
  import opened ArrayLayout
  import opened GeneratedCode

  /** One emitted line; each opener has a matching `End`. */
  datatype Instr =
    | WriteToken(token: Token)
    | WriteValue(field: nat)
    | SetLast(n: nat)
    | DoOnce
    | MarkIfPresent(field: nat)
    | BreakIfAbsent(field: nat)
    | MarkIfChanged(field: nat)
    | IfLastAbove(n: nat)
    | IfPresent(field: nat)
    | Else
    | End

  datatype State = State(output: seq<Token>, last: nat)

  /** The code after the `Else` or `End` that closes the current block. */
  function Skip(code: Code<Instr>, level: nat): (r: Code<Instr>)
    ensures Size(r) <= Size(code)
  {
    match code
    case Done => Done
    case Line(i, rest) =>
      match i
      case DoOnce => Skip(rest, level + 1)
      case IfLastAbove(_) => Skip(rest, level + 1)
      case IfPresent(_) => Skip(rest, level + 1)
      case Else => if level == 0 then rest else Skip(rest, level)
      case End => if level == 0 then rest else Skip(rest, level - 1)
      case _ => Skip(rest, level)
  }

  function SlotAt(v: Object, i: nat): Slot {
    if i < |v| then v[i] else Absent
  }

  function Run(code: Code<Instr>, fields: Fields, v: Object, s: State): State
    decreases Size(code)
  {
    match code
    case Done => s
    case Line(i, rest) =>
      match i
      case WriteToken(t) => Run(rest, fields, v, s.(output := s.output + [t]))
      case WriteValue(f) => Run(rest, fields, v, s.(output := s.output + [Element(SlotAt(v, f))]))
      case SetLast(n) => Run(rest, fields, v, s.(last := n))
      case DoOnce => Run(rest, fields, v, s)
      case MarkIfPresent(f) => Run(rest, fields, v, if SlotAt(v, f).Present? then s.(last := f + 1) else s)
      case BreakIfAbsent(f) => Run(if SlotAt(v, f).Present? then rest else Skip(rest, 0), fields, v, s)
      case MarkIfChanged(f) =>
        Run(rest, fields, v, if f < |fields| && SlotAt(v, f) != FreshSlot(fields[f]) then s.(last := f + 1) else s)
      case IfLastAbove(n) => Run(if s.last > n then rest else Skip(rest, 0), fields, v, s)
      case IfPresent(f) => Run(if SlotAt(v, f).Present? then rest else Skip(rest, 0), fields, v, s)
      case Else => Run(Skip(rest, 0), fields, v, s)
      case End => Run(rest, fields, v, s)
  }

  // ---------- the emitted code ----------

  predicate HasBarrier(fields: Fields, i: nat)
    requires i <= |fields|
    decreases |fields| - i
  {
    i < |fields| && (fields[i] == Optional(Deny) || HasBarrier(fields, i + 1))
  }

  function MarkLines(k: Kind, i: nat): seq<Instr> {
    if k == Optional(Deny) then [MarkIfPresent(i), BreakIfAbsent(i)]
    else if k.Optional? then [MarkIfPresent(i)]
    else if k.WithDefault? then [MarkIfChanged(i)]
    else []
  }

  function MarkCode(fields: Fields, i: nat, rest: Code<Instr>): Code<Instr>
    requires i <= |fields|
    decreases |fields| - i
  {
    if i == |fields| then rest else Plug(MarkLines(fields[i], i), MarkCode(fields, i + 1, rest))
  }

  function MandatoryCode(fields: Fields, i: nat, first: nat, rest: Code<Instr>): Code<Instr>
    requires i <= first <= |fields|
    decreases first - i
  {
    if i == first then rest
    else
      var next := Line(WriteValue(i), MandatoryCode(fields, i + 1, first, rest));
      if i > 0 then Line(WriteToken(Comma), next) else next
  }

  /** One optional or defaulted element. */
  function ElementCode(k: Kind, i: nat, rest: Code<Instr>): Code<Instr> {
    if k.Optional? then Line(IfPresent(i), Line(WriteValue(i), Line(Else, Line(WriteToken(Null), Line(End, rest)))))
    else Line(WriteValue(i), rest)
  }

  function TrailingCode(fields: Fields, i: nat, rest: Code<Instr>): Code<Instr>
    requires i <= |fields|
    decreases |fields| - i
  {
    if i == |fields| then rest
    else
      var element := ElementCode(fields[i], i, Line(End, TrailingCode(fields, i + 1, rest)));
      Line(IfLastAbove(i), if i > 0 then Line(WriteToken(Comma), element) else element)
  }

  function ValueCode(fields: Fields): Code<Instr> {
    var first := FirstTrailing(fields, 0);
    MandatoryCode(fields, 0, first, TrailingCode(fields, first, Line(WriteToken(Close), Done)))
  }

  function PrinterCode(fields: Fields): Code<Instr> {
    var first := FirstTrailing(fields, 0);
    var values := ValueCode(fields);
    Line(WriteToken(Open),
         if first == |fields| then values
         else Line(SetLast(first),
                   if HasBarrier(fields, first) then Line(DoOnce, MarkCode(fields, first, Line(End, values)))
                   else MarkCode(fields, first, values)))
  }

  // ---------- the generator ----------

  method FindFirstTrailing(fields: Fields) returns (first: nat)
    ensures first == FirstTrailing(fields, 0)
  {
    first := 0;
    while first < |fields|
      invariant first <= |fields| && FirstTrailing(fields, 0) == FirstTrailing(fields, first)
    {
      if IsTrailing(fields[first]) {
        return;
      }
      first := first + 1;
    }
  }

  method AnyBarrier(fields: Fields, first: nat) returns (any: bool)
    requires first <= |fields|
    ensures any == HasBarrier(fields, first)
  {
    any := false;
    for i := first to |fields|
      invariant HasBarrier(fields, first) == HasBarrier(fields, i)
    {
      if fields[i] == Optional(Deny) {
        return true;
      }
    }
  }

  /** `generateArrayLayoutSerializeBody`, with the brackets its caller writes. */
  method GeneratePrinter(fields: Fields) returns (code: seq<Instr>)
    ensures Plug(code, Done) == PrinterCode(fields)
  {
    hide MarkLines, HasBarrier, FirstTrailing;
    code := [WriteToken(Open)];
    ghost var whole := PrinterCode(fields);
    ghost var values := ValueCode(fields);
    ghost var closing: Code<Instr> := Line(WriteToken(Close), Done);
    var first := FindFirstTrailing(fields);
    if first < |fields| {
      var any := AnyBarrier(fields, first);
      PlugOne(code, SetLast(first), if any then Line(DoOnce, MarkCode(fields, first, Line(End, values)))
        else MarkCode(fields, first, values));
      code := code + [SetLast(first)];
      ghost var after := if any then Line(End, values) else values;
      if any {
        PlugOne(code, DoOnce, MarkCode(fields, first, after));
        code := code + [DoOnce];
      }
      for i := first to |fields|
        invariant Plug(code, MarkCode(fields, i, after)) == whole
      {
        PlugAppend(code, MarkLines(fields[i], i), MarkCode(fields, i + 1, after));
        code := code + MarkLines(fields[i], i);
      }
      if any {
        PlugOne(code, End, values);
        code := code + [End];
      }
    }
    assert Plug(code, values) == whole;
    for i := 0 to first
      invariant Plug(code, MandatoryCode(fields, i, first, TrailingCode(fields, first, closing))) == whole
    {
      ghost var rest := MandatoryCode(fields, i + 1, first, TrailingCode(fields, first, closing));
      if i > 0 {
        PlugOne(code, WriteToken(Comma), Line(WriteValue(i), rest));
        code := code + [WriteToken(Comma)];
      }
      PlugOne(code, WriteValue(i), rest);
      code := code + [WriteValue(i)];
    }
    for i := first to |fields|
      invariant Plug(code, TrailingCode(fields, i, closing)) == whole
    {
      ghost var rest: Code<Instr> := Line(End, TrailingCode(fields, i + 1, closing));
      ghost var element := ElementCode(fields[i], i, rest);
      PlugOne(code, IfLastAbove(i), if i > 0 then Line(WriteToken(Comma), element) else element);
      code := code + [IfLastAbove(i)];
      if i > 0 {
        PlugOne(code, WriteToken(Comma), element);
        code := code + [WriteToken(Comma)];
      }
      code := EmitElement(code, fields[i], i, rest);
      PlugOne(code, End, TrailingCode(fields, i + 1, closing));
      code := code + [End];
    }
    PlugOne(code, WriteToken(Close), Done);
    code := code + [WriteToken(Close)];
  }

  /** `emitArrayLayoutOptionalValue` for an optional field, `emitArrayLayoutValue` otherwise. */
  method EmitElement(before: seq<Instr>, k: Kind, i: nat, ghost rest: Code<Instr>) returns (code: seq<Instr>)
    ensures Plug(code, rest) == Plug(before, ElementCode(k, i, rest))
  {
    if k.Optional? {
      PlugTwo(before, IfPresent(i), WriteValue(i), Line(Else, Line(WriteToken(Null), Line(End, rest))));
      code := before + [IfPresent(i), WriteValue(i)];
      PlugTwo(code, Else, WriteToken(Null), Line(End, rest));
      code := code + [Else, WriteToken(Null)];
      PlugOne(code, End, rest);
      code := code + [End];
    } else {
      PlugOne(before, WriteValue(i), rest);
      code := before + [WriteValue(i)];
    }
  }

  // ---------- running it ----------

  /** The tokens after `i` of `n` elements. */
  predicate IsPartial(output: seq<Token>, v: Object, i: nat) {
    && i <= |v| && |output| == (if i == 0 then 1 else 2 * i)
    && output[0] == Open
    && (forall j :: 0 <= j < i ==> output[2 * j + 1] == Element(v[j]))
    && (forall j :: 1 <= j < i ==> output[2 * j] == Comma)
  }

  lemma PartialNext(output: seq<Token>, v: Object, i: nat)
    requires IsPartial(output, v, i) && i < |v|
    ensures IsPartial(if i > 0 then output + [Comma] + [Element(v[i])] else output + [Element(v[i])], v, i + 1)
  {
  }

  lemma PartialDone(output: seq<Token>, v: Object, n: nat)
    requires IsPartial(output, v, n)
    ensures IsPrinted(output + [Close], v, n)
  {
  }

  lemma {:induction false} SkipMarks(fields: Fields, i: nat, rest: Code<Instr>)
    requires i <= |fields|
    decreases |fields| - i
    ensures Skip(MarkCode(fields, i, Line(End, rest)), 0) == rest
  {
    if i < |fields| {
      SkipMarks(fields, i + 1, rest);
      MarkLinesAre(fields[i], i, MarkCode(fields, i + 1, Line(End, rest)));
    }
  }

  lemma MarkLinesAre(k: Kind, i: nat, rest: Code<Instr>)
    ensures Plug(MarkLines(k, i), rest) ==
              if k == Optional(Deny) then Line(MarkIfPresent(i), Line(BreakIfAbsent(i), rest))
              else if k.Optional? then Line(MarkIfPresent(i), rest)
              else if k.WithDefault? then Line(MarkIfChanged(i), rest)
              else rest
  {
    PlugTwo([], MarkIfPresent(i), BreakIfAbsent(i), rest);
    assert [] + [MarkIfPresent(i), BreakIfAbsent(i)] == [MarkIfPresent(i), BreakIfAbsent(i)];
  }

  /** The marking code leaves the number of elements to print, whether or not it breaks. */
  lemma {:induction false} RunMarks(fields: Fields, v: Object, i: nat, once: bool, rest: Code<Instr>, s: State)
    requires Fits(fields, v) && ValidOrder(fields) && i <= |fields|
    requires i < |fields| ==> IsTrailing(fields[i])
    requires HasBarrier(fields, i) ==> once
    decreases |fields| - i
    ensures Run(MarkCode(fields, i, if once then Line(End, rest) else rest), fields, v, s)
         == Run(rest, fields, v, s.(last := LastFrom(fields, v, i, s.last)))
  {
    hide MarkLines;
    if i < |fields| {
      var after := if once then Line(End, rest) else rest;
      var next := MarkCode(fields, i + 1, after);
      MarkLinesAre(fields[i], i, next);
      var t := if IsSignificant(fields[i], v[i]) then s.(last := i + 1) else s;
      assert i + 1 < |fields| ==> IsTrailing(fields[i + 1]);
      if IsBarrier(fields[i], v[i]) {
        SkipMarks(fields, i + 1, rest);
        RunBarrier(fields, v, i, rest, next, s);
      } else {
        RunMark(fields, v, i, next, s);
        RunMarks(fields, v, i + 1, once, rest, t);
      }
    }
  }

  lemma RunBarrier(fields: Fields, v: Object, i: nat, rest: Code<Instr>, next: Code<Instr>, s: State)
    requires |v| == |fields| && i < |fields| && IsBarrier(fields[i], v[i]) && Skip(next, 0) == rest
    ensures Run(Line(MarkIfPresent(i), Line(BreakIfAbsent(i), next)), fields, v, s) == Run(rest, fields, v, s)
  {
    assert Run(Line(BreakIfAbsent(i), next), fields, v, s) == Run(rest, fields, v, s);
  }

  lemma RunMark(fields: Fields, v: Object, i: nat, next: Code<Instr>, s: State)
    requires Fits(fields, v) && i < |fields| && IsTrailing(fields[i]) && !IsBarrier(fields[i], v[i])
    ensures Run(Plug(MarkLines(fields[i], i), next), fields, v, s)
         == Run(next, fields, v, if IsSignificant(fields[i], v[i]) then s.(last := i + 1) else s)
  {
    MarkLinesAre(fields[i], i, next);
    var t := if v[i].Present? then s.(last := i + 1) else s;
    assert fields[i] == Optional(Deny) ==> Run(Line(BreakIfAbsent(i), next), fields, v, t) == Run(next, fields, v, t);
  }

  lemma {:induction false} RunMandatory(fields: Fields, v: Object, i: nat, first: nat, rest: Code<Instr>, s: State)
    returns (t: State)
    requires Fits(fields, v) && i <= first <= |fields| && IsPartial(s.output, v, i)
    decreases first - i
    ensures t.last == s.last && IsPartial(t.output, v, first)
    ensures Run(MandatoryCode(fields, i, first, rest), fields, v, s) == Run(rest, fields, v, t)
  {
    t := s;
    if i < first {
      PartialNext(s.output, v, i);
      var middle := if i > 0 then s.(output := s.output + [Comma]) else s;
      var next := middle.(output := middle.output + [Element(v[i])]);
      var after := MandatoryCode(fields, i + 1, first, rest);
      assert Run(Line(WriteValue(i), after), fields, v, middle) == Run(after, fields, v, next);
      t := RunMandatory(fields, v, i + 1, first, rest, next);
    }
  }

  lemma RunElement(fields: Fields, v: Object, i: nat, rest: Code<Instr>, s: State)
    requires Fits(fields, v) && i < |fields|
    ensures Run(ElementCode(fields[i], i, rest), fields, v, s)
      == Run(rest, fields, v, s.(output := s.output + [Element(v[i])]))
  {
    var t := s.(output := s.output + [Element(v[i])]);
    if fields[i].Optional? {
      var orNull: Code<Instr> := Line(WriteToken(Null), Line(End, rest));
      if v[i].Present? {
        assert Skip(orNull, 0) == rest;
        assert Run(Line(Else, orNull), fields, v, t) == Run(rest, fields, v, t);
      } else {
        assert Skip(Line(WriteValue(i), Line(Else, orNull)), 0) == orNull;
        assert Run(Line(End, rest), fields, v, t) == Run(rest, fields, v, t);
      }
    }
  }

  lemma {:induction false} SkipElement(k: Kind, i: nat, rest: Code<Instr>)
    ensures Skip(ElementCode(k, i, Line(End, rest)), 0) == rest
  {
    var ends: Code<Instr> := Line(End, Line(End, rest));
    assert Skip(ends, 1) == rest;
    assert Skip(Line(WriteToken(Null), ends), 1) == rest;
    assert Skip(Line(WriteValue(i), Line(Else, Line(WriteToken(Null), ends))), 1) == rest;
  }

  lemma {:induction false} RunTrailing(fields: Fields, v: Object, i: nat, rest: Code<Instr>, s: State)
    returns (t: State)
    requires Fits(fields, v) && i <= |fields| && s.last <= |fields|
    requires IsPartial(s.output, v, if i <= s.last then i else s.last)
    decreases |fields| - i
    ensures IsPartial(t.output, v, s.last) || i > s.last
    ensures i > s.last ==> t == s
    ensures Run(TrailingCode(fields, i, rest), fields, v, s) == Run(rest, fields, v, t)
  {
    t := s;
    if i < |fields| {
      var after := TrailingCode(fields, i + 1, rest);
      var element := ElementCode(fields[i], i, Line(End, after));
      if s.last > i {
        PartialNext(s.output, v, i);
        var middle := if i > 0 then s.(output := s.output + [Comma]) else s;
        var next := middle.(output := middle.output + [Element(v[i])]);
        RunElement(fields, v, i, Line(End, after), middle);
        assert Run(Line(End, after), fields, v, next) == Run(after, fields, v, next);
        t := RunTrailing(fields, v, i + 1, rest, next);
      } else {
        SkipElement(fields[i], i, after);
        assert Skip(if i > 0 then Line(WriteToken(Comma), element) else element, 0) == after;
        t := RunTrailing(fields, v, i + 1, rest, s);
      }
    }
  }

  /** Running the emitted code prints the brackets, the counted elements in field order and
      exactly one comma between neighbours. */
  lemma PrinterPrints(fields: Fields, v: Object)
    requires Fits(fields, v) && ValidOrder(fields)
    ensures IsPrinted(Run(PrinterCode(fields), fields, v, State([], 0)).output, v, Count(fields, v))
  {
    hide Run, MarkCode, MandatoryCode, TrailingCode, IsPartial, IsPrinted, HasBarrier;
    var first, n := FirstTrailing(fields, 0), Count(fields, v);
    var closing: Code<Instr> := Line(WriteToken(Close), Done);
    var values := ValueCode(fields);
    CountMeans(fields, v);
    RunStart(fields, v);
    NoElements(v);
    var last := if first == |fields| then 0 else n;
    var s := State([Open], last);
    var t := RunMandatory(fields, v, 0, first, TrailingCode(fields, first, closing), s);
    if first == |fields| {
      NoTrailing(fields, closing);
      RunClose(fields, v, t);
      PartialDone(t.output, v, first);
    } else {
      var u := RunTrailing(fields, v, first, closing, t);
      RunClose(fields, v, u);
      PartialDone(u.output, v, n);
    }
  }

  lemma NoElements(v: Object)
    ensures IsPartial([Open], v, 0)
  {
  }

  lemma NoTrailing(fields: Fields, rest: Code<Instr>)
    ensures TrailingCode(fields, |fields|, rest) == rest
  {
  }

  lemma RunClose(fields: Fields, v: Object, s: State)
    ensures Run(Line(WriteToken(Close), Done), fields, v, s).output == s.output + [Close]
  {
  }

  lemma RunStart(fields: Fields, v: Object)
    requires Fits(fields, v) && ValidOrder(fields)
    ensures Run(PrinterCode(fields), fields, v, State([], 0))
         == Run(ValueCode(fields), fields, v, State([Open], if FirstTrailing(fields, 0) == |fields| then 0
           else Count(fields, v)))
  {
    hide MarkCode, MandatoryCode, TrailingCode, ValueCode, HasBarrier;
    var first := FirstTrailing(fields, 0);
    var values := ValueCode(fields);
    assert [] + [Open] == [Open];
    if first < |fields| {
      var s := State([Open], first);
      var once := HasBarrier(fields, first);
      RunMarks(fields, v, first, once, values, s);
      var marks := MarkCode(fields, first, if once then Line(End, values) else values);
      assert Run(Line(DoOnce, marks), fields, v, s) == Run(marks, fields, v, s);
      assert Run(Line(SetLast(first), if once then Line(DoOnce, marks) else marks), fields, v, State([Open], 0))
        == Run(marks, fields, v, s);
    }
  }

  /** What is printed is emitted once and run for every value. */
  method Print(fields: Fields, v: Object) returns (tokens: seq<Token>)
    requires Fits(fields, v) && ValidOrder(fields)
    ensures IsPrinted(tokens, v, Count(fields, v))
  {
    hide Run, PrinterCode, IsPrinted;
    var code := GeneratePrinter(fields);
    tokens := Run(Plug(code, Done), fields, v, State([], 0)).output;
    PrinterPrints(fields, v);
  }
}
