/**
 Code that the IDL compiler emits, as a list of instructions. The generators append
 lines to a string; `Plug` puts such lines before the code that is still to come.
 */
module GeneratedCode {

  datatype Code<I> = Done | Line(head: I, tail: Code<I>)

  function Plug<I>(lines: seq<I>, rest: Code<I>): Code<I> {
    if lines == [] then rest else Line(lines[0], Plug(lines[1..], rest))
  }

  function Size<I>(code: Code<I>): nat {
    match code
    case Done => 0
    case Line(_, tail) => 1 + Size(tail)
  }

  /** Appended lines run before what follows them. */
  lemma {:induction false} PlugAppend<I>(a: seq<I>, b: seq<I>, rest: Code<I>)
    ensures Plug(a + b, rest) == Plug(a, Plug(b, rest))
  {
    if a == [] {
      assert a + b == b;
    } else {
      assert (a + b)[1..] == a[1..] + b;
      PlugAppend(a[1..], b, rest);
    }
  }

  lemma PlugOne<I>(a: seq<I>, x: I, rest: Code<I>)
    ensures Plug(a + [x], rest) == Plug(a, Line(x, rest))
  {
    PlugAppend(a, [x], rest);
  }

  lemma PlugTwo<I>(a: seq<I>, x: I, y: I, rest: Code<I>)
    ensures Plug(a + [x, y], rest) == Plug(a, Line(x, Line(y, rest)))
  {
    assert a + [x, y] == (a + [x]) + [y];
    PlugOne(a + [x], y, rest);
    PlugOne(a, x, Line(y, rest));
  }
}
