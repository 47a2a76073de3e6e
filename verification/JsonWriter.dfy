/** JSON values. A number is the text it is written as. */
module JsonTrees {
  import opened Bytes

  datatype List<T> = Nil | Cons(head: T, tail: List<T>)

  datatype Member = Member(name: seq<byte>, value: Value)

  datatype Value =
    | Null
    | False
    | True
    | Number(lexeme: seq<byte>)
    | String(chars: seq<byte>)
    | Array(elements: List<Value>)
    | Object(members: List<Member>)

  const NULL: seq<byte> := Ascii("null")
  const FALSE: seq<byte> := Ascii("false")
  const TRUE: seq<byte> := Ascii("true")
}

/** The text the streaming writer produces for a value. */
module JsonLayout {
  import opened Bytes
  import opened JsonTrees
  import opened JsonStrings

  const LINE_FEED: byte := 10
  const SPACE: byte := 0x20
  const COMMA: byte := 0x2c
  const COLON: byte := 0x3a
  const OPEN_ARRAY: byte := 0x5b
  const CLOSE_ARRAY: byte := 0x5d
  const OPEN_OBJECT: byte := 0x7b
  const CLOSE_OBJECT: byte := 0x7d

  datatype Style = Style(newline: bool, indent: bool)

  function Newline(st: Style): seq<byte> {
    if st.newline then [LINE_FEED] else []
  }

  function Blanks(n: nat): seq<byte> {
    if n == 0 then [] else [SPACE] + Blanks(n - 1)
  }

  function Indent(st: Style, level: nat): seq<byte> {
    if st.indent then Blanks(2 * level) else []
  }

  function Name(st: Style, name: seq<byte>): seq<byte> {
    if name == [] then []
    else Quoted(name) + [COLON] + if st.indent then [SPACE] else []
  }

  /** What comes before an item `level` deep: a comma unless it is the first,
      a line of its own unless it is outermost, and its name if it has one. */
  function Lead(st: Style, level: nat, first: bool, name: seq<byte>): seq<byte> {
    (if first then [] else [COMMA]) + (if level > 0 then Newline(st) else []) + Indent(st, level) + Name(st, name)
  }

  function Scalar(v: Value): seq<byte>
    requires !v.Array? && !v.Object?
  {
    match v
    case Null => NULL
    case False => FALSE
    case True => TRUE
    case Number(lexeme) => lexeme
    case String(chars) => Quoted(chars)
  }

  function ValueText(st: Style, v: Value, level: nat): seq<byte>
    decreases v, 1
  {
    match v
    case Array(es) => [OPEN_ARRAY] + ElementsText(st, es, level + 1, true) + Closing(st, level, CLOSE_ARRAY)
    case Object(ms) => [OPEN_OBJECT] + MembersText(st, ms, level + 1, true) + Closing(st, level, CLOSE_OBJECT)
    case _ => Scalar(v)
  }

  function Closing(st: Style, level: nat, bracket: byte): seq<byte> {
    Newline(st) + Indent(st, level) + [bracket]
  }

  function ElementsText(st: Style, es: List<Value>, level: nat, first: bool): seq<byte>
    decreases es, 0
  {
    match es
    case Nil => []
    case Cons(e, more) => Lead(st, level, first, []) + ValueText(st, e, level) + ElementsText(st, more, level, false)
  }

  function MembersText(st: Style, ms: List<Member>, level: nat, first: bool): seq<byte>
    decreases ms, 0
  {
    match ms
    case Nil => []
    case Cons(m, more) =>
      Lead(st, level, first, m.name) + ValueText(st, m.value, level) + MembersText(st, more, level, false)
  }
}

/** The streaming JSON writer. */
module JsonWriters {
  import opened Bytes
  import opened JsonTrees
  import opened JsonStrings
  import opened JsonLayout

  class Writer {
    // how many items each open block has so far; the outermost level first
    var stack: seq<nat>
    var output: seq<byte>
    var enableIndent: bool
    var enableNewline: bool

    constructor ()
      ensures stack == [0] && output == [] && Style() == JsonLayout.Style(true, true)
    {
      stack, output, enableIndent, enableNewline := [0], [], true, true;
    }

    function Style(): JsonLayout.Style
      reads this
    {
      JsonLayout.Style(enableNewline, enableIndent)
    }

    /** The stack once the innermost block has one more item. */
    function Counted(s: seq<nat>): seq<nat>
      requires s != []
    {
      s[..|s| - 1] + [s[|s| - 1] + 1]
    }

    method Print(s: seq<byte>)
      modifies this`output
      ensures output == old(output) + s
    {
      output := output + s;
    }

    method PrintNewline()
      modifies this`output
      ensures output == old(output) + Newline(Style())
    {
      if !enableNewline {
        assert output + [] == output;
        return;
      }
      Print([LINE_FEED]);
    }

    method PrintIndent()
      requires stack != []
      modifies this`output
      ensures output == old(output) + Indent(Style(), |stack| - 1)
    {
      assert output + [] == output;
      if !enableIndent {
        return;
      }
      var n := |stack| - 1;
      for i := 0 to n
        invariant output == old(output) + Blanks(2 * i)
      {
        Print([SPACE]);
        Print([SPACE]);
        BlanksMore(2 * i);
        ConcatAssociative(old(output), Blanks(2 * i), [SPACE]);
        BlanksMore(2 * i + 1);
        ConcatAssociative(old(output), Blanks(2 * i + 1), [SPACE]);
      }
    }

    lemma {:induction false} BlanksMore(n: nat)
      ensures Blanks(n + 1) == Blanks(n) + [SPACE]
    {
      if n > 0 {
        BlanksMore(n - 1);
        assert [SPACE] + Blanks(n - 1) + [SPACE] == [SPACE] + (Blanks(n - 1) + [SPACE]);
      } else {
        assert [SPACE] + [] == [] + [SPACE];
      }
    }

    method PrintString(s: seq<byte>)
      modifies this`output
      ensures output == old(output) + Quoted(s)
    {
      hide EscapeAll, Clean;
      ghost var before := output;
      var buf := EncodeJsonString(s);
      Print([QUOTE]);
      if buf != [] {
        Print(buf);
      } else {
        assert output + [] == output;
      }
      Print([QUOTE]);
      Join3(before, [QUOTE], buf, [QUOTE]);
    }

    method PrintName(name: seq<byte>)
      requires stack != []
      modifies this`output
      ensures output == old(output) + Lead(Style(), |stack| - 1, stack[|stack| - 1] == 0, name)
    {
      hide Quoted, Newline, Indent;
      ghost var before, st, level, first := output, Style(), |stack| - 1, stack[|stack| - 1] == 0;
      assert output + [] == output;
      if stack[|stack| - 1] > 0 {
        Print([COMMA]);
      }
      assert output == before + (if first then [] else [COMMA]);
      if |stack| > 1 {
        PrintNewline();
      } else {
        assert output + [] == output;
      }
      PrintIndent();
      ghost var led := output;
      assert led + [] == led;
      if name != [] {
        PrintString(name);
        Print([COLON]);
        if enableIndent {
          Print([SPACE]);
        } else {
          assert output + [] == output;
        }
        Join3(led, Quoted(name), [COLON], if st.indent then [SPACE] else []);
      }
      Join3(before, if first then [] else [COMMA], if level > 0 then Newline(st) else [], Indent(st, level));
      ConcatAssociative(before,
                        (if first then [] else [COMMA]) + (if level > 0 then Newline(st) else []) + Indent(st, level),
                        Name(st, name));
    }

    lemma Join3(s: seq<byte>, a: seq<byte>, b: seq<byte>, c: seq<byte>)
      ensures s + a + b + c == s + (a + b + c)
    {
    }

    /** Ends the line of an outermost value and starts afresh. */
    method Flush()
      requires stack != []
      modifies this`output, this`stack
      ensures stack == [0]
      ensures output == old(output) + if old(stack[0]) > 0 then Newline(Style()) else []
    {
      if stack[0] > 0 {
        PrintNewline();
      } else {
        assert output + [] == output;
      }
      stack := [0];
    }

    /** A value that is not a block. */
    method PrintValue(name: seq<byte>, v: Value)
      requires stack != [] && !v.Array? && !v.Object?
      modifies this`output, this`stack
      ensures output == old(output) + Lead(Style(), old(|stack|) - 1, old(stack[|stack| - 1]) == 0, name) + Scalar(v)
                        + if old(|stack|) == 1 then Newline(Style()) else []
      ensures stack == if old(|stack|) == 1 then [0] else Counted(old(stack))
    {
      hide Lead, Quoted;
      PrintName(name);
      if v.String? {
        PrintString(v.chars);
      } else {
        Print(if v.Number? then v.lexeme else if v.False? then FALSE else if v.True? then TRUE else NULL);
      }
      stack := Counted(stack);
      if |stack| == 1 {
        Flush();
      } else {
        assert output + [] == output;
      }
    }

    method StartBlock(name: seq<byte>, bracket: byte)
      requires stack != []
      modifies this`output, this`stack
      ensures output == old(output) + Lead(Style(), old(|stack|) - 1, old(stack[|stack| - 1]) == 0, name) + [bracket]
      ensures stack == old(stack) + [0]
    {
      hide Lead;
      PrintName(name);
      Print([bracket]);
      stack := stack + [0];
    }

    method EndBlock(bracket: byte)
      requires |stack| > 1
      modifies this`output, this`stack
      ensures output == old(output) + Closing(Style(), old(|stack|) - 2, bracket)
                        + if old(|stack|) == 2 then Newline(Style()) else []
      ensures stack == if old(|stack|) == 2 then [0] else Counted(old(stack)[..old(|stack|) - 1])
    {
      hide Newline, Indent;
      ghost var before := output;
      PrintNewline();
      stack := stack[..|stack| - 1];
      stack := Counted(stack);
      PrintIndent();
      Print([bracket]);
      Join3(before, Newline(Style()), Indent(Style(), |stack| - 1), [bracket]);
      if |stack| == 1 {
        Flush();
      } else {
        assert output + [] == output;
      }
    }
  }

  /** The stack after one more item in the innermost block; an outermost item
      leaves the writer as it was. */
  function AfterItem(s: seq<nat>): seq<nat>
    requires s != []
  {
    if |s| == 1 then [0] else s[..|s| - 1] + [s[|s| - 1] + 1]
  }

  /** The text of an item, with what sets it off from the one before. */
  function ItemText(st: JsonLayout.Style, s: seq<nat>, name: seq<byte>, v: Value): seq<byte>
    requires s != []
  {
    Lead(st, |s| - 1, s[|s| - 1] == 0, name) + ValueText(st, v, |s| - 1)
  }

  /** Writes a whole value, calling the writer block by block. */
  method WriteValue(w: Writer, name: seq<byte>, v: Value)
    requires w.stack != []
    modifies w`output, w`stack
    ensures w.output == old(w.output) + ItemText(w.Style(), old(w.stack), name, v)
                        + if old(|w.stack|) == 1 then Newline(w.Style()) else []
    ensures w.stack == AfterItem(old(w.stack))
    decreases v, 1
  {
    hide Lead, ElementsText, MembersText, Closing, Newline, ItemText, ValueText, Scalar;
    ghost var st, s, before := w.Style(), w.stack, w.output;
    ItemParts(st, s, name, v, before, if |s| == 1 then Newline(st) else []);
    if v.Array? {
      w.StartBlock(name, OPEN_ARRAY);
      WriteElements(w, v.elements);
      w.EndBlock(CLOSE_ARRAY);
      assert w.stack == AfterItem(s);
    } else if v.Object? {
      w.StartBlock(name, OPEN_OBJECT);
      WriteMembers(w, v.members);
      w.EndBlock(CLOSE_OBJECT);
      assert w.stack == AfterItem(s);
    } else {
      w.PrintValue(name, v);
    }
  }

  /** The parts an item is written in. */
  lemma ItemParts(st: JsonLayout.Style, s: seq<nat>, name: seq<byte>, v: Value, before: seq<byte>, end: seq<byte>)
    requires s != []
    ensures var lead, level := Lead(st, |s| - 1, s[|s| - 1] == 0, name), |s| - 1;
            before + ItemText(st, s, name, v) + end ==
            if v.Array? then
              before + lead + [OPEN_ARRAY] + ElementsText(st, v.elements, |s|, true)
              + Closing(st, level, CLOSE_ARRAY) + end
            else if v.Object? then
              before + lead + [OPEN_OBJECT] + MembersText(st, v.members, |s|, true)
              + Closing(st, level, CLOSE_OBJECT) + end
            else before + lead + Scalar(v) + end
  {
    hide Lead, ElementsText, MembersText, Closing;
    var lead, level := Lead(st, |s| - 1, s[|s| - 1] == 0, name), |s| - 1;
    if v.Array? {
      Block(before, lead, [OPEN_ARRAY], ElementsText(st, v.elements, |s|, true), Closing(st, level, CLOSE_ARRAY), end);
    } else if v.Object? {
      Block(before, lead, [OPEN_OBJECT], MembersText(st, v.members, |s|, true), Closing(st, level, CLOSE_OBJECT), end);
    } else {
      ConcatAssociative(before, lead, Scalar(v));
    }
  }

  lemma Block(s: seq<byte>, lead: seq<byte>, a: seq<byte>, b: seq<byte>, c: seq<byte>, end: seq<byte>)
    ensures s + lead + a + b + c + end == s + (lead + (a + b + c)) + end
  {
  }

  method WriteElements(w: Writer, es: List<Value>)
    requires |w.stack| > 1
    modifies w`output, w`stack
    ensures w.output
            == old(w.output) + ElementsText(w.Style(), es, old(|w.stack|) - 1, old(w.stack[|w.stack| - 1]) == 0)
    ensures |w.stack| == old(|w.stack|) && w.stack[..|w.stack| - 1] == old(w.stack[..|w.stack| - 1])
    decreases es, 0
  {
    hide Lead, ValueText;
    assert w.output + [] == w.output;
    if es.Cons? {
      ghost var before, s, st := w.output, w.stack, w.Style();
      WriteValue(w, [], es.head);
      ghost var item := ItemText(st, s, [], es.head);
      assert before + item + [] == before + item;
      WriteElements(w, es.tail);
      ConcatAssociative(before, item, ElementsText(st, es.tail, |s| - 1, false));
    }
  }

  method WriteMembers(w: Writer, ms: List<Member>)
    requires |w.stack| > 1
    modifies w`output, w`stack
    ensures w.output == old(w.output) + MembersText(w.Style(), ms, old(|w.stack|) - 1, old(w.stack[|w.stack| - 1]) == 0)
    ensures |w.stack| == old(|w.stack|) && w.stack[..|w.stack| - 1] == old(w.stack[..|w.stack| - 1])
    decreases ms, 0
  {
    hide Lead, ValueText;
    assert w.output + [] == w.output;
    if ms.Cons? {
      ghost var before, s, st := w.output, w.stack, w.Style();
      WriteValue(w, ms.head.name, ms.head.value);
      ghost var item := ItemText(st, s, ms.head.name, ms.head.value);
      assert before + item + [] == before + item;
      WriteMembers(w, ms.tail);
      ConcatAssociative(before, item, MembersText(st, ms.tail, |s| - 1, false));
    }
  }
}
