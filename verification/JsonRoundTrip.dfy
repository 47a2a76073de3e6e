/** Texts with white space anywhere between their tokens. */
module JsonLaid {
  import opened Bytes
  import opened JsonStrings
  import opened JsonLayout
  import opened JsonEvents
  import J = JsonTrees

  /** A text, by its structure and its white space. */
  datatype Laid =
    | LaidScalar(value: J.Value)
    | LaidArray(items: J.List<Item>, gap: seq<byte>)
    | LaidObject(members: J.List<Named>, gap: seq<byte>)

  datatype Item = Item(before: seq<byte>, item: Laid, after: seq<byte>)

  datatype Named =
    Named(before: seq<byte>, name: seq<byte>, gap: seq<byte>, space: seq<byte>, item: Laid, after: seq<byte>)

  /** The text itself, with something behind it. */
  function LaidText(l: Laid, tail: seq<byte>): seq<byte>
    decreases l, 0
  {
    match l
    case LaidScalar(v) => (if v.Array? || v.Object? then [] else Scalar(v)) + tail
    case LaidArray(items, gap) => [0x5b] + ItemsText(items, true, gap + ([0x5d] + tail))
    case LaidObject(members, gap) => [0x7b] + NamedText(members, true, gap + ([0x7d] + tail))
  }

  function Comma(first: bool): seq<byte> {
    if first then [] else [0x2c]
  }

  function ItemsText(items: J.List<Item>, first: bool, tail: seq<byte>): seq<byte>
    decreases items
  {
    match items
    case Nil => tail
    case Cons(i, more) => Comma(first) + (i.before + LaidText(i.item, i.after + ItemsText(more, false, tail)))
  }

  function NamedText(members: J.List<Named>, first: bool, tail: seq<byte>): seq<byte>
    decreases members
  {
    match members
    case Nil => tail
    case Cons(m, more) =>
      Comma(first) + (m.before + (Quoted(m.name) + (m.gap + ([0x3a] + (m.space
        + LaidText(m.item, m.after + NamedText(more, false, tail)))))))
  }

  /** The value it stands for. */
  function ValueOf(l: Laid): J.Value
    decreases l, 0
  {
    match l
    case LaidScalar(v) => v
    case LaidArray(items, _) => J.Array(ValuesOf(items))
    case LaidObject(members, _) => J.Object(MembersOf(members))
  }

  function ValuesOf(items: J.List<Item>): J.List<J.Value>
    decreases items
  {
    match items
    case Nil => J.Nil
    case Cons(i, more) => J.Cons(ValueOf(i.item), ValuesOf(more))
  }

  function MembersOf(members: J.List<Named>): J.List<J.Member>
    decreases members
  {
    match members
    case Nil => J.Nil
    case Cons(m, more) => J.Cons(J.Member(m.name, ValueOf(m.item)), MembersOf(more))
  }

  ghost predicate Gap(s: seq<byte>) {
    forall i :: 0 <= i < |s| ==> s[i] in {0x20, 9, 10, 11, 12, 13}
  }

  /** White space is white space, and numbers look like numbers. */
  ghost predicate Fits(l: Laid)
    decreases l, 0
  {
    match l
    case LaidScalar(v) => !v.Array? && !v.Object? && (v.Number? ==> Lexeme(v.lexeme))
    case LaidArray(items, gap) => ItemsFit(items) && Gap(gap)
    case LaidObject(members, gap) => NamedFit(members) && Gap(gap)
  }

  ghost predicate ItemsFit(items: J.List<Item>)
    decreases items
  {
    items.Cons? ==>
      Gap(items.head.before) && Fits(items.head.item) && Gap(items.head.after) && ItemsFit(items.tail)
  }

  ghost predicate NamedFit(members: J.List<Named>)
    decreases members
  {
    members.Cons? ==>
      var m := members.head;
      Gap(m.before) && Gap(m.gap) && Gap(m.space) && Fits(m.item) && Gap(m.after) && NamedFit(members.tail)
  }

  lemma GapIsSpace(s: seq<byte>)
    requires Gap(s)
    ensures AllSpace(s)
  {
  }
}

/** Reading what was written: the reader reports exactly the events of a value. */
module JsonRoundTrip {
  import opened Bytes
  import opened JsonStrings
  import opened JsonLayout
  import opened JsonMachine
  import opened JsonEvents
  import opened JsonLaid
  import J = JsonTrees

  predicate Opens(s: State) {
    s == StartObject || s == StartArray
  }

  function Opening(s: State): byte {
    if s == StartArray then OPEN_ARRAY else OPEN_OBJECT
  }

  function Ending(s: State): byte {
    if s == StartArray then CLOSE_ARRAY else CLOSE_OBJECT
  }

  function EndOf(s: State): State {
    if s == StartArray then EndArray else EndObject
  }

  /** Inside a block, before its first item or after an item. */
  ghost predicate InBlock(m: Machine, outer: seq<State>, open: State, depth: seq<seq<byte>>, first: bool) {
    && Blocks(outer) && Opens(open) && m.isArray == (open == StartArray) && m.depth == depth
    && if first then m.states == outer + [open] else m.states == outer + [open] + [m.Top()] && Complete(m.Top())
  }

  lemma Opened(m: Machine, outer: seq<State>, key: seq<byte>, open: State)
    requires Ready(m, outer, key) && m.rest != [] && Opens(open)
    ensures var m1 := Open(m, open, Opening(open));
            && InBlock(m1, outer, open, m.depth + [key + [Opening(open)]], true)
            && Seen(m1) == Happening(open, key, [], m.depth + [key + [Opening(open)]]) && m1.rest == m.rest[1..]
  {
    hide Ready, Replaced, TakesString, Blocks, Push;
    BlocksReady(m, outer, key);
    ReadyTop(m, outer, key);
    var m1 := if m.Top() != Key then m.(key := [], text := []) else m;
    PushBlock(m1.Skip(1).(depth := m1.depth + [m1.key + [Opening(open)]]), outer, open);
  }

  lemma PushBlock(m: Machine, outer: seq<State>, open: State)
    requires if m.states == outer then outer == [] || !Replaced(outer[|outer| - 1])
             else m.states != [] && m.states == outer + [m.Top()] && Replaced(m.Top())
    requires Opens(open)
    ensures Push(m, open) == Machine(m.rest, outer + [open], if m.isArray then [] else m.key, m.text,
                                     open == StartArray, m.depth)
  {
    PushOnto(m, outer, open);
  }

  lemma BlocksReady(m: Machine, outer: seq<State>, key: seq<byte>)
    requires Ready(m, outer, key)
    ensures Blocks(outer)
  {
  }

  lemma TopBlock(outer: seq<State>, otherwise: bool)
    requires Blocks(outer) && outer != []
    ensures InArray(outer, otherwise) == Inside(outer, StartArray) && Opens(outer[|outer| - 1])
  {
  }

  /** Popping what a block holds, and the block. */
  lemma BlockPopped(m: Machine, outer: seq<State>, open: State, depth: seq<seq<byte>>, first: bool)
    requires InBlock(m, outer, open, depth, first)
    ensures var p := PopThrough(m, open);
            && p.0 && p.1.states == outer && p.1.depth == depth && p.1.rest == m.rest && p.1.text == m.text
            && (outer != [] ==> p.1.isArray == Inside(outer, StartArray))
  {
    hide Pop;
    if first {
      PopOpen(m, outer, open);
    } else {
      PopItem(m, outer, open);
      PopOpen(Pop(m), outer, open);
    }
  }

  lemma PopOpen(m: Machine, outer: seq<State>, open: State)
    requires m.states == outer + [open] && Blocks(outer)
    ensures var p := Pop(m);
            && p.states == outer && p.depth == m.depth && p.rest == m.rest && p.text == m.text
            && (outer != [] ==> p.isArray == Inside(outer, StartArray))
  {
    hide InArray;
    assert m.states[..|m.states| - 1] == outer;
    if outer != [] {
      TopBlock(outer, m.isArray);
    }
  }

  lemma PopItem(m: Machine, outer: seq<State>, open: State)
    requires m.states == outer + [open] + [m.Top()] && Opens(open)
    ensures Pop(m) == Machine(m.rest, outer + [open], [], m.text, open == StartArray, m.depth)
  {
    assert m.states[..|m.states| - 1] == outer + [open];
  }

  lemma Closed(m: Machine, outer: seq<State>, key: seq<byte>, open: State, depth: seq<seq<byte>>, first: bool,
               tail: seq<byte>)
    requires InBlock(m, outer, open, depth + [key + [Opening(open)]], first)
    requires DropSpace(m.rest) == [Ending(open)] + tail
    ensures Next(m).Event? && ReadOn(Next(m).m, outer, depth, tail)
    ensures Seen(Next(m).m) == Happening(EndOf(open), key, [], depth)
  {
    hide PopThrough, DropSpace, AtComma, Push;
    var name := key + [Opening(open)];
    assert name[|name| - 1] == Opening(open) && name[..|name| - 1] == key;
    assert (depth + [name])[..|depth|] == depth;
    assert DropSpace(m.rest)[1..] == tail;
    var m0 := m.(rest := tail, text := [], depth := depth);
    BlockPopped(m0, outer, open, depth, first);
    var p := PopThrough(m0, open).1;
    PushEnd(p, outer, EndOf(open));
    assert Next(m) == Event(Push(p, EndOf(open)).(key := key));
  }

  lemma PushEnd(m: Machine, outer: seq<State>, s: State)
    requires m.states == outer && Blocks(outer) && (s == EndObject || s == EndArray)
    ensures Push(m, s) == Machine(m.rest, outer + [s], Push(m, s).key, m.text, m.isArray, m.depth)
  {
    if outer != [] {
      TopBlock(outer, m.isArray);
    }
    PushOnto(m, outer, s);
  }

  predicate Begins(c: byte) {
    !IsSpace(c) && !Delimiter(c)
  }

  /** From inside a block to where its next item is due. */
  function Due(m: Machine, outer: seq<State>, open: State, first: bool, r: seq<byte>): Machine {
    if first then m.(rest := r)
    else Machine(r, outer + [open] + [Comma], [], m.text, open == StartArray, m.depth)
  }

  lemma ItemDue(m: Machine, outer: seq<State>, open: State, depth: seq<seq<byte>>, first: bool, br: seq<byte>,
                r: seq<byte>)
    requires InBlock(m, outer, open, depth, first) && AllSpace(br) && r != [] && Begins(r[0])
    requires DropSpace(m.rest) == DropSpace((if first then [] else [COMMA]) + (br + r))
    ensures Next(m) == AtValue(Due(m, outer, open, first, r))
  {
    hide DropSpace, AtValue, CloseBlock, Push, Pop, InBlock;
    DropSpaces(br, r);
    NoLeadingSpace(r);
    if first {
      assert [] + (br + r) == br + r;
    } else {
      var w := [COMMA] + (br + r);
      assert !IsSpace(w[0]);
      NoLeadingSpace(w);
      assert w[1..] == br + r;
      var m1 := m.(rest := r);
      assert AtComma(m.(rest := w)) == AtValue(Push(if IsValue(m1) then Pop(m1) else m1, Comma)) by {
        assert m.Top() != Key by { BlockTop(m, outer, open, depth); }
      }
      CommaPushed(m, outer, open, depth, r);
    }
  }

  lemma BlockTop(m: Machine, outer: seq<State>, open: State, depth: seq<seq<byte>>)
    requires InBlock(m, outer, open, depth, false)
    ensures m.Top() != Key && Complete(m.Top()) && m.states == outer + [open] + [m.Top()] && Opens(open)
    ensures m.isArray == (open == StartArray) && m.depth == depth
  {
  }

  lemma CommaPushed(m: Machine, outer: seq<State>, open: State, depth: seq<seq<byte>>, r: seq<byte>)
    requires InBlock(m, outer, open, depth, false)
    ensures var m1 := m.(rest := r); IsValue(m1) && Push(Pop(m1), Comma) == Due(m, outer, open, false, r)
  {
    hide Pop;
    var m1 := m.(rest := r);
    assert m1.states[|m1.states| - 2] == open;
    PopItem(m1, outer, open);
    PushOnto(Pop(m1), outer + [open], Comma);
  }

  lemma DueReady(m: Machine, outer: seq<State>, depth: seq<seq<byte>>, first: bool, r: seq<byte>)
    requires InBlock(m, outer, StartArray, depth, first)
    ensures Ready(Due(m, outer, StartArray, first, r), outer + [StartArray], [])
    ensures Due(m, outer, StartArray, first, r).depth == depth
  {
  }

  // Text that follows an item.

  lemma Spaced(br: seq<byte>, c: byte, tail: seq<byte>)
    requires AllSpace(br) && Delimiter(c)
    ensures Follows(br + [c] + tail) && DropSpace(br + [c] + tail) == [c] + tail
  {
    hide DropSpace;
    ConcatAssociative(br, [c], tail);
    DropSpaces(br, [c] + tail);
    NoLeadingSpace([c] + tail);
  }

  /** What stands behind an item: white space, then a comma or the end of the block. */
  lemma AfterItem(after: seq<byte>, more: seq<byte>)
    requires Gap(after) && more != [] && (Follows(more) || Delimiter(more[0]))
    ensures Follows(after + more) && DropSpace(after + more) == DropSpace(more)
  {
    GapIsSpace(after);
    DropSpaces(after, more);
    if Delimiter(more[0]) {
      NoLeadingSpace(more);
    }
    assert after != [] ==> (after + more)[0] == after[0];
  }

  lemma AfterElement(items: J.List<Item>, tail: seq<byte>)
    requires Follows(tail)
    ensures Follows(ItemsText(items, false, tail))
  {
    if items.Cons? {
      NoLeadingSpace(ItemsText(items, false, tail));
    }
  }

  lemma AfterMember(members: J.List<Named>, tail: seq<byte>)
    requires Follows(tail)
    ensures Follows(NamedText(members, false, tail))
  {
    if members.Cons? {
      NoLeadingSpace(NamedText(members, false, tail));
    }
  }

  lemma LaidBegins(l: Laid, tail: seq<byte>)
    requires Fits(l)
    ensures var t := LaidText(l, tail); t != [] && Begins(t[0])
  {
    if l.LaidScalar? {
      if Word(l.value) {
        WordChars(l.value);
      } else if l.value.Number? {
        assert NumberChar(l.value.lexeme[0]);
      }
    }
  }

  // The round trip, value by value.

  lemma ScalarRead(v: J.Value, m: Machine, outer: seq<State>, key: seq<byte>, tail: seq<byte>)
    requires Fits(LaidScalar(v)) && Ready(m, outer, key) && outer != []
    requires m.rest == Scalar(v) + tail && Follows(tail)
    ensures var f := FollowFrom(AtValue(m), EventsOf(v, key, m.depth)); f.Some? && ReadOn(f.value, outer, m.depth, tail)
  {
    hide Ready, ReadOn, AtValue, Follows, Seen, Quoted, Lexeme;
    match v {
      case Number(lexeme) => NumberRead(lexeme, m, outer, key, tail);
      case String(chars) => StringRead(chars, m, outer, key, tail);
      case _ => WordRead(v, m, outer, key, tail);
    }
    FollowOne(AtValue(m), ScalarEvent(v, key, m.depth));
  }

  /** From any point where a value is due, its text reports its events,
      whatever white space is in it. */
  lemma {:induction false} ValueRead(l: Laid, m: Machine, outer: seq<State>, key: seq<byte>, tail: seq<byte>)
    requires Fits(l) && Ready(m, outer, key) && (outer == [] ==> !l.LaidScalar?)
    requires m.rest == LaidText(l, tail) && (outer == [] || Follows(tail))
    ensures var f := FollowFrom(AtValue(m), EventsOf(ValueOf(l), key, m.depth));
            f.Some? && ReadOn(f.value, outer, m.depth, tail)
    decreases l, 1
  {
    hide Ready, ReadOn, AtValue, Follows, Seen;
    if l.LaidArray? {
      ArrayRead(l, m, outer, key, tail);
    } else if l.LaidObject? {
      ObjectRead(l, m, outer, key, tail);
    } else {
      ScalarRead(l.value, m, outer, key, tail);
    }
  }

  lemma {:induction false} ArrayRead(l: Laid, m: Machine, outer: seq<State>, key: seq<byte>, tail: seq<byte>)
    requires l.LaidArray? && Fits(l) && Ready(m, outer, key) && m.rest == LaidText(l, tail)
    ensures var f := FollowFrom(AtValue(m), EventsOf(ValueOf(l), key, m.depth));
            f.Some? && ReadOn(f.value, outer, m.depth, tail)
    decreases l, 0
  {
    hide Ready, ReadOn, Follows, Seen, ItemsText, ElementEvents, Open, InBlock, Next, DropSpace, ValuesOf;
    var es, inner, end := ValuesOf(l.items), m.depth + [key + [OPEN_ARRAY]], l.gap + ([CLOSE_ARRAY] + tail);
    Opened(m, outer, key, StartArray);
    var m1 := Open(m, StartArray, OPEN_ARRAY);
    assert m1.rest == ItemsText(l.items, true, end);
    GapIsSpace(l.gap);
    Spaced(l.gap, CLOSE_ARRAY, tail);
    ConcatAssociative(l.gap, [CLOSE_ARRAY], tail);
    ElementsRead(l.items, true, m1, outer, inner, end);
    var m2 := Follow(m1, ElementEvents(es, inner)).value;
    Closed(m2, outer, key, StartArray, m.depth, l.items.Nil?, tail);
    assert AtValue(m) == Event(m1);
    BlockFollowed(AtValue(m), Happening(StartArray, key, [], inner), ElementEvents(es, inner),
                  Happening(EndArray, key, [], m.depth));
  }

  lemma {:induction false} ObjectRead(l: Laid, m: Machine, outer: seq<State>, key: seq<byte>, tail: seq<byte>)
    requires l.LaidObject? && Fits(l) && Ready(m, outer, key) && m.rest == LaidText(l, tail)
    ensures var f := FollowFrom(AtValue(m), EventsOf(ValueOf(l), key, m.depth));
            f.Some? && ReadOn(f.value, outer, m.depth, tail)
    decreases l, 0
  {
    hide Ready, ReadOn, Follows, Seen, NamedText, MemberEvents, Open, InBlock, Next, DropSpace, MembersOf;
    var ms, inner, end := MembersOf(l.members), m.depth + [key + [OPEN_OBJECT]], l.gap + ([CLOSE_OBJECT] + tail);
    Opened(m, outer, key, StartObject);
    var m1 := Open(m, StartObject, OPEN_OBJECT);
    assert m1.rest == NamedText(l.members, true, end);
    GapIsSpace(l.gap);
    Spaced(l.gap, CLOSE_OBJECT, tail);
    ConcatAssociative(l.gap, [CLOSE_OBJECT], tail);
    MembersRead(l.members, true, m1, outer, inner, end);
    var m2 := Follow(m1, MemberEvents(ms, inner)).value;
    Closed(m2, outer, key, StartObject, m.depth, l.members.Nil?, tail);
    assert AtValue(m) == Event(m1);
    BlockFollowed(AtValue(m), Happening(StartObject, key, [], inner), MemberEvents(ms, inner),
                  Happening(EndObject, key, [], m.depth));
  }

  lemma BlockFollowed(r: Result, start: Happening, items: seq<Happening>, end: Happening)
    requires r.Event? && Seen(r.m) == start && Follow(r.m, items).Some?
    requires var last := Next(Follow(r.m, items).value); last.Event? && Seen(last.m) == end
    ensures FollowFrom(r, [start] + items + [end]) == Some(Next(Follow(r.m, items).value).m)
  {
    hide Next, Seen;
    Followed(r, start, items, [end]);
    FollowOne(Next(Follow(r.m, items).value), end);
  }

  lemma Followed(r: Result, start: Happening, items: seq<Happening>, more: seq<Happening>)
    requires r.Event? && Seen(r.m) == start && Follow(r.m, items).Some?
    ensures FollowFrom(r, [start] + items + more) == Follow(Follow(r.m, items).value, more)
  {
    hide Next, Seen;
    assert ([start] + items + more)[1..] == items + more;
    FollowSum(r.m, items, more);
  }

  lemma {:induction false} ElementsRead(items: J.List<Item>, first: bool, m: Machine, outer: seq<State>,
                                        depth: seq<seq<byte>>, tail: seq<byte>)
    requires ItemsFit(items) && InBlock(m, outer, StartArray, depth, first)
    requires DropSpace(m.rest) == DropSpace(ItemsText(items, first, tail)) && Follows(tail)
    ensures var f := Follow(m, ElementEvents(ValuesOf(items), depth));
            && f.Some? && InBlock(f.value, outer, StartArray, depth, first && items.Nil?)
            && DropSpace(f.value.rest) == DropSpace(tail)
    decreases items, 2
  {
    hide Ready, ReadOn, Follows, Seen, Next, DropSpace, AtValue, LaidText, InBlock, Fits, EventsOf, ValueOf;
    if items.Cons? {
      var i, v, more := items.head, ValueOf(items.head.item), ItemsText(items.tail, false, tail);
      AfterElement(items.tail, tail);
      NotEmpty(more);
      AfterItem(i.after, more);
      var r := LaidText(i.item, i.after + more);
      GapIsSpace(i.before);
      LaidBegins(i.item, i.after + more);
      ItemDue(m, outer, StartArray, depth, first, i.before, r);
      DueReady(m, outer, depth, first, r);
      var due, inner := Due(m, outer, StartArray, first, r), outer + [StartArray];
      ValueRead(i.item, due, inner, [], i.after + more);
      var m2 := FollowFrom(AtValue(due), EventsOf(v, [], depth)).value;
      ItemDone(m2, outer, StartArray, depth, i.after + more);
      ElementsRead(items.tail, false, m2, outer, depth, tail);
      FollowFromSum(Next(m), EventsOf(v, [], depth), ElementEvents(ValuesOf(items.tail), depth));
    }
  }

  lemma NotEmpty(tail: seq<byte>)
    requires Follows(tail)
    ensures tail != []
  {
  }

  /** Reading an item leads from within the block to within the block. */
  lemma ItemDone(m: Machine, outer: seq<State>, open: State, depth: seq<seq<byte>>, tail: seq<byte>)
    requires Blocks(outer + [open]) && Opens(open) && ReadOn(m, outer + [open], depth, tail)
    ensures InBlock(m, outer, open, depth, false) && DropSpace(m.rest) == DropSpace(tail)
  {
    hide DropSpace;
    assert forall i :: 0 <= i < |outer| ==> (outer + [open])[i] == outer[i];
  }

  /** A member's name, read as a key. */
  lemma KeyRead(name: seq<byte>, gap: seq<byte>, m: Machine, outer: seq<State>, r: seq<byte>)
    requires !m.isArray && Blocks(outer) && Gap(gap)
    requires m.states == outer + [StartObject] || m.states == outer + [StartObject] + [Comma]
    requires m.rest == Quoted(name) + (gap + ([0x3a] + r))
    ensures var k := Clean(name); AtValue(m) == Event(Machine(r, outer + [StartObject] + [Key], k, k, false, m.depth))
  {
    hide StringBody, Quoted, AtScalar, Open, Clean, DropSpace, Push;
    var colon := [COLON] + r;
    StringRoundTrip(name, gap + colon);
    GapIsSpace(gap);
    DropSpaces(gap, colon);
    NoLeadingSpace(colon);
    assert colon[1..] == r;
    KeyPushed(m.(text := Clean(name), rest := r, key := Clean(name)), outer + [StartObject]);
  }

  lemma KeyPushed(m: Machine, outer: seq<State>)
    requires !m.isArray && Inside(outer, StartObject) && (m.states == outer || m.states == outer + [Comma])
    ensures Push(m, Key) == Machine(m.rest, outer + [Key], m.key, m.text, false, m.depth)
  {
    assert (outer + [Comma])[..|outer|] == outer;
  }

  /** From a key on to its value. */
  lemma KeyDone(gap: seq<byte>, r: seq<byte>, m: Machine)
    requires AllSpace(gap) && r != [] && Begins(r[0]) && m.rest == gap + r
    ensures Next(m) == AtValue(m.(rest := r))
  {
    hide DropSpace;
    DropSpaces(gap, r);
    NoLeadingSpace(r);
  }

  lemma KeyReady(m: Machine, outer: seq<State>, key: seq<byte>)
    requires Blocks(outer) && m.states == outer + [StartObject] + [Key] && !m.isArray && m.key == key
    ensures Ready(m, outer + [StartObject], key) && Blocks(outer + [StartObject])
    ensures m.text == key ==> Seen(m) == Happening(Key, key, key, m.depth)
  {
  }

  lemma {:induction false} MembersRead(members: J.List<Named>, first: bool, m: Machine, outer: seq<State>,
                                       depth: seq<seq<byte>>, tail: seq<byte>)
    requires NamedFit(members) && InBlock(m, outer, StartObject, depth, first)
    requires DropSpace(m.rest) == DropSpace(NamedText(members, first, tail)) && Follows(tail)
    ensures var f := Follow(m, MemberEvents(MembersOf(members), depth));
            && f.Some? && InBlock(f.value, outer, StartObject, depth, first && members.Nil?)
            && DropSpace(f.value.rest) == DropSpace(tail)
    decreases members, 2
  {
    hide Ready, ReadOn, Follows, Seen, Next, DropSpace, AtValue, LaidText, InBlock, Fits, EventsOf, Quoted, ValueOf;
    if members.Cons? {
      var n, more := members.head, NamedText(members.tail, false, tail);
      var v := ValueOf(n.item);
      AfterMember(members.tail, tail);
      NotEmpty(more);
      AfterItem(n.after, more);
      var r := LaidText(n.item, n.after + more);
      var w := Quoted(n.name) + (n.gap + ([0x3a] + (n.space + r)));
      GapIsSpace(n.before);
      QuoteBegins(n.name, n.gap + ([0x3a] + (n.space + r)));
      ItemDue(m, outer, StartObject, depth, first, n.before, w);
      var due := Due(m, outer, StartObject, first, w);
      DueMember(m, outer, depth, first, w);
      KeyRead(n.name, n.gap, due, outer, n.space + r);
      var k, keyed, inner := Clean(n.name), AtValue(due).m, outer + [StartObject];
      GapIsSpace(n.space);
      LaidBegins(n.item, n.after + more);
      KeyDone(n.space, r, keyed);
      KeyReady(keyed, outer, k);
      KeyReady(keyed.(rest := r), outer, k);
      ValueRead(n.item, keyed.(rest := r), inner, k, n.after + more);
      var m2 := FollowFrom(Next(keyed), EventsOf(v, k, depth)).value;
      ItemDone(m2, outer, StartObject, depth, n.after + more);
      MembersRead(members.tail, false, m2, outer, depth, tail);
      Followed(Next(m), Happening(Key, k, k, depth), EventsOf(v, k, depth),
               MemberEvents(MembersOf(members.tail), depth));
    }
  }

  lemma QuoteBegins(name: seq<byte>, r: seq<byte>)
    ensures var w := Quoted(name) + r; w != [] && Begins(w[0])
  {
  }

  lemma DueMember(m: Machine, outer: seq<State>, depth: seq<seq<byte>>, first: bool, r: seq<byte>)
    requires InBlock(m, outer, StartObject, depth, first)
    ensures var due := Due(m, outer, StartObject, first, r);
            && !due.isArray && Blocks(outer) && due.depth == depth && due.rest == r
            && (due.states == outer + [StartObject] || due.states == outer + [StartObject] + [Comma])
  {
  }

  /** A reader at the start of a text. */
  function Start(text: seq<byte>): Machine {
    Machine(text, [], [], [], false, [])
  }

  /** Reading the text of an array or an object, with any white space in front
      of, between and behind its tokens, reports exactly its events, and then
      the end of the text. */
  lemma LaidRead(before: seq<byte>, l: Laid, after: seq<byte>)
    requires !l.LaidScalar? && Fits(l) && Gap(before) && Gap(after)
    ensures var f := Follow(Start(before + LaidText(l, after)), EventsOf(ValueOf(l), [], []));
            f.Some? && f.value.depth == [] && Next(f.value) == End
  {
    hide AtValue, DropSpace, Seen, CloseBlock, AtBracket;
    var r := LaidText(l, after);
    var m := Start(r);
    LaidBegins(l, after);
    ReadyAtStart(m);
    ValueRead(l, m, [], [], after);
    GapIsSpace(before);
    GapIsSpace(after);
    KeyDone(before, r, Start(before + r));
    assert after + [] == after;
    DropSpaces(after, []);
    NoLeadingSpace([]);
  }

  // What a writer writes is such a text.

  function Lay(st: Style, v: J.Value, level: nat): Laid
    decreases v, 1
  {
    match v
    case Array(es) => LaidArray(LayItems(st, es, level + 1), Newline(st) + Indent(st, level))
    case Object(ms) => LaidObject(LayMembers(st, ms, level + 1), Newline(st) + Indent(st, level))
    case _ => LaidScalar(v)
  }

  function LayItems(st: Style, es: J.List<J.Value>, level: nat): J.List<Item>
    decreases es, 0
  {
    match es
    case Nil => J.Nil
    case Cons(e, more) => J.Cons(Item(Break(st, level), Lay(st, e, level), []), LayItems(st, more, level))
  }

  function LayMembers(st: Style, ms: J.List<J.Member>, level: nat): J.List<Named>
    decreases ms, 0
  {
    match ms
    case Nil => J.Nil
    case Cons(m, more) =>
      J.Cons(Named(Break(st, level), m.name, [], ColonSpace(st), Lay(st, m.value, level), []),
             LayMembers(st, more, level))
  }

  function ColonSpace(st: Style): seq<byte> {
    if st.indent then [SPACE] else []
  }

  lemma {:induction false} LayFits(st: Style, v: J.Value, level: nat)
    requires WellFormed(v)
    ensures Fits(Lay(st, v, level)) && ValueOf(Lay(st, v, level)) == v
    decreases v, 1
  {
    hide Newline, Indent;
    match v {
      case Array(es) =>
        BreakIsGap(st, level);
        LayItemsFit(st, es, level + 1);
      case Object(ms) =>
        BreakIsGap(st, level);
        LayMembersFit(st, ms, level + 1);
      case _ =>
    }
  }

  lemma BreakIsGap(st: Style, level: nat)
    ensures Gap(Break(st, level)) && Gap(Newline(st) + Indent(st, level)) && Gap(ColonSpace(st))
  {
    BlanksAreGap(2 * level);
  }

  lemma {:induction false} BlanksAreGap(n: nat)
    ensures Gap(Blanks(n))
  {
    if n > 0 {
      BlanksAreGap(n - 1);
    }
  }

  lemma {:induction false} LayItemsFit(st: Style, es: J.List<J.Value>, level: nat)
    requires AllWellFormed(es)
    ensures ItemsFit(LayItems(st, es, level)) && ValuesOf(LayItems(st, es, level)) == es
    decreases es, 0
  {
    hide Break, Fits, ValueOf, Lay, WellFormed;
    if es.Cons? {
      BreakIsGap(st, level);
      LayFits(st, es.head, level);
      LayItemsFit(st, es.tail, level);
    }
  }

  lemma {:induction false} LayMembersFit(st: Style, ms: J.List<J.Member>, level: nat)
    requires AllNamed(ms)
    ensures NamedFit(LayMembers(st, ms, level)) && MembersOf(LayMembers(st, ms, level)) == ms
    decreases ms, 0
  {
    hide Break, Fits, ValueOf, Lay, WellFormed, ColonSpace;
    if ms.Cons? {
      BreakIsGap(st, level);
      LayFits(st, ms.head.value, level);
      LayMembersFit(st, ms.tail, level);
      assert ms.head == J.Member(ms.head.name, ms.head.value);
    }
  }

  lemma {:induction false} LayText(st: Style, v: J.Value, level: nat, tail: seq<byte>)
    requires WellFormed(v)
    ensures LaidText(Lay(st, v, level), tail) == ValueText(st, v, level) + tail
    decreases v, 1
  {
    hide Newline, Indent, ElementsText, MembersText;
    var gap := Newline(st) + Indent(st, level);
    match v {
      case Array(es) =>
        LayItemsText(st, es, level + 1, true, gap + ([0x5d] + tail));
        ConcatAssociative(gap, [0x5d], tail);
        Regroup3([0x5b], ElementsText(st, es, level + 1, true), gap + [0x5d], tail);
      case Object(ms) =>
        LayMembersText(st, ms, level + 1, true, gap + ([0x7d] + tail));
        ConcatAssociative(gap, [0x7d], tail);
        Regroup3([0x7b], MembersText(st, ms, level + 1, true), gap + [0x7d], tail);
      case _ =>
    }
  }

  lemma {:induction false} LayItemsText(st: Style, es: J.List<J.Value>, level: nat, first: bool, tail: seq<byte>)
    requires AllWellFormed(es)
    ensures ItemsText(LayItems(st, es, level), first, tail) == ElementsText(st, es, level, first) + tail
    decreases es, 0
  {
    hide Break, Lay, WellFormed, Lead, ValueText;
    if es.Nil? {
      assert [] + tail == tail;
    } else {
      var e, more := es.head, ElementsText(st, es.tail, level, false) + tail;
      LayItemsText(st, es.tail, level, false, tail);
      LayText(st, e, level, more);
      LeadParts(st, level, first, [], ValueText(st, e, level) + more);
      Regroup3(Lead(st, level, first, []), ValueText(st, e, level), ElementsText(st, es.tail, level, false), tail);
      assert [] + more == more && Name(st, []) + (ValueText(st, e, level) + more) == ValueText(st, e, level) + more;
    }
  }

  lemma {:induction false} LayMembersText(st: Style, ms: J.List<J.Member>, level: nat, first: bool, tail: seq<byte>)
    requires AllNamed(ms)
    ensures NamedText(LayMembers(st, ms, level), first, tail) == MembersText(st, ms, level, first) + tail
    decreases ms, 0
  {
    hide Break, Lay, WellFormed, Lead, ValueText, Quoted, Name;
    if ms.Nil? {
      assert [] + tail == tail;
    } else {
      var m, more := ms.head, MembersText(st, ms.tail, level, false) + tail;
      var r := ValueText(st, m.value, level) + more;
      LayMembersText(st, ms.tail, level, false, tail);
      LayText(st, m.value, level, more);
      LeadParts(st, level, first, m.name, r);
      Regroup3(Lead(st, level, first, m.name), ValueText(st, m.value, level), MembersText(st, ms.tail, level, false),
               tail);
      NameParts(st, m.name, r);
      assert [] + more == more && [] + ([0x3a] + (ColonSpace(st) + r)) == [0x3a] + (ColonSpace(st) + r);
    }
  }

  lemma NameParts(st: Style, name: seq<byte>, r: seq<byte>)
    requires name != []
    ensures Name(st, name) + r == Quoted(name) + ([0x3a] + (ColonSpace(st) + r))
  {
    hide Quoted;
  }

  lemma LeadParts(st: Style, level: nat, first: bool, name: seq<byte>, r: seq<byte>)
    ensures Lead(st, level, first, name) + r == JsonLaid.Comma(first) + (Break(st, level) + (Name(st, name) + r))
  {
    hide Newline, Indent, Name;
    var comma, line := JsonLaid.Comma(first), if level > 0 then Newline(st) else [];
    assert comma + line + Indent(st, level) + Name(st, name) + r
           == comma + ((line + Indent(st, level)) + (Name(st, name) + r));
  }

  lemma Regroup3(a: seq<byte>, b: seq<byte>, c: seq<byte>, d: seq<byte>)
    ensures a + b + c + d == a + (b + (c + d))
  {
  }

  /** Reading the text of an array or an object, compact or laid out, reports
      exactly its events, and then the end of the text. */
  lemma DocumentRead(st: Style, v: J.Value, tail: seq<byte>)
    requires (v.Array? || v.Object?) && WellFormed(v) && AllSpace(tail)
    ensures var f := Follow(Start(ValueText(st, v, 0) + tail), EventsOf(v, [], []));
            f.Some? && f.value.depth == [] && Next(f.value) == End
  {
    hide Follow, Next, EventsOf, WellFormed, ValueText, Fits, LaidText, ValueOf;
    LayFits(st, v, 0);
    LayText(st, v, 0, tail);
    SpaceIsGap(tail);
    LaidRead([], Lay(st, v, 0), tail);
    assert [] + (ValueText(st, v, 0) + tail) == ValueText(st, v, 0) + tail;
  }

  lemma SpaceIsGap(s: seq<byte>)
    requires AllSpace(s)
    ensures Gap(s) && Gap([])
  {
  }

  lemma ReadyAtStart(m: Machine)
    requires m.states == []
    ensures Ready(m, [], [])
  {
  }

  /** Every event consumes some of the text, whatever the text. */
  lemma NextAdvances(m: Machine)
    ensures Next(m).Event? ==> |Next(m).m.rest| < |m.rest|
  {
    hide AtBracket, PopThrough, Push;
    var r := DropSpace(m.rest);
    if r != [] {
      BracketAdvances(m.(rest := r));
      if r[0] == CLOSE_OBJECT {
        BracketAdvances(CloseBlock(m.(rest := r).Skip(1), StartObject, OPEN_OBJECT).1);
      }
      assert forall m1, s :: Push(m1, s).rest == m1.rest by { PushKeepsRest(); }
    }
  }

  lemma PushKeepsRest()
    ensures forall m, s :: Push(m, s).rest == m.rest
  {
  }

  lemma BracketAdvances(m: Machine)
    ensures AtBracket(m).Event? ==> |AtBracket(m).m.rest| < |m.rest|
  {
    hide AtValue, PopThrough, Push;
    PushKeepsRest();
    if m.Peek() == CLOSE_ARRAY {
      CommaAdvances(CloseBlock(m.Skip(1), StartArray, OPEN_ARRAY).1);
    } else {
      CommaAdvances(m);
    }
  }

  lemma CommaAdvances(m: Machine)
    ensures AtComma(m).Event? ==> |AtComma(m).m.rest| < |m.rest|
  {
    hide AtValue, Push, Pop;
    PushKeepsRest();
    ValueAdvances(m);
    if m.Peek() == COMMA && m.Top() != Key {
      var m1 := m.(rest := DropSpace(m.rest[1..]));
      var m2 := if IsValue(m1) then Pop(m1) else m1;
      assert m2.rest == m1.rest by { PopKeepsRest(m1); }
      ValueAdvances(Push(m2, Comma));
    }
  }

  lemma PopKeepsRest(m: Machine)
    ensures m.states != [] ==> Pop(m).rest == m.rest
  {
  }

  lemma ValueAdvances(m: Machine)
    ensures AtValue(m).Event? ==> |AtValue(m).m.rest| < |m.rest|
  {
    hide Push, StringBody, Constant, Replaced;
    PushKeepsRest();
  }
}
