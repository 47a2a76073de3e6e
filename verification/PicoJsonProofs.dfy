/** Reading back what was serialised. */
module PicoJsonRoundTrip {
  import opened Bytes
  import opened JsonTrees
  import opened PicoJsonSpec
  import opened PicoJsonGrammar
  import opened PicoJsonLayouts
  import J = JsonStrings
  import L = JsonLayout

  // Strings.

  lemma LowerHexRead(d: nat)
    requires d < 16
    ensures J.HexDigit(LowerHex(d)) == d
  {
  }

  lemma LowerHexZero()
    ensures LowerHex(0) == 0x30
  {
  }

  /** Every byte is written in a spelling of its own. */
  lemma CharSpelled(c: byte)
    ensures Spells(Unit(CharText(c), [c]))
  {
    hide J.HexDigit, LowerHex;
    var t := CharText(c);
    if ShortEscape(c) == 0 && (c < 0x20 || c == 0x7f) {
      LowerHexZero();
      LowerHexRead(0);
      LowerHexRead(c / 0x10);
      LowerHexRead(c % 0x10);
      assert t[2..6] == [0x30, 0x30, LowerHex(c / 0x10), LowerHex(c % 0x10)];
      assert J.Utf8(c) == [c];
    }
  }

  function UnitsOf(s: seq<byte>): (xs: seq<Unit>) {
    seq(|s|, i requires 0 <= i < |s| => Unit(CharText(s[i]), [s[i]]))
  }

  lemma {:induction false} UnitsSpell(s: seq<byte>)
    ensures AllSpell(UnitsOf(s)) && Texts(UnitsOf(s)) == CharsText(s) && Stand(UnitsOf(s)) == s
  {
    hide Spells, CharText;
    forall i | 0 <= i < |s| ensures Spells(UnitsOf(s)[i]) {
      CharSpelled(s[i]);
    }
    if s != [] {
      UnitsSpell(s[1..]);
      assert UnitsOf(s)[1..] == UnitsOf(s[1..]);
      assert s == [s[0]] + s[1..];
    }
  }

  lemma StringLaid(s: seq<byte>, tail: seq<byte>)
    ensures NameText(UnitsOf(s), tail) == StringText(s) + tail && NameText(UnitsOf(s), []) == StringText(s)
  {
    UnitsSpell(s);
    NameBefore(UnitsOf(s), tail);
    assert [0x22] + (CharsText(s) + ([0x22] + [])) == StringText(s);
  }

  /** Any byte string comes back from its text. */
  lemma CharsRead(s: seq<byte>, rest: seq<byte>)
    ensures Chars(CharsText(s) + ([QUOTE] + rest)) == Good(s, rest)
  {
    hide Chars;
    UnitsSpell(s);
    UnitsRead(UnitsOf(s), rest);
  }

  // White space.

  lemma {:induction false} BlanksAreSpace(n: nat)
    ensures PicoJsonGrammar.Gap(L.Blanks(n))
  {
    if n > 0 {
      BlanksAreSpace(n - 1);
    }
  }

  lemma LineIsSpace(level: Level, empty: bool)
    ensures PicoJsonGrammar.Gap(Line(level)) && PicoJsonGrammar.Gap(LastLine(level, empty))
    ensures PicoJsonGrammar.Gap(Space(level)) && PicoJsonGrammar.Gap([])
  {
    if level >= 0 {
      BlanksAreSpace(2 * level);
    }
  }

  // The order of names.

  lemma {:induction false} BeforeTransitive(a: seq<byte>, b: seq<byte>, c: seq<byte>)
    requires Before(a, b) && Before(b, c)
    ensures Before(a, c)
  {
    if a != [] && a[0] == b[0] && b[0] == c[0] {
      BeforeTransitive(a[1..], b[1..], c[1..]);
    }
  }

  lemma {:induction false} BeforeIsStrict(a: seq<byte>, b: seq<byte>)
    ensures !(Before(a, b) && Before(b, a)) && !Before(a, a)
    ensures Before(a, b) || Before(b, a) || a == b
  {
    if a != [] && b != [] {
      BeforeIsStrict(a[1..], b[1..]);
      assert a == [a[0]] + a[1..] && b == [b[0]] + b[1..];
    } else if a != [] {
      BeforeIsStrict(a[1..], b);
    }
  }

  /** A name comes before its continuations, and otherwise the first octet that
      differs decides. */
  lemma {:induction false} BeforeOctets(p: seq<byte>, a: byte, b: byte, x: seq<byte>, y: seq<byte>)
    ensures Before(p, p + ([b] + y))
    ensures a < b ==> Before(p + ([a] + x), p + ([b] + y)) && !Before(p + ([b] + y), p + ([a] + x))
  {
    if p == [] {
      assert [] + ([a] + x) == [a] + x && [] + ([b] + y) == [b] + y;
    } else {
      BeforeOctets(p[1..], a, b, x, y);
      assert (p + ([a] + x))[1..] == p[1..] + ([a] + x) && (p + ([b] + y))[1..] == p[1..] + ([b] + y);
    }
  }

  predicate Ordered(ms: List<Member>) {
    ms.Cons? && ms.tail.Cons? ==> Before(ms.head.name, ms.tail.head.name) && Ordered(ms.tail)
  }

  function Append(a: List<Member>, b: List<Member>): List<Member> {
    match a
    case Nil => b
    case Cons(m, more) => Cons(m, Append(more, b))
  }

  lemma {:induction false} FirstBefore(a: List<Member>, m: Member, b: List<Member>)
    requires a.Cons? && Ordered(Append(a, Cons(m, b)))
    ensures Before(a.head.name, m.name)
  {
    if a.tail.Cons? {
      FirstBefore(a.tail, m, b);
      BeforeTransitive(a.head.name, a.tail.head.name, m.name);
    } else {
      assert Append(a.tail, Cons(m, b)) == Cons(m, b);
    }
  }

  /** In order, a new member goes to the end. */
  lemma {:induction false} InsertLast(a: List<Member>, m: Member, b: List<Member>)
    requires Ordered(Append(a, Cons(m, b)))
    ensures Insert(a, m) == Append(a, Cons(m, Nil))
    ensures Append(Append(a, Cons(m, Nil)), b) == Append(a, Cons(m, b))
  {
    if a.Cons? {
      FirstBefore(a, m, b);
      BeforeIsStrict(a.head.name, m.name);
      InsertLast(a.tail, m, b);
    }
  }

  // Values.

  function Space(level: Level): seq<byte> {
    if level == -1 then [] else [L.SPACE]
  }

  /** A value the library can hold: members in the order of their names, no
      name twice. */
  ghost predicate WellFormed(v: Value)
    decreases v, 1
  {
    match v
    case Number(lexeme) => Lexeme(lexeme)
    case Array(es) => AllWellFormed(es)
    case Object(ms) => Ordered(ms) && MembersWellFormed(ms)
    case _ => true
  }

  ghost predicate AllWellFormed(es: List<Value>)
    decreases es, 0
  {
    es.Cons? ==> WellFormed(es.head) && AllWellFormed(es.tail)
  }

  ghost predicate MembersWellFormed(ms: List<Member>)
    decreases ms, 0
  {
    ms.Cons? ==> WellFormed(ms.head.value) && MembersWellFormed(ms.tail)
  }

  /** What may follow a value without changing it. */
  predicate Clear(tail: seq<byte>) {
    tail == [] || !NumberChar(tail[0])
  }

  /** The layout in which a value is serialised. */
  function Lay(v: Value, level: Level): Laid
    decreases v, 0
  {
    match v
    case Null => Plain(NULL, v)
    case False => Plain(FALSE, v)
    case True => Plain(TRUE, v)
    case Number(lexeme) => Plain(lexeme, v)
    case String(chars) => Plain(StringText(chars), v)
    case Array(es) =>
      if es.Nil? then NoItems([]) else LaidArray(LayItems(es, Deeper(level), LastLine(level, false)))
    case Object(ms) =>
      if ms.Nil? then NoMembers([]) else LaidObject(LayMembers(ms, Deeper(level), LastLine(level, false)))
  }

  function LayItems(es: List<Value>, level: Level, last: seq<byte>): PicoJsonLayouts.Items
    requires es.Cons?
    decreases es
  {
    var item := Lay(es.head, level);
    if es.tail.Nil? then LastItem(Line(level), item, last)
    else OneItem(Line(level), item, [], LayItems(es.tail, level, last))
  }

  function LayMembers(ms: List<Member>, level: Level, last: seq<byte>): Members
    requires ms.Cons?
    decreases ms
  {
    var name, item := UnitsOf(ms.head.name), Lay(ms.head.value, level);
    if ms.tail.Nil? then LastMember(Line(level), name, [], Space(level), item, last)
    else OneMember(Line(level), name, [], Space(level), item, [], LayMembers(ms.tail, level, last))
  }

  lemma {:induction false} LayText(v: Value, level: Level, tail: seq<byte>)
    ensures TextOf(Lay(v, level), tail) == Body(v, level) + tail
    decreases v, 1
  {
    hide Line, LastLine, ItemsText, MembersText, StringText;
    match v {
      case Array(es) =>
        var close := [0x5d] + tail;
        Regroup([0x5b], PicoJsonSpec.Items(es, Deeper(level), true), LastLine(level, es.Nil?), [0x5d], tail);
        assert [0x5d] + tail == close;
        if es.Nil? {
          assert LastLine(level, true) == [] by { NoLine(level); }
          assert [0x5b] + [] + [] + [0x5d] + tail == [0x5b] + ([] + close);
        } else {
          LayItemsText(es, Deeper(level), LastLine(level, false), tail);
          ConcatAssociative(LastLine(level, false), [0x5d], tail);
        }
      case Object(ms) =>
        var close := [0x7d] + tail;
        Regroup([0x7b], Entries(ms, Deeper(level), true), LastLine(level, ms.Nil?), [0x7d], tail);
        if ms.Nil? {
          assert LastLine(level, true) == [] by { NoLine(level); }
          assert [0x7b] + [] + [] + [0x7d] + tail == [0x7b] + ([] + close);
        } else {
          LayMembersText(ms, Deeper(level), LastLine(level, false), tail);
          ConcatAssociative(LastLine(level, false), [0x7d], tail);
        }
      case _ =>
    }
  }

  lemma NoLine(level: Level)
    ensures LastLine(level, true) == []
  {
  }

  lemma Regroup(a: seq<byte>, b: seq<byte>, c: seq<byte>, d: seq<byte>, tail: seq<byte>)
    ensures a + b + c + d + tail == a + (b + (c + d + tail))
  {
  }

  lemma {:induction false} LayItemsText(es: List<Value>, level: Level, last: seq<byte>, tail: seq<byte>)
    requires es.Cons?
    ensures ItemsText(LayItems(es, level, last), tail) == PicoJsonSpec.Items(es, level, true) + (last + ([0x5d] + tail))
    decreases es, 2
  {
    hide Line, Body;
    var more, close := PicoJsonSpec.Items(es.tail, level, false), last + ([0x5d] + tail);
    var line, body := Line(level), Body(es.head, level);
    assert [] + line + body + more + close == line + (body + (more + close));
    if es.tail.Nil? {
      LayText(es.head, level, close);
      assert more + close == close;
    } else {
      LayItemsText(es.tail, level, last, tail);
      var first := PicoJsonSpec.Items(es.tail, level, true);
      CommaFirst(Line(level), Body(es.tail.head, level), PicoJsonSpec.Items(es.tail.tail, level, false));
      ConcatAssociative([0x2c], first, close);
      LayText(es.head, level, [0x2c] + (first + close));
      assert [] + ([0x2c] + (first + close)) == [0x2c] + (first + close);
    }
  }

  lemma CommaFirst(a: seq<byte>, b: seq<byte>, c: seq<byte>)
    ensures [L.COMMA] + a + b + c == [L.COMMA] + ([] + a + b + c)
  {
  }

  lemma {:induction false} LayMembersText(ms: List<Member>, level: Level, last: seq<byte>, tail: seq<byte>)
    requires ms.Cons?
    ensures MembersText(LayMembers(ms, level, last), tail) == Entries(ms, level, true) + (last + ([0x7d] + tail))
    decreases ms, 2
  {
    hide Line, Body, NameText, StringText, Space;
    var m, more, close := ms.head, Entries(ms.tail, level, false), last + ([0x7d] + tail);
    var after := if ms.tail.Nil? then close else [0x2c] + (Entries(ms.tail, level, true) + close);
    EntriesFirst(ms, level, close);
    if ms.tail.Nil? {
      assert more + close == close;
    } else {
      LayMembersText(ms.tail, level, last, tail);
      assert [] + after == after;
    }
    LayText(m.value, level, after);
    var rest := [0x3a] + (Space(level) + (Body(m.value, level) + after));
    StringLaid(m.name, rest);
    assert [] + rest == rest;
  }

  lemma EntriesFirst(ms: List<Member>, level: Level, close: seq<byte>)
    requires ms.Cons?
    ensures Entries(ms, level, true) + close
            == Line(level)
               + (StringText(ms.head.name)
                  + ([L.COLON]
                     + (Space(level) + (Body(ms.head.value, level) + (Entries(ms.tail, level, false) + close)))))
    ensures ms.tail.Cons? ==>
              Entries(ms.tail, level, false) + close == [L.COMMA] + (Entries(ms.tail, level, true) + close)
  {
    hide Line, Body, StringText;
    Regroup7(Line(level), StringText(ms.head.name), [L.COLON], Space(level), Body(ms.head.value, level),
             Entries(ms.tail, level, false), close);
    if ms.tail.Cons? {
      var m, rest := ms.tail.head, Entries(ms.tail.tail, level, false);
      SeparatorFirst(Line(level), StringText(m.name), [L.COLON], Space(level), Body(m.value, level), rest);
      ConcatAssociative([L.COMMA], Entries(ms.tail, level, true), close);
    }
  }

  lemma Regroup7(a: seq<byte>, b: seq<byte>, c: seq<byte>, d: seq<byte>, e: seq<byte>, f: seq<byte>, g: seq<byte>)
    ensures [] + a + b + c + d + e + f + g == a + (b + (c + (d + (e + (f + g)))))
  {
  }

  lemma SeparatorFirst(a: seq<byte>, b: seq<byte>, c: seq<byte>, d: seq<byte>, e: seq<byte>, f: seq<byte>)
    ensures [L.COMMA] + a + b + c + d + e + f == [L.COMMA] + ([] + a + b + c + d + e + f)
  {
  }

  lemma {:induction false} LayFits(v: Value, level: Level)
    requires WellFormed(v)
    ensures Fits(Lay(v, level)) && ValueOf(Lay(v, level)) == v
    decreases v, 1
  {
    hide Line, LastLine, ItemsFit, MembersFit, Lexeme, Insert, Ordered;
    LineIsSpace(level, false);
    match v {
      case Number(t) =>
        var n := NumeralFound(t);
      case String(s) =>
        UnitsSpell(s);
        StringLaid(s, []);
      case Array(es) =>
        if es.Cons? {
          LayItemsFit(es, Deeper(level), LastLine(level, false));
        }
      case Object(ms) =>
        if ms.Cons? {
          LayMembersFit(ms, Deeper(level), LastLine(level, false), Nil);
        }
      case _ =>
        WordSpelled(v);
    }
  }

  lemma WordSpelled(v: Value)
    requires v == Null || v == False || v == True
    ensures Fits(Lay(v, -1)) && forall level :: Lay(v, level) == Lay(v, -1)
  {
    assert NULL == [0x6e, 0x75, 0x6c, 0x6c] && FALSE == [0x66, 0x61, 0x6c, 0x73, 0x65];
    assert TRUE == [0x74, 0x72, 0x75, 0x65];
  }

  lemma {:induction false} LayItemsFit(es: List<Value>, level: Level, last: seq<byte>)
    requires es.Cons? && AllWellFormed(es) && PicoJsonGrammar.Gap(last)
    ensures ItemsFit(LayItems(es, level, last)) && ValuesOf(LayItems(es, level, last)) == es
    decreases es, 2
  {
    hide Line, Fits, Lay, WellFormed, ValueOf;
    LineIsSpace(level, false);
    LayFits(es.head, level);
    if es.tail.Cons? {
      LayItemsFit(es.tail, level, last);
    }
  }

  lemma {:induction false} LayMembersFit(ms: List<Member>, level: Level, last: seq<byte>, acc: List<Member>)
    requires ms.Cons? && MembersWellFormed(ms) && Ordered(Append(acc, ms)) && PicoJsonGrammar.Gap(last)
    ensures MembersFit(LayMembers(ms, level, last)) && Collected(LayMembers(ms, level, last), acc) == Append(acc, ms)
    decreases ms, 2
  {
    hide Line, Fits, Lay, WellFormed, ValueOf, Space, Insert, Ordered, UnitsOf;
    var m := ms.head;
    LineIsSpace(level, false);
    LayFits(m.value, level);
    UnitsSpell(m.name);
    InsertLast(acc, m, ms.tail);
    assert m == Member(m.name, m.value);
    if ms.tail.Cons? {
      LayMembersFit(ms.tail, level, last, Append(acc, Cons(m, Nil)));
    }
  }

  /** Parsing the text of a value gives the value back, in either layout, and
      stops right behind it. */
  lemma ValueRead(v: Value, level: Level, tail: seq<byte>)
    requires WellFormed(v) && Clear(tail)
    ensures ParseValue(Body(v, level) + tail) == Good(v, tail)
  {
    hide ParseValue, Fits, TextOf, Lay, Body, ValueOf, WellFormed;
    LayFits(v, level);
    LayText(v, level, tail);
    LaidRead([], Lay(v, level), tail);
    assert [] + (Body(v, level) + tail) == Body(v, level) + tail;
  }

  /** Parsing what was serialised, compact or spread out, gives the same value
      and consumes exactly its text; an outermost spread-out value leaves the
      end of its line. */
  lemma SerializedRead(v: Value, prettify: bool, tail: seq<byte>)
    requires WellFormed(v) && Clear(tail)
    ensures var level := if prettify then 0 else -1;
            ParseValue(Serialized(v, level) + tail) == Good(v, if prettify then [L.LINE_FEED] + tail else tail)
  {
    hide ParseValue, Body;
    var level: Level := if prettify then 0 else -1;
    var end := if prettify then [L.LINE_FEED] else [];
    ConcatAssociative(Body(v, level), end, tail);
    assert [] + tail == tail;
    ValueRead(v, level, end + tail);
  }

  // The layout, for the value {"a":[7]}.

  const SEVEN: Value := Number([0x37])
  const SEVENS: Value := Array(Cons(SEVEN, Nil))
  const EXAMPLE: Value := Object(Cons(Member([0x61], SEVENS), Nil))

  lemma LineOctets()
    ensures Line(-1) == [] && Line(0) == [10] && Line(1) == [10, 0x20, 0x20]
    ensures Line(2) == [10, 0x20, 0x20, 0x20, 0x20]
  {
    assert L.Blanks(1) == [0x20] + [] && L.Blanks(2) == [0x20] + L.Blanks(1);
    assert L.Blanks(3) == [0x20] + L.Blanks(2) && L.Blanks(4) == [0x20] + L.Blanks(3);
  }

  lemma ExampleText(level: Level)
    ensures var inner := Deeper(level);
            && Body(SEVENS, inner) == [0x5b] + (Line(Deeper(inner)) + [0x37]) + Line(inner) + [0x5d]
            && Body(EXAMPLE, level)
               == [0x7b] + (Line(inner) + [0x22, 0x61, 0x22] + [0x3a] + Space(level) + Body(SEVENS, inner))
                  + Line(level) + [0x7d]
  {
    hide Line, Deeper;
    var inner := Deeper(level);
    assert (inner == -1) == (level == -1) by { DeeperStays(level); }
    assert PicoJsonSpec.Items(Nil, Deeper(inner), false) == [] && Entries(Nil, inner, false) == [];
    assert StringText([0x61]) == [0x22, 0x61, 0x22] by {
      assert CharsText([0x61]) == [0x61] + CharsText([]) && [0x61][1..] == [];
    }
    assert PicoJsonSpec.Items(SEVENS.elements, Deeper(inner), true) == Line(Deeper(inner)) + [0x37];
    assert Entries(EXAMPLE.members, inner, true)
           == Line(inner) + [0x22, 0x61, 0x22] + [0x3a] + Space(level) + Body(SEVENS, inner);
  }

  lemma DeeperStays(level: Level)
    ensures (Deeper(level) == -1) == (level == -1) && Deeper(level) == if level == -1 then -1 else level + 1
  {
  }

  /** {"a":[7]} on one line. */
  lemma CompactOctets()
    ensures Serialized(EXAMPLE, -1) == [0x7b, 0x22, 0x61, 0x22, 0x3a, 0x5b, 0x37, 0x5d, 0x7d]
  {
    hide Line, Deeper, Body;
    LineOctets();
    ExampleText(-1);
    DeeperStays(-1);
    assert Body(EXAMPLE, -1) + [] == Body(EXAMPLE, -1);
  }

  /** Spread out with two blanks for each block and a line end behind it. */
  lemma LayoutOctets()
    ensures Serialized(EXAMPLE, 0)
            == [0x7b, 10, 0x20, 0x20, 0x22, 0x61, 0x22, 0x3a, 0x20, 0x5b, 10, 0x20, 0x20, 0x20, 0x20, 0x37,
                10, 0x20, 0x20, 0x5d, 10, 0x7d, 10]
  {
    hide Line, Deeper, Body;
    LineOctets();
    ExampleText(0);
    DeeperStays(0);
    DeeperStays(1);
    assert Body(SEVENS, 1) == [0x5b, 10, 0x20, 0x20, 0x20, 0x20, 0x37, 10, 0x20, 0x20, 0x5d];
  }

  /** Nothing stands between empty brackets. */
  lemma EmptyOctets(level: Level)
    ensures Body(Array(Nil), level) == [0x5b, 0x5d] && Body(Object(Nil), level) == [0x7b, 0x7d]
  {
    NoLine(level);
  }

  // What any text is read as.

  lemma {:induction false} InsertOrdered(ms: List<Member>, m: Member)
    requires Ordered(ms)
    ensures Ordered(Insert(ms, m))
  {
    if ms.Cons? {
      BeforeIsStrict(m.name, ms.head.name);
      InsertOrdered(ms.tail, m);
    }
  }

  lemma {:induction false} InsertWellFormed(ms: List<Member>, m: Member)
    requires MembersWellFormed(ms) && WellFormed(m.value)
    ensures MembersWellFormed(Insert(ms, m))
  {
    if ms.Cons? {
      InsertWellFormed(ms.tail, m);
    }
  }

  lemma NumberWellFormed(r: seq<byte>)
    requires r != [] && (IsDigit(r[0]) || r[0] == 0x2d) && TakenWhole(r[..NumberSpan(r)])
    ensures Lexeme(r[..NumberSpan(r)])
  {
    hide TakenWhole;
  }

  /** Whatever text is accepted, the value read from it is well formed: members
      in order, no name twice. */
  lemma {:induction false} ParsedWellFormed(text: seq<byte>)
    ensures ParseValue(text).Good? ==> WellFormed(ParseValue(text).value)
    decreases |text|, 0
  {
    hide TakenWhole, Chars, SkipSpace, ParseItems, ParseEntries, Lexeme;
    var r := SkipSpace(text);
    if r != [] && (IsDigit(r[0]) || r[0] == 0x2d) {
      if TakenWhole(r[..NumberSpan(r)]) {
        NumberWellFormed(r);
      }
    } else if r != [] && r[0] == L.OPEN_ARRAY {
      ItemsWellFormed(SkipSpace(r[1..]));
    } else if r != [] && r[0] == L.OPEN_OBJECT {
      EntriesWellFormed(SkipSpace(r[1..]), Nil);
    }
  }

  lemma {:induction false} ItemsWellFormed(r: seq<byte>)
    ensures ParseItems(r).Good? ==> AllWellFormed(ParseItems(r).value)
    decreases |r|, 1
  {
    hide ParseValue, SkipSpace, WellFormed;
    ParsedWellFormed(r);
    if ParseValue(r).Good? {
      var s := SkipSpace(ParseValue(r).rest);
      if s != [] && s[0] == L.COMMA {
        ItemsWellFormed(s[1..]);
      }
    }
  }

  lemma {:induction false} EntriesWellFormed(r: seq<byte>, ms: List<Member>)
    requires Ordered(ms) && MembersWellFormed(ms)
    ensures ParseEntries(r, ms).Good? ==>
              Ordered(ParseEntries(r, ms).value) && MembersWellFormed(ParseEntries(r, ms).value)
    decreases |r|, 1
  {
    hide ParseValue, ParseName, SkipSpace, WellFormed, Ordered, Insert;
    if ParseName(r).Good? {
      var r1 := ParseName(r).rest;
      ParsedWellFormed(r1);
      if ParseValue(r1).Good? {
        var m := Member(ParseName(r).value, ParseValue(r1).value);
        InsertOrdered(ms, m);
        InsertWellFormed(ms, m);
        var s := SkipSpace(ParseValue(r1).rest);
        if s != [] && s[0] == L.COMMA {
          EntriesWellFormed(s[1..], Insert(ms, m));
        }
      }
    }
  }

  /** Serialising what was read from any text and reading that again gives the
      same value. */
  lemma ReadsAgain(text: seq<byte>, prettify: bool)
    ensures var q := ParseValue(text);
            q.Good? ==> ParseValue(Serialized(q.value, if prettify then 0 else -1)).Good?
                        && ParseValue(Serialized(q.value, if prettify then 0 else -1)).value == q.value
  {
    hide ParseValue, Serialized;
    var q := ParseValue(text);
    if q.Good? {
      ParsedWellFormed(text);
      SerializedRead(q.value, prettify, []);
      var t := Serialized(q.value, if prettify then 0 else -1);
      assert t + [] == t;
    }
  }
}
