/** Whole JSON texts with white space anywhere between their tokens: what the
    tree library makes of them, and that it accepts no others. */
module PicoJsonLayouts {
  import opened Bytes
  import opened JsonTrees
  import opened PicoJsonSpec
  import opened PicoJsonGrammar

  /** A text, by its structure and its white space. */
  datatype Laid =
    | Plain(text: seq<byte>, value: Value)
    | NoItems(gap: seq<byte>)
    | NoMembers(gap: seq<byte>)
    | LaidArray(items: Items)
    | LaidObject(members: Members)

  datatype Items =
    | LastItem(before: seq<byte>, item: Laid, after: seq<byte>)
    | OneItem(before: seq<byte>, item: Laid, after: seq<byte>, more: Items)

  datatype Members =
    | LastMember(before: seq<byte>, name: seq<Unit>, gap: seq<byte>, space: seq<byte>, item: Laid, after: seq<byte>)
    | OneMember(before: seq<byte>, name: seq<Unit>, gap: seq<byte>, space: seq<byte>, item: Laid, after: seq<byte>,
                more: Members)

  /** The text itself, with something behind it. */
  function TextOf(l: Laid, tail: seq<byte>): seq<byte>
    decreases l
  {
    match l
    case Plain(text, _) => text + tail
    case NoItems(gap) => [0x5b] + (gap + ([0x5d] + tail))
    case NoMembers(gap) => [0x7b] + (gap + ([0x7d] + tail))
    case LaidArray(items) => [0x5b] + ItemsText(items, tail)
    case LaidObject(members) => [0x7b] + MembersText(members, tail)
  }

  function ItemsText(items: Items, tail: seq<byte>): seq<byte>
    decreases items
  {
    items.before + TextOf(items.item, items.after + match items
                                                    case LastItem(_, _, _) => [0x5d] + tail
                                                    case OneItem(_, _, _, more) => [0x2c] + ItemsText(more, tail))
  }

  function MembersText(ms: Members, tail: seq<byte>): seq<byte>
    decreases ms
  {
    ms.before + NameText(ms.name, ms.gap + ([0x3a] + (ms.space + TextOf(ms.item, ms.after + match ms
      case LastMember(_, _, _, _, _, _) => [0x7d] + tail
      case OneMember(_, _, _, _, _, _, more) => [0x2c] + MembersText(more, tail)))))
  }

  function NameText(name: seq<Unit>, tail: seq<byte>): seq<byte> {
    [0x22] + (Texts(name) + ([0x22] + tail))
  }

  /** What it stands for. */
  function ValueOf(l: Laid): Value {
    match l
    case Plain(_, value) => value
    case NoItems(_) => Array(Nil)
    case NoMembers(_) => Object(Nil)
    case LaidArray(items) => Array(ValuesOf(items))
    case LaidObject(members) => Object(Collected(members, Nil))
  }

  function ValuesOf(items: Items): List<Value> {
    Cons(ValueOf(items.item), if items.LastItem? then Nil else ValuesOf(items.more))
  }

  function Collected(ms: Members, before: List<Member>): List<Member> {
    var all := Insert(before, Member(Stand(ms.name), ValueOf(ms.item)));
    if ms.LastMember? then all else Collected(ms.more, all)
  }

  ghost predicate SpelledAs(text: seq<byte>, v: Value) {
    match v
    case Null => text == [0x6e, 0x75, 0x6c, 0x6c]
    case True => text == [0x74, 0x72, 0x75, 0x65]
    case False => text == [0x66, 0x61, 0x6c, 0x73, 0x65]
    case Number(lexeme) => text == lexeme && exists n :: IsNumeral(n) && NumeralText(n) == text
    case String(chars) => exists xs :: AllSpell(xs) && Stand(xs) == chars && NameText(xs, []) == text
    case _ => false
  }

  ghost predicate Fits(l: Laid) {
    match l
    case Plain(text, value) => SpelledAs(text, value)
    case NoItems(gap) => Gap(gap)
    case NoMembers(gap) => Gap(gap)
    case LaidArray(items) => ItemsFit(items)
    case LaidObject(members) => MembersFit(members)
  }

  ghost predicate ItemsFit(items: Items) {
    Gap(items.before) && Fits(items.item) && Gap(items.after) && (items.OneItem? ==> ItemsFit(items.more))
  }

  ghost predicate MembersFit(ms: Members) {
    && Gap(ms.before) && AllSpell(ms.name) && Gap(ms.gap) && Gap(ms.space) && Fits(ms.item) && Gap(ms.after)
    && (ms.OneMember? ==> MembersFit(ms.more))
  }

  /** A number has to end before what follows. */
  predicate Ends(l: Laid, tail: seq<byte>) {
    l.Plain? && l.value.Number? && tail != [] ==>
      !(0x30 <= tail[0] <= 0x39) && tail[0] !in {0x2b, 0x2d, 0x2e, 0x45, 0x65}
  }

  // Scalars.

  lemma {:induction false} NumberSpanOf(t: seq<byte>, tail: seq<byte>)
    requires tail == [] || !NumberChar(tail[0])
    requires forall i :: 0 <= i < |t| ==> NumberChar(t[i])
    ensures NumberSpan(t + tail) == |t|
  {
    if t == [] {
      assert t + tail == tail;
    } else {
      assert (t + tail)[1..] == t[1..] + tail;
      NumberSpanOf(t[1..], tail);
    }
  }

  lemma NumberRead(t: seq<byte>, tail: seq<byte>)
    requires Lexeme(t) && (tail == [] || !NumberChar(tail[0]))
    ensures ParseValue(t + tail) == Good(Number(t), tail)
  {
    hide TakenWhole;
    var r := t + tail;
    NumberSpanOf(t, tail);
    assert r[0] == t[0] && r[..|t|] == t && r[|t|..] == tail;
    NothingSkipped(r);
  }

  lemma WordRead(text: seq<byte>, v: Value, tail: seq<byte>)
    requires SpelledAs(text, v) && (v == Null || v == False || v == True)
    ensures ParseValue(text + tail) == Good(v, tail)
  {
    assert NULL == [0x6e, 0x75, 0x6c, 0x6c] && FALSE == [0x66, 0x61, 0x6c, 0x73, 0x65];
    assert TRUE == [0x74, 0x72, 0x75, 0x65];
    var r := text + tail;
    assert r[0] == text[0] && r[..|text|] == text && r[|text|..] == tail;
    NothingSkipped(r);
  }

  lemma StringRead(xs: seq<Unit>, tail: seq<byte>)
    requires AllSpell(xs)
    ensures ParseValue(NameText(xs, tail)) == Good(String(Stand(xs)), tail)
  {
    hide Chars, AllSpell;
    var r := NameText(xs, tail);
    UnitsRead(xs, tail);
    assert r[1..] == Texts(xs) + ([0x22] + tail);
    NothingSkipped(r);
  }

  lemma PlainRead(text: seq<byte>, v: Value, tail: seq<byte>)
    requires SpelledAs(text, v) && Ends(Plain(text, v), tail)
    ensures ParseValue(text + tail) == Good(v, tail)
  {
    hide ParseValue, IsNumeral, NumeralText, Lexeme;
    match v {
      case Number(_) =>
        var n :| IsNumeral(n) && NumeralText(n) == text;
        NumeralTaken(n);
        NumberRead(text, tail);
      case String(chars) =>
        var xs :| AllSpell(xs) && Stand(xs) == chars && NameText(xs, []) == text;
        StringRead(xs, tail);
        NameBefore(xs, tail);
      case _ =>
        WordRead(text, v, tail);
    }
  }

  lemma NameBefore(xs: seq<Unit>, tail: seq<byte>)
    ensures NameText(xs, []) + tail == NameText(xs, tail)
  {
    assert [0x22] + (Texts(xs) + ([0x22] + [])) + tail == [0x22] + (Texts(xs) + ([0x22] + tail));
  }

  // White space in front.

  lemma SpaceIgnored(sp: seq<byte>, r: seq<byte>)
    requires Gap(sp)
    ensures ParseValue(sp + r) == ParseValue(r)
  {
    hide SkipSpace, Word, Chars, ParseArray, ParseObject, TakenWhole, NumberSpan;
    GapSkipped(sp, r);
  }

  /** Nothing else below 0x20 may stand in front of a value. */
  lemma OthersRefused(c: byte, r: seq<byte>)
    requires c < 0x20 && c !in {9, 10, 13}
    ensures ParseValue([c] + r) == Bad
  {
    NothingSkipped([c] + r);
  }

  lemma Begins(l: Laid, tail: seq<byte>)
    requires Fits(l)
    ensures var r := TextOf(l, tail); r != [] && r[0] !in {0x20, 9, 10, 13, 0x5d} && SkipSpace(r) == r
  {
    if l.Plain? {
      PlainBegins(l.text, l.value);
    }
    NothingSkipped(TextOf(l, tail));
  }

  lemma PlainBegins(text: seq<byte>, v: Value)
    requires SpelledAs(text, v)
    ensures text != [] && text[0] !in {0x20, 9, 10, 13, 0x5d}
  {
    if v.Number? {
      var n :| IsNumeral(n) && NumeralText(n) == text;
      NumeralTaken(n);
    }
  }

  // Structure.

  /** Any text laid out so is read back as what it stands for, with any white
      space in front, and reading stops right behind it. */
  lemma {:induction false} LaidRead(sp: seq<byte>, l: Laid, tail: seq<byte>)
    requires Gap(sp) && Fits(l) && Ends(l, tail)
    ensures ParseValue(sp + TextOf(l, tail)) == Good(ValueOf(l), tail)
    decreases l, 1
  {
    SpaceIgnored(sp, TextOf(l, tail));
    hide ParseValue, SpelledAs, ItemsText, MembersText;
    match l {
      case Plain(text, value) => PlainRead(text, value, tail);
      case NoItems(gap) => NothingRead(l, tail);
      case NoMembers(gap) => NothingRead(l, tail);
      case LaidArray(items) => ArrayRead(items, tail);
      case LaidObject(members) => ObjectRead(members, tail);
    }
  }

  lemma NothingRead(l: Laid, tail: seq<byte>)
    requires (l.NoItems? || l.NoMembers?) && Fits(l)
    ensures ParseValue(TextOf(l, tail)) == Good(ValueOf(l), tail)
  {
    hide SkipSpace, ParseItems, ParseEntries;
    var r := TextOf(l, tail);
    NothingSkipped(r);
    var close := [if l.NoItems? then 0x5d else 0x7d] + tail;
    assert r[1..] == l.gap + close && close[1..] == tail;
    GapSkipped(l.gap, close);
    NothingSkipped(close);
  }

  lemma ArrayRead(items: Items, tail: seq<byte>)
    requires ItemsFit(items)
    ensures ParseValue(TextOf(LaidArray(items), tail)) == Good(Array(ValuesOf(items)), tail)
    decreases items, 2
  {
    hide ParseItems, SkipSpace, ValuesOf;
    var r, t := TextOf(LaidArray(items), tail), ItemsText(items, tail);
    NothingSkipped(r);
    assert r[1..] == t;
    ItemsRead(items, tail);
    FirstItem(items, tail);
    ParseItemsSkips(t);
  }

  lemma FirstItem(items: Items, tail: seq<byte>)
    requires ItemsFit(items)
    ensures SkipSpace(ItemsText(items, tail)) != [] && SkipSpace(ItemsText(items, tail))[0] != 0x5d
  {
    hide SkipSpace, Fits;
    var rest := items.after + match items
                              case LastItem(_, _, _) => [0x5d] + tail
                              case OneItem(_, _, _, more) => [0x2c] + ItemsText(more, tail);
    Begins(items.item, rest);
    GapSkipped(items.before, TextOf(items.item, rest));
  }

  lemma ParseItemsSkips(t: seq<byte>)
    ensures ParseItems(SkipSpace(t)) == ParseItems(t)
  {
    hide ParseValue, SkipSpace;
    ValueSkips(t);
  }

  lemma ValueSkips(t: seq<byte>)
    ensures ParseValue(SkipSpace(t)) == ParseValue(t)
  {
    var sp := GapFound(t);
    SpaceIgnored(sp, SkipSpace(t));
  }

  lemma {:induction false} ItemsRead(items: Items, tail: seq<byte>)
    requires ItemsFit(items)
    ensures ParseItems(ItemsText(items, tail)) == Good(ValuesOf(items), tail)
    decreases items, 1
  {
    hide ParseValue, SkipSpace, Fits;
    var next := match items
                case LastItem(_, _, _) => [0x5d] + tail
                case OneItem(_, _, _, more) => [0x2c] + ItemsText(more, tail);
    AfterValue(items.item, items.after, next);
    LaidRead(items.before, items.item, items.after + next);
    if items.OneItem? {
      ItemsRead(items.more, tail);
      assert next[1..] == ItemsText(items.more, tail);
    } else {
      assert next[1..] == tail;
    }
  }

  lemma AfterValue(l: Laid, after: seq<byte>, next: seq<byte>)
    requires Gap(after) && next != [] && next[0] in {0x2c, 0x5d, 0x7d}
    ensures Ends(l, after + next) && SkipSpace(after + next) == next
  {
    GapSkipped(after, next);
    NothingSkipped(next);
    assert after != [] ==> (after + next)[0] == after[0];
  }

  lemma ObjectRead(ms: Members, tail: seq<byte>)
    requires MembersFit(ms)
    ensures ParseValue(TextOf(LaidObject(ms), tail)) == Good(Object(Collected(ms, Nil)), tail)
    decreases ms, 2
  {
    hide ParseEntries, SkipSpace, Collected;
    var r, t := TextOf(LaidObject(ms), tail), MembersText(ms, tail);
    NothingSkipped(r);
    assert r[1..] == t;
    MembersRead(ms, Nil, tail);
    FirstMember(ms, tail);
  }

  function Behind(ms: Members, tail: seq<byte>): seq<byte> {
    match ms
    case LastMember(_, _, _, _, _, _) => [0x7d] + tail
    case OneMember(_, _, _, _, _, _, more) => [0x2c] + MembersText(more, tail)
  }

  lemma FirstMember(ms: Members, tail: seq<byte>)
    requires MembersFit(ms)
    ensures var t := MembersText(ms, tail);
            && SkipSpace(t) != [] && SkipSpace(t)[0] != 0x7d
            && ParseEntries(SkipSpace(t), Nil) == ParseEntries(t, Nil)
  {
    hide SkipSpace, Fits, ParseValue, ParseName, NameText;
    NameRead(ms.before, ms.name, ms.gap, ms.space + TextOf(ms.item, ms.after + Behind(ms, tail)));
  }

  lemma NameRead(before: seq<byte>, name: seq<Unit>, gap: seq<byte>, rest: seq<byte>)
    requires Gap(before) && AllSpell(name) && Gap(gap)
    ensures var q := NameText(name, gap + ([0x3a] + rest));
            && ParseName(before + q) == Good(Stand(name), rest) == ParseName(q)
            && SkipSpace(before + q) == q && q != [] && q[0] == 0x22
  {
    hide SkipSpace, Chars;
    var colon := [0x3a] + rest;
    var q := NameText(name, gap + colon);
    GapSkipped(before, q);
    NothingSkipped(q);
    assert q[1..] == Texts(name) + ([0x22] + (gap + colon));
    UnitsRead(name, gap + colon);
    GapSkipped(gap, colon);
    NothingSkipped(colon);
    assert colon[1..] == rest;
  }

  lemma {:induction false} MembersRead(ms: Members, acc: List<Member>, tail: seq<byte>)
    requires MembersFit(ms)
    ensures ParseEntries(MembersText(ms, tail), acc) == Good(Collected(ms, acc), tail)
    decreases ms, 1
  {
    hide ParseValue, SkipSpace, Fits, ParseName, NameText;
    var next := Behind(ms, tail);
    NameRead(ms.before, ms.name, ms.gap, ms.space + TextOf(ms.item, ms.after + next));
    AfterValue(ms.item, ms.after, next);
    LaidRead(ms.space, ms.item, ms.after + next);
    if ms.OneMember? {
      MembersRead(ms.more, Insert(acc, Member(Stand(ms.name), ValueOf(ms.item))), tail);
      assert next[1..] == MembersText(ms.more, tail);
    } else {
      assert next[1..] == tail;
    }
  }

  // No other text is accepted.

  /** Whatever is accepted is such a text. */
  lemma {:induction false} Found(text: seq<byte>) returns (sp: seq<byte>, l: Laid)
    requires ParseValue(text).Good?
    ensures var q := ParseValue(text);
            && Gap(sp) && Fits(l) && Ends(l, q.rest) && text == sp + TextOf(l, q.rest) && ValueOf(l) == q.value
    decreases |text|, 1
  {
    hide TakenWhole, Chars, NumberSpan, ParseItems, ParseEntries, SkipSpace;
    sp := GapFound(text);
    var r, q := SkipSpace(text), ParseValue(text);
    NothingSkipped(r);
    if r[0] == 0x5b {
      l := ArrayFound(r);
    } else if r[0] == 0x7b {
      l := ObjectFound(r);
    } else if IsDigit(r[0]) || r[0] == 0x2d {
      l := NumberFound(r);
    } else if r[0] == 0x22 {
      l := StringFound(r);
    } else {
      l := WordFound(r);
    }
  }

  lemma WordFound(r: seq<byte>) returns (l: Laid)
    requires r != [] && r[0] in {0x6e, 0x66, 0x74} && SkipSpace(r) == r && ParseValue(r).Good?
    ensures Fits(l) && l.Plain? && r == TextOf(l, ParseValue(r).rest) && ValueOf(l) == ParseValue(r).value
    ensures !l.value.Number?
  {
    assert NULL == [0x6e, 0x75, 0x6c, 0x6c] && FALSE == [0x66, 0x61, 0x6c, 0x73, 0x65];
    assert TRUE == [0x74, 0x72, 0x75, 0x65];
    var v := ParseValue(r).value;
    l := Plain(if v == Null then NULL else if v == True then TRUE else FALSE, v);
  }

  lemma StringFound(r: seq<byte>) returns (l: Laid)
    requires r != [] && r[0] == 0x22 && SkipSpace(r) == r && ParseValue(r).Good?
    ensures Fits(l) && l.Plain? && r == TextOf(l, ParseValue(r).rest) && ValueOf(l) == ParseValue(r).value
    ensures !l.value.Number?
  {
    hide Chars, AllSpell;
    var xs := UnitsFound(r[1..]);
    var rest := ParseValue(r).rest;
    l := Plain(NameText(xs, []), String(Stand(xs)));
    NameBefore(xs, rest);
    assert r == [0x22] + r[1..];
  }

  lemma NumberFound(r: seq<byte>) returns (l: Laid)
    requires r != [] && (IsDigit(r[0]) || r[0] == 0x2d) && SkipSpace(r) == r && ParseValue(r).Good?
    ensures Fits(l) && l.Plain? && r == TextOf(l, ParseValue(r).rest) && ValueOf(l) == ParseValue(r).value
    ensures Ends(l, ParseValue(r).rest)
  {
    hide TakenWhole, IsNumeral, NumeralText;
    var k := NumberSpan(r);
    SpanFound(r);
    var n := NumeralFound(r[..k]);
    l := Plain(r[..k], Number(r[..k]));
    assert r == r[..k] + r[k..];
  }

  lemma {:induction false} SpanFound(r: seq<byte>)
    ensures forall i :: 0 <= i < NumberSpan(r) ==> NumberChar(r[i])
    ensures NumberSpan(r) < |r| ==> !NumberChar(r[NumberSpan(r)])
    ensures r != [] && NumberChar(r[0]) ==> NumberSpan(r) > 0
  {
    if r != [] && NumberChar(r[0]) {
      SpanFound(r[1..]);
    }
  }

  lemma {:induction false} ArrayFound(r: seq<byte>) returns (l: Laid)
    requires r != [] && r[0] == 0x5b && SkipSpace(r) == r && ParseValue(r).Good?
    ensures Fits(l) && !l.Plain? && r == TextOf(l, ParseValue(r).rest) && ValueOf(l) == ParseValue(r).value
    decreases |r|, 0
  {
    hide ParseItems, SkipSpace;
    var t, q := r[1..], ParseValue(r);
    var gap := GapFound(t);
    var s := SkipSpace(t);
    assert r == [0x5b] + t;
    if s != [] && s[0] == 0x5d {
      l := NoItems(gap);
      assert s == [0x5d] + q.rest;
    } else {
      ParseItemsSkips(t);
      var items := ItemsFound(t);
      l := LaidArray(items);
    }
  }

  lemma {:induction false} ItemsFound(r: seq<byte>) returns (items: Items)
    requires ParseItems(r).Good?
    ensures ItemsFit(items) && r == ItemsText(items, ParseItems(r).rest) && ValuesOf(items) == ParseItems(r).value
    decreases |r|, 2
  {
    hide ParseValue, SkipSpace, Fits;
    var before, item := Found(r);
    var r1 := ParseValue(r).rest;
    var after := GapFound(r1);
    var s := SkipSpace(r1);
    if s[0] == 0x2c {
      var more := ItemsFound(s[1..]);
      items := OneItem(before, item, after, more);
      assert s == [0x2c] + s[1..];
    } else {
      items := LastItem(before, item, after);
      assert s == [0x5d] + s[1..];
    }
  }

  lemma {:induction false} ObjectFound(r: seq<byte>) returns (l: Laid)
    requires r != [] && r[0] == 0x7b && SkipSpace(r) == r && ParseValue(r).Good?
    ensures Fits(l) && !l.Plain? && r == TextOf(l, ParseValue(r).rest) && ValueOf(l) == ParseValue(r).value
    decreases |r|, 0
  {
    hide ParseEntries, SkipSpace;
    var t, q := r[1..], ParseValue(r);
    var gap := GapFound(t);
    var s := SkipSpace(t);
    assert r == [0x7b] + t;
    if s != [] && s[0] == 0x7d {
      l := NoMembers(gap);
      assert s == [0x7d] + q.rest;
    } else {
      EntriesSkip(t, Nil);
      var ms := MembersFound(t, Nil);
      l := LaidObject(ms);
    }
  }

  lemma EntriesSkip(t: seq<byte>, acc: List<Member>)
    ensures ParseEntries(SkipSpace(t), acc) == ParseEntries(t, acc)
  {
    hide ParseValue, SkipSpace, Chars;
    var sp := GapFound(t);
    NothingSkipped(SkipSpace(t));
  }

  lemma NameFound(r: seq<byte>) returns (before: seq<byte>, name: seq<Unit>, gap: seq<byte>)
    requires ParseName(r).Good?
    ensures Gap(before) && AllSpell(name) && Gap(gap) && Stand(name) == ParseName(r).value
    ensures r == before + NameText(name, gap + ([0x3a] + ParseName(r).rest))
  {
    hide SkipSpace, Chars, AllSpell;
    before := GapFound(r);
    var s := SkipSpace(r);
    name := UnitsFound(s[1..]);
    var r1 := Chars(s[1..]).rest;
    gap := GapFound(r1);
    var s1 := SkipSpace(r1);
    assert s == [0x22] + s[1..] && s1 == [0x3a] + s1[1..];
  }

  lemma {:induction false} MembersFound(r: seq<byte>, acc: List<Member>) returns (ms: Members)
    requires ParseEntries(r, acc).Good?
    ensures MembersFit(ms) && r == MembersText(ms, ParseEntries(r, acc).rest)
    ensures Collected(ms, acc) == ParseEntries(r, acc).value
    decreases |r|, 2
  {
    hide ParseValue, SkipSpace, Fits, ParseName, NameText;
    var before, name, gap := NameFound(r);
    var r1 := ParseName(r).rest;
    var space, item := Found(r1);
    var r2 := ParseValue(r1).rest;
    var after := GapFound(r2);
    var s := SkipSpace(r2);
    if s[0] == 0x2c {
      var more := MembersFound(s[1..], Insert(acc, Member(Stand(name), ValueOf(item))));
      ms := OneMember(before, name, gap, space, item, after, more);
      assert s == [0x2c] + s[1..];
    } else {
      ms := LastMember(before, name, gap, space, item, after);
      assert s == [0x7d] + s[1..];
    }
  }

  /** The texts the library accepts are these and no others. */
  lemma AcceptedIff(text: seq<byte>)
    ensures ParseValue(text).Good? <==>
            exists sp, l, tail :: Gap(sp) && Fits(l) && Ends(l, tail) && text == sp + TextOf(l, tail)
  {
    hide ParseValue, TextOf, Fits, Ends, Gap;
    if ParseValue(text).Good? {
      var sp, l := Found(text);
      assert text == sp + TextOf(l, ParseValue(text).rest);
    }
    if sp, l, tail :| Gap(sp) && Fits(l) && Ends(l, tail) && text == sp + TextOf(l, tail) {
      LaidRead(sp, l, tail);
    }
  }

  // Members of one name.

  function Named(ms: List<Member>, name: seq<byte>): Option<Value> {
    match ms
    case Nil => None
    case Cons(m, more) => if m.name == name then Some(m.value) else Named(more, name)
  }

  /** The last of the members called so in the text. */
  function LastNamed(ms: Members, name: seq<byte>): Option<Value> {
    if ms.OneMember? && LastNamed(ms.more, name).Some? then LastNamed(ms.more, name)
    else if Stand(ms.name) == name then Some(ValueOf(ms.item))
    else None
  }

  lemma {:induction false} InsertNamed(ms: List<Member>, m: Member, name: seq<byte>)
    ensures Named(Insert(ms, m), name) == if m.name == name then Some(m.value) else Named(ms, name)
  {
    if ms.Cons? {
      InsertNamed(ms.tail, m, name);
    }
  }

  /** Of members of one name the last one stays. */
  lemma {:induction false} LastStays(ms: Members, before: List<Member>, name: seq<byte>)
    ensures Named(Collected(ms, before), name)
            == if LastNamed(ms, name).Some? then LastNamed(ms, name) else Named(before, name)
    decreases ms
  {
    hide Stand, ValueOf;
    var m := Member(Stand(ms.name), ValueOf(ms.item));
    InsertNamed(before, m, name);
    if ms.OneMember? {
      LastStays(ms.more, Insert(before, m), name);
    }
  }
}
