/** What the streaming reader refuses and when it ends, for any text, and what
    the writer's text looks like, octet by octet. */
module JsonReaderLaws {
  import opened Bytes
  import opened JsonStrings
  import opened JsonLayout
  import opened JsonMachine
  import opened JsonEvents
  import opened JsonLaid
  import J = JsonTrees

  /** A text that goes on with something other than white space. */
  predicate Solid(r: seq<byte>) {
    r != [] && r[0] !in {0x20, 9, 10, 11, 12, 13}
  }

  lemma SolidFirst(gap: seq<byte>, r: seq<byte>)
    requires Gap(gap) && Solid(r)
    ensures DropSpace(gap + r) == r
  {
    hide DropSpace;
    GapIsSpace(gap);
    DropSpaces(gap, r);
    NoLeadingSpace(r);
  }

  /** The end is reported exactly when nothing but white space is left. */
  lemma EndIff(m: Machine)
    ensures Next(m) == End <==> DropSpace(m.rest) == []
    ensures Gap(m.rest) <==> DropSpace(m.rest) == []
  {
    hide AtValue, PopThrough, Push, Pop, IsValue;
    AnythingElse();
    AllDropped(m.rest);
  }

  lemma AnythingElse()
    ensures forall m :: AtValue(m) != End
  {
    hide StringBody, DropSpace, Push, Open;
  }

  lemma {:induction false} AllDropped(r: seq<byte>)
    ensures Gap(r) <==> DropSpace(r) == []
  {
    if r != [] {
      AllDropped(r[1..]);
      assert r == [r[0]] + r[1..];
      assert Gap(r) <==> IsSpace(r[0]) && Gap(r[1..]);
    }
  }

  /** A number or a word may stand only in an array or behind a key. */
  lemma ScalarRefused(m: Machine, gap: seq<byte>, r: seq<byte>)
    requires Gap(gap) && Solid(r) && m.rest == gap + r && r[0] !in {0x22, 0x2c, 0x5b, 0x5d, 0x7b, 0x7d}
    requires m.Top() != Key && !m.isArray
    ensures Next(m) == Failed
  {
    hide DropSpace;
    SolidFirst(gap, r);
  }

  /** Of words only null, false and true are taken. */
  lemma WordRefused(m: Machine, gap: seq<byte>, r: seq<byte>)
    requires Gap(gap) && Solid(r) && m.rest == gap + r
    requires 0x41 <= r[0] <= 0x5a || (0x61 <= r[0] <= 0x7a && r[0] != 0x65) || r[0] == 0x5f
    requires r[0] != 0x45
    requires var w := r[..SymbolSpan(r)];
             w != [0x6e, 0x75, 0x6c, 0x6c] && w != [0x66, 0x61, 0x6c, 0x73, 0x65] && w != [0x74, 0x72, 0x75, 0x65]
    ensures Next(m) == Failed
  {
    hide DropSpace, SymbolSpan, Constant, StringBody, Open, Push, PopThrough, AtScalar;
    UnknownWord(r[..SymbolSpan(r)]);
    SolidFirst(gap, r);
    NoLeadingSpace(r);
    ScalarUnknown(m.(rest := r));
  }

  lemma UnknownWord(w: seq<byte>)
    requires w != [0x6e, 0x75, 0x6c, 0x6c] && w != [0x66, 0x61, 0x6c, 0x73, 0x65] && w != [0x74, 0x72, 0x75, 0x65]
    ensures Constant(w) == State.None
  {
    assert J.NULL == [0x6e, 0x75, 0x6c, 0x6c] && J.FALSE == [0x66, 0x61, 0x6c, 0x73, 0x65];
    assert J.TRUE == [0x74, 0x72, 0x75, 0x65];
  }

  lemma ScalarUnknown(m: Machine)
    requires m.rest != [] && DropSpace(m.rest) == m.rest && !NumberChar(m.rest[0])
    requires Constant(m.rest[..SymbolSpan(m.rest)]) == State.None
    ensures AtScalar(m) == Failed
  {
    hide DropSpace, SymbolSpan, Constant;
  }

  /** An array has no keys. */
  lemma KeyRefused(m: Machine, gap: seq<byte>, chars: seq<byte>, colon: seq<byte>, r: seq<byte>)
    requires Gap(gap) && Gap(colon) && m.isArray && m.Top() != Key
    requires m.rest == gap + (Quoted(chars) + (colon + ([0x3a] + r)))
    ensures Next(m) == Failed
  {
    hide DropSpace, StringBody, Quoted, Clean;
    var rest := colon + ([0x3a] + r);
    StringRoundTrip(chars, rest);
    SolidFirst(gap, Quoted(chars) + rest);
    SolidFirst(colon, [0x3a] + r);
  }

  /** A comma right behind a key stands for null. */
  lemma BareKey(m: Machine, gap: seq<byte>, r: seq<byte>)
    requires Gap(gap) && m.rest == gap + ([0x2c] + r) && m.Top() == Key && !m.isArray
    ensures Next(m).Event? && Seen(Next(m).m) == Happening(Null, m.key, m.text, m.depth) && Next(m).m.rest == r
  {
    hide DropSpace;
    SolidFirst(gap, [0x2c] + r);
    assert ([0x2c] + r)[1..] == r;
  }

  /** Numbers in an array need no comma between them. */
  lemma MissingComma(m: Machine, gap: seq<byte>, lexeme: seq<byte>, r: seq<byte>)
    requires m.isArray && Gap(gap) && gap != [] && Lexeme(lexeme) && m.rest == gap + (lexeme + r)
    requires r != [] && !NumberChar(r[0]) && !Replaced(m.Top())
    ensures Next(m).Event? && Seen(Next(m).m) == Happening(Number, [], lexeme, m.depth) && Next(m).m.rest == r
  {
    hide DropSpace;
    assert NumberChar(lexeme[0]);
    SolidFirst(gap, lexeme + r);
    NoLeadingSpace(lexeme + r);
    SpanOf(lexeme, r);
    assert (lexeme + r)[..|lexeme|] == lexeme && (lexeme + r)[|lexeme|..] == r;
  }

  lemma {:induction false} SpanOf(lexeme: seq<byte>, r: seq<byte>)
    requires forall i :: 0 <= i < |lexeme| ==> NumberChar(lexeme[i])
    requires r != [] && !NumberChar(r[0])
    ensures NumberSpan(lexeme + r) == |lexeme|
  {
    if lexeme == [] {
      assert lexeme + r == r;
    } else {
      assert (lexeme + r)[1..] == lexeme[1..] + r;
      SpanOf(lexeme[1..], r);
    }
  }

  // The writer's layout, for the value {"a":[7]}.

  const SEVEN: J.Value := J.Number([0x37])
  const SEVENS: J.Value := J.Array(J.Cons(SEVEN, J.Nil))
  const EXAMPLE: J.Value := J.Object(J.Cons(J.Member([0x61], SEVENS), J.Nil))

  lemma NameOctets()
    ensures Quoted([0x61]) == [0x22, 0x61, 0x22]
  {
    assert Clean([0x61]) == [0x61] by {
      assert UnitLength([0x61]) == 1 && [0x61][1..] == [];
    }
    assert EscapeAll([0x61]) == [0x61] by {
      assert [0x61][1..] == [];
    }
  }

  lemma IndentOctets(st: Style)
    ensures st.indent ==> Indent(st, 0) == [] && Indent(st, 1) == [0x20, 0x20]
                          && Indent(st, 2) == [0x20, 0x20, 0x20, 0x20]
    ensures !st.indent ==> forall level :: Indent(st, level) == []
  {
    assert Blanks(1) == [0x20] + [] && Blanks(2) == [0x20] + Blanks(1);
    assert Blanks(3) == [0x20] + Blanks(2) && Blanks(4) == [0x20] + Blanks(3);
  }

  lemma SevensText(st: Style)
    ensures ValueText(st, SEVENS, 1)
            == [0x5b] + (Newline(st) + Indent(st, 2) + [0x37]) + (Newline(st) + Indent(st, 1) + [0x5d])
  {
    hide Newline, Indent;
    assert Lead(st, 2, true, []) == Newline(st) + Indent(st, 2);
    assert ElementsText(st, J.Nil, 2, false) == [];
    var lead := Lead(st, 2, true, []);
    assert ElementsText(st, SEVENS.elements, 2, true) == lead + [0x37] + [];
  }

  lemma ExampleText(st: Style)
    ensures ValueText(st, EXAMPLE, 0)
            == [0x7b] + (Newline(st) + Indent(st, 1) + (Quoted([0x61]) + [0x3a] + if st.indent then [0x20] else [])
                         + ValueText(st, SEVENS, 1))
               + (Newline(st) + Indent(st, 0) + [0x7d])
  {
    hide Newline, Indent, Quoted;
    var lead := Lead(st, 1, true, [0x61]);
    assert lead == Newline(st) + Indent(st, 1) + (Quoted([0x61]) + [0x3a] + if st.indent then [0x20] else []);
    assert MembersText(st, J.Nil, 1, false) == [];
    assert MembersText(st, EXAMPLE.members, 1, true) == lead + ValueText(st, SEVENS, 1) + [];
  }

  /** {"a":[7]} on one line, and spread out with two blanks for each block. */
  lemma LayoutOctets()
    ensures ValueText(Style(false, false), EXAMPLE, 0)
            == [0x7b, 0x22, 0x61, 0x22, 0x3a, 0x5b, 0x37, 0x5d, 0x7d]
    ensures ValueText(Style(true, true), EXAMPLE, 0)
            == [0x7b, 10, 0x20, 0x20, 0x22, 0x61, 0x22, 0x3a, 0x20, 0x5b, 10, 0x20, 0x20, 0x20, 0x20, 0x37,
                10, 0x20, 0x20, 0x5d, 10, 0x7d]
  {
    var plain, spread := Style(false, false), Style(true, true);
    NameOctets();
    IndentOctets(plain);
    IndentOctets(spread);
    SevensText(plain);
    SevensText(spread);
    ExampleText(plain);
    ExampleText(spread);
    hide ValueText, Indent, Quoted;
  }

  /** Which octets make up numbers and words. */
  lemma CharacterClasses(c: byte)
    ensures NumberChar(c) <==> 0x30 <= c <= 0x39 || c in {0x2b, 0x2d, 0x2e, 0x45, 0x65}
    ensures IsAlpha(c) <==> 0x41 <= c <= 0x5a || 0x61 <= c <= 0x7a
    ensures SymbolChar(c) <==> 0x41 <= c <= 0x5a || 0x61 <= c <= 0x7a || 0x30 <= c <= 0x39 || c == 0x5f
  {
  }
}
