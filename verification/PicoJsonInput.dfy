/** The parser of the tree JSON library at work on its input. */
module PicoJsonInput {
  import opened Bytes
  import opened JsonTrees
  import opened PicoJsonSpec
  import J = JsonStrings
  import L = JsonLayout

  const END: int := -1

  class Input {
    const text: seq<byte>
    var cur: nat
    // the character at cur has been taken; it can still be put back
    var consumed: bool

    ghost predicate Valid()
      reads this
    {
      cur + (if consumed then 1 else 0) <= |text|
    }

    /** What has not been taken. */
    ghost function Rest(): seq<byte>
      requires Valid()
      reads this
    {
      text[cur + if consumed then 1 else 0..]
    }

    /** What had not been taken before the last character was. */
    ghost function Back(): seq<byte>
      requires Valid()
      reads this
    {
      text[cur..]
    }

    constructor (text: seq<byte>)
      ensures Valid() && Rest() == text && this.text == text
    {
      this.text := text;
      cur, consumed := 0, false;
      new;
      assert text[0..] == text;
    }

    method Getc() returns (ch: int)
      requires Valid()
      modifies this
      ensures Valid() && Back() == old(Rest())
      ensures if old(Rest()) == [] then ch == END && Rest() == []
              else ch == old(Rest())[0] && Rest() == old(Rest())[1..]
    {
      if consumed {
        cur := cur + 1;
      }
      if cur == |text| {
        consumed := false;
        return END;
      }
      consumed := true;
      assert text[cur..][1..] == text[cur + 1..];
      return text[cur];
    }

    method Ungetc()
      requires Valid()
      modifies this
      ensures Valid() && Rest() == old(Back())
    {
      consumed := false;
    }

    method SkipWs()
      requires Valid()
      modifies this
      ensures Valid() && Rest() == SkipSpace(old(Rest()))
    {
      while true
        invariant Valid() && SkipSpace(Rest()) == SkipSpace(old(Rest()))
        decreases |Rest()|
      {
        var ch := Getc();
        if !(ch == 0x20 || ch == 9 || ch == 10 || ch == 13) {
          Ungetc();
          break;
        }
      }
    }

    method Expect(expected: byte) returns (ok: bool)
      requires Valid()
      modifies this
      ensures Valid()
      ensures var s := SkipSpace(old(Rest()));
              (ok <==> s != [] && s[0] == expected) && Rest() == if ok then s[1..] else s
    {
      hide SkipSpace;
      SkipWs();
      var ch := Getc();
      if ch != expected {
        Ungetc();
        return false;
      }
      return true;
    }

    /** Takes a word, or as much of it as agrees. */
    method Match(pattern: seq<byte>) returns (ok: bool)
      requires Valid()
      modifies this
      ensures Valid() && (ok <==> pattern <= old(Rest())) && (ok ==> Rest() == old(Rest())[|pattern|..])
    {
      ghost var r := Rest();
      for i := 0 to |pattern|
        invariant Valid() && i <= |r| && pattern[..i] == r[..i] && Rest() == r[i..]
      {
        var ch := Getc();
        if ch != pattern[i] {
          Ungetc();
          return false;
        }
        assert r[..i + 1] == r[..i] + [r[i]] && pattern[..i + 1] == pattern[..i] + [pattern[i]];
      }
      assert pattern[..|pattern|] == pattern;
      return true;
    }

    method ParseQuadHex() returns (ok: bool, u: nat)
      requires Valid()
      modifies this
      ensures Valid()
      ensures match QuadHex(old(Rest()))
              case Bad => !ok
              case Good(v, rest) => ok && u == v && Rest() == rest
    {
      hide J.HexDigit;
      ghost var r := Rest();
      u := 0;
      for i := 0 to 4
        invariant Valid() && i <= |r| && Rest() == r[i..] && forall j :: 0 <= j < i ==> J.HexDigit(r[j]) < 16
        invariant u == if i == 0 then 0 else if i == 1 then J.HexDigit(r[0])
                       else if i == 2 then J.HexDigit(r[0]) * 16 + J.HexDigit(r[1])
                       else if i == 3 then (J.HexDigit(r[0]) * 16 + J.HexDigit(r[1])) * 16 + J.HexDigit(r[2])
                       else ((J.HexDigit(r[0]) * 16 + J.HexDigit(r[1])) * 16 + J.HexDigit(r[2])) * 16 + J.HexDigit(r[3])
      {
        var ch := Getc();
        if ch == END {
          return false, 0;
        }
        var hex := J.HexDigit(ch as byte);
        if hex == 16 {
          Ungetc();
          return false, 0;
        }
        u := u * 16 + hex;
        assert J.HexDigit(r[i]) < 16 by { HexBelow(r[i]); }
      }
      return true, u;
    }

    lemma HexBelow(c: byte)
      ensures J.HexDigit(c) <= 16
    {
    }

    /** The octets of a character given by one escape, or by two. */
    method ParseCodePoint() returns (ok: bool, out: seq<byte>)
      requires Valid()
      modifies this
      ensures Valid()
      ensures match CodePoint(old(Rest()))
              case Bad => !ok
              case Good(u, rest) => ok && out == J.Utf8(u) && Rest() == rest
    {
      hide QuadHex, J.Utf8;
      out := [];
      var u;
      ok, u := ParseQuadHex();
      if !ok {
        return;
      }
      if 0xd800 <= u <= 0xdfff {
        if 0xdc00 <= u {
          return false, [];
        }
        ghost var r1 := Rest();
        var ch := Getc();
        if ch == BACKSLASH {
          ch := Getc();
          if ch == 0x75 {
            assert Rest() == r1[2..];
            var second;
            ok, second := ParseQuadHex();
            if !(ok && 0xdc00 <= second <= 0xdfff) {
              return false, [];
            }
            u := (u - 0xd800) * 0x400 + (second - 0xdc00) + 0x10000;
            return true, J.Utf8(u);
          }
        }
        Ungetc();
        return false, [];
      }
      return true, J.Utf8(u);
    }

    /** The rest of a string whose opening quote has been taken. */
    method ParseString() returns (ok: bool, out: seq<byte>)
      requires Valid()
      modifies this
      ensures Valid()
      ensures match Chars(old(Rest()))
              case Bad => !ok
              case Good(s, rest) => ok && out == s && Rest() == rest
    {
      hide Char;
      out := [];
      ghost var all := Chars(Rest());
      assert all.Good? ==> [] + all.value == all.value;
      while true
        invariant Valid()
        invariant var q := Chars(Rest()); if all.Good? then q.Good? && all == Good(out + q.value, q.rest) else !q.Good?
        decreases |Rest()|
      {
        ghost var before, r := out, Rest();
        if r != [] && r[0] != QUOTE {
          CharsStep(before, r);
        }
        assert out + [] == out;
        var done, c;
        ok, done, c := ParseChar();
        if !ok || done {
          return;
        }
        out := out + c;
      }
    }

    lemma CharsStep(before: seq<byte>, r: seq<byte>)
      requires r != [] && r[0] != QUOTE
      ensures Chars(r).Good? <==> Char(r).Good? && Chars(Char(r).rest).Good?
      ensures Chars(r).Good? ==>
                && Chars(r) == Good(Char(r).value + Chars(Char(r).rest).value, Chars(Char(r).rest).rest)
                && before + Chars(r).value == before + Char(r).value + Chars(Char(r).rest).value
    {
    }

    /** One character of a string, or its closing quote. */
    method ParseChar() returns (ok: bool, done: bool, c: seq<byte>)
      requires Valid()
      modifies this
      ensures Valid()
      ensures var r := old(Rest());
              if r == [] then !ok
              else if r[0] == QUOTE then ok && done && Rest() == r[1..]
              else
                match Char(r)
                case Bad => !ok
                case Good(c', rest) => ok && !done && c == c' && Rest() == rest
    {
      hide CodePoint;
      ghost var r := Rest();
      ok, done, c := true, false, [];
      var ch := Getc();
      if ch < 0x20 {
        Ungetc();
        ok := false;
      } else if ch == QUOTE {
        done := true;
      } else if ch == BACKSLASH {
        ch := Getc();
        if ch == END {
          ok := false;
          return;
        }
        assert Rest() == r[2..];
        if Unescaped(ch as byte) != 0 {
          c := [Unescaped(ch as byte)];
        } else if ch == 0x75 {
          ok, c := ParseCodePoint();
        } else {
          ok := false;
        }
      } else {
        c := [ch as byte];
      }
    }

    /** The number characters that come next. */
    method ParseNumber() returns (t: seq<byte>)
      requires Valid()
      modifies this
      ensures Valid()
      ensures var r := old(Rest()); t == r[..NumberSpan(r)] && Rest() == r[NumberSpan(r)..]
    {
      hide NumberSpan;
      ghost var r := Rest();
      t := [];
      while true
        invariant Valid() && |t| <= |r| && t == r[..|t|] && Rest() == r[|t|..]
        invariant forall i :: 0 <= i < |t| ==> NumberChar(r[i])
        decreases |Rest()|
      {
        var ch := Getc();
        if ch == END || !NumberChar(ch as byte) {
          Ungetc();
          SpanIs(r, |t|);
          break;
        }
        assert r[..|t| + 1] == t + [ch as byte];
        t := t + [ch as byte];
      }
    }

    lemma SpanIs(r: seq<byte>, n: nat)
      requires n <= |r| && (forall i :: 0 <= i < n ==> NumberChar(r[i])) && (n < |r| ==> !NumberChar(r[n]))
      ensures NumberSpan(r) == n
    {
    }

    method ParseValue() returns (ok: bool, v: Value)
      requires Valid()
      modifies this
      ensures Valid()
      ensures match PicoJsonSpec.ParseValue(old(Rest()))
              case Bad => !ok
              case Good(u, rest) => ok && v == u && Rest() == rest
      decreases |Rest()|, 0
    {
      hide SkipSpace, TakenWhole, Chars, NumberSpan, PicoJsonSpec.ParseArray, PicoJsonSpec.ParseObject, IsDigit;
      v := Null;
      SkipWs();
      ghost var r := Rest();
      var ch := Getc();
      if ch == 0x6e {
        ok := MatchRest(NULL, r);
        v := Null;
      } else if ch == 0x66 {
        ok := MatchRest(FALSE, r);
        v := False;
      } else if ch == 0x74 {
        ok := MatchRest(TRUE, r);
        v := True;
      } else if ch == QUOTE {
        var s;
        ok, s := ParseString();
        v := String(s);
      } else if ch == L.OPEN_ARRAY {
        ok, v := ParseArray();
      } else if ch == L.OPEN_OBJECT {
        ok, v := ParseObject();
      } else if ch != END && (IsDigit(ch as byte) || ch == 0x2d) {
        Ungetc();
        var t := ParseNumber();
        ok := TakenWhole(t);
        v := Number(t);
      } else {
        Ungetc();
        ok := false;
      }
    }

    /** The rest of a word whose first letter has been taken. */
    method MatchRest(word: seq<byte>, ghost r: seq<byte>) returns (ok: bool)
      requires Valid() && word != [] && r != [] && r[0] == word[0] && Rest() == r[1..]
      modifies this
      ensures Valid() && (ok <==> word <= r) && (ok ==> Rest() == r[|word|..])
    {
      assert word[1..] <= r[1..] <==> word <= r by {
        assert r == [r[0]] + r[1..] && word == [word[0]] + word[1..];
      }
      ok := Match(word[1..]);
      assert |r| >= |word| ==> r[1..][|word| - 1..] == r[|word|..];
    }

    method ParseArray() returns (ok: bool, v: Value)
      requires Valid()
      modifies this
      ensures Valid()
      ensures match PicoJsonSpec.ParseArray(old(Rest()))
              case Bad => !ok
              case Good(u, rest) => ok && v == u && Rest() == rest
      decreases |Rest()|, 2
    {
      hide SkipSpace, PicoJsonSpec.ParseItems;
      v := Null;
      var empty := Expect(L.CLOSE_ARRAY);
      if empty {
        return true, Array(Nil);
      }
      var es;
      ok, es := ParseItems();
      v := Array(es);
    }

    method ParseItems() returns (ok: bool, es: List<Value>)
      requires Valid()
      modifies this
      ensures Valid()
      ensures match PicoJsonSpec.ParseItems(old(Rest()))
              case Bad => !ok
              case Good(vs, rest) => ok && es == vs && Rest() == rest
      decreases |Rest()|, 1
    {
      hide SkipSpace, PicoJsonSpec.ParseValue;
      es := Nil;
      var v;
      ok, v := ParseValue();
      if !ok {
        return;
      }
      ghost var r := Rest();
      NothingToSkip(SkipSpace(r));
      var more := Expect(L.COMMA);
      if more {
        ok, es := ParseItems();
        es := Cons(v, es);
      } else {
        ok := Expect(L.CLOSE_ARRAY);
        es := Cons(v, Nil);
      }
    }

    lemma NothingToSkip(s: seq<byte>)
      requires s != [] ==> !IsBlank(s[0])
      ensures SkipSpace(s) == s
    {
    }

    method ParseObject() returns (ok: bool, v: Value)
      requires Valid()
      modifies this
      ensures Valid()
      ensures match PicoJsonSpec.ParseObject(old(Rest()))
              case Bad => !ok
              case Good(u, rest) => ok && v == u && Rest() == rest
      decreases |Rest()|, 2
    {
      hide SkipSpace, PicoJsonSpec.ParseEntries;
      v := Null;
      var empty := Expect(L.CLOSE_OBJECT);
      if empty {
        return true, Object(Nil);
      }
      ghost var s := Rest();
      var ms := Nil;
      while true
        invariant Valid() && |Rest()| <= |s|
                  && PicoJsonSpec.ParseEntries(Rest(), ms) == PicoJsonSpec.ParseEntries(s, Nil)
        decreases |Rest()|
      {
        ghost var r := Rest();
        EntriesStep(r, ms);
        var name, value;
        ok, name := ParseName();
        if !ok {
          return;
        }
        ok, value := ParseValue();
        if !ok {
          return;
        }
        NothingToSkip(SkipSpace(Rest()));
        ms := Insert(ms, Member(name, value));
        var more := Expect(L.COMMA);
        if !more {
          break;
        }
      }
      ok := Expect(L.CLOSE_OBJECT);
      v := Object(ms);
    }

    lemma EntriesStep(r: seq<byte>, ms: List<Member>)
      ensures var n := PicoJsonSpec.ParseName(r);
              if n.Bad? || PicoJsonSpec.ParseValue(n.rest).Bad? then PicoJsonSpec.ParseEntries(r, ms) == Bad
              else
                var q := PicoJsonSpec.ParseValue(n.rest);
                var s := SkipSpace(q.rest);
                PicoJsonSpec.ParseEntries(r, ms) ==
                if s == [] then Bad
                else if s[0] == L.COMMA then PicoJsonSpec.ParseEntries(s[1..], Insert(ms, Member(n.value, q.value)))
                else if s[0] == L.CLOSE_OBJECT then Good(Insert(ms, Member(n.value, q.value)), s[1..])
                else Bad
    {
    }

    method ParseName() returns (ok: bool, name: seq<byte>)
      requires Valid()
      modifies this
      ensures Valid()
      ensures match PicoJsonSpec.ParseName(old(Rest()))
              case Bad => !ok
              case Good(n, rest) => ok && name == n && Rest() == rest
    {
      hide SkipSpace, Chars;
      name := [];
      ok := Expect(QUOTE);
      if ok {
        ok, name := ParseString();
        if ok {
          ok := Expect(L.COLON);
        }
      }
    }
  }

  /** Reads one value from the front of a text: the value, and where its text ends. */
  method Parse(text: seq<byte>) returns (ok: bool, v: Value, end: nat)
    ensures end <= |text|
    ensures match PicoJsonSpec.ParseValue(text)
            case Bad => !ok
            case Good(u, rest) => ok && v == u && text[end..] == rest
  {
    hide PicoJsonSpec.ParseValue;
    var input := new Input(text);
    ok, v := input.ParseValue();
    end := input.cur + if input.consumed then 1 else 0;
  }
}
