/** Nothing but the texts of the grammar is read. */
module JsonSound {
  import opened Characters
  import opened Wrappers
  import opened Json
  import opened JsonText
  import opened JsonComplete

  // ---------------------------------------------------------------- string literals

  lemma HexDigitFound(c: char)
    requires HexValue(c).Some?
    ensures IsHexDigit(c, HexValue(c).value)
  {
    var n := HexValue(c).value;
    if n < 10 {
      assert "0123456789abcdef"[n] == (48 + n) as char;
    } else {
      assert "0123456789abcdef"[n] == (87 + n) as char && "0123456789ABCDEF"[n] == (55 + n) as char;
    }
  }

  lemma SpellingFound(s: string)
    requires Hex4(s).Some?
    ensures |s| >= 4 && Spells(s[..4], Hex4(s).value)
  {
    HexDigitFound(s[0]);
    HexDigitFound(s[1]);
    HexDigitFound(s[2]);
    HexDigitFound(s[3]);
  }

  /** The second unit of a pair at the start of `s`, if there is one. */
  function SecondUnit(s: string): Option<nat> {
    if |s| >= 12 && s[6] == '\\' && s[7] == 'u' then Hex4(s[8..]) else None
  }

  predicate IsPair(h: nat, low: Option<nat>) {
    0xD800 <= h < 0xDC00 && low.Some? && 0xDC00 <= low.value < 0xE000
  }

  lemma EscapeParses(s: string)
    requires |s| >= 2 && s[0] == '\\' && s[1] == 'u' && ParseChar(s).Some?
    ensures Hex4(s[2..]).Some?
    ensures var u, low := Hex4(s[2..]).value, SecondUnit(s);
            ParseChar(s) == if IsPair(u, low)
                            then Some((CodePoint(0x10000 + (u - 0xD800) * 0x400 + (low.value - 0xDC00)), s[12..]))
                            else Some((CodePoint(u), s[6..]))
  {
  }

  lemma TwoUnits(s: string)
    requires |s| >= 12 && s[0] == s[6] == '\\' && s[1] == s[7] == 'u'
    ensures "\\u" + (s[2..][..4] + ("\\u" + (s[8..][..4] + s[12..]))) == s
  {
    assert s[8..][..4] + s[12..] == s[8..];
    assert "\\u" + s[8..] == s[6..];
    assert s[2..][..4] + s[6..] == s[2..];
    assert "\\u" + s[2..] == s;
  }

  lemma OneUnit(s: string)
    requires |s| >= 6 && s[0] == '\\' && s[1] == 'u'
    ensures "\\u" + (s[2..][..4] + s[6..]) == s
  {
    assert s[2..][..4] + s[6..] == s[2..];
  }

  lemma NotAPair(s: string, u: nat)
    requires |s| >= 6 && !IsPair(u, SecondUnit(s))
    ensures 0xD800 <= u < 0xDC00 ==> !StartsLow(s[6..])
  {
    if |s| >= 12 {
      assert s[6..][2..] == s[8..];
    }
  }

  lemma PairGlyph(s: string, h: nat, l: nat) returns (g: Glyph)
    requires |s| >= 12 && s[0] == s[6] == '\\' && s[1] == s[7] == 'u'
    requires Hex4(s[2..]) == Some(h) && Hex4(s[8..]) == Some(l) && 0xD800 <= h < 0xDC00 <= l < 0xE000
    ensures GlyphOk(g) && !IsHigh(g) && GlyphText(g, s[12..]) == s
    ensures GlyphChar(g) == CodePoint(0x10000 + (h - 0xD800) * 0x400 + (l - 0xDC00))
  {
    SpellingFound(s[2..]);
    SpellingFound(s[8..]);
    g := Pair(h, l, s[2..][..4], s[8..][..4]);
    TwoUnits(s);
  }

  lemma UnitGlyph(s: string, u: nat) returns (g: Glyph)
    requires |s| >= 6 && s[0] == '\\' && s[1] == 'u' && Hex4(s[2..]) == Some(u)
    ensures GlyphOk(g) && GlyphText(g, s[6..]) == s && GlyphChar(g) == CodePoint(u)
    ensures IsHigh(g) <==> 0xD800 <= u < 0xDC00
  {
    SpellingFound(s[2..]);
    g := Unit(u, s[2..][..4]);
    OneUnit(s);
  }

  /** The glyph of an escape with the first unit `u`, which the parser turned into `c` in front of `rest`. */
  lemma UnitFound(s: string, u: nat, low: Option<nat>, c: char, rest: string) returns (g: Glyph)
    requires |s| >= 6 && s[0] == '\\' && s[1] == 'u' && Hex4(s[2..]) == Some(u) && low == SecondUnit(s)
    requires IsPair(u, low) ==>
               c == CodePoint(0x10000 + (u - 0xD800) * 0x400 + (low.value - 0xDC00)) && |s| >= 12 && rest == s[12..]
    requires !IsPair(u, low) ==> c == CodePoint(u) && rest == s[6..]
    ensures GlyphOk(g) && GlyphChar(g) == c && GlyphText(g, rest) == s && (IsHigh(g) ==> !StartsLow(rest))
  {
    if IsPair(u, low) {
      g := PairGlyph(s, u, low.value);
    } else {
      g := UnitGlyph(s, u);
      NotAPair(s, u);
    }
  }

  lemma GlyphFound(s: string) returns (g: Glyph)
    requires s != "" && s[0] != '"' && ParseChar(s).Some?
    ensures GlyphOk(g) && GlyphChar(g) == ParseChar(s).value.0 && GlyphText(g, ParseChar(s).value.1) == s
    ensures IsHigh(g) ==> !StartsLow(ParseChar(s).value.1)
  {
    if s[0] != '\\' {
      g := Plain(s[0]);
      assert s == [s[0]] + s[1..];
    } else if s[1] != 'u' {
      g := Short(s[1]);
      assert s == ['\\', s[1]] + s[2..];
    } else {
      EscapeParses(s);
      var parsed := ParseChar(s).value;
      g := UnitFound(s, Hex4(s[2..]).value, SecondUnit(s), parsed.0, parsed.1);
    }
  }

  /** A low unit is recognised as such. */
  lemma LowStarts(g: Glyph, rest: string)
    requires GlyphOk(g) && IsLow(g)
    ensures StartsLow(GlyphText(g, rest))
  {
    UnitIsRead(g.u, g.digits, rest);
  }

  lemma {:induction false} GlyphsFound(s: string) returns (gs: seq<Glyph>)
    requires ParseText(s).Some?
    ensures GlyphsOk(gs) && CharsOf(gs) == ParseText(s).value.0 && GlyphsText(gs, ParseText(s).value.1) == s
    decreases |s|
  {
    if s[0] == '"' {
      gs := [];
      assert s == "\"" + s[1..];
    } else {
      var g := GlyphFound(s);
      var rest := ParseChar(s).value.1;
      var more := GlyphsFound(rest);
      gs := [g] + more;
      assert gs[1..] == more;
      if more != [] && IsHigh(g) && IsLow(more[0]) {
        LowStarts(more[0], GlyphsText(more[1..], ParseText(s).value.1));
        assert false;
      }
    }
  }

  // ---------------------------------------------------------------- blanks and numbers

  lemma {:induction false} BlankFound(s: string) returns (blank: string)
    ensures IsBlank(blank) && s == blank + SkipSpace(s)
  {
    if s != "" && IsJsonSpace(s[0]) {
      var more := BlankFound(s[1..]);
      blank := [s[0]] + more;
    } else {
      blank := "";
    }
  }

  lemma {:induction false} DigitsFound(s: string)
    ensures AllDigits(s[..Digits(s)])
  {
    if s != "" && IsDigit(s[0]) {
      DigitsFound(s[1..]);
      assert forall i :: 1 <= i < Digits(s) ==> s[i] == s[1..][i - 1];
    }
  }

  lemma WholeFound(s: string) returns (sign: string, whole: string)
    requires WholeLength(s) > 0
    ensures (sign == "" || sign == "-") && IsWhole(whole) && s[..WholeLength(s)] == sign + whole
  {
    var k := if s[0] == '-' then 1 else 0;
    sign, whole := s[..k], s[k..WholeLength(s)];
    DigitsFound(s[k..]);
    if s[k] == '0' {
      assert whole == "0";
    } else {
      assert whole == s[k..][..Digits(s[k..])];
    }
  }

  lemma FractionFound(s: string)
    ensures IsFraction(s[..FractionLength(s)])
  {
    if FractionLength(s) > 0 {
      DigitsFound(s[1..]);
      assert s[..FractionLength(s)][1..] == s[1..][..Digits(s[1..])];
    }
  }

  lemma ExponentFound(s: string)
    ensures IsExponent(s[..ExponentLength(s)])
  {
    var n := ExponentLength(s);
    if n > 0 {
      var k := if |s| > 1 && (s[1] == '+' || s[1] == '-') then 2 else 1;
      DigitsFound(s[k..]);
      assert s[..n][k..] == s[k..][..Digits(s[k..])];
    }
  }

  lemma InFourParts(s: string, w: nat, f: nat, e: nat)
    requires w + f + e <= |s|
    ensures s[..w + f + e] == s[..w] + (s[w..][..f] + s[w + f..][..e])
    ensures s == s[..w] + (s[w..][..f] + (s[w + f..][..e] + s[w + f + e..]))
  {
    assert s[w + f..][..e] + s[w + f + e..] == s[w + f..];
    assert s[w..][..f] + s[w + f..] == s[w..];
  }

  lemma Associates(a: string, b: string, c: string)
    ensures (a + b) + c == a + (b + c)
  {
  }

  lemma NumberDoc(sign: string, whole: string, fraction: string, exponent: string, rest: string) returns (d: Doc)
    requires (sign == "" || sign == "-") && IsWhole(whole) && IsFraction(fraction) && IsExponent(exponent)
    ensures DocOk(d) && ValueOf(d) == Num((sign + whole) + (fraction + exponent))
    ensures DocText(d, rest) == (sign + whole) + (fraction + (exponent + rest))
  {
    d := Number(sign, whole, fraction, exponent);
    Associates(sign, whole, fraction + exponent);
    Associates(sign, whole, fraction + (exponent + rest));
  }

  lemma NumberInParts(s: string, w: nat, f: nat, e: nat, sign: string, whole: string) returns (d: Doc)
    requires w + f + e <= |s| && s[..w] == sign + whole && (sign == "" || sign == "-")
    requires IsWhole(whole) && IsFraction(s[w..][..f]) && IsExponent(s[w + f..][..e])
    ensures DocOk(d) && ValueOf(d) == Num(s[..w + f + e]) && DocText(d, s[w + f + e..]) == s
  {
    InFourParts(s, w, f, e);
    d := NumberDoc(sign, whole, s[w..][..f], s[w + f..][..e], s[w + f + e..]);
  }

  lemma PartsFound(s: string) returns (w: nat, f: nat, e: nat, sign: string, whole: string)
    requires NumberLength(s) > 0
    ensures w + f + e == NumberLength(s) <= |s| && s[..w] == sign + whole && (sign == "" || sign == "-")
    ensures IsWhole(whole) && IsFraction(s[w..][..f]) && IsExponent(s[w + f..][..e])
  {
    w := WholeLength(s);
    f := FractionLength(s[w..]);
    e := ExponentLength(s[w + f..]);
    sign, whole := WholeFound(s);
    FractionFound(s[w..]);
    ExponentFound(s[w + f..]);
  }

  lemma NumberFound(s: string) returns (d: Doc)
    requires NumberLength(s) > 0
    ensures DocOk(d) && ValueOf(d) == Num(s[..NumberLength(s)]) && DocText(d, s[NumberLength(s)..]) == s
  {
    var w, f, e, sign, whole := PartsFound(s);
    d := NumberInParts(s, w, f, e, sign, whole);
  }

  lemma WordFound(s: string) returns (d: Doc)
    requires ParseWord(s).Some?
    ensures DocOk(d) && ValueOf(d) == ParseWord(s).value.0 && DocText(d, ParseWord(s).value.1) == s
  {
    var word :=
      if "null" <= s then "null" else if "true" <= s then "true" else if "false" <= s then "false"
      else if "NaN" <= s then "NaN" else if "Infinity" <= s then "Infinity" else "-Infinity";
    d := Word(word);
    assert word <= s && ParseWord(s).value.1 == s[|word|..];
    assert word + s[|word|..] == s;
  }

  // ---------------------------------------------------------------- values

  ghost predicate Found(d: Doc, parsed: Option<(Value, string)>, s: string) {
    parsed.Some? && DocOk(d) && ValueOf(d) == parsed.value.0 && DocText(d, parsed.value.1) == s
  }

  lemma LiteralFound(s: string) returns (d: Doc)
    requires s != "" && s[0] == '"' && ParseText(s[1..]).Some?
    ensures var t := ParseText(s[1..]).value; Found(d, Some((Str(t.0), t.1)), s)
  {
    var gs := GlyphsFound(s[1..]);
    d := Text(gs);
    assert "\"" + s[1..] == s;
  }

  lemma EmptyArray(pad: string, rest: string) returns (d: Doc)
    requires IsBlank(pad)
    ensures Found(d, Some((List([]), rest)), "[" + (pad + ("]" + rest)))
  {
    d := Array(pad, []);
  }

  lemma EmptyObject(pad: string, rest: string) returns (d: Doc)
    requires IsBlank(pad)
    ensures Found(d, Some((Map([]), rest)), "{" + (pad + ("}" + rest)))
  {
    d := Object(pad, []);
  }

  lemma HeadAndTail(s: string, c: char)
    requires s != "" && s[0] == c
    ensures [c] + s[1..] == s
  {
  }

  lemma {:induction false} DocFound(s: string) returns (d: Doc)
    requires ParseValue(s).Some?
    ensures Found(d, ParseValue(s), s)
    decreases |s|, 1
  {
    if s[0] == '"' {
      d := LiteralFound(s);
    } else if s[0] == '{' {
      d := ObjectFound(s);
    } else if s[0] == '[' {
      d := ArrayFound(s);
    } else if NumberLength(s) > 0 {
      d := NumberFound(s);
    } else {
      d := WordFound(s);
    }
  }

  lemma {:induction false} ArrayFound(s: string) returns (d: Doc)
    requires s != "" && s[0] == '[' && ParseArray(s).Some?
    ensures Found(d, ParseArray(s), s)
    decreases |s|, 0
  {
    var pad := BlankFound(s[1..]);
    var inner := SkipSpace(s[1..]);
    HeadAndTail(s, '[');
    if inner != "" && inner[0] == ']' {
      HeadAndTail(inner, ']');
      d := EmptyArray(pad, inner[1..]);
    } else {
      var items := ItemsFound(inner);
      d := Array(pad, items);
    }
  }

  lemma {:induction false} ItemsFound(s: string) returns (items: seq<Item>)
    requires ParseItems(s).Some?
    ensures items != [] && forall i :: 0 <= i < |items| ==> ItemOk(items[i])
    ensures ValuesOf(items) == ParseItems(s).value.0 && ItemsText(items, "]" + ParseItems(s).value.1) == s
    decreases |s|, 2
  {
    var d := DocFound(s);
    var first := ParseValue(s).value;
    var after := BlankFound(first.1);
    var rest := SkipSpace(first.1);
    if rest[0] == ']' {
      HeadAndTail(rest, ']');
      items := [Item(d, after, "")];
    } else {
      HeadAndTail(rest, ',');
      var next := BlankFound(rest[1..]);
      var more := ItemsFound(SkipSpace(rest[1..]));
      var item := Item(d, after, next);
      items := [item] + more;
      assert items[1..] == more;
    }
  }

  lemma {:induction false} ObjectFound(s: string) returns (d: Doc)
    requires s != "" && s[0] == '{' && ParseObject(s).Some?
    ensures Found(d, ParseObject(s), s)
    decreases |s|, 0
  {
    var pad := BlankFound(s[1..]);
    var inner := SkipSpace(s[1..]);
    HeadAndTail(s, '{');
    if inner != "" && inner[0] == '}' {
      HeadAndTail(inner, '}');
      d := EmptyObject(pad, inner[1..]);
    } else {
      var members := MembersFound(inner);
      d := Object(pad, members);
    }
  }

  /** One member at the start of `s`, and what follows its value. */
  lemma {:induction false} MemberFound(s: string) returns (m: Member, tail: string)
    requires ParseEntries(s).Some?
    ensures MemberOk(m.(after := "", next := "")) && MemberReads(s, PairOf(m), tail) && |tail| < |s|
    ensures MemberText(m.(after := "", next := ""), tail) == s
    decreases |s|, 2
  {
    var key := ParseText(s[1..]).value;
    var gs := GlyphsFound(s[1..]);
    HeadAndTail(s, '"');
    var beforeColon := BlankFound(key.1);
    var colon := SkipSpace(key.1);
    HeadAndTail(colon, ':');
    var afterColon := BlankFound(colon[1..]);
    var v := SkipSpace(colon[1..]);
    var d := DocFound(v);
    tail := ParseValue(v).value.1;
    m := Member(gs, beforeColon, afterColon, d, "", "");
    assert "" + tail == tail;
  }

  /** What the parser does behind a member. */
  lemma BehindMember(s: string, e: Entry, tail: string)
    requires ParseEntries(s).Some? && MemberReads(s, e, tail)
    ensures var rest := SkipSpace(tail);
            && rest != "" && (rest[0] == '}' || rest[0] == ',')
            && (rest[0] == '}' ==> ParseEntries(s) == Some(([e], rest[1..])))
            && (rest[0] == ',' ==>
                  var more := ParseEntries(SkipSpace(rest[1..]));
                  more.Some? && ParseEntries(s) == Some((Inserted(e, more.value.0), more.value.1)))
  {
  }

  /** The blanks behind a member may be counted to it. */
  lemma MemberWith(m: Member, after: string, next: string, rest: string)
    ensures var n := m.(after := after, next := next);
            MemberText(n, rest) == MemberText(m.(after := "", next := ""), after + rest) && PairOf(n) == PairOf(m)
  {
    assert "" + (after + rest) == after + rest;
  }

  lemma OneMember(m: Member, rest: string)
    ensures MembersText([m], rest) == MemberText(m, rest) && Dictionary(PairsOf([m])) == [PairOf(m)]
  {
    assert PairsOf([m]) == [PairOf(m)] && [PairOf(m)][..0] == [];
  }

  lemma MoreMembers(m: Member, more: seq<Member>, rest: string)
    requires more != []
    ensures MembersText([m] + more, rest) == MemberText(m, "," + (m.next + MembersText(more, rest)))
    ensures Dictionary(PairsOf([m] + more)) == Inserted(PairOf(m), Dictionary(PairsOf(more)))
  {
    assert ([m] + more)[1..] == more;
    InsertedIsDictionary(PairOf(m), PairsOf(more));
  }

  lemma {:induction false} MembersFound(s: string) returns (members: seq<Member>)
    requires ParseEntries(s).Some?
    ensures members != [] && forall i :: 0 <= i < |members| ==> MemberOk(members[i])
    ensures Dictionary(PairsOf(members)) == ParseEntries(s).value.0
    ensures MembersText(members, "}" + ParseEntries(s).value.1) == s
    decreases |s|, 3
  {
    var m, tail := MemberFound(s);
    BehindMember(s, PairOf(m), tail);
    var after := BlankFound(tail);
    var rest := SkipSpace(tail);
    if rest[0] == '}' {
      HeadAndTail(rest, '}');
      MemberWith(m, after, "", rest);
      members := [m.(after := after, next := "")];
      OneMember(members[0], rest);
    } else {
      HeadAndTail(rest, ',');
      var next := BlankFound(rest[1..]);
      var more := MembersFound(SkipSpace(rest[1..]));
      MemberWith(m, after, next, rest);
      members := [m.(after := after, next := next)] + more;
      MoreMembers(members[0], more, "}" + ParseEntries(s).value.1);
    }
  }

  // ---------------------------------------------------------------- json.loads

  /** `s` is a JSON text of `v`: blanks, the text of a tree that means `v`, and blanks. */
  ghost predicate IsTextOf(s: string, v: Value) {
    exists before: string, d: Doc, after: string ::
      && IsBlank(before) && DocOk(d) && IsBlank(after) && ValueOf(d) == v
      && s == before + DocText(d, after)
  }

  /** `json.loads` returns `v` exactly for the JSON texts of `v`, and raises for all other strings. */
  lemma LoadsReadsTheGrammar(s: string, v: Value)
    ensures Loads(s) == Some(v) <==> IsTextOf(s, v)
  {
    if Loads(s) == Some(v) {
      var before := BlankFound(s);
      var d := DocFound(SkipSpace(s));
      var after := BlankFound(ParseValue(SkipSpace(s)).value.1);
      assert after + "" == after;
      assert s == before + DocText(d, after);
    }
    if IsTextOf(s, v) {
      var before: string, d: Doc, after: string :|
        && IsBlank(before) && DocOk(d) && IsBlank(after) && ValueOf(d) == v
        && s == before + DocText(d, after);
      Starts(d, after);
      BlanksAreSkipped(before, DocText(d, after));
      assert after + "" == after;
      BlanksAreSkipped(after, "");
      FollowsBlank(after, "");
      DocIsRead(d, after);
    }
  }
}
