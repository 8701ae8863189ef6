/** Every text of the grammar is read, with the value that its tree means. */
module JsonComplete {
  import opened Characters
  import opened Wrappers
  import opened Json
  import opened JsonText

  // ---------------------------------------------------------------- string literals

  lemma HexDigitIsRead(c: char, n: nat)
    requires IsHexDigit(c, n)
    ensures HexValue(c) == Some(n)
  {
    assert n < 10 ==> c == ('0' as int + n) as char;
    assert n >= 10 ==> c == ('a' as int + n - 10) as char || c == ('A' as int + n - 10) as char;
  }

  lemma FourDigits(digits: string, a: nat, b: nat, c: nat, d: nat, rest: string)
    requires |digits| == 4 && HexValue(digits[0]) == Some(a) && HexValue(digits[1]) == Some(b)
    requires HexValue(digits[2]) == Some(c) && HexValue(digits[3]) == Some(d)
    ensures Hex4(digits + rest) == Some(((a * 16 + b) * 16 + c) * 16 + d)
  {
  }

  lemma SpelledIsRead(digits: string, u: nat, rest: string)
    requires Spells(digits, u)
    ensures u < 0x10000 && Hex4(digits + rest) == Some(u)
  {
    var a: nat, b: nat, c: nat, d: nat :|
      && IsHexDigit(digits[0], a) && IsHexDigit(digits[1], b) && IsHexDigit(digits[2], c) && IsHexDigit(digits[3], d)
      && u == ((a * 16 + b) * 16 + c) * 16 + d;
    HexDigitIsRead(digits[0], a);
    HexDigitIsRead(digits[1], b);
    HexDigitIsRead(digits[2], c);
    HexDigitIsRead(digits[3], d);
    FourDigits(digits, a, b, c, d, rest);
  }

  /** What would make a high half in front of it a pair. */
  predicate StartsLow(t: string) {
    |t| >= 6 && t[0] == '\\' && t[1] == 'u' && Hex4(t[2..]).Some? && 0xDC00 <= Hex4(t[2..]).value < 0xE000
  }

  lemma UnitParses(u: nat, digits: string, rest: string)
    requires |digits| == 4 && Hex4(digits + rest) == Some(u) && (0xD800 <= u < 0xDC00 ==> !StartsLow(rest))
    ensures var t := "\\u" + (digits + rest);
            ParseChar(t) == Some((CodePoint(u), rest)) && (StartsLow(t) <==> 0xDC00 <= u < 0xE000)
  {
    var t := "\\u" + (digits + rest);
    assert t[2..] == digits + rest && t[6..] == rest;
    assert |t| >= 12 ==> t[8..] == rest[2..];
  }

  lemma UnitIsRead(u: nat, digits: string, rest: string)
    requires Spells(digits, u) && (0xD800 <= u < 0xDC00 ==> !StartsLow(rest))
    ensures ParseChar(GlyphText(Unit(u, digits), rest)) == Some((GlyphChar(Unit(u, digits)), rest))
    ensures StartsLow(GlyphText(Unit(u, digits), rest)) <==> 0xDC00 <= u < 0xE000
  {
    SpelledIsRead(digits, u, rest);
    UnitParses(u, digits, rest);
  }

  lemma HalvesAreRead(h: nat, l: nat, high: string, low: string, rest: string)
    requires |high| == |low| == 4 && 0xD800 <= h < 0xDC00 <= l < 0xE000
    requires Hex4(high + ("\\u" + (low + rest))) == Some(h) && Hex4(low + rest) == Some(l)
    ensures var t := "\\u" + (high + ("\\u" + (low + rest)));
            && ParseChar(t) == Some((CodePoint(0x10000 + (h - 0xD800) * 0x400 + (l - 0xDC00)), rest))
            && !StartsLow(t)
  {
    var second := "\\u" + (low + rest);
    var t := "\\u" + (high + second);
    assert t[2..] == high + second && t[6..] == second && t[8..] == low + rest && t[12..] == rest;
  }

  lemma PairIsRead(h: nat, l: nat, high: string, low: string, rest: string)
    requires GlyphOk(Pair(h, l, high, low))
    ensures ParseChar(GlyphText(Pair(h, l, high, low), rest)) == Some((GlyphChar(Pair(h, l, high, low)), rest))
    ensures !StartsLow(GlyphText(Pair(h, l, high, low), rest))
  {
    SpelledIsRead(high, h, "\\u" + (low + rest));
    SpelledIsRead(low, l, rest);
    HalvesAreRead(h, l, high, low, rest);
  }

  lemma GlyphIsRead(g: Glyph, rest: string)
    requires GlyphOk(g) && (IsHigh(g) ==> !StartsLow(rest))
    ensures ParseChar(GlyphText(g, rest)) == Some((GlyphChar(g), rest))
    ensures GlyphText(g, rest)[0] != '"'
    ensures StartsLow(GlyphText(g, rest)) ==> IsLow(g)
  {
    match g
    case Plain(c) => assert ([c] + rest)[1..] == rest;
    case Short(letter) => assert (['\\', letter] + rest)[2..] == rest;
    case Unit(u, digits) => UnitIsRead(u, digits, rest);
    case Pair(h, l, high, low) => PairIsRead(h, l, high, low, rest);
  }

  lemma {:induction false} GlyphsAreRead(gs: seq<Glyph>, rest: string)
    requires GlyphsOk(gs)
    ensures ParseText(GlyphsText(gs, rest)) == Some((CharsOf(gs), rest))
    ensures StartsLow(GlyphsText(gs, rest)) ==> gs != [] && IsLow(gs[0])
  {
    if gs == [] {
      assert ("\"" + rest)[1..] == rest;
    } else {
      GlyphsAreRead(gs[1..], rest);
      GlyphIsRead(gs[0], GlyphsText(gs[1..], rest));
    }
  }

  lemma LiteralIsRead(gs: seq<Glyph>, rest: string)
    requires GlyphsOk(gs)
    ensures var t := "\"" + GlyphsText(gs, rest); t[0] == '"' && ParseText(t[1..]) == Some((CharsOf(gs), rest))
  {
    GlyphsAreRead(gs, rest);
    assert ("\"" + GlyphsText(gs, rest))[1..] == GlyphsText(gs, rest);
  }

  // ---------------------------------------------------------------- blanks and numbers

  /** What may follow a value. */
  predicate Follows(rest: string) {
    rest == "" || rest[0] in ",]} \t\n\r"
  }

  lemma {:induction false} BlanksAreSkipped(blank: string, rest: string)
    requires IsBlank(blank) && (rest != "" ==> !IsJsonSpace(rest[0]))
    ensures SkipSpace(blank + rest) == rest
  {
    if blank == "" {
      assert blank + rest == rest;
    } else {
      BlanksAreSkipped(blank[1..], rest);
      assert (blank + rest)[1..] == blank[1..] + rest;
    }
  }

  lemma {:induction false} DigitsOf(s: string, rest: string)
    requires AllDigits(s) && (rest == "" || !IsDigit(rest[0]))
    ensures Digits(s + rest) == |s|
  {
    if s == "" {
      assert s + rest == rest;
    } else {
      DigitsOf(s[1..], rest);
      assert (s + rest)[1..] == s[1..] + rest;
    }
  }

  lemma WholeIsRead(sign: string, whole: string, rest: string)
    requires (sign == "" || sign == "-") && IsWhole(whole) && (rest == "" || !IsDigit(rest[0]))
    ensures WholeLength((sign + whole) + rest) == |sign + whole| > 0
  {
    var s := (sign + whole) + rest;
    assert s[|sign|..] == whole + rest && s[|sign|] == whole[0];
    if whole != "0" {
      DigitsOf(whole, rest);
    }
  }

  lemma FractionIsRead(fraction: string, rest: string)
    requires IsFraction(fraction) && (rest == "" || (!IsDigit(rest[0]) && rest[0] != '.'))
    ensures FractionLength(fraction + rest) == |fraction|
  {
    if fraction == "" {
      assert fraction + rest == rest;
    } else {
      DigitsOf(fraction[1..], rest);
      assert (fraction + rest)[1..] == fraction[1..] + rest;
    }
  }

  lemma ExponentIsRead(exponent: string, rest: string)
    requires IsExponent(exponent) && Follows(rest)
    ensures ExponentLength(exponent + rest) == |exponent|
  {
    var t := exponent + rest;
    if exponent == "" {
      assert t == rest;
    } else if AllDigits(exponent[1..]) {
      assert IsDigit(exponent[1..][0]);
      DigitsOf(exponent[1..], rest);
      assert t[1..] == exponent[1..] + rest;
    } else {
      DigitsOf(exponent[2..], rest);
      assert t[2..] == exponent[2..] + rest;
    }
  }

  lemma LengthInParts(whole: string, fraction: string, exponent: string, rest: string)
    requires WholeLength(whole + (fraction + (exponent + rest))) == |whole| > 0
    requires FractionLength(fraction + (exponent + rest)) == |fraction|
    requires ExponentLength(exponent + rest) == |exponent|
    ensures NumberLength(whole + (fraction + (exponent + rest))) == |whole| + |fraction| + |exponent|
  {
    var t := whole + (fraction + (exponent + rest));
    assert t[|whole|..] == fraction + (exponent + rest);
    assert t[|whole| + |fraction|..] == exponent + rest;
  }

  lemma NumberLengthIsRead(sign: string, whole: string, fraction: string, exponent: string, rest: string)
    requires DocOk(Number(sign, whole, fraction, exponent)) && Follows(rest)
    ensures NumberLength((sign + whole) + (fraction + (exponent + rest)))
            == |sign + whole| + |fraction| + |exponent|
  {
    WholeIsRead(sign, whole, fraction + (exponent + rest));
    FractionIsRead(fraction, exponent + rest);
    ExponentIsRead(exponent, rest);
    LengthInParts(sign + whole, fraction, exponent, rest);
  }

  lemma NumberAtTheHead(text: string, rest: string)
    requires NumberLength(text + rest) == |text| > 0
    ensures ParseValue(text + rest) == Some((Num(text), rest))
  {
    var t := text + rest;
    assert t[0] == '-' || IsDigit(t[0]);
    assert t[..|text|] == text && t[|text|..] == rest;
  }

  lemma Regrouped(a: string, b: string, c: string, d: string, e: string)
    ensures a + (b + (c + (d + e))) == (a + b) + (c + (d + e)) == (a + (b + (c + d))) + e
  {
  }

  lemma NumberIsRead(sign: string, whole: string, fraction: string, exponent: string, rest: string)
    requires DocOk(Number(sign, whole, fraction, exponent)) && Follows(rest)
    ensures ParseValue(sign + (whole + (fraction + (exponent + rest))))
            == Some((Num(sign + (whole + (fraction + exponent))), rest))
  {
    NumberLengthIsRead(sign, whole, fraction, exponent, rest);
    Regrouped(sign, whole, fraction, exponent, rest);
    NumberAtTheHead(sign + (whole + (fraction + exponent)), rest);
  }

  lemma WordIsRead(word: string, rest: string)
    requires DocOk(Word(word))
    ensures ParseValue(word + rest) == Some((ValueOf(Word(word)), rest))
  {
    var t := word + rest;
    assert t[|word|..] == rest;
    assert word == "-Infinity" ==> t[1] == 'I';
    assert WholeLength(t) == 0;
    assert ParseValue(t) == ParseWord(t);
  }

  // ---------------------------------------------------------------- dictionaries

  lemma PositionStep(head: Entry, tail: seq<Entry>, key: string)
    requires head.key != key
    ensures Position([head] + tail, key) == 1 + Position(tail, key)
  {
    assert ([head] + tail)[1..] == tail;
  }

  lemma WithoutStep(head: Entry, tail: seq<Entry>, i: nat)
    requires i < |tail|
    ensures ([head] + tail)[..1 + i] + ([head] + tail)[1 + i + 1..] == [head] + (tail[..i] + tail[i + 1..])
    ensures ([head] + tail)[1 + i] == tail[i]
  {
  }

  lemma InsertedAt(first: Entry, later: seq<Entry>, i: nat)
    requires Position(later, first.key) == i
    ensures i < |later| ==> Inserted(first, later) == [later[i]] + (later[..i] + later[i + 1..])
    ensures i >= |later| ==> Inserted(first, later) == [first] + later
  {
  }

  /** What is behind the first entry plays no part in moving an entry of another key past it. */
  lemma InsertedStep(first: Entry, head: Entry, tail: seq<Entry>)
    requires head.key != first.key
    ensures var i := Inserted(first, tail);
            && i != [] && i[0].key == first.key
            && Inserted(first, [head] + tail) == [i[0]] + ([head] + i[1..])
  {
    var i := Position(tail, first.key);
    PositionStep(head, tail, first.key);
    InsertedAt(first, tail, i);
    InsertedAt(first, [head] + tail, 1 + i);
    if i < |tail| {
      WithoutStep(head, tail, i);
      assert ([tail[i]] + (tail[..i] + tail[i + 1..]))[1..] == tail[..i] + tail[i + 1..];
    } else {
      assert ([first] + tail)[1..] == tail;
    }
  }

  lemma PutStep(head: Entry, tail: seq<Entry>, e: Entry)
    ensures Put([head] + tail, e) == if head.key == e.key then [e] + tail else [head] + Put(tail, e)
  {
    assert ([head] + tail)[1..] == tail;
  }

  lemma InsertedHere(first: Entry, head: Entry, tail: seq<Entry>)
    requires head.key == first.key
    ensures Inserted(first, [head] + tail) == [head] + tail
  {
    var entries := [head] + tail;
    assert Position(entries, first.key) == 0;
    assert [] + entries[1..] == tail;
  }

  /** The same, behind an entry of another key than `first`. */
  lemma PutInsertedBehind(first: Entry, head: Entry, tail: seq<Entry>, last: Entry)
    requires head.key != first.key
    requires Put(Inserted(first, tail), last) == Inserted(first, Put(tail, last))
    ensures Put(Inserted(first, [head] + tail), last) == Inserted(first, Put([head] + tail, last))
  {
    var i := Inserted(first, tail);
    InsertedStep(first, head, tail);
    PutStep(i[0], [head] + i[1..], last);
    PutStep(head, i[1..], last);
    PutStep(head, tail, last);
    if last.key == head.key {
      InsertedStep(first, last, tail);
    } else {
      InsertedStep(first, head, Put(tail, last));
      assert i == [i[0]] + i[1..];
      PutStep(i[0], i[1..], last);
    }
  }

  /** A first and a last pair may be put in either order. */
  lemma {:induction false} PutInserted(first: Entry, entries: seq<Entry>, last: Entry)
    ensures Put(Inserted(first, entries), last) == Inserted(first, Put(entries, last))
  {
    if entries != [] {
      var head, tail := entries[0], entries[1..];
      assert entries == [head] + tail;
      if head.key == first.key {
        InsertedHere(first, head, tail);
        PutStep(head, tail, last);
        if last.key == head.key {
          InsertedHere(first, last, tail);
        } else {
          InsertedHere(first, head, Put(tail, last));
        }
      } else {
        PutInserted(first, tail, last);
        PutInsertedBehind(first, head, tail, last);
      }
    }
  }

  /** The parser builds the dictionary from the last pair to the first. */
  lemma {:induction false} InsertedIsDictionary(first: Entry, pairs: seq<Entry>)
    ensures Dictionary([first] + pairs) == Inserted(first, Dictionary(pairs))
  {
    var all := [first] + pairs;
    if pairs == [] {
      assert all == [first] && all[..0] == [];
    } else {
      var front := pairs[..|pairs| - 1];
      InsertedIsDictionary(first, front);
      assert all[..|all| - 1] == [first] + front;
      PutInserted(first, Dictionary(front), pairs[|pairs| - 1]);
    }
  }

  // ---------------------------------------------------------------- values

  /** No value starts like a blank or a closing bracket. */
  predicate Opens(t: string) {
    t != "" && !IsJsonSpace(t[0]) && t[0] != ']' && t[0] != '}'
  }

  lemma Starts(d: Doc, rest: string)
    requires DocOk(d)
    ensures Opens(DocText(d, rest))
  {
    if d.Number? {
      assert d.sign == "" || d.sign == "-";
      assert IsDigit(d.whole[0]);
    }
  }

  lemma ArrayIsRead(pad: string, inner: string, items: seq<Value>, rest: string)
    requires IsBlank(pad) && Opens(inner) && ParseItems(inner) == Some((items, rest))
    ensures ParseValue("[" + (pad + inner)) == Some((List(items), rest))
  {
    var t := "[" + (pad + inner);
    assert t[1..] == pad + inner;
    BlanksAreSkipped(pad, inner);
    assert ParseValue(t) == ParseArray(t);
  }

  lemma ObjectIsRead(pad: string, inner: string, entries: seq<Entry>, rest: string)
    requires IsBlank(pad) && Opens(inner) && ParseEntries(inner) == Some((entries, rest))
    ensures ParseValue("{" + (pad + inner)) == Some((Map(entries), rest))
  {
    var t := "{" + (pad + inner);
    assert t[1..] == pad + inner;
    BlanksAreSkipped(pad, inner);
    assert ParseValue(t) == ParseObject(t);
  }

  lemma EmptyIsRead(pad: string, rest: string)
    requires IsBlank(pad)
    ensures ParseValue("[" + (pad + ("]" + rest))) == Some((List([]), rest))
    ensures ParseValue("{" + (pad + ("}" + rest))) == Some((Map([]), rest))
  {
    var list, dict := "[" + (pad + ("]" + rest)), "{" + (pad + ("}" + rest));
    assert list[1..] == pad + ("]" + rest) && dict[1..] == pad + ("}" + rest);
    BlanksAreSkipped(pad, "]" + rest);
    BlanksAreSkipped(pad, "}" + rest);
    assert ("]" + rest)[1..] == rest && ("}" + rest)[1..] == rest;
    assert ParseValue(list) == ParseArray(list) && ParseValue(dict) == ParseObject(dict);
  }

  lemma FollowsBlank(blank: string, rest: string)
    requires IsBlank(blank) && Follows(rest)
    ensures Follows(blank + rest)
  {
    assert blank == "" ==> blank + rest == rest;
  }

  lemma {:induction false} DocIsRead(d: Doc, rest: string)
    requires DocOk(d) && Follows(rest)
    ensures ParseValue(DocText(d, rest)) == Some((ValueOf(d), rest))
    decreases d, 1
  {
    match d
    case Word(word) => WordIsRead(word, rest);
    case Number(sign, whole, fraction, exponent) => NumberIsRead(sign, whole, fraction, exponent, rest);
    case Text(glyphs) => LiteralIsRead(glyphs, rest);
    case Array(pad, items) =>
      if items == [] {
        EmptyIsRead(pad, rest);
      } else {
        ItemsAreRead(items, rest);
        ArrayIsRead(pad, ItemsText(items, "]" + rest), ValuesOf(items), rest);
      }
    case Object(pad, members) =>
      if members == [] {
        EmptyIsRead(pad, rest);
      } else {
        MembersAreRead(members, rest);
        ObjectIsRead(pad, MembersText(members, "}" + rest), Dictionary(PairsOf(members)), rest);
      }
  }

  lemma LastItem(t: string, v: Value, after: string, rest: string)
    requires IsBlank(after) && ParseValue(t) == Some((v, after + ("]" + rest)))
    ensures ParseItems(t) == Some(([v], rest))
  {
    BlanksAreSkipped(after, "]" + rest);
    assert ("]" + rest)[1..] == rest;
  }

  lemma ItemBefore(
    t: string, v: Value, after: string, next: string, more: string, items: seq<Value>, rest: string)
    requires IsBlank(after) && IsBlank(next) && Opens(more)
    requires ParseValue(t) == Some((v, after + ("," + (next + more))))
    requires ParseItems(more) == Some((items, rest))
    ensures ParseItems(t) == Some(([v] + items, rest))
  {
    BlanksAreSkipped(after, "," + (next + more));
    assert ("," + (next + more))[1..] == next + more;
    BlanksAreSkipped(next, more);
  }

  lemma {:induction false} ItemIsRead(item: Item, rest: string)
    requires ItemOk(item) && Follows(rest)
    ensures Opens(ItemText(item, rest))
    ensures ParseValue(ItemText(item, rest)) == Some((ItemValue(item), item.after + rest))
    decreases item, 2
  {
    Starts(item.doc, item.after + rest);
    FollowsBlank(item.after, rest);
    DocIsRead(item.doc, item.after + rest);
  }

  lemma {:induction false} ItemsAreRead(items: seq<Item>, rest: string)
    requires items != [] && forall i :: 0 <= i < |items| ==> ItemOk(items[i])
    ensures Opens(ItemsText(items, "]" + rest))
    ensures ParseItems(ItemsText(items, "]" + rest)) == Some((ValuesOf(items), rest))
    decreases items, 0
  {
    var t, item := ItemsText(items, "]" + rest), items[0];
    if |items| == 1 {
      ItemIsRead(item, "]" + rest);
      LastItem(t, ItemValue(item), item.after, rest);
      assert ValuesOf(items) == [ItemValue(item)];
    } else {
      var more := ItemsText(items[1..], "]" + rest);
      ItemIsRead(item, "," + (item.next + more));
      ItemsAreRead(items[1..], rest);
      ItemBefore(t, ItemValue(item), item.after, item.next, more, ValuesOf(items[1..]), rest);
    }
  }

  /** One member at the start of `t`, up to what follows its value. */
  ghost predicate MemberReads(t: string, e: Entry, tail: string) {
    && t != "" && t[0] == '"' && ParseText(t[1..]).Some? && ParseText(t[1..]).value.0 == e.key
    && var colon := SkipSpace(ParseText(t[1..]).value.1);
    && colon != "" && colon[0] == ':' && ParseValue(SkipSpace(colon[1..])) == Some((e.value, tail))
  }

  lemma {:induction false} MemberIsRead(m: Member, rest: string)
    requires MemberOk(m) && Follows(rest)
    ensures Opens(MemberText(m, rest)) && MemberReads(MemberText(m, rest), PairOf(m), m.after + rest)
    decreases m, 2
  {
    var v := DocText(m.doc, m.after + rest);
    var colon := ":" + (m.afterColon + v);
    LiteralIsRead(m.key, m.beforeColon + colon);
    BlanksAreSkipped(m.beforeColon, colon);
    assert colon[1..] == m.afterColon + v;
    Starts(m.doc, m.after + rest);
    BlanksAreSkipped(m.afterColon, v);
    FollowsBlank(m.after, rest);
    DocIsRead(m.doc, m.after + rest);
  }

  lemma LastMember(t: string, e: Entry, after: string, rest: string)
    requires IsBlank(after) && MemberReads(t, e, after + ("}" + rest))
    ensures ParseEntries(t) == Some(([e], rest))
  {
    BlanksAreSkipped(after, "}" + rest);
    assert ("}" + rest)[1..] == rest;
  }

  lemma MemberBefore(
    t: string, e: Entry, after: string, next: string, more: string, entries: seq<Entry>, rest: string)
    requires IsBlank(after) && IsBlank(next) && Opens(more)
    requires MemberReads(t, e, after + ("," + (next + more)))
    requires ParseEntries(more) == Some((entries, rest))
    ensures ParseEntries(t) == Some((Inserted(e, entries), rest))
  {
    BlanksAreSkipped(after, "," + (next + more));
    assert ("," + (next + more))[1..] == next + more;
    BlanksAreSkipped(next, more);
  }

  lemma {:induction false} MembersAreRead(members: seq<Member>, rest: string)
    requires members != [] && forall i :: 0 <= i < |members| ==> MemberOk(members[i])
    ensures Opens(MembersText(members, "}" + rest))
    ensures ParseEntries(MembersText(members, "}" + rest)) == Some((Dictionary(PairsOf(members)), rest))
    decreases members, 0
  {
    var t, m := MembersText(members, "}" + rest), members[0];
    if |members| == 1 {
      MemberIsRead(m, "}" + rest);
      LastMember(t, PairOf(m), m.after, rest);
      assert PairsOf(members) == [PairOf(m)];
      assert [PairOf(m)][..0] == [] && Dictionary([PairOf(m)]) == [PairOf(m)];
    } else {
      var more := MembersText(members[1..], "}" + rest);
      MemberIsRead(m, "," + (m.next + more));
      MembersAreRead(members[1..], rest);
      MemberBefore(t, PairOf(m), m.after, m.next, more, Dictionary(PairsOf(members[1..])), rest);
      InsertedIsDictionary(PairOf(m), PairsOf(members[1..]));
    }
  }
}
