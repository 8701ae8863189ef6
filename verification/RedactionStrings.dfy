/** Which strings redaction opens: exactly the JSON texts of objects and arrays, with any whitespace around them. */
module RedactionStrings {
  import opened Characters
  import opened Wrappers
  import opened Json
  import opened JsonText
  import opened JsonSound
  import opened Redaction

  // ---------------------------------------------------------------- the end of a text

  predicate SameEnd(t: string, rest: string) {
    t != "" && rest != "" && t[|t| - 1] == rest[|rest| - 1]
  }

  lemma {:induction false} GlyphsEnd(gs: seq<Glyph>, rest: string)
    requires rest != ""
    ensures SameEnd(GlyphsText(gs, rest), rest)
  {
    if gs != [] {
      GlyphsEnd(gs[1..], rest);
    }
  }

  lemma {:induction false} DocEnds(d: Doc, rest: string)
    requires rest != ""
    ensures SameEnd(DocText(d, rest), rest)
    decreases d, 1
  {
    match d
    case Text(glyphs) => GlyphsEnd(glyphs, rest);
    case Array(_, items) => ItemsEnd(items, "]" + rest);
    case Object(_, members) => MembersEnd(members, "}" + rest);
    case _ =>
  }

  lemma {:induction false} ItemEnds(item: Item, rest: string)
    requires rest != ""
    ensures SameEnd(ItemText(item, rest), rest)
    decreases item, 2
  {
    DocEnds(item.doc, item.after + rest);
  }

  lemma {:induction false} ItemsEnd(items: seq<Item>, rest: string)
    requires rest != ""
    ensures SameEnd(ItemsText(items, rest), rest)
    decreases items, 0
  {
    if |items| == 1 {
      ItemEnds(items[0], rest);
    } else if items != [] {
      ItemsEnd(items[1..], rest);
      ItemEnds(items[0], "," + (items[0].next + ItemsText(items[1..], rest)));
    }
  }

  lemma {:induction false} MemberEnds(m: Member, rest: string)
    requires rest != ""
    ensures SameEnd(MemberText(m, rest), rest)
    decreases m, 2
  {
    DocEnds(m.doc, m.after + rest);
    GlyphsEnd(m.key, m.beforeColon + (":" + (m.afterColon + DocText(m.doc, m.after + rest))));
  }

  lemma {:induction false} MembersEnd(members: seq<Member>, rest: string)
    requires rest != ""
    ensures SameEnd(MembersText(members, rest), rest)
    decreases members, 0
  {
    if |members| == 1 {
      MemberEnds(members[0], rest);
    } else if members != [] {
      MembersEnd(members[1..], rest);
      MemberEnds(members[0], "," + (members[0].next + MembersText(members[1..], rest)));
    }
  }

  lemma ContainerEnds(d: Doc)
    requires d.Array? || d.Object?
    ensures var t := DocText(d, "");
            t != "" && (t[0] == '[' || t[0] == '{') && (t[|t| - 1] == ']' || t[|t| - 1] == '}')
  {
    if d.Array? {
      assert "]" + "" == "]";
      ItemsEnd(d.items, "]");
    } else {
      assert "}" + "" == "}";
      MembersEnd(d.members, "}");
    }
  }

  // ---------------------------------------------------------------- strip

  /** What Python's `strip` takes away, among the ASCII characters. */
  predicate IsWhite(s: string) {
    forall i :: 0 <= i < |s| ==> s[i] as int in {9, 10, 11, 12, 13, 28, 29, 30, 31, 32}
  }

  lemma {:induction false} LeftFound(s: string) returns (white: string)
    ensures IsWhite(white) && s == white + StripLeft(s)
    ensures StripLeft(s) != "" ==> !IsSpace(StripLeft(s)[0])
  {
    if s != "" && IsSpace(s[0]) {
      var more := LeftFound(s[1..]);
      white := [s[0]] + more;
    } else {
      white := "";
    }
  }

  lemma {:induction false} RightFound(s: string) returns (white: string)
    ensures IsWhite(white) && s == StripRight(s) + white
    ensures StripRight(s) != "" ==> !IsSpace(StripRight(s)[|StripRight(s)| - 1])
  {
    if s != "" && IsSpace(s[|s| - 1]) {
      var more := RightFound(s[..|s| - 1]);
      white := more + [s[|s| - 1]];
    } else {
      white := "";
    }
  }

  lemma {:induction false} LeftStripped(white: string, t: string)
    requires IsWhite(white) && t != "" && !IsSpace(t[0])
    ensures StripLeft(white + t) == t
  {
    if white == "" {
      assert white + t == t;
    } else {
      LeftStripped(white[1..], t);
      assert (white + t)[1..] == white[1..] + t;
    }
  }

  lemma {:induction false} RightStripped(t: string, white: string)
    requires IsWhite(white) && t != "" && !IsSpace(t[|t| - 1])
    ensures StripRight(t + white) == t
  {
    if white == "" {
      assert t + white == t;
    } else {
      RightStripped(t, white[..|white| - 1]);
      assert (t + white)[..|t + white| - 1] == t + white[..|white| - 1];
    }
  }

  // ---------------------------------------------------------------- what is opened

  /** `s` is the text of an object or array that means `v`, in whitespace. */
  ghost predicate Embeds(s: string, v: Value) {
    exists before: string, d: Doc, after: string ::
      && IsWhite(before) && DocOk(d) && (d.Array? || d.Object?) && IsWhite(after) && ValueOf(d) == v
      && s == before + (DocText(d, "") + after)
  }

  lemma FirstLetter(d: Doc, rest: string)
    requires DocOk(d)
    ensures var t := DocText(d, rest); t != "" && (t[0] == '[' <==> d.Array?) && (t[0] == '{' <==> d.Object?)
  {
    if d.Number? {
      assert IsDigit(d.whole[0]);
    }
  }

  lemma EndsInBlank(d: Doc, after: string)
    requires IsBlank(after) && after != ""
    ensures var t := DocText(d, after); t != "" && IsSpace(t[|t| - 1])
  {
    DocEnds(d, after);
  }

  lemma NothingInFront(before: string, t: string)
    requires IsBlank(before) && before + t != "" && !IsSpace((before + t)[0])
    ensures before == "" && before + t == t
  {
  }

  /** A container's text that starts and ends without a blank has none around it. */
  lemma NothingAround(before: string, d: Doc, after: string)
    requires IsBlank(before) && DocOk(d) && IsBlank(after)
    requires var t := before + DocText(d, after);
             t != "" && (t[0] == '{' || t[0] == '[') && !IsSpace(t[|t| - 1])
    ensures before == "" && after == "" && (d.Array? || d.Object?)
  {
    NothingInFront(before, DocText(d, after));
    if after != "" {
      EndsInBlank(d, after);
    }
    FirstLetter(d, after);
  }

  lemma ContainerFound(t: string, v: Value) returns (d: Doc)
    requires Loads(t) == Some(v) && t != "" && (t[0] == '{' || t[0] == '[') && !IsSpace(t[|t| - 1])
    ensures DocOk(d) && (d.Array? || d.Object?) && ValueOf(d) == v && t == DocText(d, "")
  {
    LoadsReadsTheGrammar(t, v);
    var front: string, found: Doc, back: string :|
      && IsBlank(front) && DocOk(found) && IsBlank(back) && ValueOf(found) == v
      && t == front + DocText(found, back);
    NothingAround(front, found, back);
    d := found;
  }

  lemma StripFound(s: string) returns (before: string, after: string)
    ensures var t := StripRight(StripLeft(s));
            && IsWhite(before) && IsWhite(after) && s == before + (t + after)
            && (t != "" ==> !IsSpace(t[|t| - 1]))
  {
    before := LeftFound(s);
    after := RightFound(StripLeft(s));
  }

  lemma ReparsedEmbeds(s: string, v: Value)
    requires Reparsed(s) == Some(v)
    ensures Embeds(s, v)
  {
    var before, after := StripFound(s);
    var d := ContainerFound(StripRight(StripLeft(s)), v);
  }

  lemma TextAlone(d: Doc)
    requires DocOk(d)
    ensures IsTextOf(DocText(d, ""), ValueOf(d))
  {
    var none := "";
    assert none + DocText(d, none) == DocText(d, none);
    assert IsBlank(none);
  }

  lemma EmbeddedIsReparsed(before: string, d: Doc, after: string)
    requires IsWhite(before) && DocOk(d) && (d.Array? || d.Object?) && IsWhite(after)
    ensures Reparsed(before + (DocText(d, "") + after)) == Some(ValueOf(d))
  {
    var t := DocText(d, "");
    ContainerEnds(d);
    LeftStripped(before, t + after);
    RightStripped(t, after);
    TextAlone(d);
    LoadsReadsTheGrammar(t, ValueOf(d));
  }

  /** Redaction reads a string as `v` exactly if it embeds `v`. */
  lemma ReparsedIffEmbedded(s: string, v: Value)
    ensures Reparsed(s) == Some(v) <==> Embeds(s, v)
  {
    if Reparsed(s) == Some(v) {
      ReparsedEmbeds(s, v);
    }
    if Embeds(s, v) {
      var before: string, d: Doc, after: string :|
        && IsWhite(before) && DocOk(d) && (d.Array? || d.Object?) && IsWhite(after) && ValueOf(d) == v
        && s == before + (DocText(d, "") + after);
      EmbeddedIsReparsed(before, d, after);
    }
  }

  /** A string is redacted as what it embeds, whatever the spelling; a string that embeds nothing stays as it is. */
  lemma EmbeddedTextIsRedacted(s: string)
    ensures forall v :: Embeds(s, v) ==> Redact(Str(s)) == Redact(v)
    ensures (forall v :: !Embeds(s, v)) ==> Redact(Str(s)) == Str(s)
  {
    forall v | Embeds(s, v) ensures Redact(Str(s)) == Redact(v) {
      ReparsedIffEmbedded(s, v);
    }
    if Reparsed(s).Some? {
      ReparsedIffEmbedded(s, Reparsed(s).value);
    }
  }
}
