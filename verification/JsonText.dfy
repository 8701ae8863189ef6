/**
 JSON texts as concrete syntax trees: RFC 8259 with the words NaN and Infinity that Python adds. A tree says how
 each character is written, where the blanks stand and how a number is spelled, so it has one text; what it means
 is read off the tree without any parsing. `json.loads` accepts exactly the texts of these trees.
 */
module JsonText {
  import opened Characters
  import opened Json

  // ---------------------------------------------------------------- characters

  /** As itself, as a backslash and a letter, as one \u unit, or as a surrogate pair of two. */
  datatype Glyph =
    | Plain(c: char)
    | Short(letter: char)
    | Unit(u: nat, digits: string)
    | Pair(h: nat, l: nat, high: string, low: string)

  predicate IsHexDigit(c: char, n: nat) {
    n < 16 && (c == "0123456789abcdef"[n] || c == "0123456789ABCDEF"[n])
  }

  /** Four hexadecimal digits, in either case, for the number `u`. */
  ghost predicate Spells(digits: string, u: nat) {
    |digits| == 4
    && exists a: nat, b: nat, c: nat, d: nat ::
         && IsHexDigit(digits[0], a) && IsHexDigit(digits[1], b) && IsHexDigit(digits[2], c) && IsHexDigit(digits[3], d)
         && u == ((a * 16 + b) * 16 + c) * 16 + d
  }

  ghost predicate GlyphOk(g: Glyph) {
    match g
    case Plain(c) => c != '"' && c != '\\' && c >= ' '
    case Short(letter) => letter in "\"\\/bfnrt"
    case Unit(u, digits) => Spells(digits, u)
    case Pair(h, l, high, low) => 0xD800 <= h < 0xDC00 <= l < 0xE000 && Spells(high, h) && Spells(low, l)
  }

  /** Half of a surrogate pair that stands alone is read as U+FFFD. */
  function GlyphChar(g: Glyph): char {
    match g
    case Plain(c) => c
    case Short('b') => 8 as char
    case Short('f') => 12 as char
    case Short('n') => 10 as char
    case Short('r') => 13 as char
    case Short('t') => 9 as char
    case Short(letter) => letter
    case Unit(u, _) => if u < 0xD800 || 0xE000 <= u < 0x110000 then u as char else 0xFFFD as char
    case Pair(h, l, _, _) =>
      if 0xD800 <= h < 0xDC00 <= l < 0xE000 then (0x10000 + (h - 0xD800) * 0x400 + (l - 0xDC00)) as char
      else 0xFFFD as char
  }

  /** The pair of the code point `u`: ten bits each of what exceeds the basic plane. */
  lemma PairOfCodePoint(u: nat, high: string, low: string)
    requires 0x10000 <= u < 0x110000
    ensures GlyphChar(Pair(0xD800 + (u - 0x10000) / 0x400, 0xDC00 + (u - 0x10000) % 0x400, high, low)) == u as char
  {
  }

  function GlyphText(g: Glyph, rest: string): string {
    match g
    case Plain(c) => [c] + rest
    case Short(letter) => ['\\', letter] + rest
    case Unit(_, digits) => "\\u" + (digits + rest)
    case Pair(_, _, high, low) => "\\u" + (high + ("\\u" + (low + rest)))
  }

  predicate IsHigh(g: Glyph) {
    g.Unit? && 0xD800 <= g.u < 0xDC00
  }

  predicate IsLow(g: Glyph) {
    g.Unit? && 0xDC00 <= g.u < 0xE000
  }

  /** Two halves side by side are always a pair. */
  ghost predicate GlyphsOk(gs: seq<Glyph>) {
    gs == [] || (GlyphOk(gs[0]) && !(|gs| > 1 && IsHigh(gs[0]) && IsLow(gs[1])) && GlyphsOk(gs[1..]))
  }

  function CharsOf(gs: seq<Glyph>): string {
    if gs == [] then "" else [GlyphChar(gs[0])] + CharsOf(gs[1..])
  }

  /** The characters of a literal and its closing quote, in front of `rest`. */
  function GlyphsText(gs: seq<Glyph>, rest: string): string {
    if gs == [] then "\"" + rest else GlyphText(gs[0], GlyphsText(gs[1..], rest))
  }

  // ---------------------------------------------------------------- numbers

  predicate AllDigits(s: string) {
    forall i :: 0 <= i < |s| ==> IsDigit(s[i])
  }

  predicate IsWhole(s: string) {
    s == "0" || (s != "" && s[0] != '0' && AllDigits(s))
  }

  predicate IsFraction(s: string) {
    s == "" || (|s| > 1 && s[0] == '.' && AllDigits(s[1..]))
  }

  predicate IsExponent(s: string) {
    s == "" || (|s| > 1 && s[0] in "eE" && (AllDigits(s[1..]) || (|s| > 2 && s[1] in "+-" && AllDigits(s[2..]))))
  }

  // ---------------------------------------------------------------- texts

  datatype Doc =
    | Word(word: string)
    | Number(sign: string, whole: string, fraction: string, exponent: string)
    | Text(glyphs: seq<Glyph>)
    | Array(pad: string, items: seq<Item>)
    | Object(pad: string, members: seq<Member>)

  /** An item, the blanks behind it, and those behind the comma that follows. */
  datatype Item = Item(doc: Doc, after: string, next: string)

  datatype Member =
    Member(key: seq<Glyph>, beforeColon: string, afterColon: string, doc: Doc, after: string, next: string)

  predicate IsBlank(s: string) {
    forall i :: 0 <= i < |s| ==> s[i] in " \t\n\r"
  }

  ghost predicate DocOk(d: Doc)
    decreases d
  {
    match d
    case Word(word) => word in ["null", "true", "false", "NaN", "Infinity", "-Infinity"]
    case Number(sign, whole, fraction, exponent) =>
      (sign == "" || sign == "-") && IsWhole(whole) && IsFraction(fraction) && IsExponent(exponent)
    case Text(glyphs) => GlyphsOk(glyphs)
    case Array(pad, items) => IsBlank(pad) && forall i :: 0 <= i < |items| ==> ItemOk(items[i])
    case Object(pad, members) => IsBlank(pad) && forall i :: 0 <= i < |members| ==> MemberOk(members[i])
  }

  ghost predicate ItemOk(item: Item)
    decreases item
  {
    DocOk(item.doc) && IsBlank(item.after) && IsBlank(item.next)
  }

  ghost predicate MemberOk(m: Member)
    decreases m
  {
    && GlyphsOk(m.key) && DocOk(m.doc)
    && IsBlank(m.beforeColon) && IsBlank(m.afterColon) && IsBlank(m.after) && IsBlank(m.next)
  }

  /** The text of `d` in front of `rest`. */
  function DocText(d: Doc, rest: string): string
    decreases d
  {
    match d
    case Word(word) => word + rest
    case Number(sign, whole, fraction, exponent) => sign + (whole + (fraction + (exponent + rest)))
    case Text(glyphs) => "\"" + GlyphsText(glyphs, rest)
    case Array(pad, items) => "[" + (pad + ItemsText(items, "]" + rest))
    case Object(pad, members) => "{" + (pad + MembersText(members, "}" + rest))
  }

  function ItemsText(items: seq<Item>, rest: string): string
    decreases items
  {
    if items == [] then rest
    else
      var others := if |items| == 1 then rest else "," + (items[0].next + ItemsText(items[1..], rest));
      ItemText(items[0], others)
  }

  function ItemText(item: Item, rest: string): string
    decreases item
  {
    DocText(item.doc, item.after + rest)
  }

  function MembersText(members: seq<Member>, rest: string): string
    decreases members
  {
    if members == [] then rest
    else
      var others := if |members| == 1 then rest else "," + (members[0].next + MembersText(members[1..], rest));
      MemberText(members[0], others)
  }

  function MemberText(m: Member, rest: string): string
    decreases m
  {
    "\"" + GlyphsText(m.key, m.beforeColon + (":" + (m.afterColon + DocText(m.doc, m.after + rest))))
  }

  // ---------------------------------------------------------------- meaning

  /** `entries[key] = value` on a Python dictionary: in place if the key is there, else at the end. */
  function Put(entries: seq<Entry>, e: Entry): seq<Entry> {
    if entries == [] then [e]
    else if entries[0].key == e.key then [e] + entries[1..]
    else [entries[0]] + Put(entries[1..], e)
  }

  /** The pairs put into an empty dictionary one after another. */
  function Dictionary(pairs: seq<Entry>): seq<Entry> {
    if pairs == [] then [] else Put(Dictionary(pairs[..|pairs| - 1]), pairs[|pairs| - 1])
  }

  function ValueOf(d: Doc): Value
    decreases d
  {
    match d
    case Word("null") => Null
    case Word("true") => Bool(true)
    case Word("false") => Bool(false)
    case Word(word) => Num(word)
    case Number(sign, whole, fraction, exponent) => Num(sign + (whole + (fraction + exponent)))
    case Text(glyphs) => Str(CharsOf(glyphs))
    case Array(_, items) => List(ValuesOf(items))
    case Object(_, members) => Map(Dictionary(PairsOf(members)))
  }

  function ValuesOf(items: seq<Item>): seq<Value>
    decreases items
  {
    if items == [] then [] else [ItemValue(items[0])] + ValuesOf(items[1..])
  }

  function ItemValue(item: Item): Value
    decreases item
  {
    ValueOf(item.doc)
  }

  function PairsOf(members: seq<Member>): seq<Entry>
    decreases members
  {
    if members == [] then [] else [PairOf(members[0])] + PairsOf(members[1..])
  }

  function PairOf(m: Member): Entry
    decreases m
  {
    Entry(CharsOf(m.key), ValueOf(m.doc))
  }
}
