/**
 JSON-like values and `json.loads`: a recursive-descent reading of RFC 8259, with Python's additions NaN and
 Infinity and its dictionaries, in which the last of several equal keys wins at the place of the first.

 Every parse function promises that a value weighs no more than the text it was read from, which is what makes
 redaction terminate although it parses strings again and again.
 */
module Json {
  import opened Characters
  import opened Wrappers

  datatype Value =
    | Null
    | Bool(truth: bool)
    | Num(text: string)
    | Str(s: string)
    | Map(entries: seq<Entry>)
    | List(items: seq<Value>)

  datatype Entry = Entry(key: string, value: Value)

  /** A string weighs one more than its length; a container one more than what it holds. */
  function Weight(v: Value): (w: nat)
    ensures w >= 1
    decreases v
  {
    match v
    case Str(s) => |s| + 1
    case Map(entries) => 1 + WeightOfEntries(entries)
    case List(items) => 1 + WeightOfItems(items)
    case _ => 1
  }

  function WeightOfItems(items: seq<Value>): nat
    decreases items
  {
    if items == [] then 0 else Weight(items[0]) + WeightOfItems(items[1..])
  }

  function WeightOfEntries(entries: seq<Entry>): nat
    decreases entries
  {
    if entries == [] then 0 else WeightOfEntry(entries[0]) + WeightOfEntries(entries[1..])
  }

  function WeightOfEntry(e: Entry): (w: nat)
    ensures w == Weight(e.value)
    decreases e
  {
    Weight(e.value)
  }

  // ---------------------------------------------------------------- dictionaries

  function Position(entries: seq<Entry>, key: string): (i: nat)
    ensures i <= |entries|
    ensures i < |entries| ==> entries[i].key == key
    ensures forall j :: 0 <= j < i ==> entries[j].key != key
  {
    if entries == [] || entries[0].key == key then 0 else 1 + Position(entries[1..], key)
  }

  lemma {:induction false} WeightWithout(entries: seq<Entry>, i: nat)
    requires i < |entries|
    ensures WeightOfEntries(entries[..i] + entries[i + 1..]) + WeightOfEntry(entries[i]) == WeightOfEntries(entries)
  {
    if i == 0 {
      assert entries[..0] + entries[1..] == entries[1..];
    } else {
      WeightWithout(entries[1..], i - 1);
      var without := entries[..i] + entries[i + 1..];
      assert without[1..] == entries[1..][..i - 1] + entries[1..][i..];
    }
  }

  /** The dictionary of `first` followed by the pairs of `later`, whose keys differ already. */
  function Inserted(first: Entry, later: seq<Entry>): (entries: seq<Entry>)
    ensures WeightOfEntries(entries) <= WeightOfEntry(first) + WeightOfEntries(later)
  {
    var i := Position(later, first.key);
    if i == |later| then
      assert ([first] + later)[1..] == later;
      [first] + later
    else
      WeightWithout(later, i);
      var rest := later[..i] + later[i + 1..];
      assert ([later[i]] + rest)[1..] == rest;
      [later[i]] + rest
  }

  // ---------------------------------------------------------------- text

  predicate IsJsonSpace(c: char) {
    c == ' ' || c == '\t' || c == '\n' || c == '\r'
  }

  function SkipSpace(s: string): (rest: string)
    ensures |rest| <= |s|
  {
    if s != "" && IsJsonSpace(s[0]) then SkipSpace(s[1..]) else s
  }

  function Digits(s: string): (n: nat)
    ensures n <= |s|
  {
    if s != "" && IsDigit(s[0]) then 1 + Digits(s[1..]) else 0
  }

  /** The length of the integer part at the start of `s`: no leading zeros. */
  function WholeLength(s: string): (n: nat)
    ensures n <= |s|
  {
    var sign := if s != "" && s[0] == '-' then 1 else 0;
    var digits := if sign < |s| && s[sign] == '0' then 1 else Digits(s[sign..]);
    if digits == 0 then 0 else sign + digits
  }

  function FractionLength(s: string): (n: nat)
    ensures n <= |s|
  {
    if s != "" && s[0] == '.' && Digits(s[1..]) > 0 then 1 + Digits(s[1..]) else 0
  }

  function ExponentLength(s: string): (n: nat)
    ensures n <= |s|
  {
    if s == "" || (s[0] != 'e' && s[0] != 'E') then 0
    else
      var sign := if |s| > 1 && (s[1] == '+' || s[1] == '-') then 2 else 1;
      if Digits(s[sign..]) > 0 then sign + Digits(s[sign..]) else 0
  }

  /** The length of the number at the start of `s`: integer part, then fraction and exponent where complete. */
  function NumberLength(s: string): (n: nat)
    ensures n <= |s|
  {
    var whole := WholeLength(s);
    if whole == 0 then 0
    else
      var a := whole + FractionLength(s[whole..]);
      a + ExponentLength(s[a..])
  }

  function HexValue(c: char): (r: Option<nat>)
    ensures r.Some? ==> r.value < 16
  {
    if '0' <= c <= '9' then Some(c as nat - '0' as nat)
    else if 'a' <= c <= 'f' then Some(c as nat - 'a' as nat + 10)
    else if 'A' <= c <= 'F' then Some(c as nat - 'A' as nat + 10)
    else None
  }

  /** The four hexadecimal digits behind "\u". */
  function Hex4(s: string): (r: Option<nat>)
    ensures r.Some? ==> |s| >= 4 && r.value < 0x10000
  {
    if |s| < 4 then None
    else
      var a, b, c, d := HexValue(s[0]), HexValue(s[1]), HexValue(s[2]), HexValue(s[3]);
      if a.None? || b.None? || c.None? || d.None? then None
      else Some(a.value * 4096 + b.value * 256 + c.value * 16 + d.value)
  }

  /** Half of a surrogate pair standing alone has no `char` of its own and is read as U+FFFD. */
  function CodePoint(u: nat): char
    requires u < 0x110000
  {
    if 0xD800 <= u < 0xE000 then 0xFFFD as char else u as char
  }

  function SimpleEscape(c: char): Option<char> {
    if c == '"' || c == '\\' || c == '/' then Some(c)
    else if c == 'b' then Some(8 as char)
    else if c == 'f' then Some(12 as char)
    else if c == 'n' then Some('\n')
    else if c == 'r' then Some('\r')
    else if c == 't' then Some('\t')
    else None
  }

  /** One character of a string literal and what follows it; `None` for an invalid escape or control character. */
  function ParseChar(s: string): (r: Option<(char, string)>)
    requires s != ""
    ensures r.Some? ==> |r.value.1| < |s|
  {
    if s[0] != '\\' then if s[0] < ' ' then None else Some((s[0], s[1..]))
    else if |s| < 2 then None
    else if s[1] != 'u' then
      var e := SimpleEscape(s[1]);
      if e.None? then None else Some((e.value, s[2..]))
    else
      var u := Hex4(s[2..]);
      if u.None? then None
      else
        var low := if |s| >= 12 && s[6] == '\\' && s[7] == 'u' then Hex4(s[8..]) else None;
        if 0xD800 <= u.value < 0xDC00 && low.Some? && 0xDC00 <= low.value < 0xE000
        then Some((CodePoint(0x10000 + (u.value - 0xD800) * 0x400 + (low.value - 0xDC00)), s[12..]))
        else Some((CodePoint(u.value), s[6..]))
  }

  /** The rest of a string literal up to its closing quote. */
  function ParseText(s: string): (r: Option<(string, string)>)
    ensures r.Some? ==> |r.value.0| + |r.value.1| < |s|
    decreases |s|
  {
    if s == "" then None
    else if s[0] == '"' then Some(("", s[1..]))
    else
      var c := ParseChar(s);
      if c.None? then None
      else
        var rest := ParseText(c.value.1);
        if rest.None? then None else Some(([c.value.0] + rest.value.0, rest.value.1))
  }

  // ---------------------------------------------------------------- values

  function ParseWord(s: string): (r: Option<(Value, string)>)
    ensures r.Some? ==> Weight(r.value.0) + |r.value.1| <= |s|
  {
    if "null" <= s then Some((Null, s[4..]))
    else if "true" <= s then Some((Bool(true), s[4..]))
    else if "false" <= s then Some((Bool(false), s[5..]))
    else if "NaN" <= s then Some((Num("NaN"), s[3..]))
    else if "Infinity" <= s then Some((Num("Infinity"), s[8..]))
    else if "-Infinity" <= s then Some((Num("-Infinity"), s[9..]))
    else None
  }

  function ParseValue(s: string): (r: Option<(Value, string)>)
    ensures r.Some? ==> Weight(r.value.0) + |r.value.1| <= |s|
    decreases |s|, 1
  {
    if s == "" then None
    else if s[0] == '"' then
      var t := ParseText(s[1..]);
      if t.None? then None else Some((Str(t.value.0), t.value.1))
    else if s[0] == '{' then ParseObject(s)
    else if s[0] == '[' then ParseArray(s)
    else
      var n := NumberLength(s);
      if n > 0 then Some((Num(s[..n]), s[n..])) else ParseWord(s)
  }

  function ParseObject(s: string): (r: Option<(Value, string)>)
    requires s != ""
    ensures r.Some? ==> Weight(r.value.0) + |r.value.1| <= |s|
    decreases |s|, 0
  {
    var rest := SkipSpace(s[1..]);
    if rest != "" && rest[0] == '}' then Some((Map([]), rest[1..]))
    else
      var es := ParseEntries(rest);
      if es.None? then None else Some((Map(es.value.0), es.value.1))
  }

  function ParseArray(s: string): (r: Option<(Value, string)>)
    requires s != ""
    ensures r.Some? ==> Weight(r.value.0) + |r.value.1| <= |s|
    decreases |s|, 0
  {
    var rest := SkipSpace(s[1..]);
    if rest != "" && rest[0] == ']' then Some((List([]), rest[1..]))
    else
      var vs := ParseItems(rest);
      if vs.None? then None else Some((List(vs.value.0), vs.value.1))
  }

  /** The items of an array and its closing bracket. */
  function ParseItems(s: string): (r: Option<(seq<Value>, string)>)
    ensures r.Some? ==> WeightOfItems(r.value.0) + |r.value.1| < |s|
    decreases |s|, 2
  {
    var first := ParseValue(s);
    if first.None? then None
    else
      var rest := SkipSpace(first.value.1);
      if rest == "" then None
      else if rest[0] == ']' then Some(([first.value.0], rest[1..]))
      else if rest[0] != ',' then None
      else
        var more := ParseItems(SkipSpace(rest[1..]));
        if more.None? then None
        else
          assert ([first.value.0] + more.value.0)[1..] == more.value.0;
          Some(([first.value.0] + more.value.0, more.value.1))
  }

  /** The entries of an object and its closing brace. */
  function ParseEntries(s: string): (r: Option<(seq<Entry>, string)>)
    ensures r.Some? ==> WeightOfEntries(r.value.0) + |r.value.1| < |s|
    decreases |s|, 2
  {
    if s == "" || s[0] != '"' then None
    else
      var key := ParseText(s[1..]);
      if key.None? then None
      else
        var colon := SkipSpace(key.value.1);
        if colon == "" || colon[0] != ':' then None
        else
          var v := ParseValue(SkipSpace(colon[1..]));
          if v.None? then None
          else
            var e := Entry(key.value.0, v.value.0);
            var rest := SkipSpace(v.value.1);
            if rest == "" then None
            else if rest[0] == '}' then Some(([e], rest[1..]))
            else if rest[0] != ',' then None
            else
              var more := ParseEntries(SkipSpace(rest[1..]));
              if more.None? then None else Some((Inserted(e, more.value.0), more.value.1))
  }

  /** `json.loads`: the whole text must be one value; `None` stands for the JSONDecodeError. */
  function Loads(s: string): (r: Option<Value>)
    ensures r.Some? ==> Weight(r.value) <= |s|
  {
    var v := ParseValue(SkipSpace(s));
    if v.None? || SkipSpace(v.value.1) != "" then None else Some(v.value.0)
  }
}
