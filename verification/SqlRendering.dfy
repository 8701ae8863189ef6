/**
 Rendering positional SQL parameters for the log: "$n" down to "$1" are replaced one after another by
 `str.replace`, each in the whole text so far. The reference substitutes all placeholders at once.

 A statement is given by its pieces, literal characters and placeholders; `PiecesExist` shows that every statement
 in which each "$" starts a placeholder has them.
 */
module SqlRendering {
  import opened Characters

  // ---------------------------------------------------------------- parameters

  datatype Param =
    | NullParam
    | IntParam(value: int)
    | FloatParam(text: string)
    | BoolParam(truth: bool)
    | Text(text: string)

  /** Decimal digits without leading zeros: Python's str of a natural number. */
  function Numeral(n: nat): (s: string)
    ensures |s| > 0 && forall i :: 0 <= i < |s| ==> IsDigit(s[i])
  {
    if n < 10 then [Digit(n)] else Numeral(n / 10) + [Digit(n % 10)]
  }

  function Digit(d: nat): char
    requires d < 10
  {
    '0' + d as char
  }

  /** `bool` is a subclass of `int`, so a bool is caught by the number branch and never becomes TRUE or FALSE. */
  function Format(p: Param): string {
    match p
    case NullParam => "NULL"
    case IntParam(value) => if value < 0 then "-" + Numeral(-value) else Numeral(value)
    case BoolParam(truth) => if truth then "True" else "False"
    case FloatParam(text) => text
    case Text(text) => "'" + text + "'"
  }

  /** The number that a string of digits stands for. */
  function Decimal(s: string): int {
    if s == "" then 0 else 10 * Decimal(s[..|s| - 1]) + (s[|s| - 1] as int - '0' as int)
  }

  lemma {:induction false} NumeralIsDecimal(n: nat)
    ensures Decimal(Numeral(n)) == n
    ensures n > 0 ==> Numeral(n)[0] != '0'
    ensures n == 0 ==> Numeral(n) == "0"
  {
    if n >= 10 {
      NumeralIsDecimal(n / 10);
      assert Numeral(n)[..|Numeral(n)| - 1] == Numeral(n / 10);
    } else {
      assert Numeral(n)[..0] == "";
    }
  }

  /** An integer is written with a sign exactly if it is negative, and then in decimal without leading zeros. */
  lemma IntegersAreDecimal(value: int)
    ensures var s := Format(IntParam(value));
            var digits := if value < 0 then s[1..] else s;
            && (value < 0 <==> s[0] == '-')
            && digits != "" && (forall i :: 0 <= i < |digits| ==> digits[i] in "0123456789")
            && Decimal(digits) == (if value < 0 then -value else value)
            && (digits[0] == '0' ==> digits == "0")
  {
    NumeralIsDecimal(if value < 0 then -value else value);
    forall c: char | IsDigit(c) ensures c in "0123456789" {
      DigitsAreTen(c);
    }
  }

  /** The other kinds of parameters; a text is quoted without escaping quotes in it. */
  lemma OthersAreWritten(text: string, truth: bool)
    ensures Format(NullParam) == "NULL" && Format(FloatParam(text)) == text
    ensures |Format(Text(text))| == |text| + 2 && Format(Text(text))[1..|text| + 1] == text
    ensures Format(Text(text))[0] == Format(Text(text))[|text| + 1] == '\''
    ensures Format(BoolParam(true)) == "True" && Format(BoolParam(false)) == "False"
  {
  }

  /** The placeholder of the k-th parameter. */
  lemma MarkIsDollarAndDecimal(k: nat)
    ensures Mark(k) != "" && Mark(k)[0] == '$' && Decimal(Mark(k)[1..]) == k
    ensures forall i :: 1 <= i < |Mark(k)| ==> Mark(k)[i] in "0123456789"
    ensures k > 0 ==> Mark(k)[1] != '0'
  {
    NumeralIsDecimal(k);
    forall c: char | IsDigit(c) ensures c in "0123456789" {
      DigitsAreTen(c);
    }
    assert Mark(k)[1..] == Numeral(k);
  }

  // ---------------------------------------------------------------- replacing one after another

  /** `s.replace(old, new)`: leftmost, non-overlapping. */
  function Replace(s: string, pattern: string, value: string): string
    requires pattern != ""
  {
    if s == "" then ""
    else if pattern <= s then value + Replace(s[|pattern|..], pattern, value)
    else [s[0]] + Replace(s[1..], pattern, value)
  }

  function Mark(k: nat): string {
    "$" + Numeral(k)
  }

  /** The text after the placeholders from the last down to `lo` have been replaced, in that order. */
  function CountDown(statement: string, values: seq<string>, lo: nat): string
    requires 1 <= lo <= |values| + 1
    decreases |values| + 1 - lo
  {
    if lo == |values| + 1 then statement
    else Replace(CountDown(statement, values, lo + 1), Mark(lo), values[lo - 1])
  }

  function Formatted(parameters: seq<Param>): seq<string> {
    seq(|parameters|, i requires 0 <= i < |parameters| => Format(parameters[i]))
  }

  method Render(statement: string, parameters: seq<Param>) returns (message: string)
    ensures message == CountDown(statement, Formatted(parameters), 1)
  {
    message := statement;
    for i := |parameters| downto 0
      invariant message == CountDown(statement, Formatted(parameters), i + 1)
    {
      var value := Format(parameters[i]);
      message := Replace(message, Mark(i + 1), value);
    }
  }

  // ---------------------------------------------------------------- replacing all at once

  datatype Piece = Lit(c: char) | Hole(k: nat)

  function Spelled(p: Piece): string {
    if p.Lit? then [p.c] else Mark(p.k)
  }

  function Statement(ps: seq<Piece>): string {
    if ps == [] then "" else Spelled(ps[0]) + Statement(ps[1..])
  }

  /** Every placeholder is one of 1..n and no digit follows it; no other "$" occurs. */
  predicate Clean(ps: seq<Piece>, n: nat) {
    ps == []
    || (&& (if ps[0].Lit? then ps[0].c != '$'
            else 1 <= ps[0].k <= n && (|ps| > 1 && ps[1].Lit? ==> !IsDigit(ps[1].c)))
        && Clean(ps[1..], n))
  }

  predicate DollarFree(values: seq<string>) {
    forall i :: 0 <= i < |values| ==> '$' !in values[i]
  }

  /** All placeholders numbered `lo` or higher are replaced at once. */
  function Filled(ps: seq<Piece>, values: seq<string>, lo: nat): string
    requires Clean(ps, |values|)
  {
    if ps == [] then ""
    else (if ps[0].Hole? && ps[0].k >= lo then values[ps[0].k - 1] else Spelled(ps[0]))
         + Filled(ps[1..], values, lo)
  }

  function Substituted(ps: seq<Piece>, values: seq<string>): string
    requires Clean(ps, |values|)
  {
    Filled(ps, values, 1)
  }

  /** `PlaceholderAt(s, i, k)`: "$k" stands at `i`, and no digit follows it. */
  predicate PlaceholderAt(s: string, i: nat, k: nat) {
    i <= |s| && Mark(k) <= s[i..] && (i + |Mark(k)| < |s| ==> !IsDigit(s[i + |Mark(k)|]))
  }

  ghost predicate CleanText(s: string, n: nat) {
    forall i :: 0 <= i < |s| && s[i] == '$' ==> exists k :: 1 <= k <= n && PlaceholderAt(s, i, k)
  }

  /** The first piece: a character, or a placeholder that no digit follows. */
  lemma FirstPiece(s: string, n: nat) returns (head: Piece)
    requires s != "" && CleanText(s, n)
    ensures Spelled(head) <= s
    ensures if head.Lit? then head.c != '$'
            else 1 <= head.k <= n && (|Spelled(head)| < |s| ==> !IsDigit(s[|Spelled(head)|]))
  {
    if s[0] == '$' {
      var k :| 1 <= k <= n && PlaceholderAt(s, 0, k);
      head := Hole(k);
      assert s[0..] == s;
    } else {
      head := Lit(s[0]);
    }
  }

  /** Every statement in which each "$" starts a placeholder of 1..n, ended by a non-digit, consists of pieces. */
  lemma {:induction false} PiecesExist(s: string, n: nat) returns (ps: seq<Piece>)
    requires CleanText(s, n)
    ensures Clean(ps, n) && Statement(ps) == s
  {
    if s == "" {
      ps := [];
    } else {
      var head := FirstPiece(s, n);
      var rest := s[|Spelled(head)|..];
      CleanRest(s, |Spelled(head)|, n);
      var tail := PiecesExist(rest, n);
      ps := [head] + tail;
      assert ps[1..] == tail;
      assert tail != [] && tail[0].Lit? ==> rest[0] == tail[0].c;
    }
  }

  lemma CleanRest(s: string, size: nat, n: nat)
    requires CleanText(s, n) && size <= |s|
    ensures CleanText(s[size..], n)
  {
    var rest := s[size..];
    forall i | 0 <= i < |rest| && rest[i] == '$'
      ensures exists j :: 1 <= j <= n && PlaceholderAt(rest, i, j)
    {
      assert s[size + i] == '$';
      var j :| 1 <= j <= n && PlaceholderAt(s, size + i, j);
      assert s[size + i..] == rest[i..];
      assert PlaceholderAt(rest, i, j);
    }
  }
}
