/** When counting down equals substituting at once. */
module SqlRenderingProofs {
  import opened Characters
  import opened SqlRendering

  // ---------------------------------------------------------------- numerals

  lemma {:induction false} NumeralInjective(a: nat, b: nat)
    requires Numeral(a) == Numeral(b)
    ensures a == b
  {
    var s := Numeral(a);
    assert s[|s| - 1] == Digit(a % 10) == Digit(b % 10);
    if a >= 10 && b >= 10 {
      assert s[..|s| - 1] == Numeral(a / 10) == Numeral(b / 10);
      NumeralInjective(a / 10, b / 10);
    }
  }

  /** A numeral that starts another one is the same number or at most a tenth of it. */
  lemma {:induction false} NumeralPrefix(a: nat, b: nat)
    requires Numeral(a) <= Numeral(b)
    ensures a == b || (b >= 10 && 10 * a <= b)
  {
    if |Numeral(a)| == |Numeral(b)| {
      NumeralInjective(a, b);
    } else {
      assert b >= 10;
      assert Numeral(a) <= Numeral(b / 10);
      NumeralPrefix(a, b / 10);
    }
  }

  lemma NumeralHasNoDollar(k: nat)
    ensures '$' !in Numeral(k)
  {
  }

  // ---------------------------------------------------------------- one replacement

  lemma {:induction false} ReplacePasses(front: string, rest: string, pattern: string, value: string)
    requires pattern != "" && pattern[0] !in front
    ensures Replace(front + rest, pattern, value) == front + Replace(rest, pattern, value)
  {
    if front == "" {
      assert front + rest == rest;
    } else {
      assert (front + rest)[0] == front[0] != pattern[0];
      assert (front + rest)[1..] == front[1..] + rest;
      ReplacePasses(front[1..], rest, pattern, value);
      assert front == [front[0]] + front[1..];
    }
  }

  lemma ReplaceMatches(pattern: string, rest: string, value: string)
    requires pattern != ""
    ensures Replace(pattern + rest, pattern, value) == value + Replace(rest, pattern, value)
  {
  }

  lemma ReplaceSkips(front: string, rest: string, pattern: string, value: string)
    requires pattern != "" && pattern[0] == '$' && '$' !in front && !(pattern <= "$" + front + rest)
    ensures Replace("$" + front + rest, pattern, value) == "$" + front + Replace(rest, pattern, value)
  {
    assert ("$" + front + rest)[1..] == front + rest;
    ReplacePasses(front, rest, pattern, value);
    assert ['$'] + (front + Replace(rest, pattern, value)) == "$" + front + Replace(rest, pattern, value);
  }

  /** At the first piece, a lower placeholder and what follows it read as "$lo". */
  predicate ClashAtHead(ps: seq<Piece>, values: seq<string>, lo: nat)
    requires Clean(ps, |values|)
  {
    ps != [] && ps[0].Hole? && ps[0].k < lo && Mark(lo) <= Mark(ps[0].k) + Filled(ps[1..], values, lo + 1)
  }

  predicate NoClash(ps: seq<Piece>, values: seq<string>, lo: nat)
    requires Clean(ps, |values|)
  {
    ps == [] || (!ClashAtHead(ps, values, lo) && NoClash(ps[1..], values, lo))
  }

  lemma {:induction false} ReplaceFills(ps: seq<Piece>, values: seq<string>, lo: nat)
    requires Clean(ps, |values|) && DollarFree(values) && 1 <= lo <= |values| && NoClash(ps, values, lo)
    ensures Replace(Filled(ps, values, lo + 1), Mark(lo), values[lo - 1]) == Filled(ps, values, lo)
  {
    if ps != [] {
      ReplaceFills(ps[1..], values, lo);
      var rest := Filled(ps[1..], values, lo + 1);
      if ps[0].Lit? {
        ReplacePasses([ps[0].c], rest, Mark(lo), values[lo - 1]);
      } else if ps[0].k > lo {
        ReplacePasses(values[ps[0].k - 1], rest, Mark(lo), values[lo - 1]);
      } else if ps[0].k == lo {
        ReplaceMatches(Mark(lo), rest, values[lo - 1]);
      } else {
        NumeralHasNoDollar(ps[0].k);
        ReplaceSkips(Numeral(ps[0].k), rest, Mark(lo), values[lo - 1]);
      }
    }
  }

  lemma {:induction false} NothingFilled(ps: seq<Piece>, values: seq<string>)
    requires Clean(ps, |values|)
    ensures Filled(ps, values, |values| + 1) == Statement(ps)
  {
    if ps != [] {
      NothingFilled(ps[1..], values);
    }
  }

  lemma {:induction false} CountDownFills(ps: seq<Piece>, values: seq<string>, lo: nat)
    requires Clean(ps, |values|) && DollarFree(values) && 1 <= lo <= |values| + 1
    requires forall i :: lo <= i <= |values| ==> NoClash(ps, values, i)
    ensures CountDown(Statement(ps), values, lo) == Filled(ps, values, lo)
    decreases |values| + 1 - lo
  {
    if lo == |values| + 1 {
      NothingFilled(ps, values);
    } else {
      CountDownFills(ps, values, lo + 1);
      ReplaceFills(ps, values, lo);
    }
  }

  // ---------------------------------------------------------------- the condition

  /** Somewhere "$j" directly follows "$k" although j is more than ten times k, as in "$1$16". */
  predicate Overtakes(ps: seq<Piece>) {
    |ps| >= 2 && ((ps[0].Hole? && ps[1].Hole? && ps[1].k > 10 * ps[0].k) || Overtakes(ps[1..]))
  }

  /** What follows "$k" goes on with a digit only if it is the value of a placeholder. */
  lemma DigitsComeFromAValue(ps: seq<Piece>, values: seq<string>, lo: nat)
    requires Clean(ps, |values|) && ps != [] && ps[0].Hole?
    requires Filled(ps[1..], values, lo + 1) != "" && IsDigit(Filled(ps[1..], values, lo + 1)[0])
    ensures |ps| >= 2 && ps[1].Hole? && ps[1].k > lo
  {
  }

  /** What a clash needs: another placeholder right behind, whose value goes on with the digits of `lo`. */
  lemma ClashNeedsAPair(ps: seq<Piece>, values: seq<string>, lo: nat)
    requires Clean(ps, |values|) && ClashAtHead(ps, values, lo)
    ensures |ps| >= 2 && ps[1].Hole? && ps[1].k > lo >= 10 * ps[0].k
    ensures Numeral(ps[0].k) < Numeral(lo) <= Numeral(ps[0].k) + Filled(ps[1..], values, lo + 1)
  {
    var k := ps[0].k;
    var rest := Filled(ps[1..], values, lo + 1);
    MarkPrefix(Numeral(lo), Numeral(k), rest);
    if |Numeral(lo)| <= |Numeral(k)| {
      NumeralPrefix(lo, k);
    } else {
      NumeralPrefix(k, lo);
      assert Numeral(lo)[|Numeral(k)|] == rest[0];
      DigitsComeFromAValue(ps, values, lo);
    }
  }

  lemma MarkPrefix(a: string, b: string, rest: string)
    requires "$" + a <= "$" + b + rest
    ensures a <= b + rest
    ensures |a| <= |b| ==> a <= b
    ensures |a| > |b| ==> b < a && rest != ""
  {
    assert ("$" + a)[1..] == a && ("$" + b + rest)[1..] == b + rest;
    forall i | 0 <= i < |a|
      ensures a[i] == (b + rest)[i]
    {
      assert ("$" + a)[i + 1] == ("$" + b + rest)[i + 1];
    }
  }

  lemma {:induction false} WithoutOvertakingNoClash(ps: seq<Piece>, values: seq<string>, lo: nat)
    requires Clean(ps, |values|) && !Overtakes(ps)
    ensures NoClash(ps, values, lo)
  {
    if ps != [] {
      if ClashAtHead(ps, values, lo) {
        ClashNeedsAPair(ps, values, lo);
      }
      WithoutOvertakingNoClash(ps[1..], values, lo);
    }
  }

  /** Without overtaking, counting down is substitution at once, for all values free of "$". */
  lemma CountDownIsSubstitution(ps: seq<Piece>, values: seq<string>)
    requires Clean(ps, |values|) && DollarFree(values) && !Overtakes(ps)
    ensures CountDown(Statement(ps), values, 1) == Substituted(ps, values)
  {
    forall lo | 1 <= lo <= |values| ensures NoClash(ps, values, lo) {
      WithoutOvertakingNoClash(ps, values, lo);
    }
    CountDownFills(ps, values, 1);
  }
}
