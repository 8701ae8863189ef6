/**
 The converse: whenever a placeholder overtakes, some parameters make counting down differ from substitution. A
 float "0.5" behind "$k" turns it into "$k0", which is then taken for the placeholder 10k. Counting the letter B,
 which only the value of placeholder 10k contains, tells the two texts apart.
 */
module SqlRenderingLimits {
  import opened Characters
  import opened SqlRendering
  import opened SqlRenderingProofs

  function Bs(s: string): nat {
    if s == "" then 0 else (if s[0] == 'B' then 1 else 0) + Bs(s[1..])
  }

  lemma {:induction false} BsConcat(a: string, b: string)
    ensures Bs(a + b) == Bs(a) + Bs(b)
  {
    if a == "" {
      assert a + b == b;
    } else {
      assert (a + b)[1..] == a[1..] + b;
      BsConcat(a[1..], b);
    }
  }

  lemma {:induction false} NoBs(s: string)
    requires 'B' !in s
    ensures Bs(s) == 0
  {
    if s != "" {
      NoBs(s[1..]);
    }
  }

  lemma MarkHasNoBs(k: nat)
    ensures Bs(Mark(k)) == 0
  {
    assert !IsDigit('B');
    NoBs(Mark(k));
  }

  /** The number of replacements `Replace` makes. */
  function Hits(s: string, pattern: string): nat
    requires pattern != ""
  {
    if s == "" then 0
    else if pattern <= s then 1 + Hits(s[|pattern|..], pattern)
    else Hits(s[1..], pattern)
  }

  lemma {:induction false} BsReplace(s: string, pattern: string, value: string)
    requires pattern != "" && Bs(pattern) == 0
    ensures Bs(value) == 0 ==> Bs(Replace(s, pattern, value)) == Bs(s)
    ensures Bs(value) == 1 ==> Bs(Replace(s, pattern, value)) == Bs(s) + Hits(s, pattern)
  {
    if s == "" {
    } else if pattern <= s {
      var rest := s[|pattern|..];
      BsReplace(rest, pattern, value);
      assert s == pattern + rest;
      BsConcat(pattern, rest);
      BsConcat(value, Replace(rest, pattern, value));
    } else {
      BsReplace(s[1..], pattern, value);
      BsConcat([s[0]], Replace(s[1..], pattern, value));
    }
  }

  lemma {:induction false} HitsPass(front: string, rest: string, pattern: string)
    requires pattern != "" && pattern[0] !in front
    ensures Hits(front + rest, pattern) == Hits(rest, pattern)
  {
    if front == "" {
      assert front + rest == rest;
    } else {
      assert (front + rest)[0] == front[0] != pattern[0];
      assert (front + rest)[1..] == front[1..] + rest;
      HitsPass(front[1..], rest, pattern);
    }
  }

  lemma HitsMatch(pattern: string, rest: string)
    requires pattern != ""
    ensures Hits(pattern + rest, pattern) == 1 + Hits(rest, pattern)
  {
  }

  /** A lower mark in front never loses a hit, even when it is itself mistaken for the pattern. */
  lemma HitsBehindAMark(a: string, b: string, rest: string)
    requires '$' !in a && '$' !in b && !(a <= b)
    ensures Hits("$" + b + rest, "$" + a) >= Hits(rest, "$" + a)
  {
    var text := "$" + b + rest;
    if "$" + a <= text {
      MarkPrefix(a, b, rest);
      var digits := a[|b|..];
      var behind := text[|"$" + a|..];
      assert a == b + digits;
      assert text == "$" + a + behind;
      assert text[1 + |b|..] == rest && ("$" + a + behind)[1 + |b|..] == digits + behind;
      HitsPass(digits, behind, "$" + a);
    } else {
      assert text[1..] == b + rest;
      HitsPass(b, rest, "$" + a);
    }
  }

  lemma HitsOnAPair(k: nat, behind: string)
    requires k >= 1
    ensures Hits(Mark(k) + ("0.5" + behind), Mark(10 * k)) == 1 + Hits("0.5" + behind, Mark(10 * k))
  {
    assert Numeral(10 * k) == Numeral(k) + "0";
    assert Mark(k) + ("0.5" + behind) == Mark(10 * k) + (".5" + behind);
    HitsMatch(Mark(10 * k), ".5" + behind);
    HitsPass(".5", behind, Mark(10 * k));
    HitsPass("0.5", behind, Mark(10 * k));
  }

  // ---------------------------------------------------------------- the telling parameters

  function Telling(n: nat, k: nat, j: nat): seq<Param> {
    seq(n, i requires 0 <= i < n =>
      if i + 1 == j then FloatParam("0.5") else if i + 1 == 10 * k then Text("B") else NullParam)
  }

  predicate PairIn(ps: seq<Piece>, k: nat, j: nat) {
    |ps| >= 2 && ((ps[0] == Hole(k) && ps[1] == Hole(j)) || PairIn(ps[1..], k, j))
  }

  /** `j` overtakes no higher placeholder than `k`. */
  ghost predicate NoneHigher(ps: seq<Piece>, k: nat, j: nat) {
    forall m :: m > k && j > 10 * m ==> !PairIn(ps, m, j)
  }

  lemma {:induction false} PairFound(ps: seq<Piece>) returns (k: nat, j: nat)
    requires Overtakes(ps)
    ensures PairIn(ps, k, j) && j > 10 * k
  {
    if ps[0].Hole? && ps[1].Hole? && ps[1].k > 10 * ps[0].k {
      k, j := ps[0].k, ps[1].k;
    } else {
      k, j := PairFound(ps[1..]);
    }
  }

  lemma {:induction false} TopFound(ps: seq<Piece>, k: nat, j: nat) returns (top: nat)
    requires PairIn(ps, k, j) && j > 10 * k
    ensures PairIn(ps, top, j) && j > 10 * top && NoneHigher(ps, top, j)
    decreases j - k
  {
    if m :| m > k && j > 10 * m && PairIn(ps, m, j) {
      top := TopFound(ps, m, j);
    } else {
      top := k;
    }
  }

  lemma {:induction false} PairIsNumbered(ps: seq<Piece>, k: nat, j: nat, n: nat)
    requires Clean(ps, n) && PairIn(ps, k, j)
    ensures 1 <= k <= n && 1 <= j <= n
  {
    if !(ps[0] == Hole(k) && ps[1] == Hole(j)) {
      PairIsNumbered(ps[1..], k, j, n);
    } else {
      assert ps[1..][0] == ps[1];
    }
  }

  /** Above 10k nothing clashes: only "0.5" goes on with a digit, and only behind lower placeholders than k. */
  lemma HeadIsClear(ps: seq<Piece>, n: nat, k: nat, j: nat, lo: nat)
    requires ps != [] && Clean(ps, n) && 10 * k < lo <= n
    requires NoneHigher(ps, k, j)
    ensures !ClashAtHead(ps, Formatted(Telling(n, k, j)), lo)
  {
    var values := Formatted(Telling(n, k, j));
    if ClashAtHead(ps, values, lo) {
      ClashNeedsAPair(ps, values, lo);
      var m, l := ps[0].k, ps[1].k;
      assert ps[1..][0] == ps[1];
      ClashDigit(Numeral(lo), Numeral(m), values[l - 1], Filled(ps[1..][1..], values, lo + 1));
      assert l == j;
      assert Numeral(lo) == Numeral(m) + "0" == Numeral(10 * m);
      NumeralInjective(lo, 10 * m);
      assert PairIn(ps, m, j);
    }
  }

  lemma {:induction false} NoClashAbove(ps: seq<Piece>, n: nat, k: nat, j: nat, lo: nat)
    requires Clean(ps, n) && 10 * k < lo <= n
    requires NoneHigher(ps, k, j)
    ensures NoClash(ps, Formatted(Telling(n, k, j)), lo)
  {
    if ps != [] {
      HeadIsClear(ps, n, k, j, lo);
      forall m | m > k && j > 10 * m ensures !PairIn(ps[1..], m, j) {
        assert !PairIn(ps, m, j);
      }
      NoClashAbove(ps[1..], n, k, j, lo);
    }
  }

  lemma ClashDigit(a: string, b: string, value: string, behind: string)
    requires forall i :: 0 <= i < |a| ==> IsDigit(a[i])
    requires b < a <= b + (value + behind)
    requires value == "0.5" || value == "'B'" || value == "NULL"
    ensures value == "0.5" && a == b + "0"
  {
    var text := b + (value + behind);
    assert text[|b|] == value[0] && text[|b| + 1] == value[1];
    assert IsDigit(a[|b|]) && a[|b|] == text[|b|];
    assert a == text[..|a|];
    assert !IsDigit(text[|b| + 1]);
    assert forall i :: 0 <= i < |a| ==> IsDigit(text[i]);
  }

  function Holes(ps: seq<Piece>, k: nat): nat {
    if ps == [] then 0 else (if ps[0] == Hole(k) then 1 else 0) + Holes(ps[1..], k)
  }

  lemma {:induction false} BsFilled(ps: seq<Piece>, n: nat, k: nat, j: nat, hit: nat)
    requires Clean(ps, n) && hit == 10 * k && hit < j <= n && k >= 1
    ensures var values := Formatted(Telling(n, k, j));
            Bs(Filled(ps, values, 1)) == Bs(Filled(ps, values, hit + 1)) + Holes(ps, hit)
  {
    var values := Formatted(Telling(n, k, j));
    if ps != [] {
      BsFilled(ps[1..], n, k, j, hit);
      var p := ps[0];
      var high := if p.Hole? && p.k >= hit + 1 then values[p.k - 1] else Spelled(p);
      var all := if p.Hole? && p.k >= 1 then values[p.k - 1] else Spelled(p);
      BsConcat(high, Filled(ps[1..], values, hit + 1));
      BsConcat(all, Filled(ps[1..], values, 1));
      if p.Hole? {
        MarkHasNoBs(p.k);
        ValueBs(n, k, j, p.k);
      }
    }
  }

  lemma ValueBs(n: nat, k: nat, j: nat, i: nat)
    requires 1 <= i <= n && 10 * k < j
    ensures Bs(Formatted(Telling(n, k, j))[i - 1]) == if i == 10 * k then 1 else 0
  {
    NoBs("NULL");
    NoBs("0.5");
    NoBs("'");
    assert "'B'" == ("'" + "B") + "'";
    BsConcat("'", "B");
    BsConcat("'" + "B", "'");
    assert "B"[1..] == "";
  }

  lemma {:induction false} HitsFilled(ps: seq<Piece>, n: nat, k: nat, j: nat, hit: nat)
    requires Clean(ps, n) && hit == 10 * k && hit < j <= n && k >= 1
    ensures var values := Formatted(Telling(n, k, j));
            Hits(Filled(ps, values, hit + 1), Mark(hit))
            >= Holes(ps, hit) + (if PairIn(ps, k, j) then 1 else 0)
  {
    var values := Formatted(Telling(n, k, j));
    if ps != [] {
      HitsFilled(ps[1..], n, k, j, hit);
      var p := ps[0];
      var rest := Filled(ps[1..], values, hit + 1);
      if p.Lit? {
        HitsPass([p.c], rest, Mark(hit));
      } else if p.k > hit {
        HitsPass(values[p.k - 1], rest, Mark(hit));
      } else if p.k == hit {
        HitsMatch(Mark(hit), rest);
      } else if |ps| >= 2 && p.k == k && ps[1] == Hole(j) {
        assert ps[1..][0] == ps[1];
        HitsOnAPair(k, Filled(ps[1..][1..], values, hit + 1));
      } else {
        NumeralHasNoDollar(p.k);
        NumeralHasNoDollar(hit);
        if Numeral(hit) <= Numeral(p.k) {
          NumeralPrefix(hit, p.k);
        }
        HitsBehindAMark(Numeral(hit), Numeral(p.k), rest);
      }
    }
  }

  lemma {:induction false} BsCountDown(statement: string, n: nat, k: nat, j: nat, hit: nat, lo: nat)
    requires k >= 1 && hit == 10 * k && 1 <= lo <= hit < j <= n
    ensures var values := Formatted(Telling(n, k, j));
            Bs(CountDown(statement, values, lo)) == Bs(CountDown(statement, values, hit))
    decreases hit - lo
  {
    if lo < hit {
      var values := Formatted(Telling(n, k, j));
      BsCountDown(statement, n, k, j, hit, lo + 1);
      MarkHasNoBs(lo);
      ValueBs(n, k, j, lo);
      BsReplace(CountDown(statement, values, lo + 1), Mark(lo), values[lo - 1]);
    }
  }

  lemma TellingValues(n: nat, k: nat, j: nat)
    ensures DollarFree(Formatted(Telling(n, k, j)))
  {
  }

  /** Above 10k the loop has only filled in values so far. */
  lemma {:induction false} FilledAbove(ps: seq<Piece>, n: nat, k: nat, j: nat, lo: nat)
    requires Clean(ps, n) && 10 * k < lo <= n + 1
    requires NoneHigher(ps, k, j)
    ensures var values := Formatted(Telling(n, k, j));
            CountDown(Statement(ps), values, lo) == Filled(ps, values, lo)
    decreases n + 1 - lo
  {
    var values := Formatted(Telling(n, k, j));
    if lo == n + 1 {
      NothingFilled(ps, values);
    } else {
      FilledAbove(ps, n, k, j, lo + 1);
      NoClashAbove(ps, n, k, j, lo);
      TellingValues(n, k, j);
      ReplaceFills(ps, values, lo);
    }
  }

  /** Each replacement by a value with one B adds one. */
  lemma BsOfOneReplacement(statement: string, values: seq<string>, lo: nat, before: string)
    requires 1 <= lo <= |values| && CountDown(statement, values, lo + 1) == before
    requires Bs(Mark(lo)) == 0 && Bs(values[lo - 1]) == 1
    ensures Bs(CountDown(statement, values, lo)) == Bs(before) + Hits(before, Mark(lo))
  {
    BsReplace(before, Mark(lo), values[lo - 1]);
  }

  /** At `hit`, which is 10k, every hit, wanted or not, becomes a B. */
  lemma BsAtTheHit(ps: seq<Piece>, n: nat, k: nat, j: nat, hit: nat)
    requires Clean(ps, n) && NoneHigher(ps, k, j) && 1 <= k && hit == 10 * k && hit < j <= n
    ensures var values := Formatted(Telling(n, k, j));
            var before := Filled(ps, values, hit + 1);
            Bs(CountDown(Statement(ps), values, hit)) == Bs(before) + Hits(before, Mark(hit))
  {
    var values := Formatted(Telling(n, k, j));
    assert CountDown(Statement(ps), values, hit + 1) == Filled(ps, values, hit + 1) by {
      FilledAbove(ps, n, k, j, hit + 1);
    }
    assert Bs(Mark(hit)) == 0 by { MarkHasNoBs(hit); }
    assert Bs(values[hit - 1]) == 1 by { ValueBs(n, k, j, hit); }
    BsOfOneReplacement(Statement(ps), values, hit, Filled(ps, values, hit + 1));
  }

  lemma MoreBsThanWanted(ps: seq<Piece>, n: nat, k: nat, j: nat, hit: nat)
    requires Clean(ps, n) && PairIn(ps, k, j) && NoneHigher(ps, k, j) && 1 <= k && hit == 10 * k && hit < j <= n
    ensures var values := Formatted(Telling(n, k, j));
            Bs(CountDown(Statement(ps), values, 1)) > Bs(Substituted(ps, values))
  {
    BsAtTheHit(ps, n, k, j, hit);
    HitsFilled(ps, n, k, j, hit);
    BsCountDown(Statement(ps), n, k, j, hit, 1);
    BsFilled(ps, n, k, j, hit);
  }

  /** The texts differ for the telling parameters. */
  lemma OvertakingShows(ps: seq<Piece>, n: nat, k: nat, j: nat)
    requires Clean(ps, n) && PairIn(ps, k, j) && j > 10 * k && NoneHigher(ps, k, j)
    ensures var values := Formatted(Telling(n, k, j));
            Bs(CountDown(Statement(ps), values, 1)) > Bs(Substituted(ps, values))
  {
    PairIsNumbered(ps, k, j, n);
    MoreBsThanWanted(ps, n, k, j, 10 * k);
  }

  // ---------------------------------------------------------------- the theorem

  /** Rendering agrees with substitution at once for every choice of `n` parameters whose text is free of "$". */
  ghost predicate RendersRight(ps: seq<Piece>, n: nat)
    requires Clean(ps, n)
  {
    forall parameters: seq<Param> :: |parameters| == n && DollarFree(Formatted(parameters)) ==>
      CountDown(Statement(ps), Formatted(parameters), 1) == Substituted(ps, Formatted(parameters))
  }

  /**
   For every statement whose placeholders are all in 1..n and not followed by a digit: counting down renders
   every choice of parameters right if and only if no placeholder "$j" directly follows a "$k" with j > 10k.
   */
  lemma RendersRightIffNothingOvertakes(ps: seq<Piece>, n: nat)
    requires Clean(ps, n)
    ensures RendersRight(ps, n) <==> !Overtakes(ps)
  {
    if Overtakes(ps) {
      var k, j := PairFound(ps);
      k := TopFound(ps, k, j);
      OvertakingShows(ps, n, k, j);
      TellingValues(n, k, j);
      assert !RendersRight(ps, n) by {
        assert |Telling(n, k, j)| == n && DollarFree(Formatted(Telling(n, k, j)));
      }
    } else {
      forall parameters: seq<Param> | |parameters| == n && DollarFree(Formatted(parameters))
        ensures CountDown(Statement(ps), Formatted(parameters), 1) == Substituted(ps, Formatted(parameters))
      {
        CountDownIsSubstitution(ps, Formatted(parameters));
      }
    }
  }

  /** "$1$16" with sixteen parameters is such a statement: with 5 for the last, "$15" is replaced next. */
  lemma FirstThenSixteenth()
    ensures Clean([Hole(1), Hole(16)], 16) && !RendersRight([Hole(1), Hole(16)], 16)
  {
    var ps := [Hole(1), Hole(16)];
    assert ps[1..] == [Hole(16)] && ps[1..][1..] == [];
    RendersRightIffNothingOvertakes(ps, 16);
  }
}
