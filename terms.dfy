/**
 * Term labels of child courses and the rule `form_valid` uses to keep the
 * most recent one while it walks over the accepted child courses.
 *
 * A term label is the first four characters of a child-course id: two
 * characters of year, one season letter and one more character.  Years are
 * compared as Python compares strings; within a year the season letters
 * rank F above U above S, and any other letter is never displaced nor
 * displaces anything.
 */
module Terms {

  /** The value `current_term` holds before any child course is seen. */
  const Sentinel: string := "00ZZ"

  /** Python's `s[:n]` for a non-negative `n`. */
  function Prefix(s: string, n: nat): (r: string)
    ensures |r| == if |s| <= n then |s| else n
    ensures r == s[..|r|]
  {
    if |s| <= n then s else s[..n]
  }

  /** The term label of a child course: `child_course[:4]`. */
  function TermOf(childCourse: string): string
  {
    Prefix(childCourse, 4)
  }

  /** The year part of a term label: `term[:2]`. */
  function Year(term: string): string
  {
    Prefix(term, 2)
  }

  /** Python's `a < b` on strings: code point by code point, a proper prefix being smaller. */
  predicate LexLess(a: string, b: string)
    decreases |a|
  {
    if a == [] then b != []
    else b != [] && (a[0] < b[0] || (a[0] == b[0] && LexLess(a[1..], b[1..])))
  }

  /** Every term the fold touches must have a season letter to read. */
  predicate Readable(current: string, terms: seq<string>)
  {
    |current| >= 3 && forall i :: 0 <= i < |terms| ==> |terms[i]| >= 3
  }

  /** The comparison of `form_valid`: does `term` replace `current`? */
  predicate Supersedes(term: string, current: string)
    requires |term| >= 3 && |current| >= 3
  {
    || LexLess(Year(current), Year(term))
    || (&& Year(term) == Year(current)
        && (|| (term[2] == 'F' && (current[2] == 'U' || current[2] == 'S'))
            || (term[2] == 'U' && current[2] == 'S')))
  }

  /** One step of the fold: the new `current_term`. */
  function Step(current: string, term: string): (r: string)
    requires |term| >= 3 && |current| >= 3
    ensures r == term || r == current
    ensures |r| >= 3
  {
    if Supersedes(term, current) then term else current
  }

  /** `current_term` after the terms have been folded in, in order. */
  function Fold(current: string, terms: seq<string>): (r: string)
    requires Readable(current, terms)
    ensures |r| >= 3
    decreases |terms|
  {
    if terms == [] then current
    else Step(Fold(current, terms[..|terms| - 1]), terms[|terms| - 1])
  }

  // ---------------------------------------------------------------------
  // An independent description of the season rule: a rank per letter.

  /** F ranks 3, U ranks 2, S ranks 1; every other letter ranks 0. */
  function SeasonRank(c: char): nat
  {
    if c == 'F' then 3 else if c == 'U' then 2 else if c == 'S' then 1 else 0
  }

  /** `term` is later than `current`: a later year, or the same year and a
      higher season, where the season being displaced must itself be ranked. */
  predicate RankedAbove(term: string, current: string)
    requires |term| >= 3 && |current| >= 3
  {
    || LexLess(Year(current), Year(term))
    || (Year(term) == Year(current) && 0 < SeasonRank(current[2]) < SeasonRank(term[2]))
  }

  /** The season letter is one of the three ranked ones. */
  predicate Ranked(term: string)
  {
    |term| >= 3 && SeasonRank(term[2]) > 0
  }

  lemma SupersedesIsRankedAbove(term: string, current: string)
    requires |term| >= 3 && |current| >= 3
    ensures Supersedes(term, current) <==> RankedAbove(term, current)
  {
  }

  // ---------------------------------------------------------------------
  // Python string order is a strict total order.

  lemma {:induction false} LexLessIrreflexive(a: string)
    ensures !LexLess(a, a)
    decreases |a|
  {
    if a != [] {
      LexLessIrreflexive(a[1..]);
    }
  }

  lemma {:induction false} LexLessTransitive(a: string, b: string, c: string)
    requires LexLess(a, b) && LexLess(b, c)
    ensures LexLess(a, c)
    decreases |a|
  {
    if a != [] && a[0] == b[0] && b[0] == c[0] {
      LexLessTransitive(a[1..], b[1..], c[1..]);
    }
  }

  lemma {:induction false} LexLessTotal(a: string, b: string)
    ensures a == b || LexLess(a, b) || LexLess(b, a)
    decreases |a|
  {
    if a != [] && b != [] && a[0] == b[0] {
      LexLessTotal(a[1..], b[1..]);
      if a[1..] == b[1..] {
        assert a == [a[0]] + a[1..] && b == [b[0]] + b[1..];
      }
    }
  }

  lemma LexLessAsymmetric(a: string, b: string)
    requires LexLess(a, b)
    ensures !LexLess(b, a)
  {
    if LexLess(b, a) {
      LexLessTransitive(a, b, a);
      LexLessIrreflexive(a);
    }
  }

  /** "Not later than" chains: b >= a and c >= b give c >= a. */
  lemma NotLessTransitive(a: string, b: string, c: string)
    requires !LexLess(b, a) && !LexLess(c, b)
    ensures !LexLess(c, a)
  {
    LexLessTotal(a, b);
    if LexLess(c, a) && LexLess(a, b) {
      LexLessTransitive(c, a, b);
    }
  }

  lemma NotLessAntisymmetric(a: string, b: string)
    requires !LexLess(a, b) && !LexLess(b, a)
    ensures a == b
  {
    LexLessTotal(a, b);
  }

  // ---------------------------------------------------------------------
  // What the fold computes.

  /** The result is the starting value or one of the folded terms. */
  lemma {:induction false} FoldOrigin(current: string, terms: seq<string>)
    requires Readable(current, terms)
    ensures Fold(current, terms) == current || Fold(current, terms) in terms
    decreases |terms|
  {
    if terms != [] {
      var init := terms[..|terms| - 1];
      FoldOrigin(current, init);
      assert forall t :: t in init ==> t in terms;
    }
  }

  /** The year of the result is at least the year of the start and of every folded term. */
  lemma {:induction false} FoldYearDominates(current: string, terms: seq<string>)
    requires Readable(current, terms)
    ensures !LexLess(Year(Fold(current, terms)), Year(current))
    ensures forall i :: 0 <= i < |terms| ==> !LexLess(Year(Fold(current, terms)), Year(terms[i]))
    decreases |terms|
  {
    if terms == [] {
      LexLessIrreflexive(Year(current));
    } else {
      var n := |terms| - 1;
      var init := terms[..n];
      var prev := Fold(current, init);
      var r := Fold(current, terms);
      FoldYearDominates(current, init);
      // The year never goes down in one step.
      assert !LexLess(Year(r), Year(prev)) by {
        if r == terms[n] && r != prev {
          if LexLess(Year(prev), Year(r)) {
            LexLessAsymmetric(Year(prev), Year(r));
          } else {
            LexLessIrreflexive(Year(r));
          }
        } else {
          LexLessIrreflexive(Year(r));
        }
      }
      NotLessTransitive(Year(current), Year(prev), Year(r));
      forall i | 0 <= i < |terms|
        ensures !LexLess(Year(r), Year(terms[i]))
      {
        if i < n {
          assert terms[i] == init[i];
          NotLessTransitive(Year(terms[i]), Year(prev), Year(r));
        } else if r == terms[n] {
          LexLessIrreflexive(Year(r));
        }
      }
    }
  }

  /** No folded term is later than the result: the fold keeps a maximal term. */
  lemma {:induction false} FoldIsMaximal(current: string, terms: seq<string>)
    requires Readable(current, terms)
    ensures forall i :: 0 <= i < |terms| ==> !RankedAbove(terms[i], Fold(current, terms))
    decreases |terms|
  {
    if terms != [] {
      var n := |terms| - 1;
      var init := terms[..n];
      var prev := Fold(current, init);
      var r := Fold(current, terms);
      FoldIsMaximal(current, init);
      SupersedesIsRankedAbove(terms[n], prev);
      forall i | 0 <= i < |terms|
        ensures !RankedAbove(terms[i], r)
      {
        var t := terms[i];
        if i < n {
          assert t == init[i];
          if r != prev {
            // r displaced prev, and t was not above prev.
            assert !LexLess(Year(r), Year(prev)) by {
              if LexLess(Year(prev), Year(r)) {
                LexLessAsymmetric(Year(prev), Year(r));
              } else {
                LexLessIrreflexive(Year(r));
              }
            }
            NotLessTransitive(Year(t), Year(prev), Year(r));
            if Year(t) == Year(r) {
              NotLessAntisymmetric(Year(prev), Year(r));
            }
          }
        } else if r == t {
          LexLessIrreflexive(Year(t));
        }
      }
    }
  }

  /** Once the result has the sentinel's year it is the sentinel itself:
      no term of year "00" ever displaces "00ZZ". */
  lemma {:induction false} SentinelYearKeepsSentinel(terms: seq<string>)
    requires Readable(Sentinel, terms)
    ensures Year(Fold(Sentinel, terms)) == Year(Sentinel) ==> Fold(Sentinel, terms) == Sentinel
    decreases |terms|
  {
    if terms != [] {
      var n := |terms| - 1;
      var init := terms[..n];
      var prev := Fold(Sentinel, init);
      var r := Fold(Sentinel, terms);
      SentinelYearKeepsSentinel(init);
      FoldYearDominates(Sentinel, init);
      if r != prev {
        assert Sentinel[2] == 'Z';
        LexLessIrreflexive(Year(Sentinel));
        if Year(prev) == Year(Sentinel) {
          // prev is the sentinel, and its season 'Z' is displaced only by a later year.
          assert LexLess(Year(Sentinel), Year(r));
        } else {
          // prev is already past year "00", and r is not earlier than prev.
          LexLessTotal(Year(prev), Year(Sentinel));
          assert !LexLess(Year(r), Year(prev)) by {
            if LexLess(Year(prev), Year(r)) {
              LexLessAsymmetric(Year(prev), Year(r));
            } else {
              LexLessIrreflexive(Year(r));
            }
          }
        }
      }
    }
  }

  /** A single year-"00" term does not displace the sentinel. */
  lemma YearZeroNeverDisplacesSentinel(term: string)
    requires |term| >= 3 && Year(term) == "00"
    ensures Step(Sentinel, term) == Sentinel
  {
    LexLessIrreflexive("00");
  }

  /** Two ranked terms neither of which is later than the other have the
      same year and the same season letter. */
  lemma MutuallyMaximalAgree(r1: string, r2: string)
    requires Ranked(r1) && Ranked(r2)
    requires !RankedAbove(r1, r2) && !RankedAbove(r2, r1)
    ensures Year(r1) == Year(r2) && r1[2] == r2[2]
  {
    NotLessAntisymmetric(Year(r1), Year(r2));
  }

  lemma SameElements(terms1: seq<string>, terms2: seq<string>)
    requires multiset(terms1) == multiset(terms2)
    ensures forall t :: t in terms1 <==> t in terms2
  {
    forall t ensures t in terms1 <==> t in terms2 {
      assert t in terms1 <==> t in multiset(terms1);
      assert t in terms2 <==> t in multiset(terms2);
    }
  }

  /** When every season letter is F, U or S, the order of the terms does not
      change the year and season of the result. */
  lemma FoldOrderIndependentWhenRanked(terms1: seq<string>, terms2: seq<string>)
    requires multiset(terms1) == multiset(terms2)
    requires forall i :: 0 <= i < |terms1| ==> |terms1[i]| >= 3 && SeasonRank(terms1[i][2]) > 0
    ensures Readable(Sentinel, terms2)
    ensures Year(Fold(Sentinel, terms1)) == Year(Fold(Sentinel, terms2))
    ensures Fold(Sentinel, terms1)[2] == Fold(Sentinel, terms2)[2]
  {
    SameElements(terms1, terms2);
    assert forall i :: 0 <= i < |terms2| ==> Ranked(terms2[i]) by {
      forall i | 0 <= i < |terms2| ensures Ranked(terms2[i]) {
        assert terms2[i] in terms1;
      }
    }
    var r1 := Fold(Sentinel, terms1);
    var r2 := Fold(Sentinel, terms2);
    FoldOrigin(Sentinel, terms1);
    FoldOrigin(Sentinel, terms2);
    if r1 != Sentinel && r2 != Sentinel {
      var i1 :| 0 <= i1 < |terms1| && terms1[i1] == r1;
      var i2 :| 0 <= i2 < |terms2| && terms2[i2] == r2;
      var j1 :| 0 <= j1 < |terms1| && terms1[j1] == r2;
      var j2 :| 0 <= j2 < |terms2| && terms2[j2] == r1;
      FoldIsMaximal(Sentinel, terms1);
      FoldIsMaximal(Sentinel, terms2);
      MutuallyMaximalAgree(r1, r2);
    } else if r1 == Sentinel && r2 != Sentinel {
      var i :| 0 <= i < |terms1| && terms1[i] == r2;
      FoldYearDominates(Sentinel, terms1);
      FoldYearDominates(Sentinel, terms2);
      NotLessAntisymmetric(Year(r2), Year(Sentinel));
      SentinelYearKeepsSentinel(terms2);
    } else if r1 != Sentinel && r2 == Sentinel {
      var i :| 0 <= i < |terms2| && terms2[i] == r1;
      FoldYearDominates(Sentinel, terms1);
      FoldYearDominates(Sentinel, terms2);
      NotLessAntisymmetric(Year(r1), Year(Sentinel));
      SentinelYearKeepsSentinel(terms1);
    }
  }

  /** With an unranked season letter the order does matter. */
  lemma FoldOrderDependsOnUnrankedSeason()
    ensures Fold(Sentinel, ["23X1", "23F1"]) == "23X1"
    ensures Fold(Sentinel, ["23F1", "23X1"]) == "23F1"
  {
    assert Year("23X1") == "23" && Year("23F1") == "23" && Year(Sentinel) == "00";
    LexLessIrreflexive("23");
    assert ["23X1", "23F1"][..1] == ["23X1"];
    assert ["23F1", "23X1"][..1] == ["23F1"];
    assert ["23X1"][..0] == [];
    assert ["23F1"][..0] == [];
  }

  /** The sentinel is displaced by a real term, Fall outranks a Spring term
      of the same year, and an equal term keeps the earlier one. */
  lemma StepExamples()
    ensures Step(Sentinel, "23F1") == "23F1"
    ensures Step("23F1", "23S1") == "23F1"
    ensures Step("23S1", "23F1") == "23F1"
    ensures Step("23F1", "23F2") == "23F1"
  {
    assert Year(Sentinel) == "00" && Year("23F1") == "23" && Year("23S1") == "23" && Year("23F2") == "23";
    assert LexLess("00", "23");
    LexLessIrreflexive("23");
    assert Supersedes("23F1", Sentinel);
    assert !Supersedes("23S1", "23F1");
    assert Supersedes("23F1", "23S1");
    assert !Supersedes("23F2", "23F1");
  }
}
