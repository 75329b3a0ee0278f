/**
 * `parseRange` of main.go: the episode answer is split on "-" first, and
 * each piece goes through `strconv.Atoi`.  One piece `n` is the range
 * [n, n]; two pieces `m-n` are [m, n] with no check that m <= n; any other
 * number of pieces is rejected.  Because the split comes first, a minus
 * sign never reaches Atoi, so "-5" fails.
 */
module Ranges {
  import opened Wrappers
  import opened GoStrings
  import opened GoStrconv

  /** The error parseRange returns: Atoi's, or its own for too many dashes. */
  datatype RangeError = BadNumber(e: NumError) | TooManyParts

  /** Go's `(first, last int, err error)` triple. */
  datatype ParsedRange = ParsedRange(first: int, last: int, err: Option<RangeError>)

  /** Lifts Atoi's error into parseRange's error. */
  function Lift(e: Option<NumError>): Option<RangeError>
  {
    if e.Some? then Some(BadNumber(e.value)) else None
  }

  /** An integer literal Atoi accepts. */
  predicate IsNumber(s: string)
  {
    IsIntLiteral(s) && InInt64(LiteralValue(s))
  }

  function ParseRange(s: string): ParsedRange
  {
    var ps := Split(s, '-');
    if |ps| == 1 then
      var a := Atoi(ps[0]);
      ParsedRange(a.n, a.n, Lift(a.err))
    else if |ps| == 2 then
      var a := Atoi(ps[0]);
      if a.err.Some? then ParsedRange(0, 0, Lift(a.err))
      else
        var b := Atoi(ps[1]);
        ParsedRange(a.n, b.n, Lift(b.err))
    else ParsedRange(0, 0, Some(TooManyParts))
  }

  /** A dash-free answer is accepted exactly when it is a number `n`, and then gives [n, n]. */
  lemma ParseRangeSingle(s: string)
    requires '-' !in s
    ensures ParseRange(s).err.None? <==> IsNumber(s)
    ensures IsNumber(s) ==> ParseRange(s) == ParsedRange(LiteralValue(s), LiteralValue(s), None)
  {
    SplitWithoutSep(s, '-');
    AtoiSpec(s);
  }

  /**
   * An answer `a-b` is accepted exactly when both sides are numbers, and then
   * gives [a, b], in that order and whatever their order as numbers.
   */
  lemma ParseRangePair(a: string, b: string)
    requires '-' !in a && '-' !in b
    ensures ParseRange(a + "-" + b).err.None? <==> IsNumber(a) && IsNumber(b)
    ensures IsNumber(a) && IsNumber(b) ==>
      ParseRange(a + "-" + b) == ParsedRange(LiteralValue(a), LiteralValue(b), None)
  {
    SplitAtFirstSep(a, b, '-');
    SplitWithoutSep(b, '-');
    AtoiSpec(a);
    AtoiSpec(b);
  }

  /** Two or more dashes are rejected with (0, 0) and parseRange's own error. */
  lemma ParseRangeTooManyDashes(s: string)
    requires Count(s, '-') >= 2
    ensures ParseRange(s) == ParsedRange(0, 0, Some(TooManyParts))
  {
  }

  /** A leading dash leaves an empty first piece, so a negative number is never accepted. */
  lemma ParseRangeLeadingDash(s: string)
    requires |s| > 0 && s[0] == '-'
    ensures ParseRange(s).err.Some?
  {
    assert Split(s, '-')[0] == "";
  }

  /** A trailing dash leaves an empty last piece, so "3-" is rejected. */
  lemma ParseRangeTrailingDash(t: string)
    ensures ParseRange(t + "-").err.Some?
  {
    var ps := Split(t + "-", '-');
    if '-' !in t {
      SplitAtFirstSep(t, "", '-');
      assert t + "-" == t + ['-'] + "";
      assert ps == [t, ""];
    } else {
      assert Count(t + "-", '-') >= 2 by { CountConcat(t, "-", '-'); }
    }
  }

  /** Every answer printed by Itoa for a non-negative int64 `n` reads back as [n, n]. */
  lemma ParseRangeOfNumber(n: nat)
    requires n <= MaxInt64
    ensures ParseRange(Itoa(n)) == ParsedRange(n, n, None)
  {
    NoDash(n);
    AtoiItoa(n);
    AtoiSpec(Itoa(n));
    ParseRangeSingle(Itoa(n));
  }

  /** "m-n" printed for non-negative int64 values reads back as [m, n]. */
  lemma ParseRangeOfPair(m: nat, n: nat)
    requires m <= MaxInt64 && n <= MaxInt64
    ensures ParseRange(Itoa(m) + "-" + Itoa(n)) == ParsedRange(m, n, None)
  {
    NoDash(m);
    NoDash(n);
    AtoiItoa(m);
    AtoiItoa(n);
    AtoiSpec(Itoa(m));
    AtoiSpec(Itoa(n));
    ParseRangePair(Itoa(m), Itoa(n));
  }

  /** Itoa never prints a dash for a non-negative number. */
  lemma NoDash(n: nat)
    ensures '-' !in Itoa(n)
  {
    FormatUintDigits(n);
    forall i | 0 <= i < |Itoa(n)| ensures Itoa(n)[i] != '-' {
      assert IsDigit(Itoa(n)[i]);
    }
  }

  /** The empty answer and "abc" are not numbers. */
  lemma ParseRangeRejectsNonNumbers(s: string)
    requires s == "" || s == "abc"
    ensures ParseRange(s).err.Some?
  {
    assert s != [] ==> !IsDigit(s[0]);
    ParseRangeSingle(s);
  }

  /** Any answer with two dashes, such as "1-2-3", has too many parts. */
  lemma ParseRangeTwoDashes(a: string, b: string, c: string)
    ensures ParseRange(a + "-" + b + "-" + c) == ParsedRange(0, 0, Some(TooManyParts))
  {
    var s := a + "-" + b + "-" + c;
    CountConcat(a + "-" + b + "-", c, '-');
    CountConcat(a + "-" + b, "-", '-');
    CountConcat(a + "-", b, '-');
    CountConcat(a, "-", '-');
    ParseRangeTooManyDashes(s);
  }

  /** "2-10" is the range [2, 10]. */
  lemma ParseRangeExample(s: string)
    requires s == "2-10"
    ensures ParseRange(s) == ParsedRange(2, 10, None)
  {
    assert Itoa(2) + "-" + Itoa(10) == s;
    ParseRangeOfPair(2, 10);
  }
}
