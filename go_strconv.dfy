/**
 * Go's `strconv.Atoi` on a 64-bit platform: an optional sign, then one or
 * more decimal digits, within the int64 range.  Inputs of 1 to 18 bytes take
 * a fast path that cannot overflow; all others go through
 * `ParseInt(s, 10, 0)`, which calls `ParseUint(s, 10, 64)`.  Go returns a
 * value together with a possibly-nil error; so does this model.
 */
module GoStrconv {
  import opened Wrappers

  const MaxUint64: nat := 0xFFFF_FFFF_FFFF_FFFF
  const MaxInt64: int := 0x7FFF_FFFF_FFFF_FFFF
  const MinInt64: int := -0x8000_0000_0000_0000

  /** The two errors a `*strconv.NumError` can wrap for base 10. */
  datatype NumError = ErrSyntax | ErrRange

  /** Go's `(int, error)` pair; `err == None` is a nil error. */
  datatype Parsed = Parsed(n: int, err: Option<NumError>)

  predicate IsDigit(c: char) { '0' <= c <= '9' }

  function DigitValue(c: char): nat
    requires IsDigit(c)
  {
    c as int - '0' as int
  }

  predicate AllDigits(s: string) { forall i :: 0 <= i < |s| ==> IsDigit(s[i]) }

  /** The number a string of decimal digits denotes (most significant digit first). */
  function DigitsValue(s: string): nat
    requires AllDigits(s)
  {
    if s == [] then 0 else DigitsValue(s[..|s| - 1]) * 10 + DigitValue(s[|s| - 1])
  }

  /** The number the digits `s` denote when written after the digits of `acc`. */
  function Appended(acc: nat, s: string): (v: nat)
    requires AllDigits(s)
    decreases |s|
  {
    if s == [] then acc else Appended(acc * 10 + DigitValue(s[0]), s[1..])
  }

  /** What follows an optional leading sign. */
  function Magnitude(s: string): string
  {
    if |s| > 0 && (s[0] == '+' || s[0] == '-') then s[1..] else s
  }

  /** Atoi's grammar: an optional sign followed by one or more decimal digits. */
  predicate IsIntLiteral(s: string)
  {
    |s| > 0 && |Magnitude(s)| > 0 && AllDigits(Magnitude(s))
  }

  /** The mathematical value of an integer literal, before any range check. */
  function LiteralValue(s: string): int
    requires IsIntLiteral(s)
  {
    var v: int := DigitsValue(Magnitude(s));
    if s[0] == '-' then -v else v
  }

  predicate InInt64(n: int) { MinInt64 <= n <= MaxInt64 }

  /**
   * The digit loop of `ParseUint(s, 10, 64)`: a non-digit is a syntax error
   * (value 0); a step that would pass 2^64-1 stops at once with a range
   * error and the value 2^64-1, whatever follows.
   */
  function ScanDigits(s: string, acc: nat): (r: Parsed)
    requires acc <= MaxUint64
    ensures 0 <= r.n <= MaxUint64
    ensures r.err == Some(ErrSyntax) ==> r.n == 0
    ensures r.err == Some(ErrRange) ==> r.n == MaxUint64
  {
    if s == [] then Parsed(acc, None)
    else if !IsDigit(s[0]) then Parsed(0, Some(ErrSyntax))
    else if acc * 10 + DigitValue(s[0]) > MaxUint64 then Parsed(MaxUint64, Some(ErrRange))
    else ScanDigits(s[1..], acc * 10 + DigitValue(s[0]))
  }

  /** `ParseUint(s, 10, 64)`: the empty string is a syntax error. */
  function ParseUint(s: string): Parsed
  {
    if s == [] then Parsed(0, Some(ErrSyntax)) else ScanDigits(s, 0)
  }

  /**
   * The digit loop of Atoi's fast path: a non-digit is a syntax error, and
   * there is no overflow check (at most 18 digits reach it).
   */
  function ShortDigits(s: string, acc: nat): (r: Parsed)
    ensures r.err.Some? ==> r == Parsed(0, Some(ErrSyntax))
  {
    if s == [] then Parsed(acc, None)
    else if !IsDigit(s[0]) then Parsed(0, Some(ErrSyntax))
    else ShortDigits(s[1..], acc * 10 + DigitValue(s[0]))
  }

  /** Atoi's fast path, taken for inputs of 1 to 18 bytes. */
  function AtoiShort(s: string): Parsed
    requires 0 < |s| < 19
  {
    var m := Magnitude(s);
    if m == [] then Parsed(0, Some(ErrSyntax))
    else
      var d := ShortDigits(m, 0);
      if d.err.Some? then Parsed(0, d.err)
      else Parsed(if s[0] == '-' then -d.n else d.n, None)
  }

  /** `strconv.Atoi(s)`: the fast path for short inputs, `ParseInt` otherwise. */
  function Atoi(s: string): Parsed
  {
    if 0 < |s| < 19 then AtoiShort(s) else ParseInt(s)
  }

  /**
   * `ParseInt(s, 10, 64)`: a syntax error gives 0; a value outside int64
   * gives the nearest int64 bound together with a range error.
   */
  function ParseInt(s: string): Parsed
  {
    if s == [] then Parsed(0, Some(ErrSyntax))
    else
      var neg := s[0] == '-';
      var u := ParseUint(Magnitude(s));
      if u.err == Some(ErrSyntax) then Parsed(0, u.err)
      else if !neg && u.n >= MaxInt64 + 1 then Parsed(MaxInt64, Some(ErrRange))
      else if neg && u.n > -MinInt64 then Parsed(MinInt64, Some(ErrRange))
      else Parsed(if neg then -u.n else u.n, None)
  }

  /** `strconv.FormatUint(n, 10)`: the shortest decimal digits of `n`. */
  function FormatUint(n: nat): string
  {
    if n < 10 then ['0' + n as char] else FormatUint(n / 10) + ['0' + (n % 10) as char]
  }

  /** `strconv.Itoa(n)`: a minus sign before the digits of a negative number. */
  function Itoa(n: int): string
  {
    if n < 0 then "-" + FormatUint(-n) else FormatUint(n)
  }

  /** One more digit at the end multiplies the value read so far by ten and adds that digit. */
  lemma {:induction false} AppendedSnoc(acc: nat, s: string, c: char)
    requires AllDigits(s) && IsDigit(c)
    ensures AllDigits(s + [c])
    ensures Appended(acc, s + [c]) == Appended(acc, s) * 10 + DigitValue(c)
    decreases |s|
  {
    if s != [] {
      assert (s + [c])[1..] == s[1..] + [c];
      AppendedSnoc(acc * 10 + DigitValue(s[0]), s[1..], c);
    }
  }

  /** Reading digits after nothing is reading the digits alone. */
  lemma {:induction false} AppendedFromZero(s: string)
    requires AllDigits(s)
    ensures Appended(0, s) == DigitsValue(s)
  {
    if s != [] {
      var init := s[..|s| - 1];
      AppendedFromZero(init);
      AppendedSnoc(0, init, s[|s| - 1]);
      assert init + [s[|s| - 1]] == s;
    }
  }

  /** Reading further digits never makes the accumulated value smaller. */
  lemma {:induction false} AppendedAtLeast(acc: nat, s: string)
    requires AllDigits(s)
    ensures Appended(acc, s) >= acc
    decreases |s|
  {
    if s != [] {
      AppendedAtLeast(acc * 10 + DigitValue(s[0]), s[1..]);
    }
  }

  /** On digits, the scan returns their value exactly when it fits in 64 unsigned bits. */
  lemma {:induction false} ScanDigitsValue(s: string, acc: nat)
    requires acc <= MaxUint64 && AllDigits(s)
    ensures ScanDigits(s, acc) ==
      if Appended(acc, s) <= MaxUint64 then Parsed(Appended(acc, s), None)
      else Parsed(MaxUint64, Some(ErrRange))
  {
    if s != [] {
      var next := acc * 10 + DigitValue(s[0]);
      if next > MaxUint64 {
        AppendedAtLeast(next, s[1..]);
      } else {
        ScanDigitsValue(s[1..], next);
      }
    }
  }

  /** A non-digit anywhere makes the scan fail (with a syntax or an earlier range error). */
  lemma {:induction false} ScanDigitsRejects(s: string, acc: nat)
    requires acc <= MaxUint64 && !AllDigits(s)
    ensures ScanDigits(s, acc).err.Some?
  {
    if IsDigit(s[0]) && acc * 10 + DigitValue(s[0]) <= MaxUint64 {
      assert !AllDigits(s[1..]) by {
        var i :| 0 <= i < |s| && !IsDigit(s[i]);
        assert s[1..][i - 1] == s[i];
      }
      ScanDigitsRejects(s[1..], acc * 10 + DigitValue(s[0]));
    }
  }

  /**
   * ParseInt succeeds exactly on integer literals whose value fits in int64,
   * and then returns that value; a literal outside int64 is a range error
   * that saturates at the bound on its side; a syntax error returns 0.
   */
  lemma ParseIntSpec(s: string)
    ensures ParseInt(s).err.None? <==> IsIntLiteral(s) && InInt64(LiteralValue(s))
    ensures ParseInt(s).err.None? ==> ParseInt(s).n == LiteralValue(s)
    ensures IsIntLiteral(s) && !InInt64(LiteralValue(s)) ==>
      ParseInt(s) == Parsed(if s[0] == '-' then MinInt64 else MaxInt64, Some(ErrRange))
    ensures ParseInt(s).err == Some(ErrSyntax) ==> ParseInt(s).n == 0
  {
    if s != [] {
      var m := Magnitude(s);
      if m != [] {
        if AllDigits(m) {
          ScanDigitsValue(m, 0);
          AppendedFromZero(m);
        } else {
          ScanDigitsRejects(m, 0);
          var u := ScanDigits(m, 0);
          assert ParseUint(m) == u && u.err.Some?;
          assert u.err == Some(ErrRange) ==> u.n == MaxUint64;
          match u.err.value
          case ErrSyntax =>
            assert u.err == Some(ErrSyntax);
          case ErrRange =>
            assert u.n >= MaxInt64 + 1 && u.n > -MinInt64;
        }
      }
    }
  }

  /** Ten to the power `k`. */
  function Pow10(k: nat): (p: nat)
    ensures p >= 1
  {
    if k == 0 then 1 else 10 * Pow10(k - 1)
  }

  /** 10^18, the bound on values the fast path can read. */
  lemma Pow10Of18()
    ensures Pow10(18) == 1_000_000_000_000_000_000
  {
    assert Pow10(3) == 1000;
    assert Pow10(6) == 1000 * Pow10(3);
    assert Pow10(9) == 1000 * Pow10(6);
    assert Pow10(12) == 1000 * Pow10(9);
    assert Pow10(15) == 1000 * Pow10(12);
    assert Pow10(18) == 1000 * Pow10(15);
  }

  /** Powers of ten grow with the exponent. */
  lemma {:induction false} Pow10Monotone(j: nat, k: nat)
    requires j <= k
    ensures Pow10(j) <= Pow10(k)
  {
    if j < k {
      Pow10Monotone(j, k - 1);
    }
  }

  /**
   * While fewer than 19 digits can have been read, the fast loop and
   * ParseUint's loop agree, and the value stays below 10^18.
   */
  lemma {:induction false} ShortScanAgrees(s: string, acc: nat)
    requires |s| <= 18 && acc < Pow10(18 - |s|)
    ensures acc <= MaxUint64
    ensures ScanDigits(s, acc) == ShortDigits(s, acc)
    ensures ShortDigits(s, acc).n < Pow10(18)
  {
    Pow10Monotone(18 - |s|, 18);
    Pow10Of18();
    if s != [] && IsDigit(s[0]) {
      var next := acc * 10 + DigitValue(s[0]);
      assert next < Pow10(18 - |s[1..]|);
      Pow10Monotone(18 - |s[1..]|, 18);
      ShortScanAgrees(s[1..], next);
    }
  }

  /** On inputs of 1 to 18 bytes, Atoi's fast path returns what ParseInt returns. */
  lemma AtoiShortAgrees(s: string)
    requires 0 < |s| < 19
    ensures AtoiShort(s) == ParseInt(s)
  {
    var m := Magnitude(s);
    if m != [] {
      ShortScanAgrees(m, 0);
      Pow10Of18();
      assert ParseUint(m) == ShortDigits(m, 0);
    }
  }

  /**
   * Atoi succeeds exactly on integer literals whose value fits in int64, and
   * then returns that value; a literal outside int64 is a range error that
   * saturates at the bound on its side; a syntax error returns 0.
   */
  lemma AtoiSpec(s: string)
    ensures Atoi(s).err.None? <==> IsIntLiteral(s) && InInt64(LiteralValue(s))
    ensures Atoi(s).err.None? ==> Atoi(s).n == LiteralValue(s)
    ensures IsIntLiteral(s) && !InInt64(LiteralValue(s)) ==>
      Atoi(s) == Parsed(if s[0] == '-' then MinInt64 else MaxInt64, Some(ErrRange))
    ensures Atoi(s).err == Some(ErrSyntax) ==> Atoi(s).n == 0
  {
    ParseIntSpec(s);
    if 0 < |s| < 19 {
      AtoiShortAgrees(s);
    }
  }

  /** The digits printed for `n` are decimal digits, none of them a sign, and denote `n`. */
  lemma {:induction false} FormatUintDigits(n: nat)
    ensures |FormatUint(n)| > 0 && AllDigits(FormatUint(n))
    ensures DigitsValue(FormatUint(n)) == n
  {
    var s := FormatUint(n);
    if n >= 10 {
      FormatUintDigits(n / 10);
      assert s[..|s| - 1] == FormatUint(n / 10);
    }
  }

  /** Atoi reads back what Itoa prints, for every int64. */
  lemma AtoiItoa(n: int)
    requires InInt64(n)
    ensures Atoi(Itoa(n)) == Parsed(n, None)
  {
    var s := Itoa(n);
    FormatUintDigits(if n < 0 then -n else n);
    if n < 0 {
      assert Magnitude(s) == FormatUint(-n);
    } else {
      assert Magnitude(s) == FormatUint(n);
    }
    AtoiSpec(s);
  }
}
