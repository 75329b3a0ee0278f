/**
 * The parts of Go's `strings` package that main.go relies on, for the
 * one-character separators it uses ("-", ",", "\n"): `Split` and
 * `Replace(s, old, new, -1)`.  main.go does not call `Join`; it is modelled
 * only to state the round trips of `Split` and of the `-tags` flag.  The separators are ASCII, so splitting the
 * character sequence gives the same pieces as Go's byte-wise splitting.
 */
module GoStrings {

  /** Number of occurrences of `c` in `s` (Go's `strings.Count` for one character). */
  function Count(s: string, c: char): (n: nat)
    ensures n <= |s|
    ensures n == 0 <==> c !in s
  {
    if s == [] then 0 else (if s[0] == c then 1 else 0) + Count(s[1..], c)
  }

  /** Occurrences in a concatenation add up. */
  lemma {:induction false} CountConcat(x: string, y: string, c: char)
    ensures Count(x + y, c) == Count(x, c) + Count(y, c)
  {
    if x == [] {
      assert x + y == y;
    } else {
      assert (x + y)[1..] == x[1..] + y;
      CountConcat(x[1..], y, c);
    }
  }

  /**
   * `strings.Split(s, sep)`: the pieces of `s` between occurrences of `sep`.
   * There is always one more piece than separator, so `Split("", sep)` is [""].
   */
  function Split(s: string, sep: char): (parts: seq<string>)
    ensures |parts| == Count(s, sep) + 1
    ensures forall p :: p in parts ==> sep !in p
  {
    if s == [] then [""]
    else
      var rest := Split(s[1..], sep);
      if s[0] == sep then [""] + rest
      else
        assert rest[0] in rest;
        [[s[0]] + rest[0]] + rest[1..]
  }

  /** `strings.Join(parts, sep)`: the pieces with one `sep` between neighbours. */
  function Join(parts: seq<string>, sep: char): string
  {
    if |parts| == 0 then ""
    else if |parts| == 1 then parts[0]
    else parts[0] + [sep] + Join(parts[1..], sep)
  }

  /** `strings.Replace(s, string(pat), string(rep), -1)`: every `pat` becomes `rep`. */
  function ReplaceAll(s: string, pat: char, rep: char): string
  {
    if s == [] then [] else [if s[0] == pat then rep else s[0]] + ReplaceAll(s[1..], pat, rep)
  }

  /** Joining the pieces of a split gives the original string back. */
  lemma {:induction false} JoinSplit(s: string, sep: char)
    ensures Join(Split(s, sep), sep) == s
  {
    if s != [] {
      var rest := Split(s[1..], sep);
      JoinSplit(s[1..], sep);
      if s[0] == sep {
        assert Split(s, sep) == [""] + rest;
        assert ([""] + rest)[1..] == rest;
      } else {
        JoinConsChar(s[0], rest, sep);
      }
    }
  }

  /** Prepending a character to the first piece prepends it to the joined string. */
  lemma JoinConsChar(c: char, parts: seq<string>, sep: char)
    requires |parts| > 0
    ensures Join([[c] + parts[0]] + parts[1..], sep) == [c] + Join(parts, sep)
  {
    var q := [[c] + parts[0]] + parts[1..];
    if |parts| > 1 {
      assert q[1..] == parts[1..];
    }
  }

  /** A string without the separator is a single piece. */
  lemma {:induction false} SplitWithoutSep(s: string, sep: char)
    requires sep !in s
    ensures Split(s, sep) == [s]
  {
    if s != [] {
      SplitWithoutSep(s[1..], sep);
      assert [s[0]] + s[1..] == s;
    }
  }

  /** Splitting `a + sep + b`, where `a` holds no separator, yields `a` first and then the pieces of `b`. */
  lemma {:induction false} SplitAtFirstSep(a: string, b: string, sep: char)
    requires sep !in a
    ensures Split(a + [sep] + b, sep) == [a] + Split(b, sep)
  {
    var s := a + [sep] + b;
    if a == [] {
      assert s[1..] == b;
    } else {
      assert s[1..] == a[1..] + [sep] + b;
      SplitAtFirstSep(a[1..], b, sep);
      assert [a[0]] + a[1..] == a;
    }
  }

  /** Splitting a join of separator-free pieces gives the pieces back. */
  lemma {:induction false} SplitJoin(parts: seq<string>, sep: char)
    requires |parts| > 0
    requires forall p :: p in parts ==> sep !in p
    ensures Split(Join(parts, sep), sep) == parts
  {
    assert parts[0] in parts;
    if |parts| == 1 {
      SplitWithoutSep(parts[0], sep);
    } else {
      assert forall p :: p in parts[1..] ==> p in parts;
      SplitJoin(parts[1..], sep);
      SplitAtFirstSep(parts[0], Join(parts[1..], sep), sep);
    }
  }

  /** Replacing keeps the length, changes exactly the `pat` positions, and leaves no `pat` behind. */
  lemma {:induction false} ReplaceAllAt(s: string, pat: char, rep: char)
    ensures |ReplaceAll(s, pat, rep)| == |s|
    ensures forall i :: 0 <= i < |s| ==>
      ReplaceAll(s, pat, rep)[i] == if s[i] == pat then rep else s[i]
    ensures pat != rep ==> pat !in ReplaceAll(s, pat, rep)
  {
    if s != [] {
      ReplaceAllAt(s[1..], pat, rep);
      var r := ReplaceAll(s, pat, rep);
      assert forall i :: 1 <= i < |s| ==> r[i] == ReplaceAll(s[1..], pat, rep)[i - 1];
    }
  }

  /** `Replace(s, old, new, -1)` gives the same string as splitting on `old` and joining with `new`. */
  lemma {:induction false} ReplaceAllIsSplitJoin(s: string, pat: char, rep: char)
    ensures ReplaceAll(s, pat, rep) == Join(Split(s, pat), rep)
  {
    if s != [] {
      var rest := Split(s[1..], pat);
      ReplaceAllIsSplitJoin(s[1..], pat, rep);
      if s[0] == pat {
        assert Split(s, pat) == [""] + rest;
        assert ([""] + rest)[1..] == rest;
      } else {
        JoinConsChar(s[0], rest, rep);
      }
    }
  }
}
