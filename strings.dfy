/** String operations of the .NET base library that the feature extractor relies on:
    splitting on a character, splitting on a string, joining, rendering integers in
    decimal, and the set of distinct characters of a string. */
module Strings {

  /** The last element of a non-empty sequence (LINQ's Last()). */
  function Last<T>(xs: seq<T>): T
    requires |xs| > 0
  {
    xs[|xs| - 1]
  }

  /** The `length` characters of `s` starting at `start` (String.Substring). */
  function Substring(s: string, start: nat, length: nat): string
    requires start + length <= |s|
  {
    s[start..start + length]
  }

  /** `t` occurs somewhere in `s` as a contiguous substring. */
  predicate ContainsString(s: string, t: string)
  {
    exists k | 0 <= k <= |s| - |t| :: Substring(s, k, |t|) == t
  }

  // ---------------------------------------------------------------------------
  // Splitting on a character and joining

  /** The pieces of `s` between occurrences of `c`, as String.Split(char) returns them:
      empty pieces are kept, so there is one piece more than there are `c`s. */
  function Split(s: string, c: char): (parts: seq<string>)
    ensures |parts| >= 1
    ensures forall i :: 0 <= i < |parts| ==> c !in parts[i]
    decreases |s|
  {
    if |s| == 0 then [""]
    else
      var rest := Split(s[1..], c);
      if s[0] == c then [""] + rest
      else [[s[0]] + rest[0]] + rest[1..]
  }

  /** The pieces separated by `sep` (String.Join); no pieces give the empty string. */
  function Join(sep: string, parts: seq<string>): string
  {
    if |parts| == 0 then ""
    else if |parts| == 1 then parts[0]
    else parts[0] + sep + Join(sep, parts[1..])
  }

  /** Splitting on `c` and joining the pieces with `c` gives back the original string. */
  lemma {:induction false} JoinSplit(s: string, c: char)
    ensures Join([c], Split(s, c)) == s
    decreases |s|
  {
    if |s| > 0 {
      var rest := Split(s[1..], c);
      JoinSplit(s[1..], c);
      if s[0] == c {
        assert ([""] + rest)[1..] == rest;
      } else if |rest| > 1 {
        JoinCons([c], s[0], rest);
      }
    }
  }

  /** Joining at least two pieces puts the separator right before the last one. */
  lemma {:induction false} JoinSnoc(sep: string, parts: seq<string>)
    requires |parts| >= 2
    ensures Join(sep, parts) == Join(sep, parts[..|parts| - 1]) + sep + Last(parts)
  {
    var init := parts[..|parts| - 1];
    if |parts| == 2 {
      assert init == [parts[0]];
    } else {
      JoinSnoc(sep, parts[1..]);
      assert parts[1..][..|parts| - 2] == init[1..];
      assert Join(sep, init) == parts[0] + sep + Join(sep, init[1..]);
    }
  }

  /** The first piece is the text before the first `c`, or all of `s` when there is none. */
  lemma {:induction false} SplitFirst(s: string, c: char)
    ensures Split(s, c)[0] <= s
    ensures |Split(s, c)[0]| < |s| ==> s[|Split(s, c)[0]|] == c
    ensures c !in s ==> Split(s, c) == [s]
    decreases |s|
  {
    if |s| > 0 {
      SplitFirst(s[1..], c);
      assert s == [s[0]] + s[1..];
    }
  }

  /** The last piece is the text after the last `c`; there is more than one piece
      exactly when `s` contains `c`. */
  lemma SplitLast(s: string, c: char)
    ensures var parts := Split(s, c);
      && |Last(parts)| <= |s|
      && Last(parts) == s[|s| - |Last(parts)|..]
      && (|Last(parts)| < |s| ==> s[|s| - |Last(parts)| - 1] == c)
      && (|parts| > 1 <==> c in s)
  {
    var parts := Split(s, c);
    JoinSplit(s, c);
    SplitFirst(s, c);
    if |parts| > 1 {
      JoinSnoc([c], parts);
      var init := Join([c], parts[..|parts| - 1]);
      assert s == init + [c] + Last(parts);
      assert s[|init|] == c;
    }
  }

  /** A piece without `c` followed by `c` splits off as the first piece. */
  lemma {:induction false} SplitPrefix(p: string, c: char, s: string)
    requires c !in p
    ensures Split(p + [c] + s, c) == [p] + Split(s, c)
    decreases |p|
  {
    if |p| == 0 {
      assert (p + [c] + s)[1..] == s;
    } else {
      SplitPrefix(p[1..], c, s);
      assert (p + [c] + s)[1..] == p[1..] + [c] + s;
      assert [p[0]] + p[1..] == p;
    }
  }

  /** Joining pieces that do not contain `c` with `c` and splitting on `c` again gives
      back the pieces. */
  lemma {:induction false} SplitJoin(parts: seq<string>, c: char)
    requires |parts| >= 1
    requires forall i :: 0 <= i < |parts| ==> c !in parts[i]
    ensures Split(Join([c], parts), c) == parts
  {
    if |parts| == 1 {
      SplitFirst(parts[0], c);
    } else {
      SplitJoin(parts[1..], c);
      SplitPrefix(parts[0], c, Join([c], parts[1..]));
      assert [parts[0]] + parts[1..] == parts;
    }
  }

  // ---------------------------------------------------------------------------
  // Splitting on a string

  /** The pieces of `s` between the matches of `sep`, as String.Split(string[],
      StringSplitOptions.None) returns them for one separator: the scan looks for the
      leftmost match and resumes right after it, so matches never overlap. */
  function SplitOn(s: string, sep: string): (parts: seq<string>)
    requires |sep| > 0
    ensures |parts| >= 1
    decreases |s|
  {
    if |s| < |sep| then [s]
    else if s[..|sep|] == sep then [""] + SplitOn(s[|sep|..], sep)
    else
      var rest := SplitOn(s[1..], sep);
      [[s[0]] + rest[0]] + rest[1..]
  }

  /** Number of leftmost, non-overlapping matches of `sep` in `s`. */
  function Occurrences(s: string, sep: string): nat
    requires |sep| > 0
    decreases |s|
  {
    if |s| < |sep| then 0
    else if s[..|sep|] == sep then 1 + Occurrences(s[|sep|..], sep)
    else Occurrences(s[1..], sep)
  }

  /** Splitting on `sep` yields one piece more than there are matches. */
  lemma {:induction false} SplitOnCount(s: string, sep: string)
    requires |sep| > 0
    ensures |SplitOn(s, sep)| == Occurrences(s, sep) + 1
    decreases |s|
  {
    if |s| >= |sep| {
      if s[..|sep|] == sep {
        SplitOnCount(s[|sep|..], sep);
      } else {
        SplitOnCount(s[1..], sep);
      }
    }
  }

  /** Joining the pieces with `sep` gives back `s`. */
  lemma {:induction false} SplitOnJoin(s: string, sep: string)
    requires |sep| > 0
    ensures Join(sep, SplitOn(s, sep)) == s
    decreases |s|
  {
    var m := |sep|;
    if |s| >= m {
      if s[..m] == sep {
        var rest := SplitOn(s[m..], sep);
        SplitOnJoin(s[m..], sep);
        assert ([""] + rest)[1..] == rest;
        assert s == sep + s[m..];
      } else {
        var rest := SplitOn(s[1..], sep);
        SplitOnJoin(s[1..], sep);
        if |rest| > 1 {
          var parts := [[s[0]] + rest[0]] + rest[1..];
          assert parts[1..] == rest[1..];
          JoinCons(sep, s[0], rest);
        }
      }
    }
  }

  /** Moving a character onto the first piece moves it onto the joined string. */
  lemma JoinCons(sep: string, c: char, parts: seq<string>)
    requires |parts| > 1
    ensures Join(sep, [[c] + parts[0]] + parts[1..]) == [c] + Join(sep, parts)
  {
    var moved := [[c] + parts[0]] + parts[1..];
    assert moved[1..] == parts[1..];
  }

  /** The first piece is a prefix of `s`. */
  lemma {:induction false} SplitOnFirst(s: string, sep: string)
    requires |sep| > 0
    ensures SplitOn(s, sep)[0] <= s
    decreases |s|
  {
    if |s| >= |sep| && s[..|sep|] != sep {
      SplitOnFirst(s[1..], sep);
    }
  }

  /** No piece contains `sep`. */
  lemma {:induction false} SplitOnPieces(s: string, sep: string)
    requires |sep| > 0
    ensures forall i :: 0 <= i < |SplitOn(s, sep)| ==> !ContainsString(SplitOn(s, sep)[i], sep)
    decreases |s|
  {
    var m := |sep|;
    if |s| < m {
      assert !ContainsString(s, sep);
    } else if s[..m] == sep {
      SplitOnPieces(s[m..], sep);
      assert !ContainsString("", sep);
    } else {
      var rest := SplitOn(s[1..], sep);
      SplitOnPieces(s[1..], sep);
      SplitOnFirst(s[1..], sep);
      ConsClean(s, rest[0], sep);
    }
  }

  /** A piece that starts where `s` does, at a position where `sep` does not match,
      and goes on with a piece free of `sep`, is free of `sep`. */
  lemma ConsClean(s: string, t: string, sep: string)
    requires |sep| > 0 && |s| >= |sep| && s[..|sep|] != sep
    requires t <= s[1..] && !ContainsString(t, sep)
    ensures !ContainsString([s[0]] + t, sep)
  {
    var m := |sep|;
    var first := [s[0]] + t;
    forall k | 0 <= k <= |first| - m
      ensures Substring(first, k, m) != sep
    {
      if k == 0 {
        assert Substring(first, 0, m) == s[..m];
      } else {
        assert Substring(first, k, m) == Substring(t, k - 1, m);
      }
    }
  }

  /** Every match is covered by the scan, so a substring that occurs counts at least once. */
  lemma {:induction false} OccurrencesPositive(s: string, sep: string, k: nat)
    requires |sep| > 0 && k + |sep| <= |s| && Substring(s, k, |sep|) == sep
    ensures Occurrences(s, sep) >= 1
    decreases k
  {
    if s[..|sep|] != sep {
      assert k > 0;
      assert Substring(s[1..], k - 1, |sep|) == Substring(s, k, |sep|);
      OccurrencesPositive(s[1..], sep, k - 1);
    }
  }

  /** The position of the first match the scan finds, for a string with a match. */
  function OccurrenceIndex(s: string, sep: string): (k: nat)
    requires |sep| > 0 && Occurrences(s, sep) > 0
    ensures k + |sep| <= |s| && Substring(s, k, |sep|) == sep
    decreases |s|
  {
    if s[..|sep|] == sep then 0
    else
      var k := OccurrenceIndex(s[1..], sep);
      assert Substring(s, k + 1, |sep|) == Substring(s[1..], k, |sep|);
      k + 1
  }

  lemma MulSucc(a: nat, m: nat)
    ensures (1 + a) * m == m + a * m
  {
  }

  /** Non-overlapping matches fit in the string. */
  lemma {:induction false} OccurrencesBound(s: string, sep: string)
    requires |sep| > 0
    ensures Occurrences(s, sep) * |sep| <= |s|
    decreases |s|
  {
    if |s| >= |sep| {
      if s[..|sep|] == sep {
        OccurrencesBound(s[|sep|..], sep);
        var rest := Occurrences(s[|sep|..], sep);
        assert Occurrences(s, sep) == 1 + rest;
        MulSucc(rest, |sep|);
      } else {
        OccurrencesBound(s[1..], sep);
      }
    }
  }

  /** The split-based count resumes after each match: "aaa" holds "aa" once, "aaaa" twice. */
  lemma OverlappingMatches()
    ensures |SplitOn("aaa", "aa")| - 1 == 1
    ensures |SplitOn("aaaa", "aa")| - 1 == 2
  {
    SplitOnCount("aaa", "aa");
    SplitOnCount("aaaa", "aa");
    assert "aaa"[2..] == "a";
    assert "aaaa"[2..] == "aa";
  }

  // ---------------------------------------------------------------------------
  // Decimal rendering of integers

  /** The decimal digit character for `d`. */
  function DigitChar(d: nat): char
    requires d < 10
  {
    ('0' as int + d) as char
  }

  /** `n` in decimal, as Int32.ToString() renders a non-negative value. */
  function Decimal(n: nat): (s: string)
    ensures |s| >= 1
    ensures (s[0] == '0') == (n == 0)
  {
    if n < 10 then [DigitChar(n)] else Decimal(n / 10) + [DigitChar(n % 10)]
  }

  /** The rendering holds decimal digits only. */
  lemma {:induction false} DecimalDigits(n: nat)
    ensures forall i :: 0 <= i < |Decimal(n)| ==> '0' <= Decimal(n)[i] <= '9'
  {
    if n >= 10 {
      DecimalDigits(n / 10);
    }
  }

  /** The value of a string of decimal digits. */
  function DecimalValue(s: string): int
  {
    if s == [] then 0 else DecimalValue(s[..|s| - 1]) * 10 + (Last(s) as int - '0' as int)
  }

  /** Reading back the decimal rendering gives the number. */
  lemma {:induction false} DecimalRoundTrip(n: nat)
    ensures DecimalValue(Decimal(n)) == n
  {
    var s := Decimal(n);
    if n < 10 {
      assert s[..0] == [];
    } else {
      assert s[..|s| - 1] == Decimal(n / 10);
      DecimalRoundTrip(n / 10);
    }
  }

  // ---------------------------------------------------------------------------
  // Distinct characters

  /** The characters that occur in `s` (ToCharArray().Distinct()). */
  function CharSet(s: string): (cs: set<char>)
    ensures forall c :: c in cs <==> c in s
  {
    if s == [] then {} else {s[0]} + CharSet(s[1..])
  }

  /** No element of `xs` occurs twice. */
  predicate AllDistinct<T(==)>(xs: seq<T>)
  {
    forall i, j :: 0 <= i < j < |xs| ==> xs[i] != xs[j]
  }

  /** A non-empty string has between one and |s| distinct characters. */
  lemma {:induction false} CharSetBounds(s: string)
    ensures |CharSet(s)| <= |s|
    ensures |s| > 0 ==> |CharSet(s)| >= 1
  {
    if s != [] {
      CharSetBounds(s[1..]);
      assert s[0] in CharSet(s);
    }
  }

  /** A string has exactly |s| distinct characters when no character repeats. */
  lemma {:induction false} CharSetAllDistinct(s: string)
    ensures |CharSet(s)| == |s| <==> AllDistinct(s)
  {
    if s != [] {
      var rest := CharSet(s[1..]);
      CharSetAllDistinct(s[1..]);
      CharSetBounds(s[1..]);
      if s[0] in rest {
        assert CharSet(s) == rest;
        var j :| 0 <= j < |s[1..]| && s[1..][j] == s[0];
        assert s[0] == s[j + 1];
      } else {
        assert |CharSet(s)| == |rest| + 1;
        DistinctTail(s);
      }
    }
  }

  /** With its head not repeated, `s` has distinct characters exactly when its tail has. */
  lemma DistinctTail(s: string)
    requires s != [] && s[0] !in s[1..]
    ensures AllDistinct(s) <==> AllDistinct(s[1..])
  {
    if AllDistinct(s[1..]) {
      forall i, j | 0 <= i < j < |s| ensures s[i] != s[j] {
        if i > 0 {
          assert s[i] == s[1..][i - 1] && s[j] == s[1..][j - 1];
        } else {
          assert s[j] == s[1..][j - 1];
        }
      }
    }
    if AllDistinct(s) {
      forall i, j | 0 <= i < j < |s[1..]| ensures s[1..][i] != s[1..][j] {
        assert s[1..][i] == s[i + 1] && s[1..][j] == s[j + 1];
      }
    }
  }
}
