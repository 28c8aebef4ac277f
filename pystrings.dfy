/** The Python `str` operations the ingestion path relies on, stated on
    `string` (a `seq<char>`): `s.split(c)`, `c.join(ws)`, `s.rfind(c)`,
    `s.rsplit(c, 1)[1]`, `s.lower()` and the `+=` accumulation of pieces. */
module PyStrings {

  /** Number of occurrences of `c` in `s`. */
  function Count(s: string, c: char): (k: nat)
    ensures k <= |s|
    ensures k == 0 <==> c !in s
  {
    if s == [] then 0
    else
      assert s == [s[0]] + s[1..];
      (if s[0] == c then 1 else 0) + Count(s[1..], c)
  }

  /** `s.split(sep)` for a one-character separator: the runs of text between
      separators, in order, empty runs included; there is always one more
      field than there are separators. */
  function SplitOn(s: string, sep: char): (fields: seq<string>)
    ensures fields != []
  {
    if s == [] then [""]
    else
      var rest := SplitOn(s[1..], sep);
      if s[0] == sep then [""] + rest
      else [[s[0]] + rest[0]] + rest[1..]
  }

  /** There is one more field than there are separators. */
  lemma {:induction false} SplitLength(s: string, sep: char)
    ensures |SplitOn(s, sep)| == Count(s, sep) + 1
  {
    if s != [] {
      SplitLength(s[1..], sep);
    }
  }

  /** No field contains the separator. */
  lemma {:induction false} SplitFieldsFree(s: string, sep: char)
    ensures forall i :: 0 <= i < |SplitOn(s, sep)| ==> sep !in SplitOn(s, sep)[i]
  {
    if s != [] {
      SplitFieldsFree(s[1..], sep);
      var rest := SplitOn(s[1..], sep);
      var fields := SplitOn(s, sep);
      if s[0] != sep {
        forall i | 0 <= i < |fields| ensures sep !in fields[i] {
          if i == 0 {
            assert fields[0] == [s[0]] + rest[0];
          } else {
            assert fields[i] == rest[i];
          }
        }
      } else {
        forall i | 0 <= i < |fields| ensures sep !in fields[i] {
          if i > 0 {
            assert fields[i] == rest[i - 1];
          }
        }
      }
    }
  }

  /** `sep.join(words)`; the join of no words is the empty string. */
  function JoinWith(words: seq<string>, sep: char): (s: string)
    ensures |words| == 1 ==> s == words[0]
  {
    if words == [] then ""
    else if |words| == 1 then words[0]
    else words[0] + [sep] + JoinWith(words[1..], sep)
  }

  /** Joining puts one separator between consecutive words. */
  lemma JoinCons(w: string, rest: seq<string>, sep: char)
    requires rest != []
    ensures JoinWith([w] + rest, sep) == w + [sep] + JoinWith(rest, sep)
  {
    assert ([w] + rest)[1..] == rest;
  }

  /** Joining separator-free words adds exactly one separator per gap. */
  lemma {:induction false} JoinCount(words: seq<string>, sep: char)
    requires words != []
    requires forall i :: 0 <= i < |words| ==> sep !in words[i]
    ensures Count(JoinWith(words, sep), sep) == |words| - 1
  {
    if |words| > 1 {
      var tail := JoinWith(words[1..], sep);
      JoinCount(words[1..], sep);
      CountAppend(words[0] + [sep], tail, sep);
      CountAppend(words[0], [sep], sep);
      assert Count([sep], sep) == 1;
    }
  }

  lemma {:induction false} CountAppend(a: string, b: string, c: char)
    ensures Count(a + b, c) == Count(a, c) + Count(b, c)
  {
    if a != [] {
      assert (a + b)[1..] == a[1..] + b;
      CountAppend(a[1..], b, c);
    } else {
      assert a + b == b;
    }
  }

  /** A separator splits the text in two: the fields of `a + [sep] + b` are
      the fields of `a` followed by the fields of `b`. */
  lemma {:induction false} SplitAround(a: string, b: string, sep: char)
    ensures SplitOn(a + [sep] + b, sep) == SplitOn(a, sep) + SplitOn(b, sep)
  {
    var s := a + [sep] + b;
    if a == [] {
      assert s[1..] == b;
    } else {
      assert s[1..] == a[1..] + [sep] + b;
      SplitAround(a[1..], b, sep);
    }
  }

  /** Text without a separator is a single field. */
  lemma {:induction false} SplitWithoutSeparator(w: string, sep: char)
    requires sep !in w
    ensures SplitOn(w, sep) == [w]
  {
    if w != [] {
      SplitWithoutSeparator(w[1..], sep);
      assert [w[0]] + w[1..] == w;
    }
  }

  /** Joining the fields of a split gives back the text exactly. */
  lemma {:induction false} JoinSplit(s: string, sep: char)
    ensures JoinWith(SplitOn(s, sep), sep) == s
  {
    if s != [] {
      JoinSplit(s[1..], sep);
      JoinSplitStep(s, sep);
    }
  }

  /** One step of `JoinSplit`: the first character goes back in front. */
  lemma JoinSplitStep(s: string, sep: char)
    requires s != []
    requires JoinWith(SplitOn(s[1..], sep), sep) == s[1..]
    ensures JoinWith(SplitOn(s, sep), sep) == s
  {
    var rest := SplitOn(s[1..], sep);
    if s[0] == sep {
      JoinCons("", rest, sep);
      assert "" + [sep] + s[1..] == s;
    } else if |rest| == 1 {
      assert [s[0]] + s[1..] == s;
    } else {
      JoinCons(rest[0], rest[1..], sep);
      assert [rest[0]] + rest[1..] == rest;
      JoinCons([s[0]] + rest[0], rest[1..], sep);
      assert [s[0]] + s[1..] == s;
    }
  }

  /** Splitting a join of separator-free words gives back the words. */
  lemma {:induction false} SplitJoin(words: seq<string>, sep: char)
    requires words != []
    requires forall i :: 0 <= i < |words| ==> sep !in words[i]
    ensures SplitOn(JoinWith(words, sep), sep) == words
  {
    SplitWithoutSeparator(words[0], sep);
    if |words| > 1 {
      SplitJoin(words[1..], sep);
      SplitAround(words[0], JoinWith(words[1..], sep), sep);
      assert [words[0]] + words[1..] == words;
    }
  }

  /** Joining two non-empty lists of words puts one separator between them. */
  lemma {:induction false} JoinAppend(a: seq<string>, b: seq<string>, sep: char)
    requires a != [] && b != []
    ensures JoinWith(a + b, sep) == JoinWith(a, sep) + [sep] + JoinWith(b, sep)
  {
    if |a| == 1 {
      assert (a + b)[1..] == b;
    } else {
      assert (a + b)[1..] == a[1..] + b;
      JoinAppend(a[1..], b, sep);
    }
  }

  /** `s.rfind(c)`: the index of the last `c` in `s`, or -1 when there is none. */
  function LastIndexOf(s: string, c: char): (i: int)
    ensures -1 <= i < |s|
    ensures 0 <= i ==> s[i] == c
  {
    if s == [] then -1
    else if s[|s| - 1] == c then |s| - 1
    else LastIndexOf(s[..|s| - 1], c)
  }

  /** `rfind` finds nothing exactly when `c` is absent, and no `c` follows
      the one it finds. */
  lemma {:induction false} LastIndexOfSpec(s: string, c: char)
    ensures LastIndexOf(s, c) == -1 <==> c !in s
    ensures forall k :: LastIndexOf(s, c) < k < |s| ==> s[k] != c
  {
    if s != [] && s[|s| - 1] != c {
      var init := s[..|s| - 1];
      LastIndexOfSpec(init, c);
      assert s == init + [s[|s| - 1]];
      forall k | LastIndexOf(s, c) < k < |s| - 1 ensures s[k] != c {
        assert s[k] == init[k];
      }
    }
  }

  /** `LastIndexOf` is determined by its specification. */
  lemma LastIndexOfUnique(s: string, c: char, i: int)
    requires -1 <= i < |s|
    requires i == -1 <==> c !in s
    requires 0 <= i ==> s[i] == c
    requires forall k :: i < k < |s| ==> s[k] != c
    ensures LastIndexOf(s, c) == i
  {
    LastIndexOfSpec(s, c);
    var j := LastIndexOf(s, c);
    if 0 <= i && 0 <= j {
      assert !(i < j) && !(j < i);
    }
  }

  /** `s.rsplit(c, 1)[1]`: the text after the last `c`, defined when `s`
      holds a `c` (Python raises `IndexError` otherwise). */
  function AfterLast(s: string, c: char): (tail: string)
    requires c in s
    ensures c !in tail
    ensures |tail| < |s| && s == s[..|s| - |tail| - 1] + [c] + tail
  {
    LastIndexOfSpec(s, c);
    s[LastIndexOf(s, c) + 1..]
  }

  /** `c.lower()` on ASCII letters; every other character is left alone. */
  function LowerChar(c: char): (l: char)
    ensures l == c <==> !('A' <= c <= 'Z')
    ensures 'A' <= c <= 'Z' ==> 'a' <= l <= 'z'
  {
    if 'A' <= c <= 'Z' then (c as int + 32) as char else c
  }

  /** `s.lower()`, character by character. */
  function Lower(s: string): (l: string)
    ensures |l| == |s|
    ensures forall i :: 0 <= i < |s| ==> l[i] == LowerChar(s[i])
  {
    seq(|s|, i requires 0 <= i < |s| => LowerChar(s[i]))
  }

  /** The accumulator `acc += piece` run over `pieces` from the empty string. */
  function Concat(pieces: seq<string>): (s: string)
    ensures |s| == TotalLength(pieces)
  {
    if pieces == [] then ""
    else
      var init, last := pieces[..|pieces| - 1], pieces[|pieces| - 1];
      TotalLengthSnoc(init, last);
      assert init + [last] == pieces;
      Concat(init) + last
  }

  /** Accumulating two runs of pieces in turn concatenates their results:
      nothing is inserted between pieces. */
  lemma {:induction false} ConcatAppend(a: seq<string>, b: seq<string>)
    ensures Concat(a + b) == Concat(a) + Concat(b)
  {
    if b != [] {
      assert (a + b)[..|a + b| - 1] == a + b[..|b| - 1];
      ConcatAppend(a, b[..|b| - 1]);
    } else {
      assert a + b == a;
    }
  }

  /** The combined length of the pieces, counted from the front. */
  function TotalLength(pieces: seq<string>): nat
  {
    if pieces == [] then 0 else |pieces[0]| + TotalLength(pieces[1..])
  }

  lemma {:induction false} TotalLengthSnoc(pieces: seq<string>, p: string)
    ensures TotalLength(pieces + [p]) == TotalLength(pieces) + |p|
  {
    if pieces != [] {
      assert (pieces + [p])[1..] == pieces[1..] + [p];
      TotalLengthSnoc(pieces[1..], p);
    }
  }
}
