/** The few Python string operations the client relies on, over seq<char>:
    `str.split` with a one-character separator, the substring test `in`,
    indexing the last piece of a split, and `readline` on a text file. */
module Text {

  /** Number of occurrences of `c` in `s`. */
  function Count(s: string, c: char): nat
    decreases |s|
  {
    if |s| == 0 then 0 else (if s[0] == c then 1 else 0) + Count(s[1..], c)
  }

  /** The inverse of Split: the pieces glued back together with `sep`
      between consecutive pieces (Python's `sep.join(pieces)`). */
  function Join(pieces: seq<string>, sep: char): string
    decreases |pieces|
  {
    if |pieces| == 0 then ""
    else if |pieces| == 1 then pieces[0]
    else pieces[0] + [sep] + Join(pieces[1..], sep)
  }

  /** Python's `s.split(sep)` for a one-character separator: the maximal runs
      between separators, empty runs kept, so "" splits into [""]. */
  function Split(s: string, sep: char): (pieces: seq<string>)
    ensures |pieces| == Count(s, sep) + 1
    ensures forall i :: 0 <= i < |pieces| ==> sep !in pieces[i]
    decreases |s|
  {
    if |s| == 0 then [""]
    else
      var rest := Split(s[1..], sep);
      if s[0] == sep then
        [""] + rest
      else
        var pieces := [[s[0]] + rest[0]] + rest[1..];
        assert pieces[1..] == rest[1..];
        pieces
  }

  /** Joining the pieces of a split with the same separator gives back the string. */
  lemma {:induction false} SplitJoinRoundTrip(s: string, sep: char)
    ensures Join(Split(s, sep), sep) == s
    decreases |s|
  {
    if |s| > 0 {
      SplitJoinRoundTrip(s[1..], sep);
      var rest := Split(s[1..], sep);
      assert s == [s[0]] + s[1..];
      if s[0] != sep {
        var pieces := [[s[0]] + rest[0]] + rest[1..];
        assert pieces[1..] == rest[1..];
        if |rest| > 1 {
          assert Join(rest, sep) == rest[0] + [sep] + Join(rest[1..], sep);
        }
      }
    }
  }

  /** A string splits into the pieces exactly when the pieces are free of the
      separator and join back to it: Split is the unique inverse of Join. */
  lemma {:induction false} JoinSplitRoundTrip(pieces: seq<string>, sep: char)
    requires |pieces| >= 1
    requires forall i :: 0 <= i < |pieces| ==> sep !in pieces[i]
    ensures Split(Join(pieces, sep), sep) == pieces
    decreases |pieces|
  {
    if |pieces| == 1 {
      SplitSingleIffNoSeparator(pieces[0], sep);
    } else {
      JoinSplitRoundTrip(pieces[1..], sep);
      SplitAtFirstSeparator(pieces[0], sep, Join(pieces[1..], sep));
      assert [pieces[0]] + pieces[1..] == pieces;
    }
  }

  /** A string has a separator exactly when it occurs a positive number of times. */
  lemma {:induction false} CountZeroIffAbsent(s: string, c: char)
    ensures Count(s, c) == 0 <==> c !in s
    decreases |s|
  {
    if |s| > 0 {
      CountZeroIffAbsent(s[1..], c);
      assert s == [s[0]] + s[1..];
    }
  }

  /** Splitting yields a single piece exactly when the separator is absent,
      and that piece is then the whole string. */
  lemma SplitSingleIffNoSeparator(s: string, sep: char)
    ensures |Split(s, sep)| == 1 <==> sep !in s
    ensures sep !in s ==> Split(s, sep) == [s]
  {
    CountZeroIffAbsent(s, sep);
    SplitJoinRoundTrip(s, sep);
  }

  /** A separator-free prefix followed by the separator splits off as the first piece. */
  lemma {:induction false} SplitAtFirstSeparator(a: string, sep: char, b: string)
    requires sep !in a
    ensures Split(a + [sep] + b, sep) == [a] + Split(b, sep)
    decreases |a|
  {
    var s := a + [sep] + b;
    if |a| == 0 {
      assert s[1..] == b;
    } else {
      assert s[1..] == a[1..] + [sep] + b;
      SplitAtFirstSeparator(a[1..], sep, b);
      assert [a[0]] + a[1..] == a;
    }
  }

  /** `s` ends with `t`. */
  predicate IsSuffix(t: string, s: string)
  {
    |t| <= |s| && s[|s| - |t|..] == t
  }

  /** `t` is what follows the last `sep` in `s`, or all of `s` when there is none. */
  predicate FollowsLastSeparator(t: string, s: string, sep: char)
  {
    && IsSuffix(t, s)
    && sep !in t
    && (|t| < |s| ==> s[|s| - |t| - 1] == sep)
  }

  /** The last piece of a split is the text after the last separator. */
  lemma {:induction false} LastPieceFollowsLastSeparator(s: string, sep: char)
    ensures FollowsLastSeparator(Split(s, sep)[|Split(s, sep)| - 1], s, sep)
    decreases |s|
  {
    if |s| > 0 {
      var rest := Split(s[1..], sep);
      var pieces := Split(s, sep);
      LastPieceFollowsLastSeparator(s[1..], sep);
      if s[0] != sep && |rest| == 1 {
        SplitJoinRoundTrip(s[1..], sep);
        assert rest[0] == s[1..];
        assert pieces == [[s[0]] + rest[0]];
        assert [s[0]] + s[1..] == s;
      } else {
        var last := rest[|rest| - 1];
        assert pieces[|pieces| - 1] == last;
        SuffixOfTail(s, last);
        SplitSingleIffNoSeparator(s[1..], sep);
        if |last| == |s| - 1 {
          assert last == s[1..];
          assert s[0] == sep;
        }
      }
    }
  }

  /** What follows the last separator of `s[1..]` follows it in `s` too. */
  lemma SuffixOfTail(s: string, t: string)
    requires |s| > 0 && IsSuffix(t, s[1..])
    ensures IsSuffix(t, s)
    ensures |t| < |s| - 1 ==> s[|s| - |t| - 1] == s[1..][|s| - 1 - |t| - 1]
  {
    assert s[1..][|s| - 1 - |t|..] == s[|s| - |t|..];
  }

  /** At most one string follows the last separator of `s`. */
  lemma FollowsLastSeparatorUnique(t1: string, t2: string, s: string, sep: char)
    requires FollowsLastSeparator(t1, s, sep)
    requires FollowsLastSeparator(t2, s, sep)
    ensures t1 == t2
  {
  }

  /** Python's `s.split(sep)[-1]`. */
  function LastField(s: string, sep: char): (t: string)
    ensures FollowsLastSeparator(t, s, sep)
    ensures sep !in s ==> t == s
  {
    var pieces := Split(s, sep);
    LastPieceFollowsLastSeparator(s, sep);
    SplitSingleIffNoSeparator(s, sep);
    pieces[|pieces| - 1]
  }

  /** `p` is a prefix of `s`. */
  predicate IsPrefix(p: string, s: string)
  {
    |p| <= |s| && s[..|p|] == p
  }

  /** Python's `sub in s`: `sub` occurs in `s` at some offset. */
  predicate Contains(s: string, sub: string): (b: bool)
    ensures b ==> |sub| <= |s|
    ensures IsPrefix(sub, s) ==> b
    decreases |s|
  {
    IsPrefix(sub, s) || (|s| > 0 && Contains(s[1..], sub))
  }

  /** `sub` sits in `s` at offset `i`. */
  ghost predicate OccursAt(s: string, sub: string, i: int)
  {
    0 <= i && i + |sub| <= |s| && s[i..i + |sub|] == sub
  }

  /** Contains agrees with the offset-based definition of a substring. */
  lemma {:induction false} ContainsIffOccurs(s: string, sub: string)
    ensures Contains(s, sub) <==> exists i :: OccursAt(s, sub, i)
    decreases |s|
  {
    if IsPrefix(sub, s) {
      assert OccursAt(s, sub, 0);
    }
    if |s| > 0 {
      ContainsIffOccurs(s[1..], sub);
      if Contains(s[1..], sub) {
        var i :| OccursAt(s[1..], sub, i);
        assert s[1..][i..i + |sub|] == s[i + 1..i + 1 + |sub|];
        assert OccursAt(s, sub, i + 1);
      }
      if i :| OccursAt(s, sub, i) {
        if i == 0 {
          assert IsPrefix(sub, s);
        } else {
          assert s[1..][i - 1..i - 1 + |sub|] == s[i..i + |sub|];
          assert OccursAt(s[1..], sub, i - 1);
        }
      }
    }
  }

  /** The empty string contains only the empty string, and every string contains "". */
  lemma ContainsEmpty(s: string, sub: string)
    ensures Contains("", sub) <==> sub == ""
    ensures Contains(s, "")
  {
  }

  /** Python's `readline()` on a text file holding `s`: everything up to and
      including the first newline, or all of `s` when it has none. */
  function ReadLine(s: string): (line: string)
    ensures IsPrefix(line, s)
    ensures '\n' !in s ==> line == s
    ensures '\n' in s ==> |line| > 0 && line[|line| - 1] == '\n' && '\n' !in line[..|line| - 1]
    decreases |s|
  {
    if |s| == 0 then ""
    else if s[0] == '\n' then "\n"
    else
      var line := [s[0]] + ReadLine(s[1..]);
      assert s == [s[0]] + s[1..];
      assert '\n' in s ==> line[..|line| - 1] == [s[0]] + ReadLine(s[1..])[..|line| - 2];
      line
  }

  /** Reading back the first line returns the whole contents exactly when no
      newline occurs before the last character. */
  lemma ReadLineWholeIff(s: string)
    ensures ReadLine(s) == s <==> (|s| == 0 || '\n' !in s[..|s| - 1])
  {
    if |s| > 0 && '\n' in s[..|s| - 1] {
      var k :| 0 <= k < |s| - 1 && s[k] == '\n';
      assert s[..|s| - 1][k] == '\n';
    }
    if |s| > 0 && '\n' !in s[..|s| - 1] && '\n' in s {
      var line := ReadLine(s);
      assert s[..|line| - 1] == line[..|line| - 1];
    }
  }
}
