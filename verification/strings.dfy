/**
 * The string routines of Go's `strings` package that the server uses, on strings as
 * sequences of code points, together with Go's `<` on strings.
 */
module Strings {

  /**
   * Go's `<` on strings compares bytes lexicographically. On UTF-8 text byte order
   * and code-point order agree, so the comparison here is char by char.
   */
  predicate Less(a: string, b: string)
    ensures Less(a, b) ==> a != b
    ensures a < b ==> Less(a, b)
  {
    if |a| == 0 then |b| > 0
    else if |b| == 0 then false
    else if a[0] != b[0] then a[0] < b[0]
    else Less(a[1..], b[1..])
  }

  predicate LessEq(a: string, b: string)
  {
    a == b || Less(a, b)
  }

  lemma {:induction false} LessAsymmetric(a: string, b: string)
    ensures Less(a, b) ==> !Less(b, a)
  {
    if |a| > 0 && |b| > 0 && a[0] == b[0] {
      LessAsymmetric(a[1..], b[1..]);
    }
  }

  lemma {:induction false} LessTransitive(a: string, b: string, c: string)
    ensures Less(a, b) && Less(b, c) ==> Less(a, c)
  {
    if |a| > 0 && |b| > 0 && |c| > 0 && a[0] == b[0] && b[0] == c[0] {
      LessTransitive(a[1..], b[1..], c[1..]);
    }
  }

  /** Any two different strings are ordered one way or the other. */
  lemma {:induction false} LessTotal(a: string, b: string)
    ensures a == b || Less(a, b) || Less(b, a)
  {
    if |a| > 0 && |b| > 0 && a[0] == b[0] {
      LessTotal(a[1..], b[1..]);
      if a[1..] == b[1..] {
        assert a == [a[0]] + a[1..];
        assert b == [b[0]] + b[1..];
      }
    }
  }

  lemma LessEqTransitive(a: string, b: string, c: string)
    requires LessEq(a, b) && LessEq(b, c)
    ensures LessEq(a, c)
  {
    LessTransitive(a, b, c);
  }

  lemma LessEqAntisymmetric(a: string, b: string)
    requires LessEq(a, b) && LessEq(b, a)
    ensures a == b
  {
    LessAsymmetric(a, b);
  }

  /** `LessEq` is a total order, and failing it means the strict order the other way. */
  lemma LessEqTotal(a: string, b: string)
    ensures LessEq(a, b) || LessEq(b, a)
    ensures !LessEq(a, b) ==> Less(b, a)
  {
    LessTotal(a, b);
  }

  /** The empty string is below every string, which is why `latest` starts its search from it. */
  lemma EmptyIsLeast(s: string)
    ensures LessEq("", s)
  {
  }

  /** Number of occurrences of `c` in `s`. */
  function CountChar(s: string, c: char): (n: nat)
    ensures n <= |s|
  {
    if |s| == 0 then 0
    else (if s[0] == c then 1 else 0) + CountChar(s[1..], c)
  }

  lemma {:induction false} CountCharAppend(a: string, b: string, c: char)
    ensures CountChar(a + b, c) == CountChar(a, c) + CountChar(b, c)
  {
    if |a| > 0 {
      assert (a + b)[1..] == a[1..] + b;
      CountCharAppend(a[1..], b, c);
    } else {
      assert a + b == b;
    }
  }

  /**
   * `strings.TrimRight(s, cutset)` for a one-character cutset: the longest prefix
   * of `s` that does not end in `c`, all that follows it being `c`.
   */
  function TrimRight(s: string, c: char): (r: string)
    ensures r <= s
    ensures |r| == 0 || r[|r| - 1] != c
    ensures forall i :: |r| <= i < |s| ==> s[i] == c
  {
    if |s| > 0 && s[|s| - 1] == c then TrimRight(s[..|s| - 1], c) else s
  }

  /** The three properties in the contract of `TrimRight` leave no other choice of result. */
  lemma TrimRightUnique(s: string, c: char, r: string)
    requires r <= s
    requires |r| == 0 || r[|r| - 1] != c
    requires forall i :: |r| <= i < |s| ==> s[i] == c
    ensures TrimRight(s, c) == r
  {
  }

  /** One more trailing `c` does not change what `TrimRight` leaves. */
  lemma TrimRightAbsorbs(s: string, c: char)
    ensures TrimRight(s + [c], c) == TrimRight(s, c)
  {
    assert (s + [c])[..|s|] == s;
  }

  /**
   * `strings.Split(s, sep)` for a one-character separator: the maximal pieces of `s`
   * between occurrences of `sep`. There is always at least one piece; the empty
   * string splits into one empty piece.
   */
  function Split(s: string, sep: char): (parts: seq<string>)
    ensures |parts| >= 1
  {
    if |s| == 0 then [""]
    else
      var rest := Split(s[1..], sep);
      if s[0] == sep then [""] + rest
      else [[s[0]] + rest[0]] + rest[1..]
  }

  /** `strings.Join(parts, sep)` for a non-empty list of parts. */
  function Join(parts: seq<string>, sep: char): (s: string)
    requires |parts| >= 1
  {
    if |parts| == 1 then parts[0] else parts[0] + [sep] + Join(parts[1..], sep)
  }

  lemma {:induction false} SplitCount(s: string, sep: char)
    ensures |Split(s, sep)| == CountChar(s, sep) + 1
  {
    if |s| > 0 {
      SplitCount(s[1..], sep);
    }
  }

  lemma {:induction false} SplitPiecesHaveNoSeparator(s: string, sep: char)
    ensures forall i :: 0 <= i < |Split(s, sep)| ==> sep !in Split(s, sep)[i]
  {
    if |s| > 0 {
      SplitPiecesHaveNoSeparator(s[1..], sep);
    }
  }

  /** Joining the pieces with the separator gives back the split string. */
  lemma {:induction false} JoinSplit(s: string, sep: char)
    ensures Join(Split(s, sep), sep) == s
  {
    if |s| > 0 {
      var rest := Split(s[1..], sep);
      JoinSplit(s[1..], sep);
      assert s == [s[0]] + s[1..];
      if s[0] == sep {
        assert ([""] + rest)[1..] == rest;
      } else if |rest| == 1 {
      } else {
        var parts := [[s[0]] + rest[0]] + rest[1..];
        assert parts[1..] == rest[1..];
        assert Join(rest, sep) == rest[0] + [sep] + Join(rest[1..], sep);
        assert Join(parts, sep) == [s[0]] + rest[0] + [sep] + Join(rest[1..], sep);
      }
    }
  }

  /** `substr` occurs somewhere in `s`. */
  ghost predicate IsInfix(sub: string, s: string)
  {
    exists i :: 0 <= i <= |s| && sub <= s[i..]
  }

  /** `strings.Contains(s, substr)`. */
  function Contains(s: string, sub: string): (b: bool)
    ensures b <==> IsInfix(sub, s)
  {
    assert s[0..] == s;
    if sub <= s then true
    else if |s| == 0 then false
    else
      InfixStep(sub, s);
      Contains(s[1..], sub)
  }

  /** Past a position where `sub` does not start, the search goes on in the rest of `s`. */
  lemma InfixStep(sub: string, s: string)
    requires |s| > 0 && !(sub <= s)
    ensures IsInfix(sub, s) <==> IsInfix(sub, s[1..])
  {
    if IsInfix(sub, s) {
      var i :| 0 <= i <= |s| && sub <= s[i..];
      assert s[0..] == s;
      assert s[1..][i - 1..] == s[i..];
    }
    if IsInfix(sub, s[1..]) {
      var j :| 0 <= j <= |s| - 1 && sub <= s[1..][j..];
      assert s[1..][j..] == s[j + 1..];
    }
  }

  /** The lines of a text written one after another. */
  function Concat(lines: seq<string>): (s: string)
  {
    if |lines| == 0 then "" else lines[0] + Concat(lines[1..])
  }

  /** A line in the text format: it ends in a newline and holds no other. */
  predicate IsLine(line: string)
  {
    |line| > 0 && line[|line| - 1] == '\n' && '\n' !in line[..|line| - 1]
  }

  lemma LineHasOneNewline(line: string)
    requires IsLine(line)
    ensures CountChar(line, '\n') == 1
  {
    var body := line[..|line| - 1];
    assert line == body + ['\n'];
    CountCharAppend(body, ['\n'], '\n');
    NoOccurrenceCountsZero(body, '\n');
  }

  lemma {:induction false} NoOccurrenceCountsZero(s: string, c: char)
    requires c !in s
    ensures CountChar(s, c) == 0
  {
    if |s| > 0 {
      NoOccurrenceCountsZero(s[1..], c);
    }
  }

  /** A text made of lines holds exactly as many newlines as it has lines. */
  lemma {:induction false} ConcatLinesCount(lines: seq<string>)
    requires forall i :: 0 <= i < |lines| ==> IsLine(lines[i])
    ensures CountChar(Concat(lines), '\n') == |lines|
  {
    if |lines| > 0 {
      LineHasOneNewline(lines[0]);
      CountCharAppend(lines[0], Concat(lines[1..]), '\n');
      ConcatLinesCount(lines[1..]);
    }
  }
}
