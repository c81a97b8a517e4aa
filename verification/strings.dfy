/** The JavaScript string operations the sidebar generator relies on
    (`endsWith`, `split` and `join` with a one-character separator),
    over `string` = `seq<char>`, together with the facts relating them. */
module Strings {

  /** `s.endsWith(suffix)`: case-sensitive, exact suffix comparison. */
  predicate EndsWith(s: string, suffix: string) {
    |suffix| <= |s| && s[|s| - |suffix|..] == suffix
  }

  /** Number of occurrences of the character `c` in `s`. */
  function Count(s: string, c: char): nat {
    if |s| == 0 then 0 else (if s[0] == c then 1 else 0) + Count(s[1..], c)
  }

  /** `ws.join(sep)`: the segments with one separator between neighbours. */
  function Join(ws: seq<string>, sep: char): string {
    if |ws| == 0 then ""
    else if |ws| == 1 then ws[0]
    else ws[0] + [sep] + Join(ws[1..], sep)
  }

  /** `s.split(sep)`: the maximal separator-free runs of `s`, in order. The
      empty string splits into one empty segment, so there is always at
      least one. */
  function Split(s: string, sep: char): (ws: seq<string>)
    ensures |ws| >= 1
    decreases |s|
  {
    if |s| == 0 then [""]
    else
      var rest := Split(s[1..], sep);
      if s[0] == sep then [""] + rest
      else [[s[0]] + rest[0]] + rest[1..]
  }

  /** Every separator yields a cut: one segment more than there are
      separators, none of them holding a separator (adjacent separators
      give empty segments). */
  lemma {:induction false} SplitSegments(s: string, sep: char)
    ensures |Split(s, sep)| == Count(s, sep) + 1
    ensures forall k :: 0 <= k < |Split(s, sep)| ==> sep !in Split(s, sep)[k]
    decreases |s|
  {
    if |s| > 0 {
      SplitSegments(s[1..], sep);
      var rest := Split(s[1..], sep);
      if s[0] != sep {
        var ws := [[s[0]] + rest[0]] + rest[1..];
        assert forall k :: 1 <= k < |ws| ==> ws[k] == rest[k];
      }
    }
  }

  /** Joining the segments back with the same separator gives the string
      again: split and join are inverse on this side. */
  lemma {:induction false} JoinSplit(s: string, sep: char)
    ensures Join(Split(s, sep), sep) == s
    decreases |s|
  {
    if |s| > 0 {
      JoinSplit(s[1..], sep);
      var rest := Split(s[1..], sep);
      if s[0] == sep {
        assert s == [sep] + s[1..];
      } else {
        var ws := [[s[0]] + rest[0]] + rest[1..];
        assert ws[1..] == rest[1..];
        assert |rest| > 1 ==> Join(rest, sep) == rest[0] + [sep] + Join(rest[1..], sep);
        assert s == [s[0]] + s[1..];
      }
    }
  }

  /** Splitting a string that holds no separator gives that string alone. */
  lemma {:induction false} SplitNoSeparator(s: string, sep: char)
    requires sep !in s
    ensures Split(s, sep) == [s]
    decreases |s|
  {
    if |s| > 0 {
      SplitNoSeparator(s[1..], sep);
      assert s == [s[0]] + s[1..];
    }
  }

  /** A separator-free prefix followed by a separator is cut off as the first segment. */
  lemma {:induction false} SplitAfterSegment(a: string, sep: char, b: string)
    requires sep !in a
    ensures Split(a + [sep] + b, sep) == [a] + Split(b, sep)
    decreases |a|
  {
    var s := a + [sep] + b;
    if |a| == 0 {
      assert s[1..] == b;
    } else {
      assert s[1..] == a[1..] + [sep] + b;
      SplitAfterSegment(a[1..], sep, b);
      assert a == [a[0]] + a[1..];
    }
  }

  /** The other half of the split/join round trip: a non-empty list of
      separator-free segments is recovered exactly by splitting its join. */
  lemma {:induction false} SplitJoin(ws: seq<string>, sep: char)
    requires |ws| >= 1
    requires forall k :: 0 <= k < |ws| ==> sep !in ws[k]
    ensures Split(Join(ws, sep), sep) == ws
    decreases |ws|
  {
    if |ws| == 1 {
      SplitNoSeparator(ws[0], sep);
    } else {
      SplitJoin(ws[1..], sep);
      SplitAfterSegment(ws[0], sep, Join(ws[1..], sep));
      assert ws == [ws[0]] + ws[1..];
    }
  }

  /** Counting through a position-wise correspondence: when `a` has `c` exactly
      where `b` has `d` or `e`, the counts agree. */
  lemma {:induction false} CountCorresponding(a: string, c: char, b: string, d: char, e: char)
    requires |a| == |b| && d != e
    requires forall i :: 0 <= i < |a| ==> (a[i] == c <==> b[i] == d || b[i] == e)
    ensures Count(a, c) == Count(b, d) + Count(b, e)
    decreases |a|
  {
    if |a| > 0 {
      assert forall i :: 0 <= i < |a[1..]| ==> a[1..][i] == a[i + 1] && b[1..][i] == b[i + 1];
      CountCorresponding(a[1..], c, b[1..], d, e);
    }
  }

  /** Every character of a segment occurs in the joined string. */
  lemma {:induction false} SegmentInJoin(ws: seq<string>, sep: char, k: nat)
    requires k < |ws|
    ensures forall c :: c in ws[k] ==> c in Join(ws, sep)
    decreases k
  {
    if k > 0 {
      SegmentInJoin(ws[1..], sep, k - 1);
    }
  }
}
