/**
 * The string operations the bridge uses: Java's `String.indexOf(char, from)`,
 * JavaScript's `substr` and `join('')`, and the reference meaning of a batch
 * of commands: the text split at every line feed, empty pieces kept.
 */
module Strings {

  /** `s.indexOf(c, from)`: the first position at or after `from` holding `c`, or -1. */
  function IndexOf(s: string, c: char, from: nat): (r: int)
    ensures r == -1 || from <= r < |s|
    ensures r == -1 ==> forall i :: from <= i < |s| ==> s[i] != c
    ensures r >= 0 ==> s[r] == c && forall i :: from <= i < r ==> s[i] != c
    decreases |s| - from
  {
    if from >= |s| then -1 else if s[from] == c then from else IndexOf(s, c, from + 1)
  }

  /** `s.substr(start, n)` for `start <= |s|`: at most `n` characters from `start`. */
  function Substr(s: string, start: nat, n: nat): (t: string)
    requires start <= |s|
    ensures |t| == if start + n <= |s| then n else |s| - start
  {
    if start + n <= |s| then s[start..start + n] else s[start..]
  }

  /** `parts.join('')`. */
  function Concat(parts: seq<string>): string {
    if parts == [] then "" else parts[0] + Concat(parts[1..])
  }

  /** Gluing one more part on at the end. */
  lemma {:induction false} ConcatSnoc(parts: seq<string>, last: string)
    ensures Concat(parts + [last]) == Concat(parts) + last
    decreases |parts|
  {
    if parts == [] {
      assert [] + [last] == [last];
      assert [last][1..] == [];
    } else {
      assert (parts + [last])[1..] == parts[1..] + [last];
      ConcatSnoc(parts[1..], last);
    }
  }

  /** `s.padStart(n, c)`: `c` repeated in front of `s` up to length `n`. */
  function PadStart(s: string, n: nat, c: char): (r: string)
    ensures |s| >= n ==> r == s
    ensures |s| < n ==> |r| == n && r[n - |s|..] == s && forall i :: 0 <= i < n - |s| ==> r[i] == c
  {
    if |s| >= n then s else seq(n - |s|, _ => c) + s
  }

  /** The number of occurrences of `c` in `s`. */
  function Count(s: string, c: char): nat {
    if s == [] then 0 else (if s[0] == c then 1 else 0) + Count(s[1..], c)
  }

  /** `s` cut at every `sep`; a leading, trailing or doubled `sep` yields an empty piece. */
  function Split(s: string, sep: char): (parts: seq<string>)
    ensures |parts| >= 1
    decreases |s|
  {
    if s == [] then [[]]
    else if s[0] == sep then [[]] + Split(s[1..], sep)
    else
      var rest := Split(s[1..], sep);
      [[s[0]] + rest[0]] + rest[1..]
  }

  /** The pieces glued back with `sep` between neighbours. */
  function Join(parts: seq<string>, sep: char): string
    requires |parts| >= 1
    decreases |parts|
  {
    if |parts| == 1 then parts[0] else parts[0] + [sep] + Join(parts[1..], sep)
  }

  /** There is one piece more than there are separators. */
  lemma {:induction false} SplitCount(s: string, sep: char)
    ensures |Split(s, sep)| == Count(s, sep) + 1
    decreases |s|
  {
    if s != [] {
      SplitCount(s[1..], sep);
    }
  }

  /** No piece contains the separator. */
  lemma {:induction false} SplitPiecesFree(s: string, sep: char)
    ensures forall k, i :: 0 <= k < |Split(s, sep)| && 0 <= i < |Split(s, sep)[k]| ==> Split(s, sep)[k][i] != sep
    decreases |s|
  {
    if s != [] {
      SplitPiecesFree(s[1..], sep);
      if s[0] != sep {
        var rest := Split(s[1..], sep);
        var parts := Split(s, sep);
        forall k, i | 0 <= k < |parts| && 0 <= i < |parts[k]| ensures parts[k][i] != sep {
          if k == 0 {
            if i > 0 { assert parts[0][i] == rest[0][i - 1]; }
          } else {
            assert parts[k] == rest[k];
          }
        }
      }
    }
  }

  /** Joining the pieces with the separator gives back the text. */
  lemma {:induction false} JoinSplit(s: string, sep: char)
    ensures Join(Split(s, sep), sep) == s
    decreases |s|
  {
    if s != [] {
      var rest := Split(s[1..], sep);
      JoinSplit(s[1..], sep);
      if s[0] == sep {
        assert ([[]] + rest)[1..] == rest;
      } else {
        var parts := Split(s, sep);
        assert parts[1..] == rest[1..];
        if |rest| == 1 {
          assert parts == [[s[0]] + rest[0]];
        } else {
          assert rest == [rest[0]] + rest[1..];
          assert Join(rest, sep) == rest[0] + [sep] + Join(rest[1..], sep);
        }
      }
    }
  }

  /** Splitting pieces that hold no separator, joined with it, gives the pieces back. */
  lemma {:induction false} SplitJoin(parts: seq<string>, sep: char)
    requires |parts| >= 1
    requires forall k, i :: 0 <= k < |parts| && 0 <= i < |parts[k]| ==> parts[k][i] != sep
    ensures Split(Join(parts, sep), sep) == parts
    decreases |parts|, |parts[0]|
  {
    if |parts[0]| > 0 {
      var tail := [parts[0][1..]] + parts[1..];
      assert Join(parts, sep) == [parts[0][0]] + Join(tail, sep) by {
        if |parts| > 1 {
          assert tail[1..] == parts[1..];
        }
      }
      assert Join(parts, sep)[1..] == Join(tail, sep);
      SplitJoin(tail, sep);
      assert [parts[0][0]] + tail[0] == parts[0];
      assert tail[1..] == parts[1..];
      assert parts == [[parts[0][0]] + tail[0]] + tail[1..];
    } else if |parts| == 1 {
    } else {
      assert Join(parts, sep) == [sep] + Join(parts[1..], sep);
      assert Join(parts, sep)[1..] == Join(parts[1..], sep);
      SplitJoin(parts[1..], sep);
      assert parts == [[]] + parts[1..];
    }
  }

  /** Text without a separator is a single piece. */
  lemma {:induction false} SplitWithoutSep(s: string, sep: char)
    requires forall i :: 0 <= i < |s| ==> s[i] != sep
    ensures Split(s, sep) == [s]
    decreases |s|
  {
    if s != [] {
      var t := s[1..];
      assert forall i :: 0 <= i < |t| ==> t[i] != sep by {
        forall i | 0 <= i < |t| ensures t[i] != sep { assert t[i] == s[i + 1]; }
      }
      SplitWithoutSep(t, sep);
      assert [s[0]] + t == s;
    }
  }

  /**
   * Cutting at the first separator, at `j`: the first piece is the text before
   * it, and the remaining pieces are those of the text after it.
   */
  lemma {:induction false} SplitAtFirst(s: string, sep: char, j: nat)
    requires j < |s| && s[j] == sep
    requires forall i :: 0 <= i < j ==> s[i] != sep
    ensures Split(s, sep) == [s[..j]] + Split(s[j + 1..], sep)
    decreases j
  {
    if j == 0 {
      assert s[..0] == [];
    } else {
      var t := s[1..];
      var rest := Split(t, sep);
      assert s[0] != sep;
      assert Split(s, sep) == [[s[0]] + rest[0]] + rest[1..];
      assert forall i :: 0 <= i < j - 1 ==> t[i] != sep by {
        forall i | 0 <= i < j - 1 ensures t[i] != sep { assert t[i] == s[i + 1]; }
      }
      SplitAtFirst(t, sep, j - 1);
      assert [s[0]] + t[..j - 1] == s[..j];
      assert t[j..] == s[j + 1..];
    }
  }

  /**
   * Cutting from `start` at the next separator, at `f`: the piece before it
   * comes first, then the pieces after it.
   */
  lemma SplitFromNext(s: string, sep: char, start: nat, f: nat)
    requires start <= f < |s| && s[f] == sep
    requires forall i :: start <= i < f ==> s[i] != sep
    ensures Split(s[start..], sep) == [s[start..f]] + Split(s[f + 1..], sep)
  {
    var rest := s[start..];
    var j := f - start;
    forall i | 0 <= i < j ensures rest[i] != sep {
      assert rest[i] == s[start + i];
    }
    SplitAtFirst(rest, sep, j);
    assert rest[..j] == s[start..f];
    assert rest[j + 1..] == s[f + 1..];
  }

  /** With no separator from `start` on, the rest is one last piece. */
  lemma SplitFromLast(s: string, sep: char, start: nat)
    requires start <= |s|
    requires forall i :: start <= i < |s| ==> s[i] != sep
    ensures Split(s[start..], sep) == [s[start..]]
  {
    var rest := s[start..];
    forall i | 0 <= i < |rest| ensures rest[i] != sep {
      assert rest[i] == s[start + i];
    }
    SplitWithoutSep(rest, sep);
  }
}
