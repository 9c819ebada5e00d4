/**
 * Byte sequences, separator search and the two ways of splitting a byte
 * sequence into lines: leftmost-first (the forward scan) and rightmost-first
 * (the backward scan).
 */
module Split {

  type Byte = bv8

  /** The separator occupies s[j .. j + |sep|]. */
  predicate MatchAt(s: seq<Byte>, sep: seq<Byte>, j: int) {
    0 <= j && j + |sep| <= |s| && forall t :: 0 <= t < |sep| ==> s[j + t] == sep[t]
  }

  /** No occurrence of the separator lies wholly inside s. */
  ghost predicate NoMatch(s: seq<Byte>, sep: seq<Byte>) {
    forall j :: !MatchAt(s, sep, j)
  }

  /** No proper prefix of sep is also a suffix of it, so two occurrences of sep never overlap. */
  predicate SelfOverlapFree(sep: seq<Byte>) {
    forall d :: 0 < d < |sep| ==> sep[..d] != sep[|sep| - d..]
  }

  /** Buffer.indexOf(sep, from): the leftmost occurrence starting at or after from, or -1. */
  function IndexOf(s: seq<Byte>, sep: seq<Byte>, from: nat): (r: int)
    ensures r == -1 || (from <= r && MatchAt(s, sep, r))
    ensures forall j :: from <= j && (r == -1 || j < r) ==> !MatchAt(s, sep, j)
    decreases |s| - from
  {
    if from + |sep| > |s| then -1
    else if MatchAt(s, sep, from) then from
    else IndexOf(s, sep, from + 1)
  }

  /** Buffer.lastIndexOf(sep, from): the rightmost occurrence starting at or before from, or -1. */
  function LastIndexOf(s: seq<Byte>, sep: seq<Byte>, from: int): (r: int)
    ensures r == -1 || (0 <= r <= from && MatchAt(s, sep, r))
    ensures forall j :: r < j <= from ==> !MatchAt(s, sep, j)
    decreases from + 1
  {
    if from < 0 then -1
    else if MatchAt(s, sep, from) then from
    else LastIndexOf(s, sep, from - 1)
  }

  /**
   * lastIndexOf(sep, end - |sep|): the last occurrence lying wholly inside
   * s[..end], or -1.
   */
  function LastBefore(s: seq<Byte>, sep: seq<Byte>, end: nat): (r: int)
    ensures r == -1 || (0 <= r && r + |sep| <= end && MatchAt(s, sep, r))
    ensures forall j :: r < j && j + |sep| <= end ==> !MatchAt(s, sep, j)
  {
    LastIndexOf(s, sep, end - |sep|)
  }

  /**
   * The lines of s[pos..] in file order, as the forward scan cuts them: the
   * line starting at pos ends at the first occurrence of sep at or after pos,
   * and the next line starts right after that occurrence. The segment after
   * the last occurrence is always a line, even when it is empty.
   */
  function SplitFrom(s: seq<Byte>, sep: seq<Byte>, pos: nat): (lines: seq<seq<Byte>>)
    requires |sep| > 0 && pos <= |s|
    ensures |lines| >= 1
    decreases |s| - pos
  {
    var i := IndexOf(s, sep, pos);
    if i < 0 then [s[pos..]] else [s[pos..i]] + SplitFrom(s, sep, i + |sep|)
  }

  /**
   * The lines of s[..end] in reverse file order, as the backward scan cuts
   * them: the line ending at end starts after the last occurrence of sep that
   * lies wholly before end, and the next line ends where that occurrence
   * starts. The segment before the first occurrence is always a line.
   */
  function SplitUpTo(s: seq<Byte>, sep: seq<Byte>, end: nat): (lines: seq<seq<Byte>>)
    requires |sep| > 0 && end <= |s|
    ensures |lines| >= 1
    decreases end
  {
    var i := LastBefore(s, sep, end);
    if i < 0 then [s[..end]] else [s[i + |sep|..end]] + SplitUpTo(s, sep, i)
  }

  /** The lines put back together with sep between neighbours. */
  function Join(lines: seq<seq<Byte>>, sep: seq<Byte>): seq<Byte>
    decreases |lines|
  {
    if |lines| == 0 then []
    else if |lines| == 1 then lines[0]
    else lines[0] + sep + Join(lines[1..], sep)
  }

  function Reverse<T>(xs: seq<T>): (r: seq<T>)
    ensures |r| == |xs|
    ensures forall k :: 0 <= k < |xs| ==> r[k] == xs[|xs| - 1 - k]
  {
    if xs == [] then [] else Reverse(xs[1..]) + [xs[0]]
  }

  // ---------------------------------------------------------------------------
  // Search facts

  /** An occurrence inside a slice is an occurrence in the whole sequence, and back. */
  lemma MatchInSlice(s: seq<Byte>, sep: seq<Byte>, a: nat, b: nat, j: int)
    requires a <= b <= |s|
    ensures MatchAt(s[a..b], sep, j) <==> (0 <= j && a + j + |sep| <= b && MatchAt(s, sep, a + j))
  {
    if 0 <= j && j + |sep| <= b - a {
      forall m | j <= m < j + |sep| ensures s[a..b][m] == s[a + m] {
      }
      assert s[a..b][j..j + |sep|] == s[a + j..a + j + |sep|];
    }
  }

  /** The same for a suffix s[a..]. */
  lemma MatchInSuffix(s: seq<Byte>, sep: seq<Byte>, a: nat, j: int)
    requires a <= |s|
    ensures MatchAt(s[a..], sep, j) <==> (0 <= j && MatchAt(s, sep, a + j))
  {
    assert s[a..] == s[a..|s|];
    MatchInSlice(s, sep, a, |s|, j);
  }

  /** IndexOf returns exactly the first occurrence at or after from. */
  lemma IndexOfIs(s: seq<Byte>, sep: seq<Byte>, from: nat, r: int)
    requires from <= r && MatchAt(s, sep, r)
    requires forall j :: from <= j < r ==> !MatchAt(s, sep, j)
    ensures IndexOf(s, sep, from) == r
  {
  }

  /** LastIndexOf returns exactly the last occurrence at or before from. */
  lemma LastIndexOfIs(s: seq<Byte>, sep: seq<Byte>, from: int, r: int)
    requires 0 <= r <= from && MatchAt(s, sep, r)
    requires forall j :: r < j <= from ==> !MatchAt(s, sep, j)
    ensures LastIndexOf(s, sep, from) == r
  {
  }

  // ---------------------------------------------------------------------------
  // Line boundaries

  /** Where the forward line starting at b ends: at the next occurrence of sep, or at the end of s. */
  function LineEnd(s: seq<Byte>, sep: seq<Byte>, b: nat): (e: nat)
    requires b <= |s|
    ensures b <= e <= |s|
    ensures IndexOf(s, sep, b) >= 0 ==> e == IndexOf(s, sep, b)
  {
    var i := IndexOf(s, sep, b);
    if i < 0 then |s| else i
  }

  /** Where the backward line ending at e starts: past the last occurrence of sep wholly before e, or at 0. */
  function LineStart(s: seq<Byte>, sep: seq<Byte>, e: nat): (b: nat)
    requires e <= |s|
    ensures b <= e
    ensures LastBefore(s, sep, e) >= 0 ==> b == LastBefore(s, sep, e) + |sep|
  {
    var i := LastBefore(s, sep, e);
    if i < 0 then 0 else i + |sep|
  }

  /** The offsets where the forward lines of s[pos..] start: pos, then just past each occurrence of sep. */
  function ForwardStarts(s: seq<Byte>, sep: seq<Byte>, pos: nat): (starts: seq<nat>)
    requires |sep| > 0 && pos <= |s|
    ensures |starts| >= 1 && starts[0] == pos
    ensures forall k :: 0 <= k < |starts| ==> pos <= starts[k] <= |s|
    decreases |s| - pos
  {
    var i := IndexOf(s, sep, pos);
    if i < 0 then [pos] else [pos] + ForwardStarts(s, sep, i + |sep|)
  }

  /** The offsets where the backward lines of s[..end] end: end, then at each occurrence of sep, rightmost first. */
  function BackwardEnds(s: seq<Byte>, sep: seq<Byte>, end: nat): (ends: seq<nat>)
    requires |sep| > 0 && end <= |s|
    ensures |ends| >= 1 && ends[0] == end
    ensures forall k :: 0 <= k < |ends| ==> ends[k] <= end
    decreases end
  {
    var i := LastBefore(s, sep, end);
    if i < 0 then [end] else [end] + BackwardEnds(s, sep, i)
  }

  /**
   * Start k lies inside s; the line starting there is the last exactly when
   * no occurrence of sep follows it, and otherwise the next line starts just
   * past that occurrence.
   */
  lemma {:induction false} ForwardStartsAt(s: seq<Byte>, sep: seq<Byte>, pos: nat, k: nat)
    requires |sep| > 0 && pos <= |s| && k < |ForwardStarts(s, sep, pos)|
    ensures var starts := ForwardStarts(s, sep, pos);
      var i := IndexOf(s, sep, starts[k]);
      pos <= starts[k] <= |s| &&
      (i < 0 <==> k == |starts| - 1) &&
      (i >= 0 ==> starts[k + 1] == i + |sep|)
    decreases k
  {
    var i := IndexOf(s, sep, pos);
    if i >= 0 {
      var starts := ForwardStarts(s, sep, pos);
      var next := i + |sep|;
      var more := ForwardStarts(s, sep, next);
      assert starts == [pos] + more;
      if k > 0 {
        var j := k - 1;
        ForwardStartsAt(s, sep, next, j);
        assert starts[k] == more[j];
        if k < |more| {
          assert starts[k + 1] == more[j + 1];
        }
      }
    }
  }

  /**
   * End k lies at or below end; the line ending there is the last exactly
   * when no occurrence of sep lies wholly before it, and otherwise the next
   * line ends where that occurrence starts.
   */
  lemma {:induction false} BackwardEndsAt(s: seq<Byte>, sep: seq<Byte>, end: nat, k: nat)
    requires |sep| > 0 && end <= |s| && k < |BackwardEnds(s, sep, end)|
    ensures var ends := BackwardEnds(s, sep, end);
      var i := LastBefore(s, sep, ends[k]);
      ends[k] <= end &&
      (i < 0 <==> k == |ends| - 1) &&
      (i >= 0 ==> ends[k + 1] == i)
    decreases k
  {
    var i := LastBefore(s, sep, end);
    if i >= 0 {
      var ends := BackwardEnds(s, sep, end);
      var more := BackwardEnds(s, sep, i);
      assert ends == [end] + more;
      if k > 0 {
        var j := k - 1;
        BackwardEndsAt(s, sep, i, j);
        assert ends[k] == more[j];
        if k < |more| {
          assert ends[k + 1] == more[j + 1];
        }
      }
    }
  }

  /** The forward lines are the slices between consecutive starts and the line ends. */
  lemma {:induction false} SplitFromStarts(s: seq<Byte>, sep: seq<Byte>, pos: nat)
    requires |sep| > 0 && pos <= |s|
    ensures var lines := SplitFrom(s, sep, pos);
      var starts := ForwardStarts(s, sep, pos);
      |lines| == |starts| &&
      forall k :: 0 <= k < |lines| ==> lines[k] == s[starts[k]..LineEnd(s, sep, starts[k])]
    decreases |s| - pos
  {
    var i := IndexOf(s, sep, pos);
    if i >= 0 {
      var lines := SplitFrom(s, sep, pos);
      var starts := ForwardStarts(s, sep, pos);
      var next := i + |sep|;
      SplitFromStarts(s, sep, next);
      assert lines == [s[pos..i]] + SplitFrom(s, sep, next);
      assert starts == [pos] + ForwardStarts(s, sep, next);
      assert LineEnd(s, sep, starts[0]) == i;
      forall k | 0 < k < |lines| ensures lines[k] == s[starts[k]..LineEnd(s, sep, starts[k])] {
        assert lines[k] == SplitFrom(s, sep, next)[k - 1];
        assert starts[k] == ForwardStarts(s, sep, next)[k - 1];
      }
    }
  }

  /** The backward lines are the slices between the line starts and consecutive ends. */
  lemma {:induction false} SplitUpToEnds(s: seq<Byte>, sep: seq<Byte>, end: nat)
    requires |sep| > 0 && end <= |s|
    ensures var lines := SplitUpTo(s, sep, end);
      var ends := BackwardEnds(s, sep, end);
      |lines| == |ends| &&
      forall k :: 0 <= k < |lines| ==> lines[k] == s[LineStart(s, sep, ends[k])..ends[k]]
    decreases end
  {
    var i := LastBefore(s, sep, end);
    if i < 0 {
      assert LineStart(s, sep, end) == 0;
      assert s[..end] == s[0..end];
    } else {
      var lines := SplitUpTo(s, sep, end);
      var ends := BackwardEnds(s, sep, end);
      SplitUpToEnds(s, sep, i);
      assert lines == [s[i + |sep|..end]] + SplitUpTo(s, sep, i);
      assert ends == [end] + BackwardEnds(s, sep, i);
      assert LineStart(s, sep, ends[0]) == i + |sep|;
      forall k | 0 < k < |lines| ensures lines[k] == s[LineStart(s, sep, ends[k])..ends[k]] {
        var j := k - 1;
        assert lines[k] == SplitUpTo(s, sep, i)[j];
        assert ends[k] == BackwardEnds(s, sep, i)[j];
      }
    }
  }

  // ---------------------------------------------------------------------------
  // Join

  /** Two neighbouring slices make one. */
  lemma SliceConcat(s: seq<Byte>, a: nat, b: nat, c: nat)
    requires a <= b <= c <= |s|
    ensures s[a..b] + s[b..c] == s[a..c]
  {
  }

  /** A prefix cut in two. */
  lemma PrefixHalves(s: seq<Byte>, m: nat, n: nat)
    requires m <= n <= |s|
    ensures s[..n] == s[..m] + s[m..n]
  {
  }

  /** Cutting a suffix at b and c. */
  lemma SuffixParts(s: seq<Byte>, a: nat, b: nat, c: nat)
    requires a <= b <= c <= |s|
    ensures s[a..] == s[a..b] + s[b..c] + s[c..]
  {
  }

  /** Cutting a prefix at a and b. */
  lemma PrefixParts(s: seq<Byte>, a: nat, b: nat, c: nat)
    requires a <= b <= c <= |s|
    ensures s[..c] == s[..a] + s[a..b] + s[b..c]
  {
  }

  lemma JoinCons(line: seq<Byte>, rest: seq<seq<Byte>>, sep: seq<Byte>)
    requires |rest| >= 1
    ensures Join([line] + rest, sep) == line + sep + Join(rest, sep)
  {
    assert ([line] + rest)[1..] == rest;
  }

  lemma {:induction false} JoinSnoc(lines: seq<seq<Byte>>, last: seq<Byte>, sep: seq<Byte>)
    requires |lines| >= 1
    ensures Join(lines + [last], sep) == Join(lines, sep) + sep + last
    decreases |lines|
  {
    if |lines| == 1 {
      assert lines + [last] == [lines[0]] + [last];
      JoinCons(lines[0], [last], sep);
    } else {
      assert lines + [last] == [lines[0]] + (lines[1..] + [last]);
      JoinCons(lines[0], lines[1..] + [last], sep);
      JoinSnoc(lines[1..], last, sep);
      assert lines == [lines[0]] + lines[1..];
      JoinCons(lines[0], lines[1..], sep);
    }
  }

  // ---------------------------------------------------------------------------
  // Leftmost split

  /** Joining the forward lines with the separator rebuilds the scanned bytes. */
  lemma {:induction false} JoinSplitFrom(s: seq<Byte>, sep: seq<Byte>, pos: nat)
    requires |sep| > 0 && pos <= |s|
    ensures Join(SplitFrom(s, sep, pos), sep) == s[pos..]
    decreases |s| - pos
  {
    var i := IndexOf(s, sep, pos);
    if i >= 0 {
      var next := i + |sep|;
      var rest := SplitFrom(s, sep, next);
      assert SplitFrom(s, sep, pos) == [s[pos..i]] + rest;
      JoinSplitFrom(s, sep, next);
      JoinCons(s[pos..i], rest, sep);
      assert s[i..next] == sep;
      SuffixParts(s, pos, i, next);
    }
  }

  /** No forward line contains a whole separator. */
  lemma {:induction false} SplitFromLinesFree(s: seq<Byte>, sep: seq<Byte>, pos: nat)
    requires |sep| > 0 && pos <= |s|
    ensures forall k :: 0 <= k < |SplitFrom(s, sep, pos)| ==> NoMatch(SplitFrom(s, sep, pos)[k], sep)
    decreases |s| - pos
  {
    var lines := SplitFrom(s, sep, pos);
    var i := IndexOf(s, sep, pos);
    if i < 0 {
      forall j ensures !MatchAt(s[pos..], sep, j) {
        MatchInSuffix(s, sep, pos, j);
      }
    } else {
      var next := i + |sep|;
      SplitFromLinesFree(s, sep, next);
      forall j ensures !MatchAt(s[pos..i], sep, j) {
        MatchInSlice(s, sep, pos, i, j);
      }
      forall k | 0 < k < |lines| ensures NoMatch(lines[k], sep) {
        assert lines[k] == SplitFrom(s, sep, next)[k - 1];
      }
    }
  }

  /**
   * An occurrence of a non-overlapping separator cannot start inside a
   * separator-free line that is followed by the separator.
   */
  lemma NoEarlyMatch(line: seq<Byte>, sep: seq<Byte>, tail: seq<Byte>, j: int)
    requires SelfOverlapFree(sep) && NoMatch(line, sep)
    requires 0 <= j < |line|
    ensures !MatchAt(line + sep + tail, sep, j)
  {
    var s := line + sep + tail;
    var k := |sep|;
    if j + k <= |line| {
      assert s[j..j + k] == line[j..j + k];
      assert !MatchAt(line, sep, j);
    } else if j + k <= |s| {
      var d := j + k - |line|;
      assert 0 < d < k;
      var window := s[j..j + k];
      forall m | 0 <= m < d ensures window[k - d..][m] == sep[..d][m] {
        assert window[k - d + m] == s[|line| + m];
      }
      assert window[k - d..] == sep[..d];
      assert sep[..d] != sep[k - d..];
    }
  }

  /** A separator-free suffix is the forward split's last line. */
  lemma SplitFromLast(s: seq<Byte>, sep: seq<Byte>, pos: nat)
    requires |sep| > 0 && pos <= |s| && NoMatch(s[pos..], sep)
    ensures SplitFrom(s, sep, pos) == [s[pos..]]
  {
    forall j | pos <= j ensures !MatchAt(s, sep, j) {
      MatchInSuffix(s, sep, pos, j - pos);
    }
    assert IndexOf(s, sep, pos) == -1;
  }

  /**
   * For a non-overlapping separator, splitting undoes joining: when s[pos..]
   * is separator-free lines joined with sep, the forward split from pos gives
   * back the same lines.
   */
  lemma {:induction false} SplitFromJoin(s: seq<Byte>, sep: seq<Byte>, pos: nat, lines: seq<seq<Byte>>)
    requires |sep| > 0 && SelfOverlapFree(sep) && pos <= |s| && |lines| >= 1
    requires forall k :: 0 <= k < |lines| ==> NoMatch(lines[k], sep)
    requires s[pos..] == Join(lines, sep)
    ensures SplitFrom(s, sep, pos) == lines
    decreases |lines|
  {
    var line := lines[0];
    if |lines| == 1 {
      assert s[pos..] == line && NoMatch(line, sep);
      SplitFromLast(s, sep, pos);
    } else {
      var rest := lines[1..];
      var i := pos + |line|;
      var next := i + |sep|;
      assert IndexOf(s, sep, pos) == i && next <= |s| && s[pos..i] == line && s[next..] == Join(rest, sep) by {
        assert lines == [line] + rest;
        JoinCons(line, rest, sep);
        FirstLineOfJoin(s, sep, pos, line, Join(rest, sep), i, next);
      }
      forall k | 0 <= k < |rest| ensures NoMatch(rest[k], sep) {
        assert rest[k] == lines[k + 1];
      }
      SplitFromJoin(s, sep, next, rest);
      assert lines == [line] + rest;
    }
  }

  /**
   * When s[pos..] is a separator-free line, the separator and a tail, the
   * leftmost occurrence from pos is the one right after the line.
   */
  lemma FirstLineOfJoin(s: seq<Byte>, sep: seq<Byte>, pos: nat, line: seq<Byte>, tail: seq<Byte>, i: nat, next: nat)
    requires |sep| > 0 && SelfOverlapFree(sep) && pos <= |s| && NoMatch(line, sep)
    requires s[pos..] == line + sep + tail && i == pos + |line| && next == i + |sep|
    ensures IndexOf(s, sep, pos) == i && next <= |s|
    ensures s[pos..i] == line && s[next..] == tail
  {
    MatchInSuffix(s, sep, pos, |line|);
    assert s[pos..][|line|..|line| + |sep|] == sep;
    forall j | pos <= j < i ensures !MatchAt(s, sep, j) {
      NoEarlyMatch(line, sep, tail, j - pos);
      MatchInSuffix(s, sep, pos, j - pos);
    }
    IndexOfIs(s, sep, pos, i);
    assert s[pos..i] == s[pos..][..|line|] == line;
    assert s[next..] == s[pos..][|line| + |sep|..] == tail;
  }

  // ---------------------------------------------------------------------------
  // Rightmost split

  /** Joining the backward lines, taken in file order, rebuilds the scanned bytes. */
  lemma {:induction false} JoinReversedSplitUpTo(s: seq<Byte>, sep: seq<Byte>, end: nat)
    requires |sep| > 0 && end <= |s|
    ensures Join(Reverse(SplitUpTo(s, sep, end)), sep) == s[..end]
    decreases end
  {
    var i := LastBefore(s, sep, end);
    if i >= 0 {
      var line := s[i + |sep|..end];
      var more := SplitUpTo(s, sep, i);
      assert SplitUpTo(s, sep, end) == [line] + more;
      assert ([line] + more)[1..] == more;
      assert Reverse([line] + more) == Reverse(more) + [line];
      JoinReversedSplitUpTo(s, sep, i);
      JoinSnoc(Reverse(more), line, sep);
      PrefixParts(s, i, i + |sep|, end);
    } else {
      assert Reverse([s[..end]]) == [s[..end]];
    }
  }

  /** No backward line contains a whole separator. */
  lemma {:induction false} SplitUpToLinesFree(s: seq<Byte>, sep: seq<Byte>, end: nat)
    requires |sep| > 0 && end <= |s|
    ensures forall k :: 0 <= k < |SplitUpTo(s, sep, end)| ==> NoMatch(SplitUpTo(s, sep, end)[k], sep)
    decreases end
  {
    var lines := SplitUpTo(s, sep, end);
    var i := LastBefore(s, sep, end);
    if i < 0 {
      forall j ensures !MatchAt(s[..end], sep, j) {
        assert s[..end] == s[0..end];
        MatchInSlice(s, sep, 0, end, j);
      }
    } else {
      SplitUpToLinesFree(s, sep, i);
      var line := s[i + |sep|..end];
      forall j ensures !MatchAt(line, sep, j) {
        MatchInSlice(s, sep, i + |sep|, end, j);
      }
      forall k | 0 < k < |lines| ensures NoMatch(lines[k], sep) {
        assert lines[k] == SplitUpTo(s, sep, i)[k - 1];
      }
    }
  }

  /**
   * For a separator that cannot overlap itself (a single byte such as "\n",
   * for one), the backward lines of the whole of s, reversed, are exactly its
   * forward lines.
   */
  lemma SplitUpToReversesSplitFrom(s: seq<Byte>, sep: seq<Byte>)
    requires |sep| > 0 && SelfOverlapFree(sep)
    ensures Reverse(SplitUpTo(s, sep, |s|)) == SplitFrom(s, sep, 0)
  {
    var lines := Reverse(SplitUpTo(s, sep, |s|));
    JoinReversedSplitUpTo(s, sep, |s|);
    SplitUpToLinesFree(s, sep, |s|);
    assert s[0..] == s[..|s|];
    SplitFromJoin(s, sep, 0, lines);
  }

  /** Every one-byte separator cannot overlap itself. */
  lemma OneByteSeparator(sep: seq<Byte>)
    requires |sep| == 1
    ensures SelfOverlapFree(sep)
  {
  }

  /** Without that premise the two splits differ: "aaa" cut at "aa". */
  lemma OverlappingSeparatorSplitsDiffer()
    ensures var s: seq<Byte> := [0x61, 0x61, 0x61];
      Reverse(SplitUpTo(s, [0x61, 0x61], 3)) != SplitFrom(s, [0x61, 0x61], 0)
  {
    var s: seq<Byte> := [0x61, 0x61, 0x61];
    var sep: seq<Byte> := [0x61, 0x61];
    assert MatchAt(s, sep, 0) && MatchAt(s, sep, 1);
    assert IndexOf(s, sep, 0) == 0;
    assert LastIndexOf(s, sep, 1) == 1;
    assert SplitFrom(s, sep, 0)[0] == [];
    assert SplitUpTo(s, sep, 1) == [s[..1]];
    assert Reverse(SplitUpTo(s, sep, 3))[0] == [0x61];
  }
}
