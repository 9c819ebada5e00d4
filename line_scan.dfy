/**
 * What a scan promises, independently of how it reads the file: the options
 * and their defaults, the reading context each callback sees, the sequence of
 * callbacks a forward or backward scan makes if nobody stops it, and the rule
 * by which a callback's "false" cuts that sequence short.
 */
module LineScan {
  import opened Split

  datatype Option<T> = None | Some(value: T)

  /** One mebibyte: the chunk length when none is given. */
  const DefaultReadLength: nat := 1048576

  /** "\n" as bytes: the separator when none is given. */
  const DefaultSep: seq<Byte> := [0x0A]

  /**
   * The options of read and readFromEnd. A readLength of 0 and an empty sep
   * behave as if the option were absent, as the source's `||` defaulting does.
   */
  datatype Options = Options(readLength: nat, sep: seq<Byte>, position: Option<nat>)

  /** The context record shared with every callback of one scan. */
  datatype ReadingContext = ReadingContext(
    sepLength: nat,
    startPosition: nat,
    lineCount: nat,
    position: int,  // file offset of the first byte of the current line
    isEnd: bool)

  /** One callback invocation: the line and the context it was shown. */
  datatype Call = Call(line: seq<Byte>, context: ReadingContext)

  /** The line callback as a stop oracle: false means "stop the scan". */
  type LineCallback = (seq<Byte>, ReadingContext) -> bool

  function ReadLength(o: Options): (n: nat)
    ensures n > 0
    ensures o.readLength != 0 ==> n == o.readLength
  {
    if o.readLength == 0 then DefaultReadLength else o.readLength
  }

  function Separator(o: Options): (sep: seq<Byte>)
    ensures |sep| > 0
    ensures o.sep != [] ==> sep == o.sep
  {
    if o.sep == [] then DefaultSep else o.sep
  }

  /** The forward scan starts at the given position, or at 0: a given 0 and an absent position are the same. */
  function ForwardStart(o: Options): (start: nat)
    ensures o.position.Some? ==> start == o.position.value
    ensures o.position.None? ==> start == 0
  {
    if o.position.Some? then o.position.value else 0
  }

  /**
   * The backward scan's exclusive upper bound: the given position, or the
   * file size when none is given. A given 0 is a bound of 0, not the size.
   */
  function BackwardBound(o: Options, size: nat): (bound: nat)
    ensures o.position.Some? ==> bound == o.position.value
    ensures o.position.None? ==> bound == size
  {
    if o.position.Some? then o.position.value else size
  }

  function Lines(calls: seq<Call>): (lines: seq<seq<Byte>>)
    ensures |lines| == |calls|
    ensures forall k :: 0 <= k < |calls| ==> lines[k] == calls[k].line
  {
    seq(|calls|, k requires 0 <= k < |calls| => calls[k].line)
  }

  // ---------------------------------------------------------------------------
  // The stop rule

  /**
   * The calls that actually happen when the callback answers as onLine does:
   * everything up to and including the first non-final call answered false.
   * The answer to the final call is ignored.
   */
  function Delivered(calls: seq<Call>, onLine: LineCallback): (r: seq<Call>)
    ensures |r| <= |calls| && r == calls[..|r|]
    ensures |calls| > 0 ==> |r| > 0
    decreases |calls|
  {
    if |calls| == 0 then []
    else if |calls| > 1 && !onLine(calls[0].line, calls[0].context) then [calls[0]]
    else [calls[0]] + Delivered(calls[1..], onLine)
  }

  /**
   * Delivery stops exactly at the first call answered false: every delivered
   * call but the last continued, the last one stopped if any call was left
   * out, and no call after a stopping one is delivered.
   */
  lemma {:induction false} DeliveredStops(calls: seq<Call>, onLine: LineCallback)
    ensures var r := Delivered(calls, onLine);
      (forall k :: 0 <= k < |r| - 1 ==> onLine(r[k].line, r[k].context)) &&
      (|r| < |calls| ==> !onLine(r[|r| - 1].line, r[|r| - 1].context)) &&
      (forall k :: 0 <= k < |calls| - 1 && !onLine(calls[k].line, calls[k].context) ==> |r| <= k + 1)
    decreases |calls|
  {
    if |calls| > 1 && onLine(calls[0].line, calls[0].context) {
      var tail := Delivered(calls[1..], onLine);
      DeliveredStops(calls[1..], onLine);
      assert Delivered(calls, onLine) == [calls[0]] + tail;
      forall k | 0 <= k < |calls| - 1 && !onLine(calls[k].line, calls[k].context)
        ensures |Delivered(calls, onLine)| <= k + 1
      {
        assert calls[1..][k - 1] == calls[k];
      }
    }
  }

  /** done is a proper prefix of calls, and the callback answered every call in it with "continue". */
  predicate Continuing(calls: seq<Call>, done: seq<Call>, onLine: LineCallback) {
    |done| < |calls| &&
    forall k :: 0 <= k < |done| ==> done[k] == calls[k] && onLine(done[k].line, done[k].context)
  }

  /** A continued call extends the prefix by one. */
  lemma ContinuingStep(calls: seq<Call>, done: seq<Call>, c: Call, onLine: LineCallback)
    requires Continuing(calls, done, onLine) && |done| + 1 < |calls|
    requires c == calls[|done|] && onLine(c.line, c.context)
    ensures Continuing(calls, done + [c], onLine)
  {
  }

  /** A call answered false, with calls still to come, ends the delivery right after it. */
  lemma DeliveredStopsAt(calls: seq<Call>, done: seq<Call>, c: Call, onLine: LineCallback)
    requires Continuing(calls, done, onLine) && |done| + 1 < |calls|
    requires c == calls[|done|] && !onLine(c.line, c.context)
    ensures Delivered(calls, onLine) == done + [c]
  {
    DeliveredStops(calls, onLine);
    var r := Delivered(calls, onLine);
    assert |r| == |done| + 1;
    forall k | 0 <= k < |r| ensures r[k] == (done + [c])[k] {
      assert r[k] == calls[k];
    }
  }

  /** When every call before the last continued, all of them are delivered. */
  lemma DeliveredAll(calls: seq<Call>, done: seq<Call>, c: Call, onLine: LineCallback)
    requires Continuing(calls, done, onLine) && |done| + 1 == |calls| && c == calls[|done|]
    ensures Delivered(calls, onLine) == done + [c]
  {
    DeliveredStops(calls, onLine);
    var r := Delivered(calls, onLine);
    assert |r| == |calls|;
    forall k | 0 <= k < |r| ensures r[k] == (done + [c])[k] {
      assert r[k] == calls[k];
    }
  }

  // ---------------------------------------------------------------------------
  // The forward scan

  /**
   * The callbacks read makes if none stops it: one per forward line of
   * content[start..]. Call k shows the bytes from the k-th line start up to
   * the next separator (or the end of the file), the offset where the line
   * starts, lineCount k + 1, and isEnd only on the last line. A start at or
   * past the end of the file makes no call.
   */
  function ForwardScan(content: seq<Byte>, o: Options): seq<Call> {
    var start := ForwardStart(o);
    var sep := Separator(o);
    if start >= |content| then []
    else
      var starts := ForwardStarts(content, sep, start);
      seq(|starts|, k requires 0 <= k < |starts| =>
        Call(content[starts[k]..LineEnd(content, sep, starts[k])],
             ReadingContext(|sep|, start, k + 1, starts[k], k == |starts| - 1)))
  }

  /** read's first call starts at the start position, and there is one exactly when the start lies inside the file. */
  lemma ForwardScanFirst(content: seq<Byte>, o: Options)
    ensures var calls := ForwardScan(content, o);
      (|calls| > 0 <==> ForwardStart(o) < |content|) &&
      (|calls| > 0 ==> calls[0].context.position == ForwardStart(o))
  {
  }

  /**
   * read's call k, once it is known to start at p and the next occurrence of
   * the separator at or after p is at e: it shows exactly the bytes from p up
   * to e, is not the last, and the next call starts right past that
   * occurrence.
   */
  lemma ForwardScanNext(content: seq<Byte>, o: Options, k: nat, p: nat, e: int)
    requires k < |ForwardScan(content, o)|
    requires ForwardScan(content, o)[k].context.position == p
    requires IndexOf(content, Separator(o), p) == e && e >= 0
    ensures var calls := ForwardScan(content, o);
      var sep := Separator(o);
      k + 1 < |calls| && p <= e &&
      calls[k] == Call(content[p..e], ReadingContext(|sep|, ForwardStart(o), k + 1, p, false)) &&
      calls[k + 1].context.position == e + |sep|
  {
    var sep := Separator(o);
    var starts := ForwardStarts(content, sep, ForwardStart(o));
    ForwardScanAt(content, o, k);
    assert starts[k] == p && LineEnd(content, sep, p) == e && k + 1 < |starts| && starts[k + 1] == e + |sep| by {
      ForwardStartsAt(content, sep, ForwardStart(o), k);
    }
    ForwardScanAt(content, o, k + 1);
  }

  /**
   * read's call k, once it is known to start at p and no occurrence of the
   * separator follows p: it is the last call, shows the rest of the file and
   * is marked isEnd.
   */
  lemma ForwardScanFinal(content: seq<Byte>, o: Options, k: nat, p: nat)
    requires k < |ForwardScan(content, o)|
    requires ForwardScan(content, o)[k].context.position == p
    requires IndexOf(content, Separator(o), p) < 0
    ensures var calls := ForwardScan(content, o);
      p <= |content| && k == |calls| - 1 &&
      calls[k] == Call(content[p..], ReadingContext(|Separator(o)|, ForwardStart(o), k + 1, p, true))
  {
    var sep := Separator(o);
    var starts := ForwardStarts(content, sep, ForwardStart(o));
    ForwardScanAt(content, o, k);
    ForwardStartsAt(content, sep, ForwardStart(o), k);
    assert starts[k] == p && LineEnd(content, sep, p) == |content| && k == |starts| - 1;
    assert content[p..|content|] == content[p..];
  }

  /** read's call k spelled out from the line starts: one call per start, running to the line end. */
  lemma ForwardScanAt(content: seq<Byte>, o: Options, k: nat)
    requires k < |ForwardScan(content, o)|
    ensures ForwardStart(o) < |content|
    ensures var starts := ForwardStarts(content, Separator(o), ForwardStart(o));
      var p := starts[k];
      |ForwardScan(content, o)| == |starts| &&
      ForwardScan(content, o)[k] ==
        Call(content[p..LineEnd(content, Separator(o), p)],
             ReadingContext(|Separator(o)|, ForwardStart(o), k + 1, p, k == |starts| - 1))
  {
  }

  /**
   * Where each of read's lines sits in the file: at its position, ending
   * before any occurrence of the separator, counted from 1; the last one runs
   * to the end of the file and alone is marked isEnd.
   */
  lemma ForwardScanLocate(content: seq<Byte>, o: Options, k: nat)
    requires k < |ForwardScan(content, o)|
    ensures var c := ForwardScan(content, o)[k];
      ForwardStart(o) <= c.context.position && c.context.position + |c.line| <= |content| &&
      content[c.context.position..c.context.position + |c.line|] == c.line
    ensures var calls := ForwardScan(content, o);
      calls[k].context ==
        ReadingContext(|Separator(o)|, ForwardStart(o), k + 1, calls[k].context.position, k == |calls| - 1)
    ensures var c := ForwardScan(content, o)[k];
      forall j :: c.context.position <= j < c.context.position + |c.line| ==> !MatchAt(content, Separator(o), j)
    ensures var c := ForwardScan(content, o)[k];
      k == |ForwardScan(content, o)| - 1 ==> c.context.position + |c.line| == |content|
  {
    var sep := Separator(o);
    var starts := ForwardStarts(content, sep, ForwardStart(o));
    ForwardScanAt(content, o, k);
    ForwardStartsAt(content, sep, ForwardStart(o), k);
    var p := starts[k];
    assert p + |ForwardScan(content, o)[k].line| == LineEnd(content, sep, p);
  }

  /** read's lines are the forward split of content[start..]. */
  lemma ForwardScanLines(content: seq<Byte>, o: Options)
    requires ForwardStart(o) < |content|
    ensures Lines(ForwardScan(content, o)) == SplitFrom(content, Separator(o), ForwardStart(o))
  {
    SplitFromStarts(content, Separator(o), ForwardStart(o));
  }

  /** The forward lines joined with the separator give back content[start..]. */
  lemma ForwardRoundTrip(content: seq<Byte>, o: Options)
    requires ForwardStart(o) < |content|
    ensures Join(Lines(ForwardScan(content, o)), Separator(o)) == content[ForwardStart(o)..]
  {
    ForwardScanLines(content, o);
    JoinSplitFrom(content, Separator(o), ForwardStart(o));
  }

  // ---------------------------------------------------------------------------
  // The backward scan

  /**
   * The callbacks readFromEnd makes if none stops it: one per backward line
   * of content[..bound], last line of the file first. Call k shows the bytes
   * from past the last separator lying wholly before the k-th line end (or
   * from 0) up to that end, the offset where the line starts, lineCount k + 1,
   * and isEnd only on the last call, the first line of the file, at 0. A bound
   * of 0 makes no call.
   */
  function BackwardScan(content: seq<Byte>, o: Options): seq<Call>
    requires BackwardBound(o, |content|) <= |content|
  {
    var bound := BackwardBound(o, |content|);
    var sep := Separator(o);
    if bound == 0 then []
    else
      var ends := BackwardEnds(content, sep, bound);
      seq(|ends|, k requires 0 <= k < |ends| =>
        Call(content[LineStart(content, sep, ends[k])..ends[k]],
             ReadingContext(|sep|, bound, k + 1, LineStart(content, sep, ends[k]), k == |ends| - 1)))
  }

  /** readFromEnd's first call ends at the bound, and there is one exactly when the bound is not 0. */
  lemma BackwardScanFirst(content: seq<Byte>, o: Options)
    requires BackwardBound(o, |content|) <= |content|
    ensures var calls := BackwardScan(content, o);
      (|calls| > 0 <==> BackwardBound(o, |content|) > 0) &&
      (|calls| > 0 ==> calls[0].context.position + |calls[0].line| == BackwardBound(o, |content|))
  {
  }

  /**
   * readFromEnd's call k, once its line is known to end at e (the bound for
   * the first call, just below the separator before the previous call's line
   * otherwise) and the last occurrence of the separator lying wholly before e
   * is at s: it shows exactly the bytes from b, right past that occurrence,
   * up to e, starts at b, and is not the last.
   */
  lemma BackwardScanNext(content: seq<Byte>, o: Options, k: nat, e: nat, s: int, b: nat)
    requires BackwardBound(o, |content|) <= |content|
    requires k < |BackwardScan(content, o)|
    requires (k == 0 ==> e == BackwardBound(o, |content|)) &&
      (k > 0 ==> BackwardScan(content, o)[k - 1].context.position == e + |Separator(o)|)
    requires e <= |content| && LastBefore(content, Separator(o), e) == s && s >= 0 && b == s + |Separator(o)|
    ensures k + 1 < |BackwardScan(content, o)| && b <= e
    ensures BackwardScan(content, o)[k] ==
      Call(content[b..e], ReadingContext(|Separator(o)|, BackwardBound(o, |content|), k + 1, b, false))
  {
    var ends := BackwardEnds(content, Separator(o), BackwardBound(o, |content|));
    BackwardScanEnd(content, o, k, e);
    BackwardEndsAt(content, Separator(o), BackwardBound(o, |content|), k);
    assert ends[k] == e && k + 1 < |ends|;
    assert LineStart(content, Separator(o), ends[k]) == b;
  }

  /**
   * readFromEnd's call k, once its line is known to end at e and no
   * occurrence of the separator lies wholly before e: it is the last call,
   * shows the file's first e bytes and is marked isEnd at position 0.
   */
  lemma BackwardScanFinal(content: seq<Byte>, o: Options, k: nat, e: nat)
    requires BackwardBound(o, |content|) <= |content|
    requires k < |BackwardScan(content, o)|
    requires (k == 0 ==> e == BackwardBound(o, |content|)) &&
      (k > 0 ==> BackwardScan(content, o)[k - 1].context.position == e + |Separator(o)|)
    requires e <= |content| && LastBefore(content, Separator(o), e) < 0
    ensures var calls := BackwardScan(content, o);
      k == |calls| - 1 &&
      calls[k] == Call(content[..e], ReadingContext(|Separator(o)|, BackwardBound(o, |content|), k + 1, 0, true))
  {
    BackwardScanEnd(content, o, k, e);
    BackwardEndsAt(content, Separator(o), BackwardBound(o, |content|), k);
    assert content[0..e] == content[..e];
  }

  /** The end of line k is the bound for the first call and just below the separator before the previous line otherwise. */
  lemma BackwardScanEnd(content: seq<Byte>, o: Options, k: nat, e: nat)
    requires BackwardBound(o, |content|) <= |content|
    requires k < |BackwardScan(content, o)|
    requires (k == 0 ==> e == BackwardBound(o, |content|)) &&
      (k > 0 ==> BackwardScan(content, o)[k - 1].context.position == e + |Separator(o)|)
    ensures BackwardEnds(content, Separator(o), BackwardBound(o, |content|))[k] == e
  {
    if k > 0 {
      BackwardEndsAt(content, Separator(o), BackwardBound(o, |content|), k - 1);
    }
  }

  /** readFromEnd's call k spelled out from the line ends: one call per end, ending there. */
  lemma BackwardScanAt(content: seq<Byte>, o: Options, k: nat)
    requires BackwardBound(o, |content|) <= |content|
    requires k < |BackwardScan(content, o)|
    ensures var ends := BackwardEnds(content, Separator(o), BackwardBound(o, |content|));
      var p := LineStart(content, Separator(o), ends[k]);
      |BackwardScan(content, o)| == |ends| &&
      BackwardScan(content, o)[k] ==
        Call(content[p..ends[k]], ReadingContext(|Separator(o)|, BackwardBound(o, |content|), k + 1, p, k == |ends| - 1))
  {
  }

  /**
   * Where each of readFromEnd's lines sits in the file: at its position,
   * below the bound, with no occurrence of the separator lying wholly inside
   * it or straddling its start, counted from 1; the last one starts at 0 and
   * alone is marked isEnd.
   */
  lemma BackwardScanLocate(content: seq<Byte>, o: Options, k: nat)
    requires BackwardBound(o, |content|) <= |content|
    requires k < |BackwardScan(content, o)|
    ensures var c := BackwardScan(content, o)[k];
      0 <= c.context.position && c.context.position + |c.line| <= BackwardBound(o, |content|) &&
      content[c.context.position..c.context.position + |c.line|] == c.line
    ensures var calls := BackwardScan(content, o);
      calls[k].context ==
        ReadingContext(|Separator(o)|, BackwardBound(o, |content|), k + 1, calls[k].context.position, k == |calls| - 1)
    ensures var c := BackwardScan(content, o)[k];
      forall j :: c.context.position - |Separator(o)| < j && j + |Separator(o)| <= c.context.position + |c.line| ==>
        !MatchAt(content, Separator(o), j)
    ensures k == |BackwardScan(content, o)| - 1 ==> BackwardScan(content, o)[k].context.position == 0
  {
    var sep := Separator(o);
    var ends := BackwardEnds(content, sep, BackwardBound(o, |content|));
    BackwardScanAt(content, o, k);
    BackwardEndsAt(content, sep, BackwardBound(o, |content|), k);
    var p := LineStart(content, sep, ends[k]);
    assert p + |BackwardScan(content, o)[k].line| == ends[k];
    forall j | p - |sep| < j && j + |sep| <= ends[k] ensures !MatchAt(content, sep, j) {
    }
  }

  /**
   * A line of readFromEnd's that is not the last has the separator just
   * before it, and the next call's line ends where that separator starts.
   */
  lemma BackwardScanLink(content: seq<Byte>, o: Options, k: nat)
    requires BackwardBound(o, |content|) <= |content|
    requires k + 1 < |BackwardScan(content, o)|
    ensures var calls := BackwardScan(content, o);
      MatchAt(content, Separator(o), calls[k].context.position - |Separator(o)|) &&
      calls[k + 1].context.position + |calls[k + 1].line| == calls[k].context.position - |Separator(o)|
  {
    var sep := Separator(o);
    var ends := BackwardEnds(content, sep, BackwardBound(o, |content|));
    BackwardScanAt(content, o, k);
    BackwardScanAt(content, o, k + 1);
    BackwardEndsAt(content, sep, BackwardBound(o, |content|), k);
    assert BackwardScan(content, o)[k].context.position - |sep| == ends[k + 1];
  }

  /** readFromEnd's lines are the backward split of content[..bound]. */
  lemma BackwardScanLines(content: seq<Byte>, o: Options)
    requires 0 < BackwardBound(o, |content|) <= |content|
    ensures Lines(BackwardScan(content, o)) == SplitUpTo(content, Separator(o), BackwardBound(o, |content|))
  {
    SplitUpToEnds(content, Separator(o), BackwardBound(o, |content|));
  }

  /** The backward lines, put back in file order and joined, give content[..bound]. */
  lemma BackwardRoundTrip(content: seq<Byte>, o: Options)
    requires 0 < BackwardBound(o, |content|) <= |content|
    ensures Join(Reverse(Lines(BackwardScan(content, o))), Separator(o)) == content[..BackwardBound(o, |content|)]
  {
    BackwardScanLines(content, o);
    JoinReversedSplitUpTo(content, Separator(o), BackwardBound(o, |content|));
  }

  /**
   * Over the whole file, with a separator that cannot overlap itself (the
   * default "\n" among them), readFromEnd's lines reversed are read's lines.
   */
  lemma BackwardLinesReverseForward(content: seq<Byte>, o: Options)
    requires o.position.None? && SelfOverlapFree(Separator(o))
    ensures Reverse(Lines(BackwardScan(content, o))) == Lines(ForwardScan(content, o))
  {
    if |content| > 0 {
      ForwardScanLines(content, o);
      BackwardScanLines(content, o);
      SplitUpToReversesSplitFrom(content, Separator(o));
    }
  }

  /** Where "\n" occurs in "a\nb\nc", as each scan searches for it. */
  lemma ThreeLinesSeparators(content: seq<Byte>)
    requires content == [0x61, 0x0A, 0x62, 0x0A, 0x63]
    ensures IndexOf(content, DefaultSep, 0) == 1 && IndexOf(content, DefaultSep, 2) == 3 &&
      IndexOf(content, DefaultSep, 4) == -1 &&
      LastBefore(content, DefaultSep, 5) == 3 && LastBefore(content, DefaultSep, 3) == 1 &&
      LastBefore(content, DefaultSep, 1) == -1
  {
    var sep := DefaultSep;
    assert MatchAt(content, sep, 1) && MatchAt(content, sep, 3);
    assert content[0] != sep[0] && content[2] != sep[0] && content[4] != sep[0];
    assert !MatchAt(content, sep, 0) && !MatchAt(content, sep, 2) && !MatchAt(content, sep, 4);
    IndexOfIs(content, sep, 0, 1);
    IndexOfIs(content, sep, 2, 3);
    LastIndexOfIs(content, sep, 4, 3);
    LastIndexOfIs(content, sep, 2, 1);
    assert IndexOf(content, sep, 5) == -1;
    assert LastIndexOf(content, sep, -1) == -1;
  }

  /** "a\nb\nc" read forward with the default options: a at 0, b at 2, c at 4 with isEnd. */
  lemma ThreeLinesForward(content: seq<Byte>, o: Options)
    requires content == [0x61, 0x0A, 0x62, 0x0A, 0x63] && o == Options(0, [], None)
    ensures var calls := ForwardScan(content, o);
      |calls| == 3 &&
      calls[0] == Call([0x61], ReadingContext(1, 0, 1, 0, false)) &&
      calls[1] == Call([0x62], ReadingContext(1, 0, 2, 2, false)) &&
      calls[2] == Call([0x63], ReadingContext(1, 0, 3, 4, true))
  {
    ThreeLinesSeparators(content);
    ForwardScanFirst(content, o);
    ForwardScanNext(content, o, 0, 0, 1);
    ForwardScanNext(content, o, 1, 2, 3);
    ForwardScanFinal(content, o, 2, 4);
    assert content[0..1] == [0x61] && content[2..3] == [0x62] && content[4..] == [0x63];
  }

  /**
   * "a\nb\nc" read backward with the default options: c at 4, b at 2, a at 0
   * with isEnd, every context carrying the bound 5 as its startPosition.
   */
  lemma ThreeLinesBackward(content: seq<Byte>, o: Options)
    requires content == [0x61, 0x0A, 0x62, 0x0A, 0x63] && o == Options(0, [], None)
    ensures var calls := BackwardScan(content, o);
      |calls| == 3 &&
      calls[0] == Call([0x63], ReadingContext(1, 5, 1, 4, false)) &&
      calls[1] == Call([0x62], ReadingContext(1, 5, 2, 2, false)) &&
      calls[2] == Call([0x61], ReadingContext(1, 5, 3, 0, true))
  {
    ThreeLinesSeparators(content);
    BackwardScanFirst(content, o);
    BackwardScanNext(content, o, 0, 5, 3, 4);
    BackwardScanNext(content, o, 1, 3, 1, 2);
    BackwardScanFinal(content, o, 2, 1);
    assert content[2..3] == [0x62] && content[4..5] == [0x63] && content[..1] == [0x61];
  }
}
