/**
 * The two scans as the source performs them: a fresh buffer per pass, the
 * pending partial line copied in next to the bytes of one positioned read,
 * and an inner loop that cuts complete lines off the buffer and hands them to
 * the callback. Each scan is proved to make exactly the callbacks LineScan
 * specifies, cut short where the callback answers false, and to report how
 * many bytes of the file it read.
 */
module FileRead {
  import opened Split
  import opened LineScan

  function Min(a: int, b: int): int {
    if a <= b then a else b
  }

  /** Where the separator that ends the last call's line ends in the file. */
  function StopEnd(calls: seq<Call>, sepLen: nat): int
    requires |calls| > 0
  {
    var c := calls[|calls| - 1];
    c.context.position + |c.line| + sepLen
  }

  /** d bytes are a whole number of chunks of length bytes. */
  ghost predicate WholeChunks(d: int, length: nat)
    decreases d
  {
    d == 0 || (length > 0 && d >= length && WholeChunks(d - length, length))
  }

  /**
   * How many of limit bytes a scan has read, chunk by chunk of length bytes,
   * once the chunk covering its first target bytes is read: the least whole
   * number of chunks reaching target, cut at limit.
   */
  function Covered(length: nat, limit: int, target: int): (n: int)
    requires length > 0
    ensures 0 < target <= limit ==> target <= n <= limit && n < target + length
    ensures 0 < target <= limit ==> n == limit || WholeChunks(n, length)
    decreases target
  {
    if target <= length || limit <= length then Min(length, limit)
    else length + Covered(length, limit - length, target - length)
  }

  /** When d whole chunks fall short of target and one more reaches it, Covered is d plus that chunk, cut at limit. */
  lemma {:induction false} CoveredAt(length: nat, limit: int, target: int, d: int)
    requires length > 0 && WholeChunks(d, length)
    requires d < target <= Min(d + length, limit)
    ensures Covered(length, limit, target) == Min(d + length, limit)
    decreases d
  {
    if d != 0 {
      CoveredAt(length, limit - length, target - length, d - length);
    }
  }

  /** A pass that starts after d whole chunks and reads bytesRead of the limit - d bytes left covers target exactly when it is the first to reach it. */
  lemma PassCovered(length: nat, limit: int, target: int, d: int, d': int, bytesRead: int)
    requires length > 0 && WholeChunks(d, length) && d < limit
    requires bytesRead == Min(length, limit - d) && d' == d + bytesRead && d < target <= d'
    ensures d' == Covered(length, limit, target)
  {
    CoveredAt(length, limit, target, d);
  }

  /** m chunks of length bytes are whole chunks. */
  lemma {:induction false} ChunksWhole(m: nat, length: nat)
    requires length > 0
    ensures WholeChunks(m * length, length)
  {
    if m > 0 {
      ChunksWhole(m - 1, length);
      assert m * length == (m - 1) * length + length;
    }
  }

  /**
   * read stopped in the pass that starts m whole chunks past start and reads
   * up to the stopping separator's end stop: it has read exactly the chunks
   * covering stop.
   */
  lemma ForwardStopCount(start: nat, size: nat, length: nat, stop: int, passStart: nat, m: nat, position: nat)
    requires length > 0 && start <= passStart < stop && passStart - start == m * length
    requires passStart < size && position == passStart + Min(length, size - passStart) && stop <= position
    ensures position - start == Covered(length, size - start, stop - start)
  {
    ChunksWhole(m, length);
    PassCovered(length, size - start, stop - start, passStart - start, position - start, position - passStart);
  }

  /** After m chunks, one more makes m + 1. */
  lemma NextChunk(d: int, d': int, m: nat, length: nat)
    requires d == m * length && d' == d + length
    ensures d' == (m + 1) * length
  {
  }

  /** Buffer.copy: src is written into dst from index at on; the rest of dst is kept. */
  method CopyInto(src: seq<Byte>, dst: array<Byte>, at: nat)
    requires at + |src| <= dst.Length
    modifies dst
    ensures dst[..at] == old(dst[..at])
    ensures dst[at..at + |src|] == src
    ensures dst[at + |src|..] == old(dst[at + |src|..])
  {
    forall k | at <= k < at + |src| {
      dst[k] := src[k - at];
    }
  }

  /**
   * fs.read(fd, buf, offset, length, position) on a file whose bytes are
   * content: up to length bytes from position on land in buf at offset, fewer
   * at the end of the file and none past it; the rest of buf is kept.
   */
  method PositionedRead(content: seq<Byte>, buf: array<Byte>, offset: nat, length: nat, position: nat)
    returns (bytesRead: nat)
    requires offset + length <= buf.Length
    modifies buf
    ensures bytesRead == if position >= |content| then 0 else Min(length, |content| - position)
    ensures buf[..offset] == old(buf[..offset])
    ensures bytesRead > 0 ==> buf[offset..offset + bytesRead] == content[position..position + bytesRead]
    ensures buf[offset + bytesRead..] == old(buf[offset + bytesRead..])
  {
    bytesRead := if position >= |content| then 0 else Min(length, |content| - position);
    if bytesRead > 0 {
      CopyInto(content[position..position + bytesRead], buf, offset);
    }
  }

  /**
   * One pass of read: a fresh buffer of |rest| + length bytes, the pending
   * partial line copied to its front and a positioned read of up to length
   * bytes from position right behind it. data is the filled part.
   */
  method ForwardChunk(content: seq<Byte>, rest: seq<Byte>, length: nat, position: nat)
    returns (data: seq<Byte>, bytesRead: nat)
    ensures bytesRead == if position >= |content| then 0 else Min(length, |content| - position)
    ensures bytesRead > 0 ==> data == rest + content[position..position + bytesRead]
  {
    var buf := new Byte[|rest| + length];
    CopyInto(rest, buf, 0);
    ghost var copied := buf[..];
    bytesRead := PositionedRead(content, buf, |rest|, length, position);
    data := buf[..|rest| + bytesRead];
    if bytesRead > 0 {
      assert buf[..|rest|] == copied[..|rest|] == rest;
      PrefixHalves(buf[..], |rest|, |rest| + bytesRead);
    }
  }

  /**
   * One pass of readFromEnd: a fresh buffer of |rest| + length bytes, a
   * positioned read of bytesRead bytes from position into its front and, when
   * that read is not empty, the pending partial line copied right behind
   * them. data is the whole buffer, as lastIndexOf searches it.
   */
  method BackwardChunk(content: seq<Byte>, rest: seq<Byte>, length: nat, bytesRead: nat, position: nat)
    returns (data: seq<Byte>)
    requires bytesRead <= length && position + bytesRead <= |content|
    ensures |data| == |rest| + length
    ensures bytesRead > 0 ==> data[..bytesRead + |rest|] == content[position..position + bytesRead] + rest
  {
    var buf := new Byte[|rest| + length];
    var got := PositionedRead(content, buf, 0, bytesRead, position);
    if bytesRead > 0 {
      ghost var read := buf[..];
      CopyInto(rest, buf, bytesRead);
      assert buf[..bytesRead] == read[..bytesRead] == content[position..position + bytesRead];
      PrefixHalves(buf[..], bytesRead, bytesRead + |rest|);
    }
    data := buf[..];
  }

  // ---------------------------------------------------------------------------
  // From the buffer to the file

  /** Where data[..n] holds the file bytes content[lo..lo + n], an occurrence inside that window is one in the file. */
  lemma WindowMatch(content: seq<Byte>, data: seq<Byte>, lo: nat, n: nat, sep: seq<Byte>, j: int)
    requires lo + n <= |content| && n <= |data| && data[..n] == content[lo..lo + n]
    requires 0 <= j && j + |sep| <= n
    ensures MatchAt(data, sep, j) <==> MatchAt(content, sep, lo + j)
  {
    forall m | j <= m < j + |sep| ensures data[m] == content[lo + m] {
      assert data[..n][m] == content[lo..lo + n][m];
    }
  }

  /** Where data[..n] holds the file bytes content[lo..lo + n], a slice of that window is a slice of the file. */
  lemma WindowSlice(content: seq<Byte>, data: seq<Byte>, lo: nat, n: nat, a: nat, b: nat, p: nat, q: nat)
    requires lo + n <= |content| && n <= |data| && data[..n] == content[lo..lo + n]
    requires a <= b <= n && p == lo + a && q == lo + b
    ensures data[a..b] == content[p..q]
  {
    forall m | a <= m < b ensures data[m] == content[lo + m] {
      assert data[..n][m] == content[lo..lo + n][m];
    }
  }

  /** indexOf on a buffer holding content[lo..lo + n] finds what indexOf on the file finds. */
  lemma ForwardFound(content: seq<Byte>, data: seq<Byte>, lo: nat, sep: seq<Byte>, off: nat, i: int, p: nat, e: nat)
    requires |sep| > 0 && lo + |data| <= |content| && data == content[lo..lo + |data|]
    requires off <= |data| && i == IndexOf(data, sep, off) && i >= 0 && p == lo + off && e == lo + i
    ensures off <= i && i + |sep| <= |data|
    ensures IndexOf(content, sep, p) == e
  {
    var n := |data|;
    assert data[..n] == data;
    WindowMatch(content, data, lo, n, sep, i);
    forall j | lo + off <= j < lo + i
      ensures !MatchAt(content, sep, j)
    {
      WindowMatch(content, data, lo, n, sep, j - lo);
    }
    IndexOfIs(content, sep, p, e);
  }

  /** indexOf answering -1 on the buffer means no occurrence lies wholly inside the searched part of the window. */
  lemma ForwardNotFound(content: seq<Byte>, data: seq<Byte>, lo: nat, sep: seq<Byte>, off: nat)
    requires |sep| > 0 && lo + |data| <= |content| && data == content[lo..lo + |data|]
    requires off <= |data| && IndexOf(data, sep, off) < 0
    ensures forall j :: lo + off <= j && j + |sep| <= lo + |data| ==> !MatchAt(content, sep, j)
  {
    var n := |data|;
    assert data[..n] == data;
    forall j | lo + off <= j && j + |sep| <= lo + n
      ensures !MatchAt(content, sep, j)
    {
      WindowMatch(content, data, lo, n, sep, j - lo);
    }
  }

  /** lastIndexOf(sep, cut - |sep|) on a buffer whose first n bytes are content[lo..lo + n] finds what it finds in the file. */
  lemma BackwardFound(content: seq<Byte>, data: seq<Byte>, lo: nat, n: nat, sep: seq<Byte>, cut: nat, i: int)
    requires |sep| > 0 && lo + n <= |content| && n <= |data| && data[..n] == content[lo..lo + n]
    requires |sep| <= cut <= n && i == LastBefore(data, sep, cut) && i >= 0
    ensures i + |sep| <= cut && MatchAt(content, sep, lo + i)
    ensures LastBefore(content, sep, lo + cut) == lo + i
  {
    WindowMatch(content, data, lo, n, sep, i);
    forall j | lo + i < j <= lo + cut - |sep|
      ensures !MatchAt(content, sep, j)
    {
      WindowMatch(content, data, lo, n, sep, j - lo);
    }
    LastIndexOfIs(content, sep, lo + cut - |sep|, lo + i);
  }

  /** No occurrence found by lastIndexOf in the buffer means none lies wholly inside content[lo..lo + cut]. */
  lemma BackwardNotFound(content: seq<Byte>, data: seq<Byte>, lo: nat, n: nat, sep: seq<Byte>, cut: nat)
    requires |sep| > 0 && lo + n <= |content| && n <= |data| && data[..n] == content[lo..lo + n]
    requires cut <= n && (cut < |sep| || LastBefore(data, sep, cut) < 0)
    ensures forall j :: lo <= j && j + |sep| <= lo + cut ==> !MatchAt(content, sep, j)
  {
    forall j | lo <= j && j + |sep| <= lo + cut
      ensures !MatchAt(content, sep, j)
    {
      WindowMatch(content, data, lo, n, sep, j - lo);
    }
  }

  /**
   * The state of read's inner loop, seen from the file: data holds the file
   * bytes content[lo..lo + |data|], the calls in out all continued and call
   * |out| of ForwardScan starts at offset in the buffer, and no separator lies
   * wholly inside the part from there to prevEnd, which earlier passes searched.
   */
  ghost predicate ForwardCutting(content: seq<Byte>, options: Options, onLine: LineCallback,
                                 data: seq<Byte>, lo: nat, offset: nat, out: seq<Call>, prevEnd: nat)
  {
    lo + |data| <= |content| && data == content[lo..lo + |data|] && offset <= |data| &&
    ForwardStart(options) <= lo + offset &&
    Continuing(ForwardScan(content, options), out, onLine) &&
    ForwardScan(content, options)[|out|].context.position == lo + offset &&
    forall j :: lo + offset <= j && j + |Separator(options)| <= prevEnd ==> !MatchAt(content, Separator(options), j)
  }

  /**
   * indexOf finding the separator at i in a buffer holding content[lo..]
   * from offset on, where read's call n starts: that call shows the buffer
   * bytes from offset up to i, is not the last, and the next one starts right
   * past the separator.
   */
  lemma ForwardNextCall(content: seq<Byte>, options: Options, data: seq<Byte>, lo: nat, offset: nat, n: nat, i: int,
                        p: nat, e: nat, c: Call)
    requires lo + |data| <= |content| && data == content[lo..lo + |data|] && offset <= |data|
    requires p == lo + offset && n < |ForwardScan(content, options)| && ForwardScan(content, options)[n].context.position == p
    requires i == IndexOf(data, Separator(options), offset) && i >= 0 && e == lo + i && offset <= i
    requires c == Call(data[offset..i], ReadingContext(|Separator(options)|, ForwardStart(options), n + 1, p, false))
    ensures i + |Separator(options)| <= |data| && MatchAt(content, Separator(options), e)
    ensures n + 1 < |ForwardScan(content, options)| && ForwardScan(content, options)[n] == c
    ensures ForwardScan(content, options)[n + 1].context.position == e + |Separator(options)|
  {
    var sep := Separator(options);
    ForwardFound(content, data, lo, sep, offset, i, p, e);
    ForwardScanNext(content, options, n, p, e);
    WindowSlice(content, data, lo, |data|, offset, i, p, e);
  }

  /**
   * One step of read's inner loop when indexOf finds the separator at i in
   * the buffer: c, the line up to i shown with the next lineCount, is read's
   * next call. If the callback continues, the loop goes on past the
   * separator; if it stops, the delivery ends with that call, whose separator
   * lies past the part earlier passes searched.
   */
  lemma ForwardCutFound(content: seq<Byte>, options: Options, onLine: LineCallback,
                        data: seq<Byte>, lo: nat, offset: nat, out: seq<Call>, prevEnd: nat, i: int, c: Call)
    requires ForwardCutting(content, options, onLine, data, lo, offset, out, prevEnd)
    requires i == IndexOf(data, Separator(options), offset) && i >= 0
    requires offset <= i <= |data| &&
      c == Call(data[offset..i], ReadingContext(|Separator(options)|, ForwardStart(options), |out| + 1, lo + offset, false))
    ensures i + |Separator(options)| <= |data|
    ensures
      (onLine(c.line, c.context) ==>
        ForwardCutting(content, options, onLine, data, lo, i + |Separator(options)|, out + [c], prevEnd)) &&
      (!onLine(c.line, c.context) ==>
        Delivered(ForwardScan(content, options), onLine) == out + [c] &&
        |out| + 1 < |ForwardScan(content, options)| &&
        prevEnd < lo + i + |Separator(options)|)
  {
    var all := ForwardScan(content, options);
    ForwardNextCall(content, options, data, lo, offset, |out|, i, lo + offset, lo + i, c);
    if onLine(c.line, c.context) {
      ContinuingStep(all, out, c, onLine);
    } else {
      DeliveredStopsAt(all, out, c, onLine);
    }
  }

  /**
   * When indexOf finds no separator in the buffer from offset on, the bytes
   * from offset to the end of the buffer become the pending partial line of
   * read's next pass.
   */
  lemma ForwardCutNotFound(content: seq<Byte>, options: Options, onLine: LineCallback,
                           data: seq<Byte>, lo: nat, offset: nat, out: seq<Call>, prevEnd: nat, hi: nat, rest: seq<Byte>)
    requires ForwardCutting(content, options, onLine, data, lo, offset, out, prevEnd)
    requires IndexOf(data, Separator(options), offset) < 0
    requires hi == lo + |data| && rest == data[offset..]
    ensures ForwardPending(content, options, onLine, hi, rest, out)
  {
    var sep := Separator(options);
    ForwardNotFound(content, data, lo, sep, offset);
    WindowSlice(content, data, lo, |data|, offset, |data|, lo + offset, hi);
    assert rest == data[offset..|data|];
    assert hi - |rest| == lo + offset;
  }

  // ---------------------------------------------------------------------------
  // read

  /**
   * The inner loop of one forward pass: data holds the file bytes
   * content[lo..], the pending partial line first. Complete lines are cut
   * off the front and shown to onLine until one answers false or no
   * separator is left; the bytes after the last separator are returned as
   * rest. No separator lies wholly inside content[lo..prevEnd], the part
   * searched by earlier passes.
   */
  method CutForward(data: seq<Byte>, sep: seq<Byte>, onLine: LineCallback, context: ReadingContext, calls: seq<Call>,
                    ghost content: seq<Byte>, ghost options: Options, ghost lo: nat, ghost prevEnd: nat, ghost hi: nat)
    returns (rest: seq<Byte>, ctx: ReadingContext, out: seq<Call>, broke: bool)
    requires sep == Separator(options) && hi == lo + |data|
    requires ForwardCutting(content, options, onLine, data, lo, 0, calls, prevEnd)
    requires context == ReadingContext(|sep|, ForwardStart(options), |calls|, lo, false)
    ensures !broke ==>
      |rest| <= |data| && ForwardPending(content, options, onLine, hi, rest, out) &&
      ctx == ReadingContext(|sep|, ForwardStart(options), |out|, hi - |rest|, false)
    ensures broke ==>
      out == Delivered(ForwardScan(content, options), onLine) &&
      0 < |out| < |ForwardScan(content, options)| &&
      prevEnd < StopEnd(out, |sep|) <= hi
  {
    var sepLen := |sep|;
    var offset: nat := 0;
    ctx := context;
    out := calls;
    while true
      invariant ForwardCutting(content, options, onLine, data, lo, offset, out, prevEnd)
      invariant ctx == ReadingContext(sepLen, context.startPosition, |out|, lo + offset, false)
      decreases |data| - offset
    {
      var i := IndexOf(data, sep, offset);
      if i == -1 {
        rest := data[offset..];
        ForwardCutNotFound(content, options, onLine, data, lo, offset, out, prevEnd, hi, rest);
        broke := false;
        return;
      }
      ctx := ReadingContext(ctx.sepLength, ctx.startPosition, ctx.lineCount + 1, ctx.position, ctx.isEnd);
      var line := data[offset..i];
      ForwardCutFound(content, options, onLine, data, lo, offset, out, prevEnd, i, Call(line, ctx));
      out := out + [Call(line, ctx)];
      if !onLine(line, ctx) {
        rest := [];
        broke := true;
        return;
      }
      ctx := ReadingContext(ctx.sepLength, ctx.startPosition, ctx.lineCount, ctx.position + (i - offset + sepLen), ctx.isEnd);
      offset := i + sepLen;
    }
  }

  /** The buffer of one forward pass holds the pending partial line and the bytes just read: a window of the file. */
  lemma ForwardWindow(content: seq<Byte>, rest: seq<Byte>, data: seq<Byte>, lo: nat, prevEnd: nat, position: nat)
    requires lo <= prevEnd <= position <= |content| && rest == content[lo..prevEnd]
    requires data == rest + content[prevEnd..position]
    ensures lo + |data| == position && data == content[lo..lo + |data|]
  {
    SliceConcat(content, lo, prevEnd, position);
  }

  /**
   * read's closing call: once the whole file is read, the calls before it all
   * continued and no separator follows the pending partial line, showing that
   * line with isEnd completes the delivery.
   */
  lemma ForwardClose(content: seq<Byte>, options: Options, onLine: LineCallback, position: nat, rest: seq<Byte>, calls: seq<Call>, c: Call)
    requires position == |content| && ForwardPending(content, options, onLine, position, rest, calls)
    requires c == Call(rest, ReadingContext(|Separator(options)|, ForwardStart(options), |calls| + 1, position - |rest|, true))
    ensures |calls| + 1 == |ForwardScan(content, options)|
    ensures Delivered(ForwardScan(content, options), onLine) == calls + [c]
  {
    var p := |content| - |rest|;
    assert IndexOf(content, Separator(options), p) < 0;
    ForwardScanFinal(content, options, |calls|, p);
    assert content[p..] == content[p..|content|];
    DeliveredAll(ForwardScan(content, options), calls, c, onLine);
  }

  /** A scan that starts at or past the end of the file delivers nothing. */
  lemma ForwardNothing(content: seq<Byte>, options: Options, onLine: LineCallback)
    requires ForwardStart(options) >= |content|
    ensures ForwardScan(content, options) == [] && Delivered(ForwardScan(content, options), onLine) == []
  {
  }

  /**
   * read's state between passes: rest, the pending partial line, is the file
   * bytes from p = position - |rest| up to position; the calls made so far
   * all continued and call |calls| of ForwardScan starts at p; no separator
   * lies wholly inside the pending line.
   */
  ghost predicate ForwardPending(content: seq<Byte>, options: Options, onLine: LineCallback,
                                 position: nat, rest: seq<Byte>, calls: seq<Call>)
  {
    var p := position - |rest|;
    ForwardStart(options) <= p && position <= |content| && rest == content[p..position] &&
    Continuing(ForwardScan(content, options), calls, onLine) &&
    ForwardScan(content, options)[|calls|].context.position == p &&
    forall j :: p <= j && j + |Separator(options)| <= position ==> !MatchAt(content, Separator(options), j)
  }

  /** Before the first pass nothing is pending and the first call starts at the start position. */
  lemma ForwardPendingStart(content: seq<Byte>, options: Options, onLine: LineCallback)
    requires ForwardStart(options) < |content|
    ensures ForwardPending(content, options, onLine, ForwardStart(options), [], [])
  {
    ForwardScanFirst(content, options);
    assert content[ForwardStart(options)..ForwardStart(options)] == [];
  }

  /**
   * One pass of read's outer loop: the positioned read of the next chunk and,
   * unless it comes back empty, the inner loop over the buffer. bytesRead is
   * what the read returned; an empty read changes nothing else.
   */
  method ForwardPass(content: seq<Byte>, onLine: LineCallback, options: Options,
                     rest: seq<Byte>, position: nat, context: ReadingContext, calls: seq<Call>)
    returns (rest': seq<Byte>, position': nat, context': ReadingContext, calls': seq<Call>, bytesRead: nat, broke: bool)
    requires position < |content| ==> ForwardPending(content, options, onLine, position, rest, calls)
    requires context == ReadingContext(|Separator(options)|, ForwardStart(options), |calls|, position - |rest|, false)
    ensures position' == position + bytesRead
    ensures bytesRead == if position >= |content| then 0 else Min(ReadLength(options), |content| - position)
    ensures bytesRead == 0 ==> rest' == rest && context' == context && calls' == calls && !broke
    ensures bytesRead > 0 && !broke ==>
      ForwardPending(content, options, onLine, position', rest', calls') &&
      context' == ReadingContext(|Separator(options)|, ForwardStart(options), |calls'|, position' - |rest'|, false)
    ensures broke ==>
      calls' == Delivered(ForwardScan(content, options), onLine) &&
      0 < |calls'| < |ForwardScan(content, options)| &&
      position < StopEnd(calls', |Separator(options)|) <= position' &&
      position' < StopEnd(calls', |Separator(options)|) + ReadLength(options)
  {
    var data;
    data, bytesRead := ForwardChunk(content, rest, ReadLength(options), position);
    position' := position + bytesRead;
    if bytesRead == 0 {
      rest', context', calls', broke := rest, context, calls, false;
      return;
    }
    ghost var lo := position - |rest|;
    ForwardWindow(content, rest, data, lo, position, position');
    rest', context', calls', broke := CutForward(data, Separator(options), onLine, context, calls, content, options, lo, position, position');
  }

  /**
   * read's outer loop, from its start position: passes run until a read
   * comes back empty, a callback answers false or a read comes back short.
   * notEmpty is cleared when the very first read is empty, which happens
   * exactly when the start lies at or past the end of the file; otherwise,
   * unless stopped, the whole file has been read and the pending partial
   * line is the file's tail; when stopped, the calls are the delivered ones
   * and the stopping pass, which started passChunks whole chunks past the
   * start at passStart, read past the stopping line's separator.
   */
  method ForwardLoop(content: seq<Byte>, onLine: LineCallback, options: Options)
    returns (position: nat, rest: seq<Byte>, context: ReadingContext, calls: seq<Call>, notEmpty: bool, broke: bool,
             ghost passStart: nat, ghost passChunks: nat)
    ensures notEmpty <==> ForwardStart(options) < |content|
    ensures !notEmpty ==> !broke && position == ForwardStart(options) && calls == []
    ensures notEmpty && !broke ==>
      position == |content| && ForwardPending(content, options, onLine, position, rest, calls) &&
      context == ReadingContext(|Separator(options)|, ForwardStart(options), |calls|, position - |rest|, false)
    ensures broke ==>
      ForwardStart(options) <= position <= |content| &&
      calls == Delivered(ForwardScan(content, options), onLine) &&
      0 < |calls| < |ForwardScan(content, options)| &&
      StopEnd(calls, |Separator(options)|) <= position < StopEnd(calls, |Separator(options)|) + ReadLength(options)
    ensures broke ==>
      ForwardStart(options) <= passStart < StopEnd(calls, |Separator(options)|) &&
      passStart - ForwardStart(options) == passChunks * ReadLength(options) &&
      passStart < |content| && position == passStart + Min(ReadLength(options), |content| - passStart)
  {
    var sep := Separator(options);
    var sepLen := |sep|;
    var length := ReadLength(options);
    var startPosition := ForwardStart(options);
    context := ReadingContext(sepLen, startPosition, 0, startPosition, false);
    notEmpty := true;
    broke := false;
    position := startPosition;
    rest := [];
    calls := [];
    passStart := startPosition;
    passChunks := 0;
    ghost var m: nat := 0;
    if startPosition < |content| {
      ForwardPendingStart(content, options, onLine);
    }

    while true
      invariant startPosition >= |content| ==> position == startPosition && calls == [] && rest == []
      invariant startPosition < |content| ==> ForwardPending(content, options, onLine, position, rest, calls)
      invariant context == ReadingContext(sepLen, startPosition, |calls|, position - |rest|, false)
      invariant startPosition <= position && !broke && notEmpty
      invariant position - startPosition == m * length
      decreases |content| - position
    {
      var bytesRead;
      ghost var before := position;
      rest, position, context, calls, bytesRead, broke := ForwardPass(content, onLine, options, rest, position, context, calls);
      if bytesRead == 0 {
        assert position >= |content|;
        if position == startPosition {
          notEmpty := false;
        } else {
          assert position == |content|;
        }
        break;
      }
      if broke || bytesRead < length {
        assert !broke ==> position == |content|;
        passStart := before;
        passChunks := m;
        break;
      }
      NextChunk(before - startPosition, position - startPosition, m, length);
      m := m + 1;
    }
  }

  /**
   * read(file, onLine, options) over a file whose bytes are content. calls
   * lists the callbacks made, in order; consumed is the returned byte count.
   * The callbacks are those of ForwardScan up to the first one answered
   * false, whatever the chunk length. Unless stopped, the scan reads to the
   * end of the file; when stopped, it has read the whole chunks from the
   * start that reach past the stopping line's separator, the last one cut at
   * the end of the file: less than one chunk past that separator.
   */
  method Read(content: seq<Byte>, onLine: LineCallback, options: Options)
    returns (consumed: nat, calls: seq<Call>)
    ensures calls == Delivered(ForwardScan(content, options), onLine)
    ensures ForwardStart(options) >= |content| ==> consumed == 0
    ensures ForwardStart(options) < |content| ==> ForwardStart(options) + consumed <= |content|
    ensures ForwardStart(options) < |content| && |calls| == |ForwardScan(content, options)| ==>
      ForwardStart(options) + consumed == |content|
    ensures |calls| < |ForwardScan(content, options)| ==>
      StopEnd(calls, |Separator(options)|) <= ForwardStart(options) + consumed <
        StopEnd(calls, |Separator(options)|) + ReadLength(options)
    ensures |calls| < |ForwardScan(content, options)| ==>
      consumed == Covered(ReadLength(options), |content| - ForwardStart(options),
                          StopEnd(calls, |Separator(options)|) - ForwardStart(options))
  {
    var position, rest, context, notEmpty, broke;
    ghost var passStart, passChunks;
    position, rest, context, calls, notEmpty, broke, passStart, passChunks := ForwardLoop(content, onLine, options);
    consumed := position - ForwardStart(options);
    if broke {
      ReadStopCount(content, options, calls, passStart, passChunks, position, consumed);
      return;
    }
    if notEmpty {
      context := ReadingContext(context.sepLength, context.startPosition, context.lineCount + 1, context.position, true);
      ForwardClose(content, options, onLine, position, rest, calls, Call(rest, context));
      calls := calls + [Call(rest, context)];
    } else {
      ForwardNothing(content, options, onLine);
    }
  }

  /** ForwardStopCount in the terms of read's options and calls. */
  lemma ReadStopCount(content: seq<Byte>, options: Options, calls: seq<Call>, passStart: nat, passChunks: nat,
                      position: nat, consumed: nat)
    requires 0 < |calls| && ForwardStart(options) <= passStart < StopEnd(calls, |Separator(options)|) <= position
    requires passStart - ForwardStart(options) == passChunks * ReadLength(options)
    requires passStart < |content| && position == passStart + Min(ReadLength(options), |content| - passStart)
    requires consumed == position - ForwardStart(options)
    ensures consumed == Covered(ReadLength(options), |content| - ForwardStart(options),
                                StopEnd(calls, |Separator(options)|) - ForwardStart(options))
  {
    ForwardStopCount(ForwardStart(options), |content|, ReadLength(options), StopEnd(calls, |Separator(options)|),
                     passStart, passChunks, position);
  }

  // ---------------------------------------------------------------------------
  // readFromEnd

  /**
   * readFromEnd stopped in the pass that reads down from passEnd, whole
   * chunks below bound, past the stopping line's separator s: it has read
   * exactly the chunks covering bound - s bytes below the bound.
   */
  lemma BackwardStopCount(bound: nat, length: nat, s: int, passEnd: nat, m: nat, position: nat)
    requires length > 0 && position <= s < passEnd <= bound && bound - passEnd == m * length
    requires position == passEnd - Min(passEnd, length)
    ensures bound - position == Covered(length, bound, bound - s)
  {
    ChunksWhole(m, length);
    PassCovered(length, bound, bound - s, bound - passEnd, bound - position, passEnd - position);
  }

  /** BackwardStopCount in the terms of readFromEnd's options and calls. */
  lemma ReadFromEndStopCount(content: seq<Byte>, options: Options, calls: seq<Call>, passEnd: nat, passChunks: nat,
                             position: nat, consumed: nat)
    requires 0 < |calls| && position <= calls[|calls| - 1].context.position - |Separator(options)| < passEnd
    requires passEnd <= BackwardBound(options, |content|)
    requires BackwardBound(options, |content|) - passEnd == passChunks * ReadLength(options)
    requires position == passEnd - Min(passEnd, ReadLength(options))
    requires consumed == BackwardBound(options, |content|) - position
    ensures consumed == Covered(ReadLength(options), BackwardBound(options, |content|),
                                BackwardBound(options, |content|) - (calls[|calls| - 1].context.position - |Separator(options)|))
  {
    BackwardStopCount(BackwardBound(options, |content|), ReadLength(options),
                      calls[|calls| - 1].context.position - |Separator(options)|, passEnd, passChunks, position);
  }

  /**
   * readFromEnd's state between passes: rest, the pending partial line, is the
   * file bytes from lo up to e = lo + |rest|, which lies at or below the
   * bound; the calls made so far all continued; the next call's line ends at
   * e, which is the bound for the first call and just below the separator
   * before the previous call's line otherwise; no separator lies wholly
   * inside the pending line.
   */
  ghost predicate BackwardPending(content: seq<Byte>, options: Options, onLine: LineCallback,
                                  lo: nat, rest: seq<Byte>, calls: seq<Call>)
  {
    var e := lo + |rest|;
    BackwardBound(options, |content|) <= |content| &&
    e <= BackwardBound(options, |content|) && rest == content[lo..e] &&
    Continuing(BackwardScan(content, options), calls, onLine) &&
    (|calls| == 0 ==> e == BackwardBound(options, |content|)) &&
    (|calls| > 0 ==> BackwardScan(content, options)[|calls| - 1].context.position == e + |Separator(options)|) &&
    forall j :: lo <= j && j + |Separator(options)| <= e ==> !MatchAt(content, Separator(options), j)
  }

  /**
   * The state of readFromEnd's inner loop, seen from the file: data[..n]
   * holds the file bytes content[lo..lo + n], the calls in out all continued,
   * the next call's line ends at lo + cut, ctx is the context the last call
   * was shown (or the initial one), and no separator at or after prevLo lies
   * wholly below that end: that part was searched by earlier passes.
   */
  ghost predicate BackwardCutting(content: seq<Byte>, options: Options, onLine: LineCallback, data: seq<Byte>,
                                  lo: nat, n: nat, cut: nat, out: seq<Call>, ctx: ReadingContext, prevLo: nat)
  {
    BackwardBound(options, |content|) <= |content| &&
    lo + n <= |content| && n <= |data| && data[..n] == content[lo..lo + n] && cut <= n &&
    Continuing(BackwardScan(content, options), out, onLine) &&
    (|out| == 0 ==> lo + cut == BackwardBound(options, |content|)) &&
    (|out| > 0 ==> BackwardScan(content, options)[|out| - 1].context.position == lo + cut + |Separator(options)|) &&
    ctx == ReadingContext(|Separator(options)|, BackwardBound(options, |content|), |out|, lo + cut + |Separator(options)|, false) &&
    forall j :: prevLo <= j && j + |Separator(options)| <= lo + cut ==> !MatchAt(content, Separator(options), j)
  }

  /**
   * readFromEnd stopped by its callback: calls is the whole delivery, it
   * left calls of BackwardScan out, and the separator before the stopping
   * line starts in [lo, hi).
   */
  ghost predicate BackwardStopped(content: seq<Byte>, options: Options, onLine: LineCallback, calls: seq<Call>, lo: int, hi: int)
  {
    BackwardBound(options, |content|) <= |content| &&
    calls == Delivered(BackwardScan(content, options), onLine) &&
    0 < |calls| < |BackwardScan(content, options)| &&
    lo <= calls[|calls| - 1].context.position - |Separator(options)| < hi
  }

  /**
   * lastIndexOf finding the separator at i, lying wholly below cut, in a
   * buffer holding content[lo..lo + n], where readFromEnd's call k ends at
   * lo + cut: that call is c, the buffer bytes from past the separator up to
   * cut shown with lineCount k + 1 and the file offset b right past the
   * separator, and it is not the last.
   */
  lemma BackwardNextCall(content: seq<Byte>, options: Options, data: seq<Byte>, lo: nat, n: nat, cut: nat, k: nat,
                         i: nat, a: nat, b: nat, e: nat, c: Call)
    requires BackwardBound(options, |content|) <= |content|
    requires lo + n <= |content| && n <= |data| && data[..n] == content[lo..lo + n] && cut <= n
    requires k < |BackwardScan(content, options)| && e == lo + cut
    requires (k == 0 ==> e == BackwardBound(options, |content|)) &&
      (k > 0 ==> BackwardScan(content, options)[k - 1].context.position == e + |Separator(options)|)
    requires |Separator(options)| <= cut && i == LastIndexOf(data, Separator(options), cut - |Separator(options)|)
    requires a == i + |Separator(options)| && a <= cut && b == lo + a
    requires c == Call(data[a..cut], ReadingContext(|Separator(options)|, BackwardBound(options, |content|), k + 1, b, false))
    ensures MatchAt(content, Separator(options), lo + i)
    ensures k + 1 < |BackwardScan(content, options)| && BackwardScan(content, options)[k] == c
  {
    BackwardFound(content, data, lo, n, Separator(options), cut, i);
    WindowSlice(content, data, lo, n, a, cut, b, e);
    BackwardScanNext(content, options, k, e, lo + i, b);
  }

  /**
   * One step of readFromEnd's inner loop when lastIndexOf finds the separator
   * at i in the buffer: c, the line between it and cut shown with the next
   * lineCount, is readFromEnd's next call. If the callback continues, the
   * loop goes on with the separator's start as the new cut; if it stops, the
   * delivery ends with that call, whose separator starts below prevLo.
   */
  lemma BackwardCutFound(content: seq<Byte>, options: Options, onLine: LineCallback, data: seq<Byte>, lo: nat, n: nat,
                         cut: nat, out: seq<Call>, ctx: ReadingContext, prevLo: nat, i: int, a: int, c: Call)
    requires BackwardCutting(content, options, onLine, data, lo, n, cut, out, ctx, prevLo)
    requires i == (if cut < |Separator(options)| then -1 else LastIndexOf(data, Separator(options), cut - |Separator(options)|))
    requires i != -1 && a == i + |Separator(options)| && 0 <= a <= cut
    requires c == Call(data[a..cut],
                       ReadingContext(ctx.sepLength, ctx.startPosition, ctx.lineCount + 1, ctx.position - (cut - i), ctx.isEnd))
    ensures 0 <= i && i + |Separator(options)| <= cut
    ensures onLine(c.line, c.context) ==> BackwardCutting(content, options, onLine, data, lo, n, i, out + [c], c.context, prevLo)
    ensures !onLine(c.line, c.context) ==> BackwardStopped(content, options, onLine, out + [c], lo, prevLo)
  {
    var all := BackwardScan(content, options);
    assert ctx.position - (cut - i) == lo + a;
    BackwardNextCall(content, options, data, lo, n, cut, |out|, i, a, lo + a, lo + cut, c);
    if onLine(c.line, c.context) {
      ContinuingStep(all, out, c, onLine);
    } else {
      DeliveredStopsAt(all, out, c, onLine);
    }
  }

  /**
   * When lastIndexOf finds no separator below cut, the first cut bytes of the
   * buffer become the pending partial line of readFromEnd's next pass.
   */
  lemma BackwardCutNotFound(content: seq<Byte>, options: Options, onLine: LineCallback, data: seq<Byte>,
                            lo: nat, n: nat, cut: nat, out: seq<Call>, ctx: ReadingContext, prevLo: nat)
    requires BackwardCutting(content, options, onLine, data, lo, n, cut, out, ctx, prevLo)
    requires (if cut < |Separator(options)| then -1 else LastIndexOf(data, Separator(options), cut - |Separator(options)|)) == -1
    ensures BackwardPending(content, options, onLine, lo, data[..cut], out)
    ensures ctx == ReadingContext(|Separator(options)|, BackwardBound(options, |content|), |out|, lo + |data[..cut]| + |Separator(options)|, false)
  {
    var sep := Separator(options);
    BackwardNotFound(content, data, lo, n, sep, cut);
    WindowSlice(content, data, lo, n, 0, cut, lo, lo + cut);
    assert data[..cut] == data[0..cut];
    BackwardCutEnd(content, options, onLine, data, lo, n, cut, out, ctx, prevLo);
  }

  /** The end of the next call's line lies at or below the bound. */
  lemma BackwardCutEnd(content: seq<Byte>, options: Options, onLine: LineCallback, data: seq<Byte>,
                       lo: nat, n: nat, cut: nat, out: seq<Call>, ctx: ReadingContext, prevLo: nat)
    requires BackwardCutting(content, options, onLine, data, lo, n, cut, out, ctx, prevLo)
    ensures lo + cut <= BackwardBound(options, |content|)
  {
    if |out| > 0 {
      BackwardScanLocate(content, options, |out| - 1);
    }
  }

  /**
   * The inner loop of one backward pass: data[..bufLen] holds the file bytes
   * content[lo..lo + bufLen], the pending partial line last. Complete lines
   * are cut off the back and shown to onLine until one answers false or no
   * separator is left; the bytes before the first separator are returned as
   * rest. No separator at or after prevLo lies wholly inside the window: that
   * part was searched by earlier passes.
   */
  method CutBackward(data: seq<Byte>, bufLen: nat, sep: seq<Byte>, onLine: LineCallback, context: ReadingContext,
                     calls: seq<Call>, ghost content: seq<Byte>, ghost options: Options, ghost lo: nat, ghost prevLo: nat)
    returns (rest: seq<Byte>, ctx: ReadingContext, out: seq<Call>, broke: bool)
    requires sep == Separator(options) && bufLen <= |data|
    requires BackwardCutting(content, options, onLine, data, lo, bufLen, bufLen, calls, context, prevLo)
    ensures !broke ==>
      |rest| <= bufLen && BackwardPending(content, options, onLine, lo, rest, out) &&
      ctx == ReadingContext(|sep|, BackwardBound(options, |content|), |out|, lo + |rest| + |sep|, false)
    ensures broke ==> BackwardStopped(content, options, onLine, out, lo, prevLo)
  {
    var sepLen := |sep|;
    var cut: nat := bufLen;
    ctx := context;
    out := calls;
    while true
      invariant cut <= bufLen <= |data|
      invariant BackwardCutting(content, options, onLine, data, lo, bufLen, cut, out, ctx, prevLo)
      decreases cut
    {
      var i := if cut < sepLen then -1 else LastIndexOf(data, sep, cut - sepLen);
      if i == -1 {
        BackwardCutNotFound(content, options, onLine, data, lo, bufLen, cut, out, ctx, prevLo);
        rest := data[..cut];
        broke := false;
        return;
      }
      ghost var before := ctx;
      ctx := ReadingContext(ctx.sepLength, ctx.startPosition, ctx.lineCount + 1, ctx.position - (cut - i), ctx.isEnd);
      var a := i + sepLen;
      var line := data[a..cut];
      BackwardCutFound(content, options, onLine, data, lo, bufLen, cut, out, before, prevLo, i, a, Call(line, ctx));
      out := out + [Call(line, ctx)];
      if !onLine(line, ctx) {
        rest := [];
        broke := true;
        return;
      }
      cut := i;
    }
  }

  /**
   * The buffer of one backward pass, holding the bytes just read from lo up
   * to prevLo and, behind them, the pending partial line, is a window of the
   * file in which the inner loop can start.
   */
  lemma BackwardWindow(content: seq<Byte>, options: Options, onLine: LineCallback, rest: seq<Byte>, calls: seq<Call>,
                       context: ReadingContext, data: seq<Byte>, lo: nat, prevLo: nat, n: nat)
    requires BackwardPending(content, options, onLine, prevLo, rest, calls)
    requires context == ReadingContext(|Separator(options)|, BackwardBound(options, |content|), |calls|,
                                       prevLo + |rest| + |Separator(options)|, false)
    requires lo <= prevLo && n == prevLo - lo + |rest| && n <= |data| && data[..n] == content[lo..prevLo] + rest
    ensures BackwardCutting(content, options, onLine, data, lo, n, n, calls, context, prevLo)
  {
    SliceConcat(content, lo, prevLo, prevLo + |rest|);
  }

  /**
   * One pass of readFromEnd's outer loop: the position moves down by up to
   * one chunk, and unless that reaches below 0 nothing is read; otherwise the
   * positioned read of the chunk and the inner loop over the buffer. bytesRead
   * is the length read; an empty read changes nothing else.
   */
  method BackwardPass(content: seq<Byte>, onLine: LineCallback, options: Options,
                      rest: seq<Byte>, position: nat, context: ReadingContext, calls: seq<Call>)
    returns (rest': seq<Byte>, position': nat, context': ReadingContext, calls': seq<Call>, bytesRead: nat, broke: bool)
    requires BackwardBound(options, |content|) <= |content|
    requires position > 0 ==> BackwardPending(content, options, onLine, position, rest, calls)
    requires context == ReadingContext(|Separator(options)|, BackwardBound(options, |content|), |calls|,
                                       position + |rest| + |Separator(options)|, false)
    ensures bytesRead == Min(position, ReadLength(options)) && position' == position - bytesRead
    ensures bytesRead == 0 ==> rest' == rest && context' == context && calls' == calls && !broke
    ensures bytesRead > 0 && !broke ==>
      BackwardPending(content, options, onLine, position', rest', calls') &&
      context' == ReadingContext(|Separator(options)|, BackwardBound(options, |content|), |calls'|,
                                 position' + |rest'| + |Separator(options)|, false)
    ensures broke ==> BackwardStopped(content, options, onLine, calls', position', position)
  {
    var length := ReadLength(options);
    if position < length {
      bytesRead := position;
      position' := 0;
    } else {
      bytesRead := length;
      position' := position - length;
    }
    var data := BackwardChunk(content, rest, length, bytesRead, position');
    if bytesRead == 0 {
      rest', context', calls', broke := rest, context, calls, false;
      return;
    }
    var bufLen := |rest| + bytesRead;
    BackwardWindow(content, options, onLine, rest, calls, context, data, position', position, bufLen);
    rest', context', calls', broke := CutBackward(data, bufLen, Separator(options), onLine, context, calls,
                                                   content, options, position', position);
  }

  /**
   * readFromEnd's closing call: once the pending partial line reaches down to
   * the start of the file, the calls before it all continued and no separator
   * lies inside it, showing that line with isEnd at position 0 completes the
   * delivery.
   */
  lemma BackwardClose(content: seq<Byte>, options: Options, onLine: LineCallback, rest: seq<Byte>, calls: seq<Call>, c: Call)
    requires BackwardPending(content, options, onLine, 0, rest, calls)
    requires c == Call(rest, ReadingContext(|Separator(options)|, BackwardBound(options, |content|), |calls| + 1, 0, true))
    ensures |calls| + 1 == |BackwardScan(content, options)|
    ensures Delivered(BackwardScan(content, options), onLine) == calls + [c]
  {
    assert LastBefore(content, Separator(options), |rest|) < 0;
    BackwardScanFinal(content, options, |calls|, |rest|);
    assert content[..|rest|] == content[0..|rest|];
    DeliveredAll(BackwardScan(content, options), calls, c, onLine);
  }

  /** A scan whose bound is 0 delivers nothing. */
  lemma BackwardNothing(content: seq<Byte>, options: Options, onLine: LineCallback)
    requires BackwardBound(options, |content|) == 0
    ensures Delivered(BackwardScan(content, options), onLine) == []
  {
  }

  /**
   * readFromEnd's outer loop, from the bound down: passes run until a read
   * comes back empty, a callback answers false or the scan reaches the start
   * of the file. notEmpty is cleared exactly when the bound is 0; otherwise,
   * unless stopped, the scan has reached offset 0 and the pending partial
   * line is the file's head; when stopped, the calls are the delivered ones
   * and the stopping pass, which read down from passEnd, passChunks whole
   * chunks below the bound, read past the stopping line's separator.
   */
  method BackwardLoop(content: seq<Byte>, onLine: LineCallback, options: Options)
    returns (position: nat, rest: seq<Byte>, context: ReadingContext, calls: seq<Call>, notEmpty: bool, broke: bool,
             ghost passEnd: nat, ghost passChunks: nat)
    requires BackwardBound(options, |content|) <= |content|
    ensures position <= BackwardBound(options, |content|)
    ensures notEmpty <==> BackwardBound(options, |content|) > 0
    ensures !notEmpty ==> !broke && position == 0 && calls == []
    ensures notEmpty && !broke ==>
      position == 0 && BackwardPending(content, options, onLine, 0, rest, calls) &&
      context == ReadingContext(|Separator(options)|, BackwardBound(options, |content|), |calls|,
                                |rest| + |Separator(options)|, false)
    ensures broke ==>
      BackwardStopped(content, options, onLine, calls, position, passEnd) &&
      passEnd <= BackwardBound(options, |content|) &&
      BackwardBound(options, |content|) - passEnd == passChunks * ReadLength(options) &&
      position == passEnd - Min(passEnd, ReadLength(options))
  {
    var sep := Separator(options);
    var sepLen := |sep|;
    var startPosition := BackwardBound(options, |content|);
    context := ReadingContext(sepLen, startPosition, 0, startPosition + sepLen, false);
    notEmpty := true;
    broke := false;
    position := startPosition;
    rest := [];
    calls := [];
    BackwardScanFirst(content, options);
    ghost var length := ReadLength(options);
    ghost var m: nat := 0;
    passEnd, passChunks := startPosition, 0;

    while true
      invariant position <= startPosition
      invariant startPosition == 0 ==> calls == [] && rest == []
      invariant startPosition > 0 ==> 0 < position && BackwardPending(content, options, onLine, position, rest, calls)
      invariant context == ReadingContext(sepLen, startPosition, |calls|, position + |rest| + sepLen, false)
      invariant !broke && notEmpty
      invariant startPosition - position == m * length
      decreases position
    {
      var bytesRead;
      ghost var before := position;
      rest, position, context, calls, bytesRead, broke := BackwardPass(content, onLine, options, rest, position, context, calls);
      if bytesRead == 0 {
        if position == 0 {
          notEmpty := false;
        }
        break;
      }
      if broke || position == 0 {
        passEnd, passChunks := before, m;
        break;
      }
      NextChunk(startPosition - before, startPosition - position, m, length);
      m := m + 1;
    }
  }

  /**
   * readFromEnd(file, onLine, options) over a file whose bytes are content,
   * reading chunks from the bound down to the start of the file. calls lists
   * the callbacks made, in order; consumed is the returned byte count. The
   * callbacks are those of BackwardScan up to the first one answered false,
   * whatever the chunk length. Unless stopped, the scan reads everything
   * below the bound; when stopped, it has read the whole chunks down from the
   * bound that reach the separator before the stopping line, the last one
   * cut at the start of the file: less than one chunk below that separator.
   */
  method ReadFromEnd(content: seq<Byte>, onLine: LineCallback, options: Options)
    returns (consumed: nat, calls: seq<Call>)
    requires BackwardBound(options, |content|) <= |content|
    ensures calls == Delivered(BackwardScan(content, options), onLine)
    ensures consumed <= BackwardBound(options, |content|)
    ensures |calls| == |BackwardScan(content, options)| ==> consumed == BackwardBound(options, |content|)
    ensures |calls| < |BackwardScan(content, options)| ==>
      var s := calls[|calls| - 1].context.position - |Separator(options)|;
      s - ReadLength(options) < BackwardBound(options, |content|) - consumed <= s
    ensures |calls| < |BackwardScan(content, options)| ==>
      consumed == Covered(ReadLength(options), BackwardBound(options, |content|),
                          BackwardBound(options, |content|) - (calls[|calls| - 1].context.position - |Separator(options)|))
  {
    var position, rest, context, notEmpty, broke;
    ghost var passEnd, passChunks;
    position, rest, context, calls, notEmpty, broke, passEnd, passChunks := BackwardLoop(content, onLine, options);
    consumed := BackwardBound(options, |content|) - position;
    if broke {
      ReadFromEndStopCount(content, options, calls, passEnd, passChunks, position, consumed);
      return;
    }
    if notEmpty {
      context := ReadingContext(context.sepLength, context.startPosition, context.lineCount + 1, 0, true);
      BackwardClose(content, options, onLine, rest, calls, Call(rest, context));
      calls := calls + [Call(rest, context)];
    } else {
      BackwardNothing(content, options, onLine);
    }
  }
}
