# Line-by-line file scanning, forward and backward

This project models `read` and `readFromEnd` from `src/lib/FileRead.ts` of node-stream-tool.
It proves what the lines each scan hands to its callback are.

- `read` scans a file forward from a start offset. `readFromEnd` scans it backward from a bound.
- Both read the file in chunks of `readLength` bytes. Complete lines are cut off each chunk at the separator and shown to a line callback together with a reading context.
- The unmatched fragment is carried into the next chunk.
- A callback that answers `false` stops the scan. Each function returns the number of bytes it read.

The project has three modules, one per file:

- `Split` (`split.dfy`) holds byte sequences and the buffer search.
  - `IndexOf` is `Buffer.indexOf`. `LastIndexOf` is `Buffer.lastIndexOf`.
  - `SplitFrom` is the leftmost-first split of `s[pos..]`, as the forward scan cuts it.
  - `SplitUpTo` is the rightmost-first split of `s[..end]`, as the backward scan cuts it.
  - It also holds `Join` and the lemmas relating the two splits to each other and to `Join`.
- `LineScan` (`line_scan.dfy`) holds what a scan promises, independently of chunking.
  - The options and their defaults, the `ReadingContext` record, and a `Call` (line plus context).
  - `ForwardScan` and `BackwardScan`: the callbacks each scan makes over a file when nobody stops it.
  - `Delivered`: the stop rule that cuts that sequence short at the first call answered `false`.
- `FileRead` (`file_read.dfy`) holds the two scans as the source performs them. This is imperative code:
  - a fresh buffer per pass;
  - `Buffer.copy` of the pending fragment;
  - a positioned `fs.read` on the file's bytes;
  - an inner loop that cuts lines off the buffer;
  - the final flush with `isEnd`.

  `Read` and `ReadFromEnd` are proved to make exactly `Delivered(ForwardScan(..))` and `Delivered(BackwardScan(..))`, whatever the chunk length, and to return the byte count the source returns. A stopped scan returns the end of the last chunk it read: `FileRead.Covered`, the whole chunks reaching past the stopping separator, the last one cut at the end of the file (or, backward, at offset 0).

The file is a byte sequence `content`. The callback is a function from a line and its context to a boolean, where `false` means stop. The calls a scan makes are returned as the sequence `calls`, in order.

The model follows the code in its edge cases:
- An empty `sep` and a `readLength` of 0 fall back to `"\n"` and 1 MiB through the source's `||`. They are not undefined behaviour.
- A forward `position` of 0 and an absent one are the same. A backward `position` of 0 is a bound of 0, not the file size.
- Reversing the backward lines gives the forward lines only for separators that cannot overlap themselves. Every one-byte separator, `"\n"` included, is such a separator. `Split.OverlappingSeparatorSplitsDiffer` shows the two splits of `"aaa"` at `"aa"` differ.

## Model

| member | source | states |
|---|---|---|
| FileRead.Read | src/lib/FileRead.ts:30-120 | The callbacks made are those of `ForwardScan` up to and including the first one answered false, for every chunk length. The returned count is 0 when the start lies at or past the end of the file. It reaches exactly the end of the file when no callback stops the scan. When a callback stops the scan, the count is exactly `Covered(readLength, size - start, stop - start)`, where `stop` is the end of the stopping line's separator: the whole chunks from the start that reach `stop`, the last one cut at the end of the file. This is less than one chunk past `stop`. |
| FileRead.ForwardLoop | src/lib/FileRead.ts:39-109 | The outer read loop. `notEmpty` is cleared exactly when the start lies at or past the end of the file. If nothing stops it, the whole file is read and the pending fragment is the file's tail with no separator inside it. When stopped, the calls are the delivered ones. The stopping pass started a whole number of chunks past the start, below the stopping separator's end, and read `min(readLength, size - passStart)` bytes. |
| FileRead.ForwardPass | src/lib/FileRead.ts:55-107 | One pass: the bytes read are `min(readLength, size - position)`, or 0 past the end. An empty read changes nothing. Otherwise the pending-fragment invariant is kept, or the delivery is complete, with its stopping separator inside this chunk. |
| FileRead.CutForward | src/lib/FileRead.ts:69-103 | The inner loop over one buffer. Each line cut is the next call of `ForwardScan`, with the next `lineCount` and the line's file offset. The bytes after the last separator become the pending fragment. A false answer ends the delivery with that call. |
| FileRead.ForwardCutFound | src/lib/FileRead.ts:75-100 | `indexOf` finding the separator at `i` yields the next forward call, the buffer bytes from `offset` to `i`. A true answer keeps the loop invariant past the separator. A false answer makes `out + [c]` the whole delivery. |
| FileRead.ForwardCutNotFound | src/lib/FileRead.ts:75-81 | No separator after `offset`: the buffer tail is file bytes free of the separator and becomes the pending fragment of the next pass. |
| FileRead.ForwardNextCall | src/lib/FileRead.ts:75-98 | A separator found in the buffer is one in the file. The line cut before it is call `n` of `ForwardScan`, that call is not the last, and the next call starts right past the separator. |
| FileRead.ForwardFound | src/lib/FileRead.ts:75 | `indexOf` on a buffer holding `content[lo..]` answers what `indexOf` on the file answers, shifted by `lo`. |
| FileRead.ForwardNotFound | src/lib/FileRead.ts:75-76 | `indexOf` answering -1 on the buffer means no separator lies wholly inside that window of the file. |
| FileRead.ForwardClose | src/lib/FileRead.ts:111-115 | Once the whole file is read and every call continued, showing the pending fragment with `isEnd` is the last call of `ForwardScan` and completes the delivery. |
| FileRead.ForwardChunk | src/lib/FileRead.ts:55-60 | The buffer of a forward pass, filled part only, is the pending fragment followed by the bytes the positioned read returned. |
| FileRead.PositionedRead | src/lib/FileRead.ts:58 | A positioned read returns `min(length, size - position)` bytes, 0 at or past the end. It writes them at the buffer offset and keeps the rest of the buffer. |
| FileRead.ReadFromEnd | src/lib/FileRead.ts:122-224 | The callbacks made are those of `BackwardScan` up to and including the first one answered false, for every chunk length. The returned count never exceeds the bound. It equals the bound when no callback stops the scan. When a callback stops the scan, the count is exactly `Covered(readLength, bound, bound - s)`, where `s` is the offset of the separator before the stopping line: the whole chunks down from the bound that reach `s`, the last one cut at offset 0. This is less than one chunk below `s`. |
| FileRead.BackwardLoop | src/lib/FileRead.ts:151-212 | The outer backward loop. `notEmpty` is cleared exactly when the bound is 0. If nothing stops it, the scan reaches offset 0 and the pending fragment is the file's head. When stopped, the calls are the delivered ones. The stopping pass started a whole number of chunks below the bound, above the stopping separator, and read `min(passEnd, readLength)` bytes. |
| FileRead.Covered | src/lib/FileRead.ts:119 | The byte count of a scan stopped by a target byte: at least the target, at most the limit, less than one chunk past the target, and either the limit or a whole number of chunks. |
| FileRead.CoveredAt | src/lib/FileRead.ts:54-109 | When `d` whole chunks fall short of the target and one more chunk reaches it, `Covered` is `min(d + readLength, limit)`. So it is the least whole-chunk count reaching the target, cut at the limit. |
| FileRead.ForwardStopCount | src/lib/FileRead.ts:54-119 | A pass that starts whole chunks past the start, below the stopping separator's end, and reads up to or past it, ends at the start plus exactly `Covered(..)`. |
| FileRead.BackwardStopCount | src/lib/FileRead.ts:151-223 | A backward pass that starts whole chunks below the bound, above the stopping separator, and reads down to or below it, leaves `bound - position` equal to exactly `Covered(..)`. |
| FileRead.CopyInto | src/lib/FileRead.ts:56 | `Buffer.copy` of the pending fragment into the fresh buffer writes it at the given offset and leaves every other byte as it was. The same method models the copy at line 171 and the positioned read's write at line 58. The fragment copies at lines 78 and 182 are slices. |
| FileRead.BackwardPass | src/lib/FileRead.ts:152-210 | One backward pass: `bytesRead == min(position, readLength)` and the position moves down by it. An empty read changes nothing. Otherwise the pending-fragment invariant is kept, or the scan is stopped with its separator inside this chunk. |
| FileRead.CutBackward | src/lib/FileRead.ts:173-206 | The inner loop over one buffer, from its end toward its start. Each line cut is the next call of `BackwardScan`, with `position` moved down by `_i - i`. The bytes before the first separator become the pending fragment. A false answer ends the delivery. |
| FileRead.BackwardCutFound | src/lib/FileRead.ts:179-204 | `lastIndexOf(sep, _i - sepLen)` finding `i` yields the next backward call. A true answer continues with `_i = i`. A false answer makes `out + [c]` the whole delivery, with its separator inside the chunk just read. |
| FileRead.BackwardCutNotFound | src/lib/FileRead.ts:179-185 | No separator below `_i`: the buffer's first `_i` bytes are file bytes free of the separator and become the pending fragment. |
| FileRead.BackwardNextCall | src/lib/FileRead.ts:179-196 | A separator found below the cut is one in the file. The line after it is call `k` of `BackwardScan`, and it is not the last. |
| FileRead.BackwardFound | src/lib/FileRead.ts:179 | `lastIndexOf` on a buffer whose front holds `content[lo..lo+n]` answers what it answers on the file, shifted by `lo`. |
| FileRead.BackwardNotFound | src/lib/FileRead.ts:179-180 | -1 from `lastIndexOf` on the buffer means no separator lies wholly inside that window of the file. |
| FileRead.BackwardClose | src/lib/FileRead.ts:214-219 | Once the pending fragment reaches down to offset 0, showing it with `isEnd` at position 0 is the last call of `BackwardScan` and completes the delivery. |
| FileRead.BackwardChunk | src/lib/FileRead.ts:152-171 | The buffer of a backward pass is `|rest| + readLength` bytes: the bytes read, then the pending fragment. |
| LineScan.ForwardStart | src/lib/FileRead.ts:36 | The forward scan starts at the given `position`, or at 0 when there is none. A given 0 and an absent position are the same. |
| LineScan.BackwardBound | src/lib/FileRead.ts:130-132 | The backward bound is the given `position` whenever there is one, and the file size only when there is none. Unlike the forward start, a given 0 is a real bound of 0. |
| LineScan.ReadLength | src/lib/FileRead.ts:35 | The chunk length is always positive: the given one, or 1 MiB when it is absent or 0. |
| LineScan.Separator | src/lib/FileRead.ts:33-34 | The separator is never empty: the given one, or `"\n"` when it is absent or empty. |
| LineScan.DeliveredStops | src/lib/FileRead.ts:93-96 | Every delivered call but the last was answered true. If any call was left out, the last one was answered false. Nothing after a call answered false is delivered. |
| LineScan.DeliveredStopsAt | src/lib/FileRead.ts:198-201 | A call answered false with calls still to come ends the delivery right after it. |
| LineScan.DeliveredAll | src/lib/FileRead.ts:111-115 | When every call before the last continued, every call is delivered. The answer to the final call is ignored. |
| LineScan.ForwardScanNext | src/lib/FileRead.ts:83-100 | A forward call starting at `p`, with the next separator at `e`, shows exactly `content[p..e]` with `lineCount k+1` and no `isEnd`. The next call starts at `e + |sep|`. |
| LineScan.ForwardScanFinal | src/lib/FileRead.ts:111-115 | A forward call with no separator after its start is the last one. It shows the rest of the file and is marked `isEnd`. |
| LineScan.ForwardScanLocate | src/lib/FileRead.ts:10-18 | Every forward line is the file bytes at its `position`, at or after the start, with no separator inside it. Its context counts it from 1. Only the last line is `isEnd`, and it runs to the end of the file. |
| LineScan.ForwardScanLines | src/lib/FileRead.ts:74-115 | The forward lines are the leftmost-first split of `content[start..]`. |
| LineScan.ForwardRoundTrip | src/lib/FileRead.ts:74-115 | Joining the forward lines with the separator gives back `content[start..]` exactly. |
| LineScan.BackwardScanNext | src/lib/FileRead.ts:179-196 | A backward call ending at `e`, with the last separator before it at `s`, shows exactly `content[s+|sep|..e]`, starts there, and is not the last. |
| LineScan.BackwardScanFinal | src/lib/FileRead.ts:214-218 | A backward call with no separator before its end is the last one. It shows the file from 0, at position 0, marked `isEnd`. |
| LineScan.BackwardScanLocate | src/lib/FileRead.ts:15-18 | Every backward line is the file bytes at its `position`, below the bound, with no separator inside it or straddling its start. Only the last line is `isEnd`, and it starts at 0. |
| LineScan.BackwardScanLink | src/lib/FileRead.ts:187-188 | A backward line that is not the last has the separator right before it. The next call's line ends where that separator starts. |
| LineScan.BackwardScanLines | src/lib/FileRead.ts:173-218 | The backward lines are the rightmost-first split of `content[..bound]`. |
| LineScan.BackwardRoundTrip | src/lib/FileRead.ts:173-218 | The backward lines, put back in file order and joined with the separator, give `content[..bound]`. No byte at or past the bound appears. |
| LineScan.BackwardLinesReverseForward | src/lib/FileRead.ts:122-224 | Over the whole file, with a separator that cannot overlap itself, the backward lines reversed are the forward lines. |
| LineScan.ThreeLinesForward | src/lib/FileRead.ts:30-120 | `"a\nb\nc"` with the default options: `read` shows a at 0, b at 2, and c at 4 with `isEnd`, `lineCount` 1, 2, 3. |
| LineScan.ThreeLinesBackward | src/lib/FileRead.ts:122-224 | `"a\nb\nc"` with the default options: `readFromEnd` shows c at 4, b at 2, and a at 0 with `isEnd`. Every context has `startPosition` 5. |
| Split.IndexOf | src/lib/FileRead.ts:75 | The result is -1 or an occurrence at or after `from`, and no occurrence lies between `from` and it. |
| Split.LastIndexOf | src/lib/FileRead.ts:179 | The result is -1 or an occurrence at or before `from`, and no occurrence lies between it and `from`. |
| Split.JoinSplitFrom | src/lib/FileRead.ts:74-103 | Joining the leftmost-first split with the separator gives back the split bytes. |
| Split.SplitFromJoin | src/lib/FileRead.ts:74-103 | For a separator that cannot overlap itself, splitting a join of separator-free lines gives those lines back. |
| Split.JoinReversedSplitUpTo | src/lib/FileRead.ts:178-206 | The rightmost-first split, reversed and joined, gives back `s[..end]`. |
| Split.SplitUpToReversesSplitFrom | src/lib/FileRead.ts:178-206 | For a separator that cannot overlap itself, the rightmost-first split of a sequence, reversed, is its leftmost-first split. |
| Split.OverlappingSeparatorSplitsDiffer | src/lib/FileRead.ts:179 | For `"aaa"` and the separator `"aa"` the two splits differ, so the premise above is needed. |
| AsWritten.CutAsWritten | src/lib/FileRead.ts:74-81 | The inner loop as written, with `indexOf` over the whole allocation: the lines it cuts, followed by the bytes from where it stops, are the leftmost-first split of the whole buffer, unfilled tail included. |
| AsWritten.ZeroSeparatorCutsPadding | src/lib/FileRead.ts:55-81 | `"ab"` with the separator `"\0"` in chunks of 4: the loop as written cuts `"ab"` and an empty line out of the buffer `[a, b, 0, 0]` and stops at offset 4, past the 2 filled bytes. |
| AsWritten.ZeroSeparatorReadsOneLine | src/lib/FileRead.ts:30-120 | The same file and options, searched in the filled part only: one call, `"ab"` at 0 with `isEnd`. |

## Left out

- Opening, `stat` and closing the file, the `async`/`await` plumbing and I/O errors are left out. The file is a byte sequence given as a parameter, and the positioned read is a copy out of it.
- The `file` field of the reading context is left out; it only echoes the argument.
- The callback is a pure function of the line and a snapshot of the context. A callback that keeps the context object and mutates it, or that awaits, is not modelled. Only an explicit `false` stops the scan, and any other answer, `undefined` included, is modelled as `true`.
- The separator is a byte sequence. The UTF-8 encoding of a JavaScript string separator by `Buffer.from` is left out.
- Offsets and lengths are unbounded naturals. JavaScript numbers above 2^53 are not modelled.
- FileRead.Read: `indexOf` searches only the filled part of the buffer, not the whole allocation the source searches. See Findings.
- FileRead.ReadFromEnd: requires the bound (the given `position`, or the file size) to lie within the file. Past the end, the source scans buffer bytes the read never filled, whose contents depend on the allocator.

## Findings

| source | as written | input that shows it | evidently intended | confidence | as-written member | corrected member |
|---|---|---|---|---|---|---|
| src/lib/FileRead.ts:55-81 | `buf.indexOf(sep, offset)` searches the whole allocation of `rest.length + length` bytes. On the last, short read, that includes the bytes the read never filled, which are zero for a zero-filling allocator. | The file `"ab"`, separator `"\0"`, `readLength` 4: the loop cuts `"ab"` (not marked `isEnd`) and an empty line out of the padding, then allocates a fragment of length `bufLen - offset = 2 - 4 = -2`. In Node 8 and later, `new Buffer(-2)` goes through `Buffer.alloc` and throws a `RangeError`. So `read` rejects after the two spurious callbacks and never reaches the `close` at line 117, leaving the file handle open. | Search only the `bufLen` filled bytes, so the file gives the single line `"ab"` with `isEnd`. | medium; not executed; depends on the allocator filling with zeros | AsWritten.CutAsWritten, AsWritten.ZeroSeparatorCutsPadding | FileRead.Read, AsWritten.ZeroSeparatorReadsOneLine |
