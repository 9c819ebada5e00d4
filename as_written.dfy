/**
 * read's inner loop as the source writes it: indexOf searches the whole
 * buffer allocation of rest.length + length bytes, not only the bufLen bytes
 * that the pending fragment and the positioned read filled. On the last,
 * short read the allocation ends in bytes the read never wrote (zeros, for a
 * zero-filling allocator), and a separator made of such bytes is found there.
 * FileRead searches the filled part only.
 */
module AsWritten {
  import opened Split
  import opened LineScan

  /**
   * The lines the inner loop cuts off buf from offset on, with indexOf over
   * all of buf, and the offset it stops at. The loop then keeps the
   * fragment buf[stop..bufLen], whose length bufLen - stop it allocates.
   */
  function CutAsWritten(buf: seq<Byte>, sep: seq<Byte>, offset: nat): (r: (seq<seq<Byte>>, nat))
    requires |sep| > 0 && offset <= |buf|
    ensures offset <= r.1 <= |buf|
    ensures r.0 + [buf[r.1..]] == SplitFrom(buf, sep, offset)
    decreases |buf| - offset
  {
    var i := IndexOf(buf, sep, offset);
    if i < 0 then ([], offset)
    else
      var more := CutAsWritten(buf, sep, i + |sep|);
      assert [buf[offset..i]] + more.0 + [buf[more.1..]] == [buf[offset..i]] + (more.0 + [buf[more.1..]]);
      ([buf[offset..i]] + more.0, more.1)
  }

  /**
   * The file "ab" read with the separator "\0" in chunks of 4: the one pass
   * allocates [a, b, 0, 0] and fills 2 bytes, yet the loop as written cuts
   * "ab" and an empty line out of the zero padding and stops at offset 4,
   * past the filled length 2, so the fragment it allocates next has length
   * 2 - 4 = -2.
   */
  lemma ZeroSeparatorCutsPadding()
    ensures var r := CutAsWritten([0x61, 0x62, 0x00, 0x00], [0x00], 0);
      r.0 == [[0x61, 0x62], []] && r.1 == 4
  {
    var buf: seq<Byte> := [0x61, 0x62, 0x00, 0x00];
    var sep: seq<Byte> := [0x00];
    assert buf[0] != sep[0] && buf[1] != sep[0];
    assert MatchAt(buf, sep, 2) && MatchAt(buf, sep, 3);
    IndexOfIs(buf, sep, 0, 2);
    IndexOfIs(buf, sep, 3, 3);
    assert IndexOf(buf, sep, 4) == -1;
    assert buf[0..2] == [0x61, 0x62] && buf[3..3] == [];
  }

  /**
   * The same file and options as the model reads them, searching the filled
   * part only: a single call, "ab" at 0 with isEnd.
   */
  lemma ZeroSeparatorReadsOneLine(content: seq<Byte>, o: Options)
    requires content == [0x61, 0x62] && o == Options(4, [0x00], None)
    ensures ForwardScan(content, o) == [Call([0x61, 0x62], ReadingContext(1, 0, 1, 0, true))]
  {
    var sep := Separator(o);
    assert content[0] != sep[0] && content[1] != sep[0];
    assert !MatchAt(content, sep, 0) && !MatchAt(content, sep, 1);
    assert IndexOf(content, sep, 2) == -1;
    assert IndexOf(content, sep, 0) == -1;
    ForwardScanFirst(content, o);
    ForwardScanFinal(content, o, 0, 0);
    assert content[0..] == content;
  }
}
