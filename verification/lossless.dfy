/**
 What `encode` guarantees about its rows: read back in the layout it wrote
 them, they give the header and the payload unchanged, and (numbering rows by
 position) every key opens with its row's index.
 */
module Lossless {
  import opened Slices
  import opened Results
  import opened Text
  import opened Collaborators
  import opened MediaType
  import opened RowIndex
  import opened Layout
  import opened Encoder

  /**
   A header row, possibly extended by the top-off, gives back its 126 header
   characters.
   */
  lemma HeaderPartOf(row: Row, written: Row, header: string, mode: IndexMode, j: nat)
    requires HeaderRow(header, mode, j) == Success(written)
    requires Take(row.key, |written.key|) == written.key && Take(row.value, |written.value|) == written.value
    ensures RowHeaderPart(row, |header|, j) == Success(Between(header, HeaderRowChars * j, HeaderRowChars * (j + 1)))
  {
    ChunkLengths(header, j);
    TakeDropPrefix(row.key, written.key, IndexWidth, KeyWant(|header|, j));
    assert Drop(written.key, IndexWidth) == KeyChunk(header, j);
    AsciiRoundTrip(ValueChunk(header, j));
    ChunksJoin(header, j);
  }

  /** The sizes of a header row as the loop writes it. */
  lemma HeaderRowSize(header: string, mode: IndexMode, j: nat, row: Row)
    requires HeaderRow(header, mode, j) == Success(row)
    ensures |row.key| == IndexWidth + KeyWant(|header|, j)
    ensures |row.value| == ValueWant(|header|, j)
  {
    ChunkLengths(header, j);
  }

  /** The header rows `Frame` starts from. */
  lemma FrameRows(c: Collaborators, header: string, data: seq<byte>, mode: IndexMode, all: seq<Row>)
      returns (rows: seq<Row>)
    requires |header| > 0 && Frame(c, header, data, mode) == Success(all)
    ensures |rows| == HeaderRowCount(|header|) >= 1 && AllFit(rows)
    ensures RowsFrom(rows, HeaderRowOf(header, mode), 0)
    ensures Append(c, rows, data) == Success(all)
  {
    rows := HeaderRows(header, mode, 0).value;
    HeaderRowsFit(rows, header, mode, 0);
  }

  /**
   The pieces `Append` assembles its rows from: the last header row before and
   after the top-off, the data left after it, and the fill rows.
   */
  lemma AppendParts(c: Collaborators, rows: seq<Row>, data: seq<byte>, all: seq<Row>)
      returns (top: Row, rest: seq<byte>, more: seq<Row>)
    requires |rows| >= 1 && AllFit(rows) && Append(c, rows, data) == Success(all)
    ensures Take(top.key, |rows[|rows| - 1].key|) == rows[|rows| - 1].key
    ensures Take(top.value, |rows[|rows| - 1].value|) == rows[|rows| - 1].value
    ensures Lawful(c) ==>
              c.decode91(Drop(top.key, |rows[|rows| - 1].key|)) + Drop(top.value, |rows[|rows| - 1].value|) + rest == data
    ensures Lawful(c) ==> RowsPayload(c, more) == rest
    ensures IndexedFrom(more, |rows|)
    ensures |rest| <= |data| && (more == [] <==> rest == [])
    ensures all == rows[..|rows| - 1] + [top] + more
  {
    var topped := TopOff(c, rows[|rows| - 1], data);
    top, rest := topped.0, topped.1;
    more := Fill(c, rest, |rows|).value;
  }

  /** A header row the top-off left alone. */
  lemma InnerPart(header: string, mode: IndexMode, rows: seq<Row>, all: seq<Row>, k: nat)
    requires RowsFrom(rows, HeaderRowOf(header, mode), 0)
    requires k < |rows| && k < |all| && all[k] == rows[k]
    ensures RowHeaderPart(all[k], |header|, k) == Success(Between(header, HeaderRowChars * k, HeaderRowChars * (k + 1)))
  {
    RowsFromAt(rows, HeaderRowOf(header, mode), 0, k);
    HeaderPartOf(rows[k], rows[k], header, mode, k);
  }

  /** The header rows, the last one topped off, then the fill rows, read back as the header. */
  lemma PartsHeader(header: string, mode: IndexMode, rows: seq<Row>, last: Row, top: Row, more: seq<Row>)
    requires |rows| == HeaderRowCount(|header|) >= 1
    requires RowsFrom(rows, HeaderRowOf(header, mode), 0)
    requires HeaderRow(header, mode, |rows| - 1) == Success(last)
    requires Take(top.key, |last.key|) == last.key && Take(top.value, |last.value|) == last.value
    ensures ReadHeader(rows[..|rows| - 1] + [top] + more, |header|, 0) == Success(header)
  {
    var h := |rows|;
    var all := rows[..h - 1] + [top] + more;
    forall k | 0 <= k < h
      ensures RowHeaderPart(all[k], |header|, k) == Success(Between(header, HeaderRowChars * k, HeaderRowChars * (k + 1)))
    {
      if k < h - 1 {
        InnerPart(header, mode, rows, all, k);
      } else {
        HeaderPartOf(top, last, header, mode, k);
      }
    }
    ReadHeaderFrom(all, header, 0);
  }

  /** The same pieces read back as the payload. */
  lemma PartsPayload(c: Collaborators, header: string, data: seq<byte>, mode: IndexMode,
                     rows: seq<Row>, last: Row, top: Row, rest: seq<byte>, more: seq<Row>)
    requires |rows| == HeaderRowCount(|header|) >= 1
    requires HeaderRow(header, mode, |rows| - 1) == Success(last)
    requires Lawful(c) ==> c.decode91(Drop(top.key, |last.key|)) + Drop(top.value, |last.value|) + rest == data
    requires Lawful(c) ==> RowsPayload(c, more) == rest
    ensures Lawful(c) ==> ReadPayload(c, rows[..|rows| - 1] + [top] + more, |header|) == data
  {
    var h := |rows|;
    var all := rows[..h - 1] + [top] + more;
    HeaderRowSize(header, mode, h - 1, last);
    assert all[h - 1] == top;
    assert all[h..] == more;
  }

  /** Header rows followed by what `Append` adds read back as the header. */
  lemma AppendHeader(c: Collaborators, header: string, data: seq<byte>, mode: IndexMode, rows: seq<Row>, all: seq<Row>)
    requires |rows| == HeaderRowCount(|header|) >= 1 && AllFit(rows)
    requires RowsFrom(rows, HeaderRowOf(header, mode), 0)
    requires Append(c, rows, data) == Success(all)
    ensures HeaderRowCount(|header|) <= |all|
    ensures ReadHeader(all, |header|, 0) == Success(header)
  {
    var top, rest, more := AppendParts(c, rows, data, all);
    var last := rows[|rows| - 1];
    HeaderRowIn(rows, header, mode, |rows| - 1);
    PartsHeader(header, mode, rows, last, top, more);
  }

  /** The same rows read back as the payload. */
  lemma AppendPayload(c: Collaborators, header: string, data: seq<byte>, mode: IndexMode, rows: seq<Row>, all: seq<Row>)
    requires |rows| == HeaderRowCount(|header|) >= 1 && AllFit(rows)
    requires RowsFrom(rows, HeaderRowOf(header, mode), 0)
    requires Append(c, rows, data) == Success(all)
    ensures HeaderRowCount(|header|) <= |all|
    ensures Lawful(c) ==> ReadPayload(c, all, |header|) == data
  {
    var top, rest, more := AppendParts(c, rows, data, all);
    var last := rows[|rows| - 1];
    HeaderRowIn(rows, header, mode, |rows| - 1);
    PartsPayload(c, header, data, mode, rows, last, top, rest, more);
  }

  /** Header rows followed by what `Append` adds read back as the header and the payload. */
  lemma AppendLossless(c: Collaborators, header: string, data: seq<byte>, mode: IndexMode, rows: seq<Row>, all: seq<Row>)
    requires |rows| == HeaderRowCount(|header|) >= 1 && AllFit(rows)
    requires RowsFrom(rows, HeaderRowOf(header, mode), 0)
    requires Append(c, rows, data) == Success(all)
    ensures HeaderRowCount(|header|) <= |all|
    ensures ReadHeader(all, |header|, 0) == Success(header)
    ensures Lawful(c) ==> ReadPayload(c, all, |header|) == data
  {
    AppendHeader(c, header, data, mode, rows, all);
    AppendPayload(c, header, data, mode, rows, all);
  }

  /**
   Lossless framing: whatever `encode` returns holds the header in its first
   rows and, after it, exactly the payload.
   */
  lemma FrameLossless(c: Collaborators, header: string, data: seq<byte>, mode: IndexMode, all: seq<Row>)
    requires |header| > 0 && Frame(c, header, data, mode) == Success(all)
    ensures HeaderRowCount(|header|) <= |all|
    ensures ReadHeader(all, |header|, 0) == Success(header)
    ensures Lawful(c) ==> ReadPayload(c, all, |header|) == data
  {
    var rows := FrameRows(c, header, data, mode, all);
    AppendLossless(c, header, data, mode, rows, all);
  }

  lemma EncodeLossless(c: Collaborators, data: seq<byte>, mts: seq<Descriptor>, mode: IndexMode, rows: seq<Row>)
    requires Encode(c, data, mts, mode) == Success(rows)
    ensures HeaderRowCount(|Header(mts)|) <= |rows|
    ensures ReadHeader(rows, |Header(mts)|, 0) == Success(Header(mts))
    ensures Lawful(c) ==> ReadPayload(c, rows, |Header(mts)|) == data
  {
    FrameLossless(c, Header(mts), data, mode, rows);
  }
  /** Each header row of the output starts with the row the header loop wrote. */
  lemma AssembledExtends(header: string, mode: IndexMode, rows: seq<Row>, top: Row, more: seq<Row>, all: seq<Row>, k: nat)
    requires |rows| >= 1 && RowsFrom(rows, HeaderRowOf(header, mode), 0)
    requires Take(top.key, |rows[|rows| - 1].key|) == rows[|rows| - 1].key
    requires Take(top.value, |rows[|rows| - 1].value|) == rows[|rows| - 1].value
    requires all == rows[..|rows| - 1] + [top] + more && k < |rows|
    ensures HeaderRow(header, mode, k).Success?
    ensures Take(all[k].key, |HeaderRow(header, mode, k).value.key|) == HeaderRow(header, mode, k).value.key
    ensures Take(all[k].value, |HeaderRow(header, mode, k).value.value|) == HeaderRow(header, mode, k).value.value
  {
    HeaderRowIn(rows, header, mode, k);
    AssembledRow(rows, top, more, all, k);
  }

  /** Row `k` of the assembled rows starts with row `k` of the rows before the top-off. */
  lemma AssembledRow(rows: seq<Row>, top: Row, more: seq<Row>, all: seq<Row>, k: nat)
    requires |rows| >= 1
    requires Take(top.key, |rows[|rows| - 1].key|) == rows[|rows| - 1].key
    requires Take(top.value, |rows[|rows| - 1].value|) == rows[|rows| - 1].value
    requires all == rows[..|rows| - 1] + [top] + more && k < |rows|
    ensures Take(all[k].key, |rows[k].key|) == rows[k].key
    ensures Take(all[k].value, |rows[k].value|) == rows[k].value
  {
    var n := |rows| - 1;
    PickAssembled(rows[..n], top, more, k);
    if k < n {
      assert rows[..n][k] == rows[k];
      ExtendsSelf(rows[k]);
    } else {
      assert k == n && all[k] == top;
    }
  }

  lemma ExtendsSelf(w: Row)
    ensures Take(w.key, |w.key|) == w.key && Take(w.value, |w.value|) == w.value
  {
  }

  /** Row `k` of the header rows before the last, the topped-off last row, then the fill rows. */
  lemma PickAssembled<T>(init: seq<T>, top: T, more: seq<T>, k: nat)
    requires k <= |init|
    ensures (init + [top] + more)[k] == if k < |init| then init[k] else top
  {
  }

  /**
   Row `k` of `encode`'s output, for `k` among the header rows, starts with
   the `k`-th row of the header loop; with no payload there are no other rows.
   */
  lemma EncodedHeaderRow(c: Collaborators, data: seq<byte>, mts: seq<Descriptor>, mode: IndexMode, all: seq<Row>, k: nat)
    requires Encode(c, data, mts, mode) == Success(all)
    requires k < HeaderRowCount(|Header(mts)|)
    ensures k < |all| && HeaderRow(Header(mts), mode, k).Success?
    ensures Take(all[k].key, |HeaderRow(Header(mts), mode, k).value.key|) == HeaderRow(Header(mts), mode, k).value.key
    ensures Take(all[k].value, |HeaderRow(Header(mts), mode, k).value.value|) == HeaderRow(Header(mts), mode, k).value.value
    ensures data == [] ==> |all| == HeaderRowCount(|Header(mts)|)
  {
    var rows := FrameRows(c, Header(mts), data, mode, all);
    var top, rest, more := AppendParts(c, rows, data, all);
    AssembledExtends(Header(mts), mode, rows, top, more, all, k);
  }
}
