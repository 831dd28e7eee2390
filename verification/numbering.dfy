/**
 How rows are numbered. Binary rows carry their position as index; header
 rows, as written, carry `126 * j` instead, which is wrong from the second
 row on and runs out of two-digit indices at the twelfth.
 */
module Numbering {
  import opened Slices
  import opened Results
  import opened Text
  import opened Collaborators
  import opened MediaType
  import opened RowIndex
  import opened Layout
  import opened Encoder
  import opened Lossless

  /** A header row opens with the index of its loop iteration. */
  lemma HeaderKeyIndex(header: string, mode: IndexMode, j: nat, row: Row)
    requires HeaderRow(header, mode, j) == Success(row)
    ensures EncodeIndex(HeaderIndex(mode, j)).Success?
    ensures Take(row.key, IndexWidth) == EncodeIndex(HeaderIndex(mode, j)).value
  {
  }

  /** Among fill rows numbered from `i`, the one at position `k - i` opens with index `k`. */
  lemma {:induction false} IndexedAt(rows: seq<Row>, i: nat, k: nat)
    requires IndexedFrom(rows, i) && i <= k < i + |rows|
    ensures EncodeIndex(k).Success? && Take(rows[k - i].key, IndexWidth) == EncodeIndex(k).value
    decreases k - i
  {
    if i < k {
      IndexedAt(rows[1..], i + 1, k);
      assert rows[k - i] == rows[1..][k - (i + 1)];
    }
  }

  /** Header row `k` opens with the index of iteration `k`. */
  lemma HeaderIndexAt(header: string, mode: IndexMode, rows: seq<Row>, k: nat)
    requires RowsFrom(rows, HeaderRowOf(header, mode), 0) && k < |rows|
    ensures EncodeIndex(HeaderIndex(mode, k)).Success?
    ensures Take(rows[k].key, IndexWidth) == EncodeIndex(HeaderIndex(mode, k)).value
  {
    RowsFromAt(rows, HeaderRowOf(header, mode), 0, k);
    HeaderKeyIndex(header, mode, k, rows[k]);
  }

  /** The topped-off last header row keeps its index. */
  lemma TopIndex(header: string, mode: IndexMode, rows: seq<Row>, top: Row)
    requires RowsFrom(rows, HeaderRowOf(header, mode), 0) && |rows| >= 1
    requires Take(top.key, |rows[|rows| - 1].key|) == rows[|rows| - 1].key
    ensures EncodeIndex(HeaderIndex(mode, |rows| - 1)).Success?
    ensures Take(top.key, IndexWidth) == EncodeIndex(HeaderIndex(mode, |rows| - 1)).value
  {
    HeaderIndexAt(header, mode, rows, |rows| - 1);
    TakeOfPrefix(top.key, rows[|rows| - 1].key, IndexWidth);
  }

  /** Header row `k` of the assembled rows, topped off or not, opens with index `k`. */
  lemma AssembledHeaderIndex(header: string, rows: seq<Row>, top: Row, more: seq<Row>, all: seq<Row>, k: nat)
    requires |rows| >= 1 && RowsFrom(rows, HeaderRowOf(header, ByRow), 0)
    requires Take(top.key, |rows[|rows| - 1].key|) == rows[|rows| - 1].key
    requires all == rows[..|rows| - 1] + [top] + more && k < |rows|
    ensures EncodeIndex(k).Success? && Take(all[k].key, IndexWidth) == EncodeIndex(k).value
  {
    if k < |rows| - 1 {
      HeaderIndexAt(header, ByRow, rows, k);
      assert all[k] == rows[k];
    } else {
      TopIndex(header, ByRow, rows, top);
      assert all[k] == top;
    }
  }

  /** Row `k` of header rows, top-off and fill rows, with header rows numbered by position. */
  lemma AssembledIndex(header: string, rows: seq<Row>, top: Row, more: seq<Row>, all: seq<Row>, k: nat)
    requires |rows| >= 1 && RowsFrom(rows, HeaderRowOf(header, ByRow), 0)
    requires Take(top.key, |rows[|rows| - 1].key|) == rows[|rows| - 1].key
    requires IndexedFrom(more, |rows|)
    requires all == rows[..|rows| - 1] + [top] + more && k < |all|
    ensures EncodeIndex(k).Success? && Take(all[k].key, IndexWidth) == EncodeIndex(k).value
  {
    if k < |rows| {
      AssembledHeaderIndex(header, rows, top, more, all, k);
    } else {
      IndexedAt(more, |rows|, k);
      assert all[k] == more[k - |rows|];
    }
  }

  /** Numbered by position, every row's key opens with the row's own index. */
  lemma RowsNumbered(c: Collaborators, data: seq<byte>, mts: seq<Descriptor>, all: seq<Row>)
    requires Encode(c, data, mts, ByRow) == Success(all)
    ensures forall k :: 0 <= k < |all| ==> EncodeIndex(k).Success? && Take(all[k].key, IndexWidth) == EncodeIndex(k).value
  {
    var rows := FrameRows(c, Header(mts), data, ByRow, all);
    var top, rest, more := AppendParts(c, rows, data, all);
    forall k | 0 <= k < |all|
      ensures EncodeIndex(k).Success? && Take(all[k].key, IndexWidth) == EncodeIndex(k).value
    {
      AssembledIndex(Header(mts), rows, top, more, all, k);
    }
  }

  /** The second of at least two header rows, as assembled, opens with index `126 * 1`. */
  lemma SecondIndex(header: string, rows: seq<Row>, top: Row, more: seq<Row>, all: seq<Row>)
    requires |rows| >= 2 && RowsFrom(rows, HeaderRowOf(header, ByOffset), 0)
    requires Take(top.key, |rows[|rows| - 1].key|) == rows[|rows| - 1].key
    requires all == rows[..|rows| - 1] + [top] + more
    ensures Take(all[1].key, IndexWidth) == EncodeIndex(126).value
  {
    if |rows| == 2 {
      TopIndex(header, ByOffset, rows, top);
      assert all[1] == top;
    } else {
      HeaderIndexAt(header, ByOffset, rows, 1);
      assert all[1] == rows[1];
    }
  }

  /** As written, the second header row is numbered `3i` (126) where `01` belongs. */
  lemma SecondRowAsWritten(c: Collaborators, data: seq<byte>, mts: seq<Descriptor>, all: seq<Row>)
    requires Encode(c, data, mts, ByOffset) == Success(all)
    requires HeaderRowCount(|Header(mts)|) >= 2
    ensures |all| >= 2 && Take(all[1].key, IndexWidth) == "3i" != EncodeIndex(1).value
  {
    var rows := FrameRows(c, Header(mts), data, ByOffset, all);
    var top, rest, more := AppendParts(c, rows, data, all);
    SecondIndex(Header(mts), rows, top, more, all);
    SecondIndexText();
  }

  /** Index 126 is written `3i`, and index 1 is written `01`. */
  lemma SecondIndexText()
    ensures EncodeIndex(126) == Success("3i") && EncodeIndex(1) == Success("01")
  {
  }

  /**
   As written, a header of more than eleven rows (over 1386 characters) cannot
   be encoded: the twelfth row would need index 1386. When the arguments pass
   every earlier check and the metadata is ASCII, that index is what fails.
   */
  lemma LongHeaderAsWritten(c: Collaborators, data: seq<byte>, mts: seq<Descriptor>)
    requires HeaderRowCount(|Header(mts)|) >= 12
    ensures Encode(c, data, mts, ByOffset).Failure?
    ensures |data| < MaxPayload && SizesDeclared(mts) && Renderable(mts) && AllAscii(RenderMetadata(mts)) ==>
              Encode(c, data, mts, ByOffset) == Failure(IndexOutOfRange)
  {
    if |data| < MaxPayload && SizesDeclared(mts) && Renderable(mts) {
      EncodeIsFrame(c, data, mts, ByOffset);
      LongFrameIndexFail(c, Header(mts), data);
      if AllAscii(RenderMetadata(mts)) {
        HeaderAscii(mts);
      }
    }
  }

  /**
   Framing, as written, a header of twelve rows or more fails, and with an
   ASCII header the failure is IndexOutOfRange.
   */
  lemma LongFrameIndexFail(c: Collaborators, header: string, data: seq<byte>)
    requires HeaderRowCount(|header|) >= 12
    ensures Frame(c, header, data, ByOffset).Failure?
    ensures AllAscii(header) ==> Frame(c, header, data, ByOffset) == Failure(IndexOutOfRange)
  {
    AllFromEvery(WritableRow(header, ByOffset), 0, HeaderRowCount(|header|));
    assert !WritableRow(header, ByOffset)(11);
  }
}
