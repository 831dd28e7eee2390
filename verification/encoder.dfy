/**
 `encode`: checks its arguments, writes the framed header across rows, tops
 off the last header row with payload, then fills binary rows until the
 payload runs out.
 */
module Encoder {
  import opened Slices
  import opened Results
  import opened Text
  import opened Collaborators
  import opened MediaType
  import opened RowIndex
  import opened Nearest
  import opened Layout

  /** The largest payload is one byte less than this. */
  const MaxPayload: nat := 126000

  /**
   How header rows are numbered. The source passes the character offset
   `126 * j` to `_encode_index` (`ByOffset`); numbering by row position (`ByRow`)
   is what the binary rows use and what the index is for.
   */
  datatype IndexMode = ByOffset | ByRow

  /**
   The number header row `j` is indexed by. As written it is the offset of the
   row's first header character, so only rows 0..10 get an index in range.
   */
  function HeaderIndex(mode: IndexMode, j: nat): (n: nat)
    ensures mode == ByOffset ==> n == HeaderRowChars * j
    ensures mode == ByRow ==> n == j
    ensures n <= MaxIndex <==> j <= (if mode == ByOffset then 10 else MaxIndex)
  {
    match mode
    case ByOffset => HeaderRowChars * j
    case ByRow => j
  }

  /** Every media type except the last declares its size `s`. */
  predicate SizesDeclared(mts: seq<Descriptor>)
  {
    forall i :: 0 <= i < |mts| - 1 ==> Lookup(mts[i].params, "s").Some?
  }

  /** `"1" + str(len(M)).zfill(6) + M` for the rendered metadata `M`. */
  function Header(mts: seq<Descriptor>): (h: string)
    ensures |h| >= 7 && h[0] == '1'
    ensures |RenderMetadata(mts)| < 1000000 ==>
              |h| == 7 + |RenderMetadata(mts)| && h[7..] == RenderMetadata(mts)
              && ParseDecimal(h[1..7]) == Some(|RenderMetadata(mts)|)
  {
    var m := RenderMetadata(mts);
    var h := "1" + ZFill(Decimal(|m|), 6) + m;
    if |m| < 1000000 then
      LengthFieldRoundTrip(|m|);
      assert h[1..7] == ZFill(Decimal(|m|), 6);
      h
    else h
  }

  /** With ASCII metadata the whole header is ASCII: the version and length are digits. */
  lemma HeaderAscii(mts: seq<Descriptor>)
    requires AllAscii(RenderMetadata(mts))
    ensures AllAscii(Header(mts))
  {
    var m := RenderMetadata(mts);
    var d := Decimal(|m|);
    var z := ZFill(d, 6);
    assert AllDigits(z) by {
      forall i | 0 <= i < |z| ensures IsDigit(z[i]) {
        if i >= |z| - |d| {
          assert z[i] == z[|z| - |d|..][i - (|z| - |d|)];
        }
      }
    }
    var h := "1" + z + m;
    assert Header(mts) == h;
    assert forall i :: 0 <= i < |h| ==> IsAscii(h[i]) by {
      forall i | 0 <= i < |h| ensures IsAscii(h[i]) {
        if 1 <= i < 1 + |z| {
          assert h[i] == z[i - 1];
        } else if i >= 1 + |z| {
          assert h[i] == m[i - 1 - |z|];
        }
      }
    }
  }

  /** Whether the header loop can write row `j`: its index is in range and its value part is ASCII. */
  predicate HeaderRowWritable(header: string, mode: IndexMode, j: nat)
  {
    HeaderIndex(mode, j) <= MaxIndex && AllAscii(ValueChunk(header, j))
  }

  /** `HeaderRowWritable` as a function of the row number. */
  function WritableRow(header: string, mode: IndexMode): nat -> bool
  {
    (j: nat) => HeaderRowWritable(header, mode, j)
  }

  /** One iteration of the header loop: index, 62 characters in the key, 64 in the value. */
  function HeaderRow(header: string, mode: IndexMode, j: nat): (r: Result<Row>)
    ensures r.Success? <==> HeaderRowWritable(header, mode, j)
    ensures r.Failure? ==> r.error == IndexOutOfRange || r.error == NotAscii
    ensures r.Success? ==> Fits(r.value)
    ensures r.Success? ==> r.value.key == EncodeIndex(HeaderIndex(mode, j)).value + KeyChunk(header, j)
    ensures r.Success? ==> ToAscii(ValueChunk(header, j)) == Some(r.value.value)
  {
    var index :- EncodeIndex(HeaderIndex(mode, j));
    var value :- Need(ToAscii(ValueChunk(header, j)), NotAscii);
    Success(Row(index + KeyChunk(header, j), value))
  }

  /** The header loop's body as a function of the row number. */
  function HeaderRowOf(header: string, mode: IndexMode): nat -> Result<Row>
  {
    (j: nat) => HeaderRow(header, mode, j)
  }

  /**
   The header loop from row `j` on: one row per 126 header characters, each
   fitting 64/64, failing at the first row whose index or value cannot be written.
   */
  function HeaderRows(header: string, mode: IndexMode, j: nat): (r: Result<seq<Row>>)
    requires j <= HeaderRowCount(|header|)
    ensures r.Success? <==> AllFrom(WritableRow(header, mode), j, HeaderRowCount(|header|))
    ensures r.Failure? ==> r.error == IndexOutOfRange || r.error == NotAscii
    ensures r.Failure? && AllAscii(header) ==> r.error == IndexOutOfRange
    ensures r.Success? ==> |r.value| == HeaderRowCount(|header|) - j
    ensures r.Success? ==> RowsFrom(r.value, HeaderRowOf(header, mode), j)
    decreases HeaderRowCount(|header|) - j
  {
    if j == HeaderRowCount(|header|) then Success([])
    else
      HeaderRowIndexFail(header, mode, j);
      var row :- HeaderRow(header, mode, j);
      var more :- HeaderRows(header, mode, j + 1);
      var rows := [row] + more;
      assert rows[1..] == more;
      Success(rows)
  }

  /** With an ASCII header a header row can only fail on an index out of range. */
  lemma HeaderRowIndexFail(header: string, mode: IndexMode, j: nat)
    ensures AllAscii(header) && HeaderRow(header, mode, j).Failure? ==> HeaderRow(header, mode, j).error == IndexOutOfRange
  {
    if AllAscii(header) {
      AsciiBetween(header, HeaderRowChars * j + HeaderKeyChars, HeaderRowChars * j + HeaderRowChars);
    }
  }

  /**
   Tops off the last header row: basE91 text into the key's spare room, then
   raw bytes into the value's. The row still fits, keeps its old contents as a
   prefix, and what it gained plus the leftover data is exactly the data.
   */
  function TopOff(c: Collaborators, last: Row, data: seq<byte>): (r: (Row, seq<byte>))
    requires Fits(last)
    ensures Fits(r.0)
    ensures Take(r.0.key, |last.key|) == last.key && Take(r.0.value, |last.value|) == last.value
    ensures Lawful(c) ==> c.decode91(Drop(r.0.key, |last.key|)) + Drop(r.0.value, |last.value|) + r.1 == data
    ensures |r.1| <= |data|
  {
    var top := EncodeNearest(c, data, RowWidth - |last.key|);
    NearestCovers(c, data, RowWidth - |last.key|);
    AppendCovers(c, last.key, top.text, last.value, top.rest, RowWidth - |last.value|, data);
    (Row(last.key + top.text, last.value + Take(top.rest, RowWidth - |last.value|)), Drop(top.rest, RowWidth - |last.value|))
  }

  /** Text appended to a key and bytes appended to a value are read back after the old contents. */
  lemma AppendCovers(c: Collaborators, key: string, text: string, value: seq<byte>, rest: seq<byte>, room: nat, data: seq<byte>)
    requires Lawful(c) ==> c.decode91(text) + rest == data
    ensures Take(key + text, |key|) == key && Take(value + Take(rest, room), |value|) == value
    ensures Lawful(c) ==>
              c.decode91(Drop(key + text, |key|)) + Drop(value + Take(rest, room), |value|) + Drop(rest, room) == data
  {
    assert Drop(key + text, |key|) == text;
    assert Drop(value + Take(rest, room), |value|) == Take(rest, room);
    TakeDrop(rest, room);
  }

  /**
   One iteration of the fill loop: index, then basE91 text for at most 62
   characters, then the next 64 raw bytes. The row fits, takes at least one byte
   from non-empty data, and its payload plus the leftover data is the data.
   */
  function FillRow(c: Collaborators, data: seq<byte>, i: nat): (r: Result<(Row, seq<byte>)>)
    ensures r.Success? <==> i <= MaxIndex
    ensures r.Failure? ==> r.error == IndexOutOfRange
    ensures r.Success? ==> Fits(r.value.0) && |r.value.0.key| >= IndexWidth
    ensures r.Success? ==> r.value.0.key[..IndexWidth] == EncodeIndex(i).value
    ensures r.Success? && |data| > 0 ==> |r.value.1| < |data|
    ensures r.Success? && Lawful(c) ==>
              c.decode91(Drop(r.value.0.key, IndexWidth)) + r.value.0.value + r.value.1 == data
  {
    var index :- EncodeIndex(i);
    var chunk := EncodeNearest(c, data, RowWidth - |index|);
    var row := Row(index + chunk.text, Take(chunk.rest, RowWidth));
    NearestCovers(c, data, RowWidth - |index|);
    RowCovers(c, index, chunk.text, chunk.rest, data);
    Success((row, Drop(chunk.rest, RowWidth)))
  }

  lemma RowCovers(c: Collaborators, index: string, text: string, rest: seq<byte>, data: seq<byte>)
    requires |index| == IndexWidth
    requires Lawful(c) ==> c.decode91(text) + rest == data
    ensures Lawful(c) ==> c.decode91(Drop(index + text, IndexWidth)) + Take(rest, RowWidth) + Drop(rest, RowWidth) == data
  {
    assert Drop(index + text, IndexWidth) == text;
    TakeDrop(rest, RowWidth);
  }

  /** `rows` fit and carry the indices `i`, `i + 1`, ... at the front of their keys. */
  predicate IndexedFrom(rows: seq<Row>, i: nat)
    decreases |rows|
  {
    |rows| == 0 ||
    (&& Fits(rows[0]) && |rows[0].key| >= IndexWidth
     && EncodeIndex(i).Success? && rows[0].key[..IndexWidth] == EncodeIndex(i).value
     && IndexedFrom(rows[1..], i + 1))
  }

  /**
   The fill loop from row `i`: it stops exactly when the data is empty (each row
   takes at least one byte), every row fits, row `k` carries index `i + k`, and
   the rows' payload is exactly the data.
   */
  function Fill(c: Collaborators, data: seq<byte>, i: nat): (r: Result<seq<Row>>)
    ensures r.Failure? ==> r.error == IndexOutOfRange
    ensures r == Success([]) <==> |data| == 0
    ensures r.Success? ==> IndexedFrom(r.value, i)
    ensures r.Success? && Lawful(c) ==> RowsPayload(c, r.value) == data
    decreases |data|
  {
    if |data| == 0 then Success([])
    else
      var step :- FillRow(c, data, i);
      var more :- Fill(c, step.1, i + 1);
      var rows := [step.0] + more;
      assert rows[1..] == more;
      Success(rows)
  }

  /** Row `k` of the header loop's rows is the one its `k`-th iteration writes. */
  lemma HeaderRowIn(rows: seq<Row>, header: string, mode: IndexMode, k: nat)
    requires RowsFrom(rows, HeaderRowOf(header, mode), 0) && k < |rows|
    ensures HeaderRow(header, mode, k) == Success(rows[k])
  {
    RowsFromAt(rows, HeaderRowOf(header, mode), 0, k);
  }

  lemma HeaderRowsFit(rows: seq<Row>, header: string, mode: IndexMode, j: nat)
    requires RowsFrom(rows, HeaderRowOf(header, mode), j)
    ensures AllFit(rows)
  {
    forall k | 0 <= k < |rows| ensures Fits(rows[k]) {
      RowsFromAt(rows, HeaderRowOf(header, mode), j, k);
    }
  }

  lemma {:induction false} IndexedFit(rows: seq<Row>, i: nat)
    requires IndexedFrom(rows, i)
    ensures AllFit(rows)
    decreases |rows|
  {
    if |rows| > 0 {
      IndexedFit(rows[1..], i + 1);
      assert rows == [rows[0]] + rows[1..];
      AllFitAppend([rows[0]], rows[1..]);
    }
  }

  /**
   The payload's part of `encode`: top off the last header row, then fill rows
   numbered on from there.
   */
  function Append(c: Collaborators, rows: seq<Row>, data: seq<byte>): (r: Result<seq<Row>>)
    requires |rows| >= 1 && AllFit(rows)
    ensures r.Failure? ==> r.error == IndexOutOfRange
    ensures r.Success? ==> AllFit(r.value) && |r.value| >= |rows|
  {
    var topped := TopOff(c, rows[|rows| - 1], data);
    var more :- Fill(c, topped.1, |rows|);
    IndexedFit(more, |rows|);
    AllFitAppend(rows[..|rows| - 1], [topped.0]);
    AllFitAppend(rows[..|rows| - 1] + [topped.0], more);
    Success(rows[..|rows| - 1] + [topped.0] + more)
  }

  /** Everything `encode` does after its argument checks: the header rows, then the payload. */
  function Frame(c: Collaborators, header: string, data: seq<byte>, mode: IndexMode): (r: Result<seq<Row>>)
    requires |header| > 0
    ensures r.Failure? ==> r.error == IndexOutOfRange || r.error == NotAscii
    ensures r.Success? ==> AllFit(r.value) && |r.value| >= HeaderRowCount(|header|) >= 1
  {
    var rows :- HeaderRows(header, mode, 0);
    HeaderRowsFit(rows, header, mode, 0);
    Append(c, rows, data)
  }

  /** Past its checks on the arguments, `encode` is the framing of the header and the data. */
  lemma EncodeIsFrame(c: Collaborators, data: seq<byte>, mts: seq<Descriptor>, mode: IndexMode)
    requires |data| < MaxPayload && SizesDeclared(mts) && Renderable(mts)
    ensures Encode(c, data, mts, mode) == Frame(c, Header(mts), data, mode)
  {
  }

  /**
   `encode(data, *media_types)`. Fails with PayloadTooLarge exactly for 126000
   bytes or more, otherwise with MissingSize exactly when a media type other than
   the last lacks `s`, otherwise with ReservedParam exactly when a parameter is
   named `media_type`; every row it returns fits 64/64, and the header rows come first.
   */
  function Encode(c: Collaborators, data: seq<byte>, mts: seq<Descriptor>, mode: IndexMode): (r: Result<seq<Row>>)
    ensures r == Failure(PayloadTooLarge) <==> |data| >= MaxPayload
    ensures |data| < MaxPayload ==> (r == Failure(MissingSize) <==> !SizesDeclared(mts))
    ensures |data| < MaxPayload && SizesDeclared(mts) ==> (r == Failure(ReservedParam) <==> !Renderable(mts))
    ensures r.Success? ==> AllFit(r.value)
    ensures r.Success? ==> |r.value| >= HeaderRowCount(|Header(mts)|) >= 1
  {
    if |data| >= MaxPayload then Failure(PayloadTooLarge)
    else if !SizesDeclared(mts) then Failure(MissingSize)
    else if !Renderable(mts) then Failure(ReservedParam)
    else Frame(c, Header(mts), data, mode)
  }
}
