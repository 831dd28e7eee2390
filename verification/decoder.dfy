/**
 `decode(rows)` as the source writes it: the metadata length from row 0's key,
 the metadata read 126 characters per row, the media types parsed, the payload
 read from a position computed as if rows held 128 characters, and the
 attachments cut by size. Where this reading disagrees with the encoder's
 layout is stated in module Findings; module CorrectedDecoder reads the layout
 the encoder writes.
 */
module Decoder {
  import opened Slices
  import opened Results
  import opened Text
  import opened Collaborators
  import opened MediaType
  import opened Layout
  import opened Attachments

  /** Metadata lengths at or above this are refused. */
  const MaxMetadata: nat := 126000

  /** The media types and one attachment per media type. */
  datatype Decoded = Decoded(mediaTypes: seq<Descriptor>, attachments: seq<seq<byte>>)

  /** `"001"`: index `00` of row 0 and format version `1`. */
  const Prefix: string := "001"

  /** `int(key1[3:9], 10)`, refused unless below 126000. */
  function LengthField(key: string): (r: Result<nat>)
    ensures r.Success? <==> ParseDecimal(Between(key, 3, 9)).Some? && ParseDecimal(Between(key, 3, 9)).value < MaxMetadata
    ensures r.Success? ==> r.value == ParseDecimal(Between(key, 3, 9)).value
    ensures r.Failure? ==> r.error == BadLength
  {
    var n :- Need(ParseDecimal(Between(key, 3, 9)), BadLength);
    if n < MaxMetadata then Success(n) else Failure(BadLength)
  }

  /** The loop over rows `1..1+r`: each whole key, then its value decoded as ASCII. */
  function WholeRows(rows: seq<Row>): (r: Result<string>)
    ensures r.Success? <==> forall k :: 0 <= k < |rows| ==> AllAsciiBytes(rows[k].value)
    ensures r.Failure? ==> r.error == NotAscii
    ensures r.Success? ==>
              (forall k :: 0 <= k < |rows| ==> |rows[k].key| == RowWidth && |rows[k].value| == RowWidth)
              ==> |r.value| == 2 * RowWidth * |rows|
    decreases |rows|
  {
    if |rows| == 0 then Success("")
    else
      var value :- Need(FromAscii(rows[0].value), NotAscii);
      var more :- WholeRows(rows[1..]);
      assert forall k :: 1 <= k < |rows| ==> rows[k] == rows[1..][k - 1];
      Success(rows[0].key + value + more)
  }

  /**
   The `rem > 0` branch: `divmod(rem, 126)` whole rows after row 0, then `c`
   characters of the next row, `key[:c]` and `value[:max(0, c - 64)]`. A
   missing row is an index error.
   */
  function Continuation(rows: seq<Row>, rem: nat): (r: Result<string>)
    ensures r.Failure? ==> r.error == NotAscii || r.error == MissingRow
    ensures r.Success? ==> 1 + rem / HeaderRowChars < |rows|
  {
    var r := rem / HeaderRowChars;
    var c := rem % HeaderRowChars;
    var whole :- WholeRows(Between(rows, 1, 1 + r));
    if 1 + r >= |rows| then Failure(MissingRow)
    else
      var row := rows[1 + r];
      var tail :- Need(FromAscii(Take(row.value, Max(0, c - RowWidth))), NotAscii);
      Success(whole + Take(row.key, c) + tail)
  }

  /**
   Row 0's share of the metadata: up to `len` characters of its key after the
   prefix and length, then as many as are still missing from its value,
   decoded as ASCII.
   */
  function RowZero(rows: seq<Row>, len: nat): (r: Result<string>)
    requires |rows| >= 1
    ensures r.Success? ==> |r.value| <= len
    ensures r.Success? ==> |r.value| == Min(len, |Drop(rows[0].key, |Prefix| + 6)| + |rows[0].value|)
    ensures r.Failure? ==> r.error == NotAscii
  {
    var first := Take(Drop(rows[0].key, |Prefix| + 6), len);
    var more :- Need(FromAscii(Take(rows[0].value, len - |first|)), NotAscii);
    Success(first + more)
  }

  /** Row 0's share `m`, followed by `Continuation` when it is shorter than `len`. */
  function Completed(rows: seq<Row>, m: string, len: nat): (r: Result<string>)
    ensures r.Success? ==> |m| <= |r.value| && r.value[..|m|] == m
    ensures |m| >= len ==> r == Success(m)
    ensures r.Failure? ==> r.error == NotAscii || r.error == MissingRow
  {
    if |m| < len then
      var cont :- Continuation(rows, len - |m|);
      Success(m + cont)
    else Success(m)
  }

  /**
   The metadata text: up to `len` characters of row 0's key after the prefix
   and length, then of its value, then `Continuation` for what is missing; the
   result must have exactly `len` characters.
   */
  function ReadMetadata(rows: seq<Row>, len: nat): (r: Result<string>)
    requires |rows| >= 1
    ensures r.Success? ==> |r.value| == len
    ensures r.Failure? ==> r.error in {NotAscii, MissingRow, MetadataLengthMismatch}
  {
    var m :- RowZero(rows, len);
    var metadata :- Completed(rows, m, len);
    if |metadata| != len then Failure(MetadataLengthMismatch) else Success(metadata)
  }

  /**
   The payload as read: `divmod(9 + |metadata|, 128)` names a row and a column;
   basE91 text from key position `2 + c` and bytes from value position
   `max(0, c - 64)` of that row, then every later row whole.
   */
  function ReadBinary(c: Collaborators, rows: seq<Row>, n: nat): (r: Result<seq<byte>>)
    ensures r.Success? <==> n / (2 * RowWidth) < |rows|
    ensures r.Failure? ==> r.error == MissingRow
  {
    var r := n / (2 * RowWidth);
    var col := n % (2 * RowWidth);
    if r >= |rows| then Failure(MissingRow)
    else
      Success(c.decode91(Drop(rows[r].key, IndexWidth + col))
        + Drop(rows[r].value, Max(0, col - RowWidth))
        + RowsPayload(c, rows[r + 1..]))
  }

  /**
   `decode` from the metadata on, given the metadata length read from row 0:
   the metadata text, the media types, the payload and the attachments.
   */
  function DecodeFrom(c: Collaborators, rows: seq<Row>, len: nat): (r: Result<Decoded>)
    requires |rows| >= 1
    ensures r.Failure? ==> r.error != CountMismatch
    ensures r.Success? ==> |r.value.attachments| == |r.value.mediaTypes| >= 1
    ensures r.Success? ==> forall i :: 0 <= i < |r.value.mediaTypes| ==> Lookup(r.value.mediaTypes[i].params, "c").None?
  {
    var metadata :- ReadMetadata(rows, len);
    var mediaTypes :- ParseMetadata(metadata);
    var binary :- ReadBinary(c, rows, |Prefix| + 6 + |metadata|);
    var attachments :- Attach(mediaTypes, binary, c.crc32, AsWritten);
    assert forall i :: 0 <= i < |mediaTypes| ==> Passes(AsWritten, mediaTypes[i].params, attachments[i], c.crc32);
    if |attachments| != |mediaTypes| then Failure(CountMismatch)
    else Success(Decoded(mediaTypes, attachments))
  }

  /**
   `decode(rows)`. Fails on no rows, a wrong prefix, a bad length, metadata of
   the wrong length or not ASCII, a malformed parameter, a missing row, a bad
   size or a declared checksum; the final count check can never fire.
   */
  function Decode(c: Collaborators, rows: seq<Row>): (r: Result<Decoded>)
    ensures |rows| == 0 ==> r == Failure(MissingRow)
    ensures |rows| >= 1 && Take(rows[0].key, 3) != Prefix ==> r == Failure(BadPrefix)
    ensures |rows| >= 1 && Take(rows[0].key, 3) == Prefix && LengthField(rows[0].key).Failure? ==> r == Failure(BadLength)
    ensures r.Failure? ==> r.error != CountMismatch
    ensures r.Success? ==> |r.value.attachments| == |r.value.mediaTypes| >= 1
    ensures r.Success? ==> forall i :: 0 <= i < |r.value.mediaTypes| ==> Lookup(r.value.mediaTypes[i].params, "c").None?
  {
    if |rows| == 0 then Failure(MissingRow)
    else if Take(rows[0].key, 3) != Prefix then Failure(BadPrefix)
    else
      var len :- LengthField(rows[0].key);
      DecodeFrom(c, rows, len)
  }
}
