/**
 A decoder that reads the layout `encode` writes: the header 126 characters
 per row (after each row's index), the payload from just after the header in
 the header's last row, and checksums compared as numbers. It keeps the
 source's checks and error tags; with it, decoding what `encode` produced gives
 back the media types and the data.
 */
module CorrectedDecoder {
  import opened Slices
  import opened Results
  import opened Text
  import opened Collaborators
  import opened MediaType
  import opened RowIndex
  import opened Layout
  import opened Encoder
  import opened Lossless
  import opened Attachments
  import opened Decoder

  /** The media types and the whole payload, before it is cut into attachments. */
  datatype Unframed = Unframed(mediaTypes: seq<Descriptor>, payload: seq<byte>)

  /**
   Row 0's prefix and metadata length, then the header and the payload as the
   encoder laid them out. Fails like the source on no rows, a wrong prefix, a
   bad length, too few rows, non-ASCII metadata, a short header or a malformed
   parameter.
   */
  function ReadFrame(c: Collaborators, rows: seq<Row>): (r: Result<Unframed>)
    ensures |rows| == 0 ==> r == Failure(MissingRow)
    ensures |rows| >= 1 && Take(rows[0].key, 3) != Prefix ==> r == Failure(BadPrefix)
    ensures r.Failure? ==> r.error in {MissingRow, BadPrefix, BadLength, NotAscii, MetadataLengthMismatch, MalformedParam}
    ensures r.Success? ==> |r.value.mediaTypes| >= 1
  {
    if |rows| == 0 then Failure(MissingRow)
    else if Take(rows[0].key, 3) != Prefix then Failure(BadPrefix)
    else
      var len :- LengthField(rows[0].key);
      var hlen := |Prefix| - IndexWidth + 6 + len;
      if |rows| < HeaderRowCount(hlen) then Failure(MissingRow)
      else
        var header :- ReadHeader(rows, hlen, 0);
        if |header| != hlen then Failure(MetadataLengthMismatch)
        else
          var mediaTypes :- ParseMetadata(header[7..]);
          Success(Unframed(mediaTypes, ReadPayload(c, rows, hlen)))
  }

  /**
   `decode` with the frame read as laid out and each declared checksum
   compared with the CRC32 of its attachment as a number.
   */
  function Decode(c: Collaborators, rows: seq<Row>): (r: Result<Decoded>)
    ensures |rows| == 0 ==> r == Failure(MissingRow)
    ensures r.Failure? ==> r.error != CountMismatch
    ensures r.Success? ==> |r.value.attachments| == |r.value.mediaTypes| >= 1
    ensures r.Success? ==> forall i :: 0 <= i < |r.value.mediaTypes| && Lookup(r.value.mediaTypes[i].params, "c").Some? ==>
              ParseDecimal(Lookup(r.value.mediaTypes[i].params, "c").value) == Some(c.crc32(r.value.attachments[i]))
  {
    var frame :- ReadFrame(c, rows);
    var attachments :- Attach(frame.mediaTypes, frame.payload, c.crc32, Corrected);
    assert forall i :: 0 <= i < |frame.mediaTypes| ==>
      Passes(Corrected, frame.mediaTypes[i].params, attachments[i], c.crc32);
    Success(Decoded(frame.mediaTypes, attachments))
  }

  /** A key that starts with index `00` and a header opens with the prefix and the length field. */
  lemma KeyOpens(key: string, header: string, len: nat)
    requires |header| >= 7 && header[0] == '1'
    requires ParseDecimal(header[1..7]) == Some(len) && len < MaxMetadata
    requires Take(key, IndexWidth + |KeyChunk(header, 0)|) == "00" + KeyChunk(header, 0)
    ensures Take(key, 3) == Prefix && LengthField(key) == Success(len)
  {
    assert key[..9] == "00" + header[..7];
    assert Between(key, 3, 9) == header[1..7];
  }

  /** Header row 0 is numbered `00` in either numbering. */
  lemma FirstWritten(header: string, mode: IndexMode, w: Row)
    requires HeaderRow(header, mode, 0) == Success(w)
    ensures w.key == "00" + KeyChunk(header, 0)
  {
    assert HeaderIndex(mode, 0) == 0;
    assert Alphabet(0) == '0';
  }

  /** Row 0 of `encode`'s output opens with index `00`, the version and the metadata length. */
  lemma FirstRowKey(c: Collaborators, data: seq<byte>, mts: seq<Descriptor>, mode: IndexMode, rows: seq<Row>)
    requires Encode(c, data, mts, mode) == Success(rows)
    requires |RenderMetadata(mts)| < MaxMetadata
    ensures |rows| >= 1 && Take(rows[0].key, 3) == Prefix
    ensures LengthField(rows[0].key) == Success(|RenderMetadata(mts)|)
  {
    var header := Header(mts);
    EncodedHeaderRow(c, data, mts, mode, rows, 0);
    var w := HeaderRow(header, mode, 0).value;
    FirstWritten(header, mode, w);
    KeyOpens(rows[0].key, header, |RenderMetadata(mts)|);
  }

  /** The steps of `ReadFrame` on rows that hold a header with well-formed metadata. */
  lemma ReadFrameOf(c: Collaborators, rows: seq<Row>, header: string, ds: seq<Descriptor>)
    requires |header| >= 7 && HeaderRowCount(|header|) <= |rows| && |rows| >= 1
    requires Take(rows[0].key, 3) == Prefix && LengthField(rows[0].key) == Success(|header| - 7)
    requires ReadHeader(rows, |header|, 0) == Success(header)
    requires ParseMetadata(header[7..]) == Success(ds)
    ensures ReadFrame(c, rows) == Success(Unframed(ds, ReadPayload(c, rows, |header|)))
  {
    assert |Prefix| - IndexWidth + 6 + (|header| - 7) == |header|;
  }

  /**
   Reading back what `encode` wrote, in either numbering, gives the media
   types (a lone empty one when none was given) and, basE91 being lawful, the
   data.
   */
  lemma FrameRoundTrip(c: Collaborators, data: seq<byte>, mts: seq<Descriptor>, mode: IndexMode, rows: seq<Row>)
    requires Encode(c, data, mts, mode) == Success(rows)
    requires AllClean(mts) && |RenderMetadata(mts)| < MaxMetadata
    ensures ReadFrame(c, rows).Success?
    ensures ReadFrame(c, rows).value.mediaTypes == Normalize(mts)
    ensures Lawful(c) ==> ReadFrame(c, rows).value.payload == data
  {
    FirstRowKey(c, data, mts, mode, rows);
    EncodeLossless(c, data, mts, mode, rows);
    ParseRender(mts);
    ReadFrameOf(c, rows, Header(mts), Normalize(mts));
  }

  /**
   The full round trip: with sizes readable and every declared checksum the
   decimal CRC32 of its attachment, decoding gives the media types and the
   data cut by the sizes; when the last media type declares no size, the
   attachments joined are the data.
   */
  lemma RoundTrip(c: Collaborators, data: seq<byte>, mts: seq<Descriptor>, mode: IndexMode, rows: seq<Row>)
    requires Encode(c, data, mts, mode) == Success(rows)
    requires AllClean(mts) && |RenderMetadata(mts)| < MaxMetadata
    requires Lawful(c) && Sized(Normalize(mts))
    requires forall i :: 0 <= i < |Normalize(mts)| && Lookup(Normalize(mts)[i].params, "c").Some? ==>
               ParseDecimal(Lookup(Normalize(mts)[i].params, "c").value) == Some(c.crc32(Cut(Normalize(mts), data)[i]))
    ensures Decode(c, rows) == Success(Decoded(Normalize(mts), Cut(Normalize(mts), data)))
    ensures Lookup(Normalize(mts)[|Normalize(mts)| - 1].params, "s").None? ==> Concat(Cut(Normalize(mts), data)) == data
  {
    FrameRoundTrip(c, data, mts, mode, rows);
    CheckedDecode(c, rows, Normalize(mts), data);
  }

  /**
   `Decode` on rows whose frame reads back, every declared checksum matching:
   the payload cut by the sizes, which join to the whole payload when the
   last media type declares no size.
   */
  lemma CheckedDecode(c: Collaborators, rows: seq<Row>, ds: seq<Descriptor>, data: seq<byte>)
    requires ReadFrame(c, rows).Success?
    requires ReadFrame(c, rows).value.mediaTypes == ds && ReadFrame(c, rows).value.payload == data
    requires Sized(ds) && |ds| >= 1
    requires forall i :: 0 <= i < |ds| && Lookup(ds[i].params, "c").Some? ==>
               ParseDecimal(Lookup(ds[i].params, "c").value) == Some(c.crc32(Cut(ds, data)[i]))
    ensures Decode(c, rows) == Success(Decoded(ds, Cut(ds, data)))
    ensures Lookup(ds[|ds| - 1].params, "s").None? ==> Concat(Cut(ds, data)) == data
  {
    CorrectedAcceptsMatching(ds, data, c.crc32);
    if Lookup(ds[|ds| - 1].params, "s").None? {
      AttachmentsJoin(ds, data);
    }
  }

  /** When the last media type declares no size, the attachments joined are the whole payload. */
  lemma AttachmentsJoin(ds: seq<Descriptor>, data: seq<byte>)
    requires Sized(ds) && |ds| >= 1 && Lookup(ds[|ds| - 1].params, "s").None?
    ensures Concat(Cut(ds, data)) == data
  {
    CutCovers(ds, data);
    LastTakesRest(ds, data);
  }
}
