/**
 Where `decode` as written does not read what `encode` writes. Each lemma here
 shows the discrepancy on the as-written decoder (module Decoder); module
 CorrectedDecoder proves the intended round trip.
 */
module Findings {
  import opened Slices
  import opened Results
  import opened Text
  import opened Collaborators
  import opened MediaType
  import opened RowIndex
  import opened Nearest
  import opened Layout
  import opened Encoder
  import opened Lossless
  import opened Attachments
  import Decoder
  import CorrectedDecoder

  /** Header row `k` of `encode`'s output, and the row the header loop wrote for it. */
  lemma HeaderRowAt(c: Collaborators, data: seq<byte>, mts: seq<Descriptor>, mode: IndexMode, rows: seq<Row>, k: nat)
      returns (w: Row)
    requires Encode(c, data, mts, mode) == Success(rows)
    requires k < HeaderRowCount(|Header(mts)|)
    ensures k < |rows| && Fits(rows[k]) && HeaderRow(Header(mts), mode, k) == Success(w)
    ensures Take(rows[k].key, |w.key|) == w.key && Take(rows[k].value, |w.value|) == w.value
    ensures data == [] ==> |rows| == HeaderRowCount(|Header(mts)|)
  {
    EncodedHeaderRow(c, data, mts, mode, rows, k);
    w := HeaderRow(Header(mts), mode, k).value;
  }

  /**
   Row 0 when the header fills it: the 55 metadata characters after the
   prefix and length in the key, then 64 in the value.
   */
  lemma FirstRowRead(row: Row, w: Row, header: string, mode: IndexMode)
    requires |header| >= HeaderRowChars
    requires HeaderRow(header, mode, 0) == Success(w) && Fits(row)
    requires Take(row.key, |w.key|) == w.key && Take(row.value, |w.value|) == w.value
    ensures row == w
    ensures Take(Drop(row.key, 9), |header| - 7) == header[7..HeaderKeyChars]
    ensures FromAscii(Take(row.value, |header| - HeaderKeyChars)) == Some(header[HeaderKeyChars..HeaderRowChars])
  {
    HeaderRowSize(header, mode, 0, w);
    assert row.key == w.key && row.value == w.value;
    CorrectedDecoder.FirstWritten(header, mode, w);
    assert Drop(row.key, 9) == header[7..HeaderKeyChars];
    assert ValueChunk(header, 0) == header[HeaderKeyChars..HeaderRowChars];
    AsciiRoundTrip(ValueChunk(header, 0));
    assert Take(row.value, |header| - HeaderKeyChars) == row.value;
  }

  /**
   The key of row 1 when the header ends in it, `rem` characters in: its first
   `rem` characters, then `rem - 64` header characters of the value, are the
   row's index followed by the first `rem - 2` header characters it carries.
   */
  lemma SecondKeyRead(key: string, index: string, header: string, rem: nat)
    requires 1 <= rem < HeaderRowChars && |header| == HeaderRowChars + rem
    requires |index| == IndexWidth && |key| <= RowWidth
    requires Take(key, IndexWidth + |KeyChunk(header, 1)|) == index + KeyChunk(header, 1)
    ensures Take(key, IndexWidth) == index
    ensures Take(key, rem) + Take(ValueChunk(header, 1), Max(0, rem - RowWidth))
              == Take(index + header[HeaderRowChars..], rem)
  {
    var w := index + KeyChunk(header, 1);
    TakeOfPrefix(key, w, IndexWidth);
    if rem <= HeaderKeyChars {
      TakeOfPrefix(key, w, rem);
      assert KeyChunk(header, 1) == header[HeaderRowChars..];
    } else {
      assert key == w;
      assert header[HeaderRowChars..] == KeyChunk(header, 1) + ValueChunk(header, 1);
    }
  }

  /** The value of row 1: its first `rem - 64` bytes are ASCII header characters. */
  lemma SecondValueRead(value: seq<byte>, written: seq<byte>, header: string, rem: nat)
    requires 1 <= rem < HeaderRowChars && |header| == HeaderRowChars + rem
    requires ToAscii(ValueChunk(header, 1)) == Some(written) && Take(value, |written|) == written
    ensures FromAscii(Take(value, Max(0, rem - RowWidth))) == Some(Take(ValueChunk(header, 1), Max(0, rem - RowWidth)))
  {
    var n := Max(0, rem - RowWidth);
    TakeOfPrefix(value, written, n);
    AsciiRoundTrip(ValueChunk(header, 1));
    FromAsciiTake(written, n);
  }

  /** The metadata as the header carries it. */
  lemma HeaderSlices(header: string, m: string)
    requires |header| == 7 + |m| && header[7..] == m && |m| >= 119
    ensures header[7..HeaderRowChars] == m[..119] && header[HeaderRowChars..] == m[119..]
  {
  }

  /** `Continuation` when the metadata ends in row 1. */
  lemma ContinuationOne(rows: seq<Row>, rem: nat)
    requires 1 <= rem < HeaderRowChars && |rows| >= 2
    requires AllAsciiBytes(Take(rows[1].value, Max(0, rem - RowWidth)))
    ensures Decoder.Continuation(rows, rem)
              == Success(Take(rows[1].key, rem) + FromAscii(Take(rows[1].value, Max(0, rem - RowWidth))).value)
  {
    assert rem / HeaderRowChars == 0 && rem % HeaderRowChars == rem;
    assert Between(rows, 1, 1) == [];
    assert Decoder.WholeRows(Between(rows, 1, 1)) == Success("");
    var tail := FromAscii(Take(rows[1].value, Max(0, rem - RowWidth))).value;
    assert Need(FromAscii(Take(rows[1].value, Max(0, rem - RowWidth))), NotAscii) == Success(tail);
    assert "" + Take(rows[1].key, rem) + tail == Take(rows[1].key, rem) + tail;
  }

  /** `ReadMetadata` on two rows read as above. */
  lemma ContinuationRead(rows: seq<Row>, header: string, len: nat)
    requires 120 <= len < 245 && |header| == 7 + len && |rows| >= 2
    requires Take(Drop(rows[0].key, 9), len) == header[7..HeaderKeyChars]
    requires FromAscii(Take(rows[0].value, len - 55)) == Some(header[HeaderKeyChars..HeaderRowChars])
    requires FromAscii(Take(rows[1].value, Max(0, len - 119 - RowWidth)))
               == Some(Take(ValueChunk(header, 1), Max(0, len - 119 - RowWidth)))
    requires Take(rows[1].key, len - 119) + Take(ValueChunk(header, 1), Max(0, len - 119 - RowWidth))
               == Take(Take(rows[1].key, IndexWidth) + header[HeaderRowChars..], len - 119)
    ensures Decoder.ReadMetadata(rows, len)
              == Success(header[7..HeaderRowChars] + Take(Take(rows[1].key, IndexWidth) + header[HeaderRowChars..], len - 119))
  {
    var first := header[7..HeaderKeyChars];
    var more := header[HeaderKeyChars..HeaderRowChars];
    var x := Take(rows[1].key, IndexWidth) + header[HeaderRowChars..];
    var cont := Take(x, len - 119);
    SliceJoin(header, 7, HeaderKeyChars, HeaderRowChars);
    assert |first| == 55 && |more| == 64;
    assert |header[HeaderRowChars..]| == len - 119;
    assert |Decoder.Prefix| + 6 == 9;
    ContinuationOne(rows, len - 119);
    var tail := Take(ValueChunk(header, 1), Max(0, len - 119 - RowWidth));
    assert FromAscii(Take(rows[1].value, Max(0, len - 119 - RowWidth))).value == tail;
    assert Take(rows[1].key, len - 119) + tail == cont;
    assert |first + more| == 119 && |cont| == len - 119;
    RowZeroParts(rows, len, first, more);
    MetadataParts(rows, len, first + more, cont);
  }

  /** `ReadMetadata` when row 0 gives `m` and `Continuation` the `cont` still missing. */
  lemma MetadataParts(rows: seq<Row>, len: nat, m: string, cont: string)
    requires |rows| >= 1 && |m| < len && |m| + |cont| == len
    requires Decoder.RowZero(rows, len) == Success(m)
    requires Decoder.Continuation(rows, len - |m|) == Success(cont)
    ensures Decoder.ReadMetadata(rows, len) == Success(m + cont)
  {
    assert Decoder.Completed(rows, m, len) == Success(m + cont);
  }

  /** `ReadMetadata` when row 0 holds all of the metadata. */
  lemma MetadataWhole(rows: seq<Row>, len: nat, m: string)
    requires |rows| >= 1 && |m| == len && Decoder.RowZero(rows, len) == Success(m)
    ensures Decoder.ReadMetadata(rows, len) == Success(m)
  {
    assert Decoder.Completed(rows, m, len) == Success(m);
  }

  /** Row 0 gives `first` from its key and `more` from its value. */
  lemma RowZeroParts(rows: seq<Row>, len: nat, first: string, more: string)
    requires |rows| >= 1
    requires Take(Drop(rows[0].key, |Decoder.Prefix| + 6), len) == first
    requires FromAscii(Take(rows[0].value, len - |first|)) == Some(more)
    ensures Decoder.RowZero(rows, len) == Success(first + more)
  {
  }

  /**
   The metadata as the as-written decoder reads it back when it ends in row 1:
   the first 119 characters, then the row's two index characters, then the
   rest, cut to the metadata's length.
   */
  function Misread(m: string, key: string): (r: string)
    requires |m| >= 119
    ensures |r| <= |m|
    ensures |key| >= IndexWidth ==> |r| == |m|
  {
    m[..119] + Take(Take(key, IndexWidth) + m[119..], |m| - 119)
  }

  /**
   With 120 to 244 characters of metadata, the as-written decoder reads the
   metadata's first 119 characters, then row 1's index in place of two of the
   remaining characters, dropping the last two.
   */
  lemma ContinuationAsWritten(c: Collaborators, data: seq<byte>, mts: seq<Descriptor>, mode: IndexMode, rows: seq<Row>)
    requires Encode(c, data, mts, mode) == Success(rows)
    requires 120 <= |RenderMetadata(mts)| < 245
    ensures |rows| >= 2 && Take(rows[1].key, IndexWidth) == EncodeIndex(HeaderIndex(mode, 1)).value
    ensures |rows[1].key| >= IndexWidth && IsIndexChar(rows[1].key[0])
    ensures Decoder.ReadMetadata(rows, |RenderMetadata(mts)|) == Success(Misread(RenderMetadata(mts), rows[1].key))
  {
    var w0 := HeaderRowAt(c, data, mts, mode, rows, 0);
    var w1 := HeaderRowAt(c, data, mts, mode, rows, 1);
    TwoRowsRead(rows, w0, w1, Header(mts), mode, RenderMetadata(mts));
  }

  /** The reading above, on two rows that start with header rows 0 and 1 of a header carrying `m`. */
  lemma TwoRowsRead(rows: seq<Row>, w0: Row, w1: Row, header: string, mode: IndexMode, m: string)
    requires 120 <= |m| < 245 && |header| == 7 + |m| && header[7..] == m
    requires |rows| >= 2 && Fits(rows[0]) && Fits(rows[1])
    requires HeaderRow(header, mode, 0) == Success(w0) && HeaderRow(header, mode, 1) == Success(w1)
    requires Take(rows[0].key, |w0.key|) == w0.key && Take(rows[0].value, |w0.value|) == w0.value
    requires Take(rows[1].key, |w1.key|) == w1.key && Take(rows[1].value, |w1.value|) == w1.value
    ensures Take(rows[1].key, IndexWidth) == EncodeIndex(HeaderIndex(mode, 1)).value
    ensures |rows[1].key| >= IndexWidth && IsIndexChar(rows[1].key[0])
    ensures Decoder.ReadMetadata(rows, |m|) == Success(Misread(m, rows[1].key))
  {
    FirstRowRead(rows[0], w0, header, mode);
    SecondKeyRead(rows[1].key, EncodeIndex(HeaderIndex(mode, 1)).value, header, |m| - 119);
    SecondValueRead(rows[1].value, w1.value, header, |m| - 119);
    ContinuationRead(rows, header, |m|);
    HeaderSlices(header, m);
  }

  /** An index character where the written metadata has none is a different metadata. */
  lemma IndexCharDiffers(m: string, key: string)
    requires |m| >= 120 && !IsIndexChar(m[119])
    requires |key| >= IndexWidth && IsIndexChar(key[0])
    ensures Misread(m, key) != m
  {
    assert Misread(m, key)[119] == key[0];
  }

  /**
   So whenever the metadata's 120th character is not one an index can
   contain (an upper-case letter or punctuation, say), the metadata read back
   differs from the metadata written.
   */
  lemma ContinuationGarbles(c: Collaborators, data: seq<byte>, mts: seq<Descriptor>, mode: IndexMode, rows: seq<Row>)
    requires Encode(c, data, mts, mode) == Success(rows)
    requires 120 <= |RenderMetadata(mts)| < 245 && !IsIndexChar(RenderMetadata(mts)[119])
    ensures Decoder.ReadMetadata(rows, |RenderMetadata(mts)|) != Success(RenderMetadata(mts))
  {
    ContinuationAsWritten(c, data, mts, mode, rows);
    IndexCharDiffers(RenderMetadata(mts), rows[1].key);
  }

  /** `ReadMetadata` on a row holding a 126-character header. */
  lemma FullRowMetadata(rows: seq<Row>, header: string)
    requires |rows| >= 1 && |header| == HeaderRowChars
    requires Take(Drop(rows[0].key, 9), 119) == header[7..HeaderKeyChars]
    requires FromAscii(Take(rows[0].value, 119 - 55)) == Some(header[HeaderKeyChars..HeaderRowChars])
    ensures Decoder.ReadMetadata(rows, 119) == Success(header[7..])
  {
    assert header[7..HeaderKeyChars] + header[HeaderKeyChars..HeaderRowChars] == header[7..];
    assert |Decoder.Prefix| + 6 == 9;
  }

  /** `decode` on a single row holding a 126-character header. */
  lemma OneFullRowRead(c: Collaborators, rows: seq<Row>, metadata: string)
    requires |rows| == 1 && |metadata| == 119
    requires Take(rows[0].key, 3) == Decoder.Prefix && Decoder.LengthField(rows[0].key) == Success(119)
    requires Decoder.ReadMetadata(rows, 119) == Success(metadata)
    requires ParseMetadata(metadata).Success?
    ensures Decoder.Decode(c, rows) == Failure(MissingRow)
  {
    assert Decoder.ReadBinary(c, rows, |Decoder.Prefix| + 6 + 119) == Failure(MissingRow);
  }

  /**
   With exactly 119 characters of metadata the header fills row 0, and with
   no payload nothing follows it; the as-written decoder then looks for the
   payload in row 1, which does not exist.
   */
  lemma FullRowNoPayload(c: Collaborators, mts: seq<Descriptor>, mode: IndexMode, rows: seq<Row>)
    requires Encode(c, [], mts, mode) == Success(rows)
    requires AllClean(mts) && |RenderMetadata(mts)| == 119
    ensures Decoder.Decode(c, rows) == Failure(MissingRow)
  {
    var header := Header(mts);
    var w0 := HeaderRowAt(c, [], mts, mode, rows, 0);
    FirstRowRead(rows[0], w0, header, mode);
    CorrectedDecoder.FirstRowKey(c, [], mts, mode, rows);
    ParseRender(mts);
    FullRowMetadata(rows, header);
    OneFullRowRead(c, rows, header[7..]);
  }
  /**
   The as-written reading of a header that ends in row 0's value: the
   metadata comes out whole, and the payload is read from where the encoder
   put it, the key being full.
   */
  lemma ShortHeaderRead(c: Collaborators, rows: seq<Row>, header: string)
    requires HeaderKeyChars <= |header| < HeaderRowChars && |rows| >= 1 && |rows[0].key| == RowWidth
    requires Take(Drop(rows[0].key, 9), |header| - 7) == header[7..HeaderKeyChars]
    requires FromAscii(Take(rows[0].value, |header| - HeaderKeyChars)) == Some(header[HeaderKeyChars..])
    ensures Decoder.ReadMetadata(rows, |header| - 7) == Success(header[7..])
    ensures Decoder.ReadBinary(c, rows, 9 + (|header| - 7)) == Success(ReadPayload(c, rows, |header|))
  {
    SliceJoin(header, 7, HeaderKeyChars, |header|);
    assert header[7..HeaderKeyChars] + header[HeaderKeyChars..] == header[7..];
    assert |Decoder.Prefix| + 6 == 9;
    RowZeroParts(rows, |header| - 7, header[7..HeaderKeyChars], header[HeaderKeyChars..]);
    MetadataWhole(rows, |header| - 7, header[7..]);
    assert 9 + (|header| - 7) == |header| + IndexWidth;
    ShortPayloadRead(c, rows, |header|);
  }

  /** With the header ending in row 0's value, the as-written payload position is the encoder's. */
  lemma ShortPayloadRead(c: Collaborators, rows: seq<Row>, hlen: nat)
    requires HeaderKeyChars <= hlen < HeaderRowChars && |rows| >= 1 && |rows[0].key| == RowWidth
    ensures HeaderRowCount(hlen) == 1
    ensures Decoder.ReadBinary(c, rows, hlen + IndexWidth) == Success(ReadPayload(c, rows, hlen))
  {
    assert HeaderRowCount(hlen) == 1;
    assert KeyWant(hlen, 0) == HeaderKeyChars && ValueWant(hlen, 0) == hlen - HeaderKeyChars;
    ReadBinaryFirst(c, rows, hlen + IndexWidth);
    assert Drop(rows[0].key, IndexWidth + (hlen + IndexWidth)) == [] == Drop(rows[0].key, IndexWidth + HeaderKeyChars);
    assert Max(0, hlen + IndexWidth - RowWidth) == hlen - HeaderKeyChars;
    assert rows[1..] == rows[0 + 1..];
  }

  /** `ReadBinary` when the payload starts in row 0: from column `n` on, then every later row. */
  lemma ReadBinaryFirst(c: Collaborators, rows: seq<Row>, n: nat)
    requires |rows| >= 1 && n < 2 * RowWidth
    ensures Decoder.ReadBinary(c, rows, n)
              == Success(c.decode91(Drop(rows[0].key, IndexWidth + n)) + Drop(rows[0].value, Max(0, n - RowWidth))
                   + RowsPayload(c, rows[1..]))
  {
    assert n / (2 * RowWidth) == 0 && n % (2 * RowWidth) == n;
  }

  /**
   Row 0 when the header ends in it past the key: the key is full, and the
   metadata is the key's characters after the prefix and length, then the
   value's first `|header| - 62` characters.
   */
  lemma FirstRowShort(row: Row, header: string, mode: IndexMode)
    requires HeaderKeyChars <= |header| < HeaderRowChars
    requires HeaderRow(header, mode, 0).Success? && |row.key| <= RowWidth
    requires Take(row.key, |HeaderRow(header, mode, 0).value.key|) == HeaderRow(header, mode, 0).value.key
    requires Take(row.value, |HeaderRow(header, mode, 0).value.value|) == HeaderRow(header, mode, 0).value.value
    ensures |row.key| == RowWidth
    ensures Take(Drop(row.key, 9), |header| - 7) == header[7..HeaderKeyChars]
    ensures FromAscii(Take(row.value, |header| - HeaderKeyChars)) == Some(header[HeaderKeyChars..])
  {
    var w := HeaderRow(header, mode, 0).value;
    HeaderRowSize(header, mode, 0, w);
    assert row.key == w.key;
    AsciiRoundTrip(ValueChunk(header, 0));
  }

  /** Row 0 of `encode`'s output when the header ends in it, past its key. */
  lemma MiddleFirstRow(c: Collaborators, data: seq<byte>, mts: seq<Descriptor>, mode: IndexMode, rows: seq<Row>)
    requires Encode(c, data, mts, mode) == Success(rows)
    requires 55 <= |RenderMetadata(mts)| <= 118
    ensures |rows| >= 1 && |rows[0].key| == RowWidth
    ensures Take(Drop(rows[0].key, 9), |Header(mts)| - 7) == Header(mts)[7..HeaderKeyChars]
    ensures FromAscii(Take(rows[0].value, |Header(mts)| - HeaderKeyChars)) == Some(Header(mts)[HeaderKeyChars..])
  {
    EncodedHeaderRow(c, data, mts, mode, rows, 0);
    FirstRowShort(rows[0], Header(mts), mode);
  }

  /** The as-written decoder's first steps on such a row 0. */
  lemma ShortFront(c: Collaborators, rows: seq<Row>, header: string, m: string)
    requires |header| == 7 + |m| && header[7..] == m && 55 <= |m| <= 118
    requires |rows| >= 1 && |rows[0].key| == RowWidth
    requires Take(rows[0].key, 3) == Decoder.Prefix && Decoder.LengthField(rows[0].key) == Success(|m|)
    requires Take(Drop(rows[0].key, 9), |header| - 7) == header[7..HeaderKeyChars]
    requires FromAscii(Take(rows[0].value, |header| - HeaderKeyChars)) == Some(header[HeaderKeyChars..])
    ensures FrontReads(rows, m)
    ensures HeaderRowCount(|header|) == 1
    ensures Decoder.ReadBinary(c, rows, 9 + |m|) == Success(ReadPayload(c, rows, |header|))
  {
    ShortHeaderRead(c, rows, header);
  }

  /** What the as-written decoder reads from a row 0 that the header ends in. */
  lemma MiddleRows(c: Collaborators, data: seq<byte>, mts: seq<Descriptor>, mode: IndexMode, rows: seq<Row>)
    requires Encode(c, data, mts, mode) == Success(rows)
    requires 55 <= |RenderMetadata(mts)| <= 118
    ensures FrontReads(rows, RenderMetadata(mts))
    ensures HeaderRowCount(|Header(mts)|) == 1
    ensures Decoder.ReadBinary(c, rows, 9 + |RenderMetadata(mts)|) == Success(ReadPayload(c, rows, |Header(mts)|))
    ensures Lawful(c) ==> Decoder.ReadBinary(c, rows, 9 + |RenderMetadata(mts)|) == Success(data)
  {
    MiddleFirstRow(c, data, mts, mode, rows);
    CorrectedDecoder.FirstRowKey(c, data, mts, mode, rows);
    ShortFront(c, rows, Header(mts), RenderMetadata(mts));
    EncodeLossless(c, data, mts, mode, rows);
  }

  /**
   Between these findings the as-written decoder works: with 55 to 118
   characters of metadata and no declared checksum it gives back the media
   types and the data cut by the sizes.
   */
  lemma AsWrittenMiddle(c: Collaborators, data: seq<byte>, mts: seq<Descriptor>, mode: IndexMode, rows: seq<Row>)
    requires Encode(c, data, mts, mode) == Success(rows)
    requires AllClean(mts) && 55 <= |RenderMetadata(mts)| <= 118
    requires Lawful(c) && Sized(Normalize(mts))
    requires forall i :: 0 <= i < |Normalize(mts)| ==> Lookup(Normalize(mts)[i].params, "c").None?
    ensures Decoder.Decode(c, rows) == Success(Decoder.Decoded(Normalize(mts), Cut(Normalize(mts), data)))
  {
    MiddleRows(c, data, mts, mode, rows);
    ParseRender(mts);
    UncheckedDecode(c, rows, RenderMetadata(mts), Normalize(mts), data);
  }

  /**
   A row 0 holding a header that ends in its key and nothing after it: the
   as-written decoder reads the metadata whole, and its payload position,
   past the end of the key, reads what the encoder's does.
   */
  lemma BareRowRead(c: Collaborators, rows: seq<Row>, header: string, m: string)
    requires |header| == 7 + |m| && header[7..] == m && |m| <= 54
    requires |rows| >= 1 && rows[0].key == "00" + header
    requires Take(rows[0].key, 3) == Decoder.Prefix && Decoder.LengthField(rows[0].key) == Success(|m|)
    ensures FrontReads(rows, m)
    ensures HeaderRowCount(|header|) == 1
    ensures Decoder.ReadBinary(c, rows, 9 + |m|) == Success(ReadPayload(c, rows, |header|))
  {
    assert Drop(rows[0].key, |Decoder.Prefix| + 6) == m;
    assert Take(rows[0].value, |m| - |m|) == [];
    assert FromAscii([]) == Some("");
    RowZeroParts(rows, |m|, m, "");
    assert m + "" == m;
    MetadataWhole(rows, |m|, m);
    assert HeaderRowCount(|header|) == 1;
    assert KeyWant(|header|, 0) == |header| && ValueWant(|header|, 0) == 0;
    ReadBinaryFirst(c, rows, 9 + |m|);
    assert Drop(rows[0].key, IndexWidth + (9 + |m|)) == [] == Drop(rows[0].key, IndexWidth + |header|);
    assert Max(0, 9 + |m| - RowWidth) == 0;
    assert rows[1..] == rows[0 + 1..];
  }

  /**
   What the as-written decoder reads when the metadata has at most 54
   characters and the encoder wrote no basE91 text after the header in row
   0's key (with no data, say): the metadata, then the data.
   */
  lemma ShortBareRows(c: Collaborators, data: seq<byte>, mts: seq<Descriptor>, mode: IndexMode, rows: seq<Row>)
    requires Encode(c, data, mts, mode) == Success(rows)
    requires |RenderMetadata(mts)| <= 54 && |rows| >= 1 && |rows[0].key| == 9 + |RenderMetadata(mts)|
    ensures FrontReads(rows, RenderMetadata(mts))
    ensures Decoder.ReadBinary(c, rows, 9 + |RenderMetadata(mts)|) == Success(ReadPayload(c, rows, |Header(mts)|))
    ensures Lawful(c) ==> Decoder.ReadBinary(c, rows, 9 + |RenderMetadata(mts)|) == Success(data)
  {
    var header := Header(mts);
    EncodedHeaderRow(c, data, mts, mode, rows, 0);
    BareKey(rows[0], header, mode);
    CorrectedDecoder.FirstRowKey(c, data, mts, mode, rows);
    BareRowRead(c, rows, header, RenderMetadata(mts));
    EncodeLossless(c, data, mts, mode, rows);
  }

  /** A row 0 that extends the header row by nothing is index `00` and the header. */
  lemma BareKey(row: Row, header: string, mode: IndexMode)
    requires |header| < HeaderKeyChars && HeaderRow(header, mode, 0).Success?
    requires Take(row.key, |HeaderRow(header, mode, 0).value.key|) == HeaderRow(header, mode, 0).value.key
    requires |row.key| == IndexWidth + |header|
    ensures row.key == "00" + header
  {
    var w := HeaderRow(header, mode, 0).value;
    CorrectedDecoder.FirstWritten(header, mode, w);
    assert KeyChunk(header, 0) == header;
    assert row.key == Take(row.key, |w.key|);
  }

  /**
   Below the first finding's range the as-written decoder works when no
   basE91 text follows the header in row 0: with at most 54 characters of
   metadata and no declared checksum it gives back the media types and the
   data cut by the sizes.
   */
  lemma AsWrittenShort(c: Collaborators, data: seq<byte>, mts: seq<Descriptor>, mode: IndexMode, rows: seq<Row>)
    requires Encode(c, data, mts, mode) == Success(rows)
    requires AllClean(mts) && |RenderMetadata(mts)| <= 54 && |rows| >= 1 && |rows[0].key| == 9 + |RenderMetadata(mts)|
    requires Lawful(c) && Sized(Normalize(mts))
    requires forall i :: 0 <= i < |Normalize(mts)| ==> Lookup(Normalize(mts)[i].params, "c").None?
    ensures Decoder.Decode(c, rows) == Success(Decoder.Decoded(Normalize(mts), Cut(Normalize(mts), data)))
  {
    ShortBareRows(c, data, mts, mode, rows);
    ParseRender(mts);
    UncheckedDecode(c, rows, RenderMetadata(mts), Normalize(mts), data);
  }

  /**
   A full row 0 followed by the payload rows: the as-written decoder's
   payload position, row 1 past its index, reads what the encoder's does,
   and with data there is a row 1.
   */
  lemma FullRowData(c: Collaborators, rows: seq<Row>, data: seq<byte>)
    requires |rows| >= 1 && |rows[0].key| == RowWidth && |rows[0].value| == RowWidth
    requires Lawful(c) && ReadPayload(c, rows, HeaderRowChars) == data && |data| > 0
    ensures |rows| >= 2
    ensures Decoder.ReadBinary(c, rows, 9 + 119) == Success(data)
  {
    assert HeaderRowCount(HeaderRowChars) == 1;
    assert KeyWant(HeaderRowChars, 0) == HeaderKeyChars && ValueWant(HeaderRowChars, 0) == RowWidth;
    assert Drop(rows[0].key, IndexWidth + HeaderKeyChars) == [] && Drop(rows[0].value, RowWidth) == [];
    assert data == RowsPayload(c, rows[0 + 1..]);
    if |rows| == 1 {
      assert false;
    }
    assert (9 + 119) / (2 * RowWidth) == 1 && (9 + 119) % (2 * RowWidth) == 0;
    assert rows[1..][1..] == rows[2..];
    assert Drop(rows[1].key, IndexWidth + 0) == Drop(rows[1].key, IndexWidth);
    assert Drop(rows[1].value, Max(0, 0 - RowWidth)) == rows[1].value;
  }

  /** What the as-written decoder reads when 119 characters of metadata fill row 0 and data follows. */
  lemma FullRows(c: Collaborators, data: seq<byte>, mts: seq<Descriptor>, mode: IndexMode, rows: seq<Row>)
    requires Encode(c, data, mts, mode) == Success(rows)
    requires |RenderMetadata(mts)| == 119 && Lawful(c) && |data| > 0
    ensures FrontReads(rows, RenderMetadata(mts))
    ensures Decoder.ReadBinary(c, rows, 9 + |RenderMetadata(mts)|) == Success(data)
  {
    var header := Header(mts);
    var w0 := HeaderRowAt(c, data, mts, mode, rows, 0);
    FirstRowRead(rows[0], w0, header, mode);
    HeaderRowSize(header, mode, 0, w0);
    CorrectedDecoder.FirstRowKey(c, data, mts, mode, rows);
    FullRowMetadata(rows, header);
    EncodeLossless(c, data, mts, mode, rows);
    FullRowData(c, rows, data);
  }

  /**
   With exactly 119 characters of metadata and some data the as-written
   decoder works, no declared checksum given: it gives back the media types
   and the data cut by the sizes.
   */
  lemma AsWrittenFull(c: Collaborators, data: seq<byte>, mts: seq<Descriptor>, mode: IndexMode, rows: seq<Row>)
    requires Encode(c, data, mts, mode) == Success(rows)
    requires AllClean(mts) && |RenderMetadata(mts)| == 119 && |data| > 0
    requires Lawful(c) && Sized(Normalize(mts))
    requires forall i :: 0 <= i < |Normalize(mts)| ==> Lookup(Normalize(mts)[i].params, "c").None?
    ensures Decoder.Decode(c, rows) == Success(Decoder.Decoded(Normalize(mts), Cut(Normalize(mts), data)))
  {
    FullRows(c, data, mts, mode, rows);
    ParseRender(mts);
    UncheckedDecode(c, rows, RenderMetadata(mts), Normalize(mts), data);
  }

  /** `decode` on rows whose steps succeed, with no checksum declared: the data cut by the sizes. */
  lemma UncheckedDecode(c: Collaborators, rows: seq<Row>, metadata: string, ds: seq<Descriptor>, data: seq<byte>)
    requires FrontReads(rows, metadata) && ParseMetadata(metadata) == Success(ds)
    requires Decoder.ReadBinary(c, rows, 9 + |metadata|) == Success(data)
    requires Sized(ds) && forall i :: 0 <= i < |ds| ==> Lookup(ds[i].params, "c").None?
    ensures Decoder.Decode(c, rows) == Success(Decoder.Decoded(ds, Cut(ds, data)))
  {
    AsWrittenAcceptsUnchecked(ds, data, c.crc32);
    DecodeSteps(c, rows, metadata, ds, data, Cut(ds, data));
  }

  /**
   A stand-in for basE91 that is lawful and writes one character per byte
   (`b` becomes the character `256 + b`), so that offsets are easy to follow.
   */
  function Widen(b: seq<byte>): string
  {
    seq(|b|, i requires 0 <= i < |b| => (b[i] as int + 256) as char)
  }

  function Narrow(s: string): seq<byte>
  {
    seq(|s|, i requires 0 <= i < |s| => if 256 <= s[i] as int < 512 then s[i] as int - 256 else 0)
  }

  const StandIn: Collaborators := Collaborators(Widen, Narrow, (b: seq<byte>) => 0)

  lemma StandInLawful()
    ensures Lawful(StandIn)
  {
    forall b: seq<byte> ensures Narrow(Widen(b)) == b {
      assert forall i :: 0 <= i < |b| ==> Narrow(Widen(b))[i] == b[i];
    }
  }

  /** The sample: three bytes, no media types. */
  const SampleData: seq<byte> := [7, 7, 7]

  /** What `encode` writes for it: one row, index, header `1000000`, then the text. */
  const SampleRows: seq<Row> := [Row("001000000" + Widen(SampleData), [])]

  /** The length field of empty metadata. */
  lemma ZeroField()
    ensures ZFill(Decimal(0), 6) == "000000"
    ensures ParseDecimal("000000") == Some(0)
  {
    assert Decimal(0) == "0";
    assert Zeros(5) == "00000";
    LengthFieldRoundTrip(0);
  }

  lemma SampleHeader()
    ensures Header([]) == "1000000"
  {
    assert RenderMetadata([]) == "";
    assert Header([]) == "1" + ZFill(Decimal(0), 6) + "";
    ZeroField();
    assert "1" + "000000" + "" == "1000000";
  }

  lemma SampleTopOff()
    ensures TopOff(StandIn, Row("001000000", []), SampleData) == (Row("001000000" + Widen(SampleData), []), [])
  {
    assert Start(55) == 50;
    assert Take(SampleData, 50) == SampleData;
    assert |Widen(SampleData)| == 3;
    assert EncodeNearest(StandIn, SampleData, 55) == Chunk(Widen(SampleData), [], 50);
  }

  lemma SampleHeaderRow()
    ensures HeaderRow("1000000", ByOffset, 0) == Success(Row("001000000", []))
  {
    var header := "1000000";
    assert HeaderIndex(ByOffset, 0) == 0;
    assert Alphabet(0) == '0';
    assert EncodeIndex(0) == Success("00");
    assert KeyChunk(header, 0) == header;
    assert ValueChunk(header, 0) == [];
    assert ToAscii([]) == Some([]);
    assert HeaderRowWritable(header, ByOffset, 0);
    assert "00" + header == "001000000";
  }

  lemma SampleHeaderRows()
    ensures HeaderRows("1000000", ByOffset, 0) == Success([Row("001000000", [])])
  {
    assert HeaderRowCount(7) == 1;
    SampleHeaderRow();
    assert HeaderRows("1000000", ByOffset, 1) == Success([]);
    assert [Row("001000000", [])] + [] == [Row("001000000", [])];
  }

  lemma SampleAppend()
    ensures Append(StandIn, [Row("001000000", [])], SampleData) == Success(SampleRows)
  {
    SampleTopOff();
    assert Fill(StandIn, [], 1) == Success([]);
    var rows := [Row("001000000", [])];
    var top := Row("001000000" + Widen(SampleData), []);
    assert rows[|rows| - 1] == Row("001000000", []);
    assert rows[..0] + [top] + [] == SampleRows;
  }

  lemma SampleFrame()
    ensures Frame(StandIn, "1000000", SampleData, ByOffset) == Success(SampleRows)
  {
    SampleHeaderRows();
    SampleAppend();
  }

  lemma SampleEncoding()
    ensures Encode(StandIn, SampleData, [], ByOffset) == Success(SampleRows)
  {
    SampleHeader();
    SampleFrame();
    assert SizesDeclared([]) && Renderable([]);
    EncodeIsFrame(StandIn, SampleData, [], ByOffset);
  }

  /** The first steps of `decode`: prefix, metadata length and metadata text. */
  predicate FrontReads(rows: seq<Row>, metadata: string)
  {
    |rows| >= 1 && Take(rows[0].key, 3) == Decoder.Prefix
    && Decoder.LengthField(rows[0].key) == Success(|metadata|)
    && Decoder.ReadMetadata(rows, |metadata|) == Success(metadata)
  }

  /** `decode` when each of its steps succeeds. */
  lemma DecodeSteps(c: Collaborators, rows: seq<Row>, metadata: string, ds: seq<Descriptor>,
                    binary: seq<byte>, attachments: seq<seq<byte>>)
    requires FrontReads(rows, metadata)
    requires ParseMetadata(metadata) == Success(ds)
    requires Decoder.ReadBinary(c, rows, 9 + |metadata|) == Success(binary)
    requires Attach(ds, binary, c.crc32, AsWritten) == Success(attachments)
    ensures Decoder.Decode(c, rows) == Success(Decoder.Decoded(ds, attachments))
  {
    DecodeOpens(c, rows, |metadata|);
    DecodeFromSteps(c, rows, metadata, ds, binary, attachments);
  }

  /** Past a good prefix and length, `decode` is the rest of the steps. */
  lemma DecodeOpens(c: Collaborators, rows: seq<Row>, len: nat)
    requires |rows| >= 1 && Take(rows[0].key, 3) == Decoder.Prefix && Decoder.LengthField(rows[0].key) == Success(len)
    ensures Decoder.Decode(c, rows) == Decoder.DecodeFrom(c, rows, len)
  {
  }

  /** The steps after the length, each succeeding. */
  lemma DecodeFromSteps(c: Collaborators, rows: seq<Row>, metadata: string, ds: seq<Descriptor>,
                        binary: seq<byte>, attachments: seq<seq<byte>>)
    requires |rows| >= 1 && Decoder.ReadMetadata(rows, |metadata|) == Success(metadata)
    requires ParseMetadata(metadata) == Success(ds)
    requires Decoder.ReadBinary(c, rows, 9 + |metadata|) == Success(binary)
    requires Attach(ds, binary, c.crc32, AsWritten) == Success(attachments)
    ensures Decoder.DecodeFrom(c, rows, |metadata|) == Success(Decoder.Decoded(ds, attachments))
  {
    assert |Decoder.Prefix| + 6 + |metadata| == 9 + |metadata|;
  }

  /** `attach` with one media type that declares nothing: the whole payload. */
  lemma OneAttachment(b: seq<byte>, crc: seq<byte> -> nat, mode: CheckMode)
    ensures Attach([Descriptor("", [])], b, crc, mode) == Success([b])
  {
    var ds := [Descriptor("", [])];
    assert Lookup(ds[0].params, "s") == None && Lookup(ds[0].params, "c") == None;
    assert Size(ds[0].params, |b|) == |b|;
    assert Passes(mode, ds[0].params, b, crc);
    assert ds[1..] == [];
    assert Attach([], Drop(b, |b|), crc, mode) == Success([]);
    assert Take(b, |b|) == b;
    assert [b] + [] == [b];
  }

  /** One row holding index `00`, the empty header `1000000` and then the text `t`. */
  predicate EmptyHeaderRows(rows: seq<Row>, t: string)
  {
    |rows| == 1 && rows[0].key == "001000000" + t && rows[0].value == [] && |t| >= IndexWidth
  }

  lemma EmptyHeaderKey(rows: seq<Row>, t: string)
    requires EmptyHeaderRows(rows, t)
    ensures |rows| >= 1 && Take(rows[0].key, 3) == Decoder.Prefix && Decoder.LengthField(rows[0].key) == Success(|""|)
  {
    assert Between(rows[0].key, 3, 9) == "000000";
    ZeroField();
  }

  lemma EmptyHeaderMetadata(rows: seq<Row>, t: string)
    requires EmptyHeaderRows(rows, t)
    ensures Decoder.ReadMetadata(rows, |""|) == Success("")
  {
    assert Take(Drop(rows[0].key, 9), 0) == "";
    assert FromAscii(Take(rows[0].value, 0)) == Some("");
  }

  lemma EmptyHeaderFront(rows: seq<Row>, t: string)
    requires EmptyHeaderRows(rows, t)
    ensures FrontReads(rows, "")
  {
    EmptyHeaderKey(rows, t);
    EmptyHeaderMetadata(rows, t);
  }

  lemma EmptyHeaderPayload(c: Collaborators, rows: seq<Row>, t: string)
    requires EmptyHeaderRows(rows, t)
    ensures Decoder.ReadBinary(c, rows, 9 + |""|) == Success(c.decode91(t[IndexWidth..]))
  {
    assert Drop(rows[0].key, 11) == t[IndexWidth..];
    assert Drop(rows[0].value, 0) == [];
    assert rows[1..] == [];
    assert RowsPayload(c, []) == [];
    var b := c.decode91(t[IndexWidth..]);
    assert b + [] + [] == b;
  }

  /** The steps of `decode` on such a row, up to the media types. */
  lemma EmptyHeaderReads(c: Collaborators, rows: seq<Row>, t: string)
    requires EmptyHeaderRows(rows, t)
    ensures FrontReads(rows, "")
    ensures Decoder.ReadBinary(c, rows, 9 + |""|) == Success(c.decode91(t[IndexWidth..]))
  {
    EmptyHeaderFront(rows, t);
    EmptyHeaderPayload(c, rows, t);
  }

  /**
   With no media types and the text `t` written in row 0 right after the
   header, the as-written decoder reads the text from two characters too far
   on: the attachment it returns is the basE91 decoding of `t` without its
   first two characters.
   */
  lemma EmptyHeaderAsWritten(c: Collaborators, rows: seq<Row>, t: string, b: seq<byte>)
    requires EmptyHeaderRows(rows, t) && b == c.decode91(t[IndexWidth..])
    ensures Decoder.Decode(c, rows) == Success(Decoder.Decoded([Descriptor("", [])], [b]))
  {
    EmptyHeaderReads(c, rows, t);
    EmptyDecode(c, rows, b);
  }

  /** `decode` on rows with empty metadata whose payload reads as `b`. */
  lemma EmptyDecode(c: Collaborators, rows: seq<Row>, b: seq<byte>)
    requires FrontReads(rows, "") && Decoder.ReadBinary(c, rows, 9 + |""|) == Success(b)
    ensures Decoder.Decode(c, rows) == Success(Decoder.Decoded([Descriptor("", [])], [b]))
  {
    ParseEmpty();
    OneAttachment(b, c.crc32, AsWritten);
    DecodeSteps(c, rows, "", [Descriptor("", [])], b, [b]);
  }

  /** The sample's text is one character per byte; two characters on is the last byte. */
  lemma SampleText()
    ensures EmptyHeaderRows(SampleRows, Widen(SampleData))
    ensures StandIn.decode91(Widen(SampleData)[IndexWidth..]) == [7]
  {
    var t := Widen(SampleData);
    assert t[IndexWidth..] == [263 as char];
  }

  /**
   On the sample, which `encode` writes as one row, the as-written decoder
   returns the attachment `[7]` instead of `[7, 7, 7]`.
   */
  lemma SampleAsWritten()
    ensures Encode(StandIn, SampleData, [], ByOffset) == Success(SampleRows)
    ensures Decoder.Decode(StandIn, SampleRows) == Success(Decoder.Decoded([Descriptor("", [])], [[7]]))
  {
    SampleEncoding();
    SampleText();
    EmptyHeaderAsWritten(StandIn, SampleRows, Widen(SampleData), [7]);
  }

  /** The corrected decoder returns the sample's data. */
  lemma SampleCorrected()
    ensures CorrectedDecoder.Decode(StandIn, SampleRows) == Success(Decoder.Decoded([Descriptor("", [])], [SampleData]))
  {
    SampleEncoding();
    StandInLawful();
    assert RenderMetadata([]) == "";
    CorrectedDecoder.FrameRoundTrip(StandIn, SampleData, [], ByOffset, SampleRows);
    OneAttachment(SampleData, StandIn.crc32, Corrected);
  }
}
