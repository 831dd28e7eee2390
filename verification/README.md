# SEP-39 codec in Dafny

A model of `sep39.py`, the codec that packs a byte blob, described by one or
more media types, into Stellar `ManageData` rows. Each row is a key of at most
64 ASCII characters and a value of at most 64 bytes. The model covers the whole
codec apart from its command-line block.

How the codec lays out rows:

- **Header rows.** `encode` renders the media types as metadata
  `type;k=v,...`. The header is `1`, then the metadata length as six digits,
  then the metadata. It is laid across rows: each row's key holds a
  two-character base-36 index and 62 header characters, and its value holds
  64 more.
- **Top-off.** The last header row is then topped off. Its key gets basE91
  text and its value gets raw bytes.
- **Fill rows.** Further rows carry an index and basE91 text in the key and
  64 raw bytes in the value.

How `decode` reads them back:

1. Check the `001` prefix and read the length field.
2. Reassemble the metadata.
3. Compute where the payload starts.
4. Decode the payload.
5. Cut it into one attachment per media type, by the `s` (size) parameters,
   and check the `c` (checksum) parameters.

Modules, in dependency order:

| module | file | what it holds |
|---|---|---|
| `Slices` | slices.dfy | Python's clamping slices (`Take`, `Drop`, `Between`) and their algebra |
| `Results` | results.dfy | `Result`/`Option`; one error tag per raise site of the codec |
| `Text` | text.dfy | ASCII encode/decode, `int(s, 10)` on digit strings, `str(n).zfill(6)` |
| `Collaborators` | collaborators.dfy | basE91 and CRC32 as function parameters; `Lawful` states the only facts assumed about basE91 |
| `RowIndex` | row_index.dfy | `_encode_index` |
| `MediaType` | media_type.dfy | `render_media_type`, the metadata join, and the decoder's inline parse |
| `Nearest` | nearest.dfy | `_encode_nearest` |
| `Layout` | layout.dfy | the row layout: widths, which header characters row `j` carries, reading the header and payload back as the encoder laid them out |
| `Encoder` | encoder.dfy | `encode`: header rows, top-off, fill loop |
| `Lossless` | lossless.dfy | the layout read back gives the header and, basE91 being lawful, the data |
| `Numbering` | numbering.dfy | which index each output row carries |
| `Attachments` | attachments.dfy | cutting the payload by sizes and checking checksums |
| `Decoder` | decoder.dfy | `decode` as written |
| `CorrectedDecoder` | corrected_decoder.dfy | a decoder that reads the layout `encode` writes, and the round trip proved for it |
| `Findings` | findings.dfy | where the as-written decoder disagrees with the encoder, each exhibited |

basE91 and CRC32 are foreign libraries. They appear as the fields `encode91`,
`decode91` and `crc32` of a `Collaborators` value that `encode` and `decode`
take as a parameter. Results that need basE91 to round-trip assume
`Lawful(c)`: `decode91(encode91(b)) == b` and `decode91("") == []`. Nothing is
assumed about CRC32.

Header rows are numbered by an `IndexMode` parameter of `encode`:

- `ByOffset` is the source as written: row `j` gets `_encode_index(126 * j)`.
- `ByRow` numbers header rows by position, as the fill rows already are.

Where the format's prose description and the code disagree, the model follows
the code:

- **Length field.** The code writes the metadata length as a fixed field of
  six zero-padded digits. It is not a self-delimiting digit run.
- **Error names.** Errors are the code's raise sites, not the description's
  taxonomy.
- **Payload start.** The decoder finds it by dividing by 128 (64 + 64) per row,
  not by 126.
- **Short payloads.** An attachment whose size exceeds the bytes left gets a
  short slice. It does not raise a count mismatch.
- **Checksums.** A declared checksum never matches (see Findings, sep39.py:131-133).
- **Header row indices.** They are not row positions (see Findings, sep39.py:48-49).

## Model

| member | source | states |
|---|---|---|
| Slices.Take | sep39.py:103 | `s[:n]` has `min(n, len(s))` elements, the first ones of `s`. |
| Slices.Drop | sep39.py:118 | `s[n:]` has `len(s) - min(n, len(s))` elements, the ones of `s` from position `min(n, len(s))` on. |
| Slices.Between | sep39.py:79 | `s[a:b]` has `max(0, min(b, len(s)) - a)` elements, and is `s`'s elements `a..b` when `a <= b <= len(s)`. |
| RowIndex.Alphabet | sep39.py:144 | Each digit below 36 names a character of `0-9a-z`. |
| RowIndex.EncodeIndex | sep39.py:142-146 | Succeeds exactly for 0..1295, otherwise fails as the range assertion does. The result is two characters from `0-9a-z` whose base-36 value is the input. |
| RowIndex.IndexInjective | sep39.py:142-146 | Two in-range numbers with the same index are equal. |
| Text.ToAscii | sep39.py:51 | `str.encode("ascii")` succeeds exactly when every character is below 128. The bytes are the character codes, one per character. |
| Text.FromAscii | sep39.py:88 | `bytes.decode("ascii")` succeeds exactly when every byte is below 128. The characters are the bytes, one per byte. |
| Text.AsciiRoundTrip | sep39.py:51 | Decoding the ASCII bytes of a header chunk gives the chunk back. |
| Text.FromAsciiTake | sep39.py:88 | Decoding a prefix of ASCII bytes gives the same prefix of the decoded text. |
| Text.FromAsciiAppend | sep39.py:99 | Decoding two joined ASCII byte strings gives the two decoded texts joined. |
| Text.AsciiBetween | sep39.py:50-51 | Any slice of an ASCII string is ASCII. |
| Text.ParseDecimal | sep39.py:79 | `int(s, 10)` succeeds exactly on nonempty strings of decimal digits, and the number is the digits' decimal value. |
| Text.Decimal | sep39.py:44 | `str(n)` is a nonempty digit string whose decimal value is `n`, with no leading zero unless `n` is 0. |
| Text.ZFill | sep39.py:44 | `s.zfill(w)` has `max(w, len(s))` characters: zeros, then `s`. |
| Text.DecimalRoundTrip | sep39.py:44 | Parsing `str(n)` gives `n`. |
| Text.DecimalWidth | sep39.py:44 | A number below 10^k has at most k decimal digits. |
| Text.LeadingZeros | sep39.py:44 | Zero padding leaves a digit string's value unchanged. |
| Text.LengthFieldRoundTrip | sep39.py:44 | For a length below 10^6, `str(n).zfill(6)` has six characters and parses back to `n`. This is the value `int(key1[3:9])` reads. |
| MediaType.Split | sep39.py:111 | `str.split`: at least one part, no part contains the separator, and the parts joined by the separator are the input. |
| MediaType.SplitWhole | sep39.py:111 | A string without the separator splits into itself. |
| MediaType.SplitFront | sep39.py:111 | Splitting `p + sep + r`, with no separator in `p`, gives `p` followed by the parts of `r`. |
| MediaType.SplitJoin | sep39.py:111 | Splitting a join of separator-free parts gives the parts back. |
| MediaType.RenderParams | sep39.py:12 | One `k=v` segment per parameter. |
| MediaType.RenderMediaType | sep39.py:10-12 | Without parameters, the result is the bare type. With clean tokens, splitting it on `;` gives the type, then each parameter's `k=v`, in insertion order. |
| MediaType.RenderAll | sep39.py:43 | One rendering per media type. |
| MediaType.RenderMetadata | sep39.py:43 | No media types render as `""`. Clean ones split on `,` back into their renderings. |
| MediaType.RenderHasNoComma | sep39.py:10-12 | A clean media type renders without a comma. |
| MediaType.JoinAvoids | sep39.py:43 | Joining parts that avoid a character, with a different separator, avoids that character. |
| MediaType.Lookup | sep39.py:127 | `params.get(k)` finds a value exactly when some parameter has key `k`, and the value found belongs to such a parameter. |
| MediaType.KeysAt | sep39.py:110 | The list of a media type's parameter keys has one key per parameter, in order. |
| MediaType.ParamKeysHas | sep39.py:43 | A key is among all the parameter keys exactly when some parameter of some media type has it. |
| MediaType.RenderableExactly | sep39.py:10-12 | A media type list renders without the keyword clash of `render_media_type(mt[0], **mt[1])` exactly when no parameter, at any position, is named `media_type`. |
| MediaType.Update | sep39.py:110 | `d[k] = v`: the dict grows by one exactly when `k` was absent, every existing key keeps its position, and `k` then maps to `v`. |
| MediaType.UpdateKeepsOthers | sep39.py:110 | `d[k] = v` leaves the value of every other key unchanged. |
| MediaType.UpdateNewKey | sep39.py:110 | Inserting a key not yet present into the `dict` appends it at the end. |
| MediaType.BuildParams | sep39.py:110 | `dict(p.split('=') for p in ...)` succeeds exactly when every segment splits into exactly two parts on `=`. Otherwise it fails with `MalformedParam`. |
| MediaType.ParseMediaType | sep39.py:110-111 | A segment parses exactly when all its parameter segments are well formed. The type is the text before the first `;`. |
| MediaType.ParseAll | sep39.py:109-112 | Parses exactly when every segment does, giving one media type per segment. |
| MediaType.ParseMetadata | sep39.py:109-112 | The metadata parses exactly when every `,`-segment does. The result has one media type per segment, so at least one. |
| MediaType.BuildRendered | sep39.py:110 | Building the `dict` from rendered `k=v` segments with distinct keys gives back the parameters, in order. |
| MediaType.ParseRendered | sep39.py:110-111 | Parsing a clean media type's rendering gives it back. |
| MediaType.ParseAllRendered | sep39.py:109-112 | Parsing each rendering of clean media types gives them back. |
| MediaType.ParseRender | sep39.py:109-112 | Parsing the rendered metadata gives the media types back. With none, it gives the single media type `("", {})`. |
| MediaType.ParseEmpty | sep39.py:109-112 | Empty metadata parses to exactly one media type, `("", {})`. |
| Nearest.Scan | sep39.py:155-158 | The downward scan from `i` returns a text of at most `n` characters. It is `encode91` of the first `taken` bytes, and `rest` is the remaining bytes. Every longer candidate up to `i` encodes to more than `n` characters. Taking nothing leaves the text empty and the data whole. |
| Nearest.EncodeNearest | sep39.py:148-160 | The text fits in `n` characters. The number of bytes taken is the largest candidate up to `ceil(n / 1.1)` that fits. Otherwise the result is `("", data, 0)`, and always so for `n == 0`. |
| Nearest.NearestCovers | sep39.py:148-160 | Decoding the text and appending the rest gives the data back. |
| Nearest.EmptyTextKeepsData | sep39.py:160 | When the text is empty, the rest is all of the data. |
| Encoder.HeaderIndex | sep39.py:48-49 | As written, header row `j` is indexed by `126 * j`, in range exactly for rows 0..10. Numbered by row it is `j`, in range up to 1295. |
| Encoder.HeaderAscii | sep39.py:44 | With ASCII metadata the whole header is ASCII. |
| Encoder.Header | sep39.py:44 | The header starts with `1`. For metadata under 10^6 characters, it is seven characters longer than the metadata, ends with it, and its characters 1..7 parse to the metadata length. |
| Encoder.HeaderRow | sep39.py:48-51 | Header row `j` is written exactly when its index is in range and its value chunk is ASCII. Its key is the index followed by `header[126j:126j+62]`. Its value is the ASCII bytes of `header[126j+62:126j+126]`. It fits in a row. |
| Encoder.HeaderRowIndexFail | sep39.py:48-51 | With an ASCII header, header row `j` can only fail on an index out of range. |
| Encoder.HeaderRows | sep39.py:47-51 | The header loop succeeds exactly when every header row can be written. It yields one row per 126 header characters, each being the header row for its position. With an ASCII header, it can only fail on an index out of range. |
| Encoder.TopOff | sep39.py:55-60 | The topped-off row still fits and extends the old key and value. With basE91 lawful, the decoded key text, the value bytes added and the data left over make up the data. |
| Encoder.AppendCovers | sep39.py:58-60 | Appending text to a key and bytes to a value keeps the old key and value as prefixes, and nothing of the data is lost. |
| Encoder.FillRow | sep39.py:65-68 | A fill row exists exactly for indices in range. It fits, starts with its index, and consumes at least one byte of nonempty data. With basE91 lawful, its decoded text, its value and the data left over make up the data. |
| Encoder.RowCovers | sep39.py:66-67 | A fill row's decoded key text, its 64-byte value and the data left over make up the data. |
| Encoder.Fill | sep39.py:62-69 | The fill loop writes no rows exactly when the data is empty. Its rows are numbered consecutively from `i`, each fitting. With basE91 lawful, they decode back to the data. |
| Encoder.HeaderRowsFit | sep39.py:50-51 | Every header row fits in 64 + 64. |
| Encoder.IndexedFit | sep39.py:66-68 | Every fill row fits in 64 + 64. |
| Encoder.Append | sep39.py:55-69 | Top-off and fill keep every row within 64 + 64 and never drop a row. |
| Encoder.Frame | sep39.py:46-69 | Every row fits, and there is at least one row per 126 header characters. |
| Encoder.EncodeIsFrame | sep39.py:36-49 | Once the data is small enough, the sizes are present and no parameter is named `media_type`, `encode` is the framing of its header and data. |
| Encoder.Encode | sep39.py:34-71 | Fails with `PayloadTooLarge` exactly at 126000 bytes or more. Below that, fails with `MissingSize` exactly when a media type other than the last lacks `s`. With sizes present, fails with `ReservedParam` exactly when a parameter is named `media_type`, which the keyword call `render_media_type(mt[0], **mt[1])` rejects. Every row fits in 64 + 64, and the header rows are all there. |
| Layout.ChunkLengths | sep39.py:50 | Row `j`'s key chunk has exactly the length the layout assigns it, at most 62 characters. Its value chunk likewise has at most 64. |
| Layout.ChunksJoin | sep39.py:50 | Row `j`'s key chunk followed by its value chunk is `header[126j:126j+126]`. |
| Layout.ReadHeaderFrom | sep39.py:48-51 | When every header row carries its slice of the header, reading them back in order gives the header. |
| Layout.RowsPayloadAppend | sep39.py:119-120 | The payload of two runs of rows is the two payloads joined. |
| Lossless.HeaderPartOf | sep39.py:48-51 | A row that extends header row `j` gives back `header[126j:126j+126]`. |
| Lossless.HeaderRowSize | sep39.py:50 | Header row `j` has 2 + (its key chunk) key characters and (its value chunk) value bytes. |
| Lossless.FrameRows | sep39.py:46-51 | The header loop's rows are the header rows in order, one per 126 characters, and the rest of `encode` appends to them. |
| Lossless.AppendParts | sep39.py:55-69 | The output is the header rows, with the last one extended by the top-off, followed by consecutively numbered fill rows. The top-off and the fill rows decode to the data. |
| Lossless.PartsHeader | sep39.py:55-60 | Header rows with the last one extended by the top-off, followed by any rows, read back as the header. |
| Lossless.AppendHeader | sep39.py:55-69 | Topping off and filling leave the header readable. |
| Lossless.PartsPayload | sep39.py:55-69 | With basE91 lawful, when the top-off text and bytes, then the fill rows, make up the data, the payload read after the header is the data. |
| Lossless.AppendPayload | sep39.py:55-69 | After the header, the payload read as laid out is the data. |
| Lossless.AppendLossless | sep39.py:55-69 | Both of the above. |
| Lossless.FrameLossless | sep39.py:46-69 | The rows give back the header and, with basE91 lawful, the data. |
| Lossless.EncodeLossless | sep39.py:34-71 | `encode` is lossless: its rows give back the header and, with basE91 lawful, the data. |
| Lossless.AssembledExtends | sep39.py:57-60 | Each header row of the output starts with the row the header loop wrote for it. |
| Lossless.AssembledRow | sep39.py:57-60 | When the top-off extends the last header row, each header row `k` of the assembled output starts with the key and the value the header loop wrote for it. |
| Lossless.EncodedHeaderRow | sep39.py:47-60 | Row `k` of the output, for each header row `k`, starts with header row `k`. Without data, there are no other rows. |
| Numbering.HeaderKeyIndex | sep39.py:49-50 | Header row `j` starts with the index of `j` under the numbering used. |
| Numbering.IndexedAt | sep39.py:63-68 | Fill row `k` starts with the index of `k`. |
| Numbering.HeaderIndexAt | sep39.py:48-50 | Output header row `k` starts with the index of `k` under the numbering used. |
| Numbering.TopIndex | sep39.py:57-60 | Topping off keeps the last header row's index. |
| Numbering.AssembledHeaderIndex | sep39.py:47-60 | Numbered by row, header row `k` of the output starts with the index of `k`. |
| Numbering.AssembledIndex | sep39.py:47-69 | Numbered by row, every output row `k` starts with the index of `k`. |
| Numbering.RowsNumbered | sep39.py:47-69 | With header rows numbered by position, every row `k` of `encode`'s output starts with the index of `k`. |
| Numbering.SecondIndex | sep39.py:48-49 | Numbered by offset, the second output row carries the index of 126. |
| Numbering.SecondRowAsWritten | sep39.py:48-49 | As written, whenever the header needs two rows, row 1 is indexed `3i` rather than `01`. |
| Numbering.LongHeaderAsWritten | sep39.py:36-49 | As written, a header of 12 or more rows makes `encode` fail. When the data is small enough, the sizes are present, no parameter is named `media_type` and the metadata is ASCII, the failure is the index range check. |
| Numbering.LongFrameIndexFail | sep39.py:48-49 | Framing a header of 12 or more rows with rows indexed by offset fails. With an ASCII header, the failure is the index range check. |
| Numbering.SecondIndexText | sep39.py:49 | The index of offset 126 is `3i`, and the index of row 1 is `01`. |
| Attachments.Size | sep39.py:127 | `int(params.get('s', len(binary)))`: the decimal value of the `s` digits, or all that is left when there is no `s`. |
| Attachments.SizeDeclared | sep39.py:127 | A size declared as `str(n)` reads back as `n`. |
| Attachments.PassesAsWritten | sep39.py:130-133 | As written, an attachment's check passes exactly when it declares no `c`. |
| Attachments.PassesCorrected | sep39.py:130-133 | Compared as numbers, the check passes exactly when there is no `c` or `c` is a digit string whose value is the attachment's CRC32. |
| Attachments.DeclaredChecksum | sep39.py:130-133 | A `c` written as `str(zlib.crc32(b))` of the attachment passes the comparison on numbers and fails the one as written. |
| Attachments.Cut | sep39.py:126-129 | One slice per media type. |
| Attachments.Attach | sep39.py:125-134 | Succeeds exactly when every size is a number and every declared checksum is accepted. It then returns the slices cut by the sizes. An unreadable size fails with `BadSize` and a rejected checksum with `ChecksumMismatch`. |
| Attachments.AttachFront | sep39.py:125-134 | With the first size readable, all sizes are readable exactly when the rest are. All checks then pass exactly when the first does and the rest do on what the first size leaves. |
| Attachments.AllPassFront | sep39.py:125-134 | All checks pass exactly when the first passes and the rest pass on what is left. |
| Attachments.CutFront | sep39.py:126-129 | Slice `i` after the first is slice `i - 1` of what the first size leaves. |
| Attachments.CutCovers | sep39.py:126-129 | The slices joined, then the unused tail, are the payload. So the slices are a prefix of it. |
| Attachments.LastTakesRest | sep39.py:127 | When the last media type has no size, nothing is left over. |
| Attachments.AsWrittenRejectsChecksums | sep39.py:131-134 | As written, declaring a checksum on any attachment makes decoding fail. |
| Attachments.AsWrittenAcceptsUnchecked | sep39.py:125-134 | Without declared checksums, the attachments are the slices cut by the sizes. |
| Attachments.CorrectedAcceptsMatching | sep39.py:131-134 | With the comparison made on numbers, the attachments are accepted exactly when every declared checksum is the decimal CRC32 of its slice. |
| Decoder.LengthField | sep39.py:78-82 | Succeeds exactly when `key1[3:9]` is a decimal number below 126000. That number is the result, and any failure is `BadLength`. |
| Decoder.WholeRows | sep39.py:98-99 | Succeeds exactly when every value is ASCII. Over full rows, it yields 128 characters per row. |
| Decoder.Continuation | sep39.py:95-103 | Fails only on non-ASCII bytes or a missing row. On success the row after the whole rows exists. |
| Decoder.RowZero | sep39.py:87-88 | Row 0 supplies at most `len` metadata characters: as many as its key after position 9 and its value hold. |
| Decoder.Completed | sep39.py:93-103 | The metadata read so far is kept as a prefix. Nothing is added once `len` characters are there. |
| Decoder.ReadMetadata | sep39.py:84-105 | The metadata read has exactly the declared length. Failures are non-ASCII bytes, a missing row or a length mismatch. |
| Decoder.ReadBinary | sep39.py:116-120 | Succeeds exactly when the row named by `divmod(n, 128)` exists. |
| Decoder.DecodeFrom | sep39.py:84-140 | A success has one attachment per media type, at least one, and no declared checksum. The count check never fires. |
| Decoder.Decode | sep39.py:73-140 | No rows fail with `MissingRow`, a wrong prefix with `BadPrefix` and a bad length with `BadLength`. A success has one attachment per media type and no declared checksum. The count check never fires. |
| CorrectedDecoder.ReadFrame | sep39.py:73-120 | No rows fail with `MissingRow` and a wrong prefix with `BadPrefix`. Every other failure is one the source raises: a missing row, a bad length, non-ASCII metadata, a length mismatch or a malformed parameter. A success has at least one media type. |
| CorrectedDecoder.Decode | sep39.py:73-140 | A success has one attachment per media type, and every declared checksum is the CRC32 of its attachment. |
| CorrectedDecoder.KeyOpens | sep39.py:74-82 | A key starting with index `00` and the header opens with `001` and carries the metadata length. |
| CorrectedDecoder.FirstRowKey | sep39.py:44-51 | Row 0 of `encode`'s output opens with `001` and a length field that reads back the metadata length. |
| CorrectedDecoder.ReadFrameOf | sep39.py:73-120 | The corrected frame reader, on rows that hold the header, gives the media types and the payload as laid out. |
| CorrectedDecoder.FrameRoundTrip | sep39.py:116-120 | Reading back what `encode` wrote, in either numbering, gives the media types and, with basE91 lawful, exactly the data. |
| CorrectedDecoder.CheckedDecode | sep39.py:125-140 | On rows whose frame reads back, with every declared checksum matching, decoding gives the media types and the payload cut by the sizes. When the last media type has no size, the pieces join to the whole payload. |
| CorrectedDecoder.AttachmentsJoin | sep39.py:125-129 | When the last media type has no size, the attachments joined are the whole payload. |
| CorrectedDecoder.RoundTrip | sep39.py:73-140 | Decoding `encode`'s output gives the media types and the data cut by the sizes. When the last media type has no size, the attachments joined are the data. |
| Findings.HeaderRowAt | sep39.py:47-60 | Row `k` of the output extends header row `k` and fits. |
| Findings.FirstRowRead | sep39.py:87-88 | A full row 0 yields the header's first 119 metadata characters, 55 from the key and 64 from the value. |
| Findings.SecondKeyRead | sep39.py:103 | `key[:c]` of row 1 starts with the row's two index characters, followed by header text. |
| Findings.SecondValueRead | sep39.py:103 | `value[:c-64]` of row 1 decodes to header text. |
| Findings.ContinuationOne | sep39.py:95-103 | With the rest ending in row 1, the continuation is `key[:rem]` plus `value[:rem-64]` of row 1. |
| Findings.ContinuationRead | sep39.py:84-105 | The as-written metadata over two rows is the first 119 characters, then row 1's index and the rest, cut to length. |
| Findings.MetadataParts | sep39.py:93-105 | Row 0's part followed by the continuation is the metadata when the lengths add up. |
| Findings.MetadataWhole | sep39.py:87-105 | When row 0 supplies all of the metadata, that is the result. |
| Findings.RowZeroParts | sep39.py:87-88 | Row 0's part is its key text followed by its decoded value text. |
| Findings.Misread | sep39.py:98-103 | The misread metadata is never longer than the metadata, and has the same length when the key has an index. |
| Findings.ContinuationAsWritten | sep39.py:93-103 | With 120 to 244 metadata characters, the as-written decoder reads the first 119, then row 1's two index characters in place of metadata, then the rest cut to length. |
| Findings.TwoRowsRead | sep39.py:93-103 | The reading above, on any two rows extending header rows 0 and 1. |
| Findings.IndexCharDiffers | sep39.py:103 | An index character where the metadata has another character makes a different metadata. |
| Findings.ContinuationGarbles | sep39.py:98-103 | When the 120th metadata character is not in `0-9a-z`, the metadata read back differs from the metadata written. |
| Findings.FullRowMetadata | sep39.py:84-105 | A 126-character header read back from row 0 gives the metadata. |
| Findings.OneFullRowRead | sep39.py:116-117 | A single row holding a 119-character metadata header decodes to `MissingRow`: the payload position names row 1. |
| Findings.FullRowNoPayload | sep39.py:116-117 | `encode` with 119 metadata characters and no data writes rows that `decode` rejects with `MissingRow`. |
| Findings.ShortHeaderRead | sep39.py:84-120 | With a header ending in row 0's value, the metadata is read whole and the payload from where the encoder put it. |
| Findings.ShortPayloadRead | sep39.py:116-120 | The payload position as written matches the layout when the header ends in row 0's value. |
| Findings.ReadBinaryFirst | sep39.py:116-120 | With the payload starting in row 0, it is row 0 from column `n`, then every later row. |
| Findings.FirstRowShort | sep39.py:48-51 | A header ending in row 0's value fills row 0's key, and row 0's key and value yield the whole metadata. |
| Findings.MiddleFirstRow | sep39.py:47-60 | The same, for `encode`'s output with 55 to 118 metadata characters. |
| Findings.ShortFront | sep39.py:74-120 | On such a row 0, `decode`'s first steps read the metadata and the payload correctly. |
| Findings.MiddleRows | sep39.py:34-120 | For `encode`'s output with 55 to 118 metadata characters, `decode` reads the metadata and, with basE91 lawful, the data. |
| Findings.AsWrittenMiddle | sep39.py:73-140 | Between the findings, the as-written decoder round-trips. With 55 to 118 metadata characters and no declared checksum, it gives the media types and the data cut by the sizes. |
| Findings.BareRowRead | sep39.py:84-120 | On a row 0 whose key is the index and a header of at most 61 characters, `decode` reads the metadata whole, and its payload position reads what the layout puts after the header. |
| Findings.BareKey | sep39.py:48-50 | When header row 0 of a header shorter than 62 characters was written, a key that starts with it and is exactly as long as the index and the header is `00` followed by the header. |
| Findings.ShortBareRows | sep39.py:34-120 | For `encode`'s output with at most 54 metadata characters and no basE91 text after the header in row 0's key, `decode` reads the metadata and, with basE91 lawful, the data. |
| Findings.AsWrittenShort | sep39.py:73-140 | In that case, with no declared checksum, the as-written decoder gives the media types and the data cut by the sizes. |
| Findings.FullRowData | sep39.py:116-120 | With row 0 full and data after it, there is a row 1, and the payload read from its start is the data. |
| Findings.FullRows | sep39.py:34-120 | For `encode`'s output with exactly 119 metadata characters and some data, `decode` reads the metadata and, with basE91 lawful, the data. |
| Findings.AsWrittenFull | sep39.py:73-140 | In that case, with no declared checksum, the as-written decoder gives the media types and the data cut by the sizes. |
| Findings.UncheckedDecode | sep39.py:125-140 | When every step succeeds and no checksum is declared, `decode` gives the payload cut by the sizes. |
| Findings.DecodeSteps | sep39.py:73-140 | `decode` when each of its steps succeeds. |
| Findings.DecodeFromSteps | sep39.py:84-140 | The steps after the length field, each succeeding. |
| Findings.OneAttachment | sep39.py:125-134 | A lone media type without parameters takes the whole payload. |
| Findings.SampleHeader | sep39.py:44 | With no media types the header is `1000000`. |
| Findings.ZeroField | sep39.py:44 | The length field of empty metadata is `000000`, and it reads back as 0. |
| Findings.SampleFrame | sep39.py:46-69 | Framing the sample header and data gives the one sample row. |
| Findings.SampleHeaderRow | sep39.py:48-51 | Its one row has key `001000000` and an empty value. |
| Findings.SampleHeaderRows | sep39.py:48-51 | The header loop on `1000000` writes the one row `001000000` with an empty value. |
| Findings.SampleAppend | sep39.py:55-69 | Topping off and filling that row with the sample data gives the one sample row. |
| Findings.SampleTopOff | sep39.py:55-60 | Topping it off with the sample data puts all of the data's text in row 0's key. |
| Findings.SampleEncoding | sep39.py:34-71 | `encode` of the sample data with no media types is one row. |
| Findings.EmptyHeaderKey | sep39.py:74-82 | Such a row opens with `001` and length 0. |
| Findings.DecodeOpens | sep39.py:73-82 | Once the prefix and the length field are read, `decode` continues with the rest of its steps. |
| Findings.EmptyHeaderMetadata | sep39.py:84-105 | Such a row yields empty metadata. |
| Findings.EmptyHeaderPayload | sep39.py:116-118 | The payload is read from key position 11, two characters into the text. |
| Findings.EmptyHeaderReads | sep39.py:84-118 | On a row with an empty header followed by text `t`, the metadata read is empty and the payload is `decode91(t[2:])`. |
| Findings.EmptyHeaderAsWritten | sep39.py:116-118 | For a row with an empty header followed by text `t`, the as-written decoder returns `decode91(t[2:])` as the attachment. |
| Findings.EmptyDecode | sep39.py:109-134 | Empty metadata and a payload `b` decode to the one empty media type and `b`. |
| Findings.SampleText | sep39.py:116-118 | On the sample, the text two characters on decodes to `[7]`. |
| Findings.SampleAsWritten | sep39.py:116-118 | `encode` of `[7, 7, 7]` with no media types, decoded as written, gives `[7]`. |
| Findings.SampleCorrected | sep39.py:116-118 | The corrected decoder gives `[7, 7, 7]` back on the same rows. |

## Left out

- basE91 and CRC32 (the `base91` and `zlib` libraries) are foreign code. They are parameters, and only `Lawful` is assumed of basE91.
- The command-line block at the end of `sep39.py` (file reading, timing, printing) is I/O and not part of the codec.
- The `isinstance` check on the data's type: Dafny's types already rule it out.
- The start of `_encode_nearest`'s scan, `math.ceil(n / 1.10)`, is floating point. It is computed as `(10n + 10) / 11` on integers, which is the exact ceiling of `10n / 11`. The scan's properties do not depend on the start.
- Text.ParseDecimal: Python's `int()` also accepts signs, surrounding blanks, underscores and non-ASCII Unicode decimal digits, and negative sizes then slice from the end. Only plain digit strings are read; anything else is an error here.
- Exceptions: the source's exception classes become one error tag per raise site. Messages are not modelled.
- CorrectedDecoder.RoundTrip: requires the metadata to be shorter than 126000 characters and every media type to be clean: no `,` or `;` in the type, no `,`, `;` or `=` in a parameter key or value, and distinct keys. The source decoder refuses longer metadata. The docstring of `encode` (sep39.py:21-23) forbids whitespace, `=` and `;`; a Python dict has distinct keys by construction; the ban on `,` is the model's own, because the metadata is joined with `,` and split on it. Within those bounds its promise is the full round trip.
- The corrected decoder is not part of the source. It fixes the three offset and comparison errors listed under Findings so that the intended round trip can be stated and proved.
- Findings.AsWrittenMiddle: the as-written decoder's behaviour is characterised for metadata of 55 to 118 characters (works), at most 54 with no basE91 text after the header in row 0's key (works, Findings.AsWrittenShort), exactly 119 with data (works, Findings.AsWrittenFull), and at the findings' inputs (fails). Not characterised: at most 54 with that text present beyond the findings' sample, 120 to 244 when the 120th character is in `0-9a-z`, and 245 characters or more.
- The test file's `ManageData` XDR check, random inputs and benchmark timing need a foreign SDK, randomness and floating point. Their row-width promise is `Encoder.Encode`'s `AllFit`.

## Findings

| source | as written | input that shows it | evidently intended | confidence | as-written member | corrected member |
|---|---|---|---|---|---|---|
| sep39.py:116-118 | `c = 3 + 6 + len(metadata)` already counts row 0's two index characters, and `key[2+c:]` skips two more. The payload is read from two characters past where the top-off text starts. | No media types and data `[7, 7, 7]`, with a lawful basE91 stand-in writing one character per byte: `decode` returns `[7]`. | Read the top-off text from key position `9 + len(metadata)`. | not executed | Findings.SampleAsWritten | Findings.SampleCorrected |
| sep39.py:98-103 | Continuation rows contribute their whole key, including the two-character index, and are counted as 126 characters. | Any metadata of 120 to 244 characters whose 120th character is not in `0-9a-z`: the metadata read back differs from the one written. | Skip each row's index and take 62 + 64 header characters per row. | not executed | Findings.ContinuationGarbles | CorrectedDecoder.FrameRoundTrip |
| sep39.py:48-49 | Header row `j` is indexed by its character offset, `_encode_index(126 * j)`. | Any header of two or more rows (120+ metadata characters): row 1 is indexed `3i`, not `01`. At 12 or more header rows, `encode` fails. | Index header row `j` by `j`, as the fill rows are. | not executed | Numbering.SecondRowAsWritten | Numbering.RowsNumbered |
| sep39.py:131-133 | The declared checksum, a string, is compared with the integer CRC32, so they are never equal. | Any media type declaring `c`, even the correct CRC32: `decode` fails with a checksum mismatch. | Compare the number the text spells out. | not executed | Attachments.AsWrittenRejectsChecksums | Attachments.CorrectedAcceptsMatching |
| sep39.py:116-117 | When the header exactly fills row 0 and there is no data, the payload position names row 1, which `encode` did not write. | Metadata of exactly 119 characters and empty data: `decode` raises on the missing row. | An empty payload. | not executed | Findings.FullRowNoPayload | CorrectedDecoder.FrameRoundTrip |
