/**
 The row layout shared by encoder and decoder: rows are `(key, value)` pairs of
 at most 64 characters and 64 bytes; the header is written 126 characters per
 row (62 after the 2-character index in the key, 64 in the value); binary rows
 carry basE91 text after the index in the key and raw bytes in the value.

 The reading functions here say where the encoder put each character and byte.
 */
module Layout {
  import opened Slices
  import opened Results
  import opened Text
  import opened Collaborators

  /** One `ManageData` entry: an ASCII key and a binary value. */
  datatype Row = Row(key: string, value: seq<byte>)

  const RowWidth: nat := 64
  const IndexWidth: nat := 2
  const HeaderKeyChars: nat := 62
  const HeaderRowChars: nat := 126

  predicate Fits(row: Row)
  {
    |row.key| <= RowWidth && |row.value| <= RowWidth
  }

  predicate AllFit(rows: seq<Row>)
  {
    forall k :: 0 <= k < |rows| ==> Fits(rows[k])
  }

  lemma AllFitAppend(a: seq<Row>, b: seq<Row>)
    requires AllFit(a) && AllFit(b)
    ensures AllFit(a + b)
  {
    assert forall k :: |a| <= k < |a + b| ==> (a + b)[k] == b[k - |a|];
  }

  /** Rows the header occupies: `len(range(0, hlen, 126))`. */
  function HeaderRowCount(hlen: nat): nat
  {
    (hlen + HeaderRowChars - 1) / HeaderRowChars
  }

  /** Header characters row `j` carries. */
  function Want(hlen: nat, j: nat): nat
  {
    Max(0, Min(HeaderRowChars, hlen - HeaderRowChars * j))
  }

  /** Of those, the ones in the key (after the index) ... */
  function KeyWant(hlen: nat, j: nat): nat
  {
    Min(HeaderKeyChars, Want(hlen, j))
  }

  /** ... and the ones in the value. */
  function ValueWant(hlen: nat, j: nat): nat
  {
    Want(hlen, j) - KeyWant(hlen, j)
  }

  /** `header[126j : 126j+62]` */
  function KeyChunk(header: string, j: nat): string
  {
    Between(header, HeaderRowChars * j, HeaderRowChars * j + HeaderKeyChars)
  }

  /** `header[126j+62 : 126j+126]` */
  function ValueChunk(header: string, j: nat): string
  {
    Between(header, HeaderRowChars * j + HeaderKeyChars, HeaderRowChars * j + HeaderRowChars)
  }

  lemma ChunkLengths(header: string, j: nat)
    ensures |KeyChunk(header, j)| == KeyWant(|header|, j) <= HeaderKeyChars
    ensures |ValueChunk(header, j)| == ValueWant(|header|, j) <= RowWidth
  {
  }

  lemma ChunksJoin(header: string, j: nat)
    ensures KeyChunk(header, j) + ValueChunk(header, j) == Between(header, HeaderRowChars * j, HeaderRowChars * (j + 1))
  {
  }

  /** `rows` are `gen(j)`, `gen(j + 1)`, ...: the rows a loop writes from its `j`-th iteration on. */
  predicate RowsFrom(rows: seq<Row>, gen: nat -> Result<Row>, j: nat)
    decreases |rows|
  {
    |rows| == 0 || (gen(j) == Success(rows[0]) && RowsFrom(rows[1..], gen, j + 1))
  }

  /** `ok(k)` for every `k` from `j` up to `n`: a loop over `j..n` whose every iteration succeeds. */
  predicate AllFrom(ok: nat -> bool, j: nat, n: nat)
    decreases n - j
  {
    j >= n || (ok(j) && AllFrom(ok, j + 1, n))
  }

  lemma {:induction false} AllFromEvery(ok: nat -> bool, j: nat, n: nat)
    ensures AllFrom(ok, j, n) <==> forall k :: j <= k < n ==> ok(k)
    decreases n - j
  {
    if j < n {
      AllFromEvery(ok, j + 1, n);
    }
  }

  /** Row `k` of rows written from iteration `j` is the one written by iteration `j + k`. */
  lemma {:induction false} RowsFromAt(rows: seq<Row>, gen: nat -> Result<Row>, j: nat, k: nat)
    requires RowsFrom(rows, gen, j) && k < |rows|
    ensures gen(j + k) == Success(rows[k])
    decreases k
  {
    if k > 0 {
      RowsFromAt(rows[1..], gen, j + 1, k - 1);
      assert rows[k] == rows[1..][k - 1];
    }
  }

  /** The header characters of row `j`, or a failure when its value part is not ASCII. */
  function RowHeaderPart(row: Row, hlen: nat, j: nat): Result<string>
  {
    var keyPart := Take(Drop(row.key, IndexWidth), KeyWant(hlen, j));
    var valuePart :- Need(FromAscii(Take(row.value, ValueWant(hlen, j))), NotAscii);
    Success(keyPart + valuePart)
  }

  /** The header read back from rows `j` onwards, as the encoder laid it out. */
  function ReadHeader(rows: seq<Row>, hlen: nat, j: nat): (r: Result<string>)
    requires j <= HeaderRowCount(hlen) <= |rows|
    ensures r.Failure? ==> r.error == NotAscii
    decreases HeaderRowCount(hlen) - j
  {
    if j == HeaderRowCount(hlen) then Success("")
    else
      var part :- RowHeaderPart(rows[j], hlen, j);
      var more :- ReadHeader(rows, hlen, j + 1);
      Success(part + more)
  }

  /**
   When every row from `j` on carries its 126 header characters, reading from
   row `j` gives the header from character `126 * j` on.
   */
  lemma {:induction false} ReadHeaderFrom(rows: seq<Row>, header: string, j: nat)
    requires j <= HeaderRowCount(|header|) <= |rows|
    requires forall k :: j <= k < HeaderRowCount(|header|) ==>
               RowHeaderPart(rows[k], |header|, k) == Success(Between(header, HeaderRowChars * k, HeaderRowChars * (k + 1)))
    ensures ReadHeader(rows, |header|, j) == Success(Drop(header, HeaderRowChars * j))
    decreases HeaderRowCount(|header|) - j
  {
    if j < HeaderRowCount(|header|) {
      ReadHeaderFrom(rows, header, j + 1);
      BetweenDrop(header, HeaderRowChars * j, HeaderRowChars * (j + 1));
    }
  }

  /** The payload of binary rows: basE91 text after the index, then the raw value. */
  function RowsPayload(c: Collaborators, rows: seq<Row>): seq<byte>
    decreases |rows|
  {
    if |rows| == 0 then []
    else c.decode91(Drop(rows[0].key, IndexWidth)) + rows[0].value + RowsPayload(c, rows[1..])
  }

  lemma {:induction false} RowsPayloadAppend(c: Collaborators, a: seq<Row>, b: seq<Row>)
    ensures RowsPayload(c, a + b) == RowsPayload(c, a) + RowsPayload(c, b)
    decreases |a|
  {
    if |a| > 0 {
      assert (a + b)[1..] == a[1..] + b;
      RowsPayloadAppend(c, a[1..], b);
    } else {
      assert a + b == b;
    }
  }

  /**
   The payload as the encoder laid it out: the top-off text and bytes after the
   header in its last row, then every later row.
   */
  function ReadPayload(c: Collaborators, rows: seq<Row>, hlen: nat): seq<byte>
    requires 1 <= HeaderRowCount(hlen) <= |rows|
  {
    var last := HeaderRowCount(hlen) - 1;
    c.decode91(Drop(rows[last].key, IndexWidth + KeyWant(hlen, last)))
      + Drop(rows[last].value, ValueWant(hlen, last))
      + RowsPayload(c, rows[last + 1..])
  }
}
