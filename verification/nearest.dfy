/**
 `_encode_nearest`: basE91-encode the longest prefix of the data, among the
 candidate lengths tried, whose text fits in `n` characters.
 */
module Nearest {
  import opened Slices
  import opened Collaborators

  /** The text written, the data left over and the candidate length that fitted (0 when none did). */
  datatype Chunk = Chunk(text: string, rest: seq<byte>, taken: nat)

  /**
   First candidate length, `ceil(n / 1.10)`, computed exactly on integers; the
   properties below hold for any starting candidate.
   */
  function Start(n: nat): nat
  {
    (10 * n + 10) / 11
  }

  /**
   Tries candidate lengths `i`, `i - 1`, ..., 1 in turn. The result is the first
   (largest) candidate whose text fits in `n`, or nothing at all when none fits.
   Prefixes are clamped as Python slices are, so a candidate may exceed the data.
   */
  function Scan(c: Collaborators, data: seq<byte>, n: nat, i: nat): (r: Chunk)
    ensures |r.text| <= n
    ensures r.taken <= i
    ensures r.taken == 0 ==> r.text == [] && r.rest == data
    ensures r.taken > 0 ==> r.text == c.encode91(Take(data, r.taken)) && r.rest == Drop(data, r.taken)
    ensures forall j :: r.taken < j <= i ==> |c.encode91(Take(data, j))| > n
    decreases i
  {
    if i == 0 then Chunk([], data, 0)
    else
      var encoded := c.encode91(Take(data, i));
      if |encoded| <= n then Chunk(encoded, Drop(data, i), i)
      else Scan(c, data, n, i - 1)
  }

  /**
   `_encode_nearest(data, n)`: text of at most `n` characters encoding the first
   `taken` bytes (clamped), the rest of the data, and no larger candidate fits.
   With no room (`n == 0`) nothing is taken.
   */
  function EncodeNearest(c: Collaborators, data: seq<byte>, n: nat): (r: Chunk)
    ensures |r.text| <= n
    ensures r.taken <= Start(n)
    ensures r.taken == 0 ==> r.text == [] && r.rest == data
    ensures r.taken > 0 ==> r.text == c.encode91(Take(data, r.taken)) && r.rest == Drop(data, r.taken)
    ensures forall j :: r.taken < j <= Start(n) ==> |c.encode91(Take(data, j))| > n
    ensures n == 0 ==> r == Chunk([], data, 0)
    ensures |r.rest| <= |data|
  {
    Scan(c, data, n, Start(n))
  }

  /** Decoding the text and appending the rest gives back the data. */
  lemma NearestCovers(c: Collaborators, data: seq<byte>, n: nat)
    ensures Lawful(c) ==> c.decode91(EncodeNearest(c, data, n).text) + EncodeNearest(c, data, n).rest == data
  {
    var r := EncodeNearest(c, data, n);
    if Lawful(c) && r.taken > 0 {
      assert c.decode91(c.encode91(Take(data, r.taken))) == Take(data, r.taken);
      TakeDrop(data, r.taken);
    }
  }

  /** When the text is empty nothing was consumed. */
  lemma EmptyTextKeepsData(c: Collaborators, data: seq<byte>, n: nat)
    requires Lawful(c)
    requires EncodeNearest(c, data, n).text == []
    ensures EncodeNearest(c, data, n).rest == data
  {
    NearestCovers(c, data, n);
  }
}
