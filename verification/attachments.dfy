/**
 The last step of decoding: cutting the payload into one attachment per media
 type, by the sizes the metadata declares, and checking declared checksums.
 */
module Attachments {
  import opened Slices
  import opened Results
  import opened Text
  import opened MediaType

  /**
   How a declared checksum `c` is compared with the CRC32 of its attachment.
   `AsWritten` compares the parameter's text with the number, which never
   matches, so any declared checksum is rejected; `Corrected` compares the
   number the text spells out.
   */
  datatype CheckMode = AsWritten | Corrected

  /** The `s` parameter is absent or a decimal number. */
  predicate SizeValid(ps: seq<Param>)
  {
    Lookup(ps, "s").None? || ParseDecimal(Lookup(ps, "s").value).Some?
  }

  predicate Sized(ds: seq<Descriptor>)
  {
    forall i :: 0 <= i < |ds| ==> SizeValid(ds[i].params)
  }

  /**
   `int(params.get('s', len(binary)))`: the number the `s` parameter spells
   out in decimal digits, or all that remains when there is none.
   */
  function Size(ps: seq<Param>, remaining: nat): (s: nat)
    requires SizeValid(ps)
    ensures Lookup(ps, "s").None? ==> s == remaining
    ensures Lookup(ps, "s").Some? ==> AllDigits(Lookup(ps, "s").value) && DigitsValue(Lookup(ps, "s").value) == s
  {
    match Lookup(ps, "s")
    case None => remaining
    case Some(v) => ParseDecimal(v).value
  }

  /** The attachments the sizes cut out of the payload, first to last. */
  function Cut(ds: seq<Descriptor>, binary: seq<byte>): (r: seq<seq<byte>>)
    requires Sized(ds)
    ensures |r| == |ds|
    decreases |ds|
  {
    if |ds| == 0 then []
    else
      var s := Size(ds[0].params, |binary|);
      [Take(binary, s)] + Cut(ds[1..], Drop(binary, s))
  }

  /** What is left of the payload after the last attachment. */
  function Leftover(ds: seq<Descriptor>, binary: seq<byte>): seq<byte>
    requires Sized(ds)
    decreases |ds|
  {
    if |ds| == 0 then binary
    else Leftover(ds[1..], Drop(binary, Size(ds[0].params, |binary|)))
  }

  /** The declared checksum of an attachment, if any, is accepted. */
  predicate Passes(mode: CheckMode, ps: seq<Param>, slice: seq<byte>, crc: seq<byte> -> nat)
  {
    match Lookup(ps, "c")
    case None => true
    case Some(v) => mode == Corrected && ParseDecimal(v) == Some(crc(slice))
  }

  /** A size written as `str(n)` is read back as `n`. */
  lemma SizeDeclared(ps: seq<Param>, n: nat, remaining: nat)
    requires Lookup(ps, "s") == Some(Decimal(n))
    ensures SizeValid(ps) && Size(ps, remaining) == n
  {
    DecimalRoundTrip(n);
  }

  /** As written, an attachment passes exactly when it declares no checksum. */
  lemma PassesAsWritten(ps: seq<Param>, slice: seq<byte>, crc: seq<byte> -> nat)
    ensures Passes(AsWritten, ps, slice, crc) <==> Lookup(ps, "c").None?
  {
  }

  /**
   Corrected, an attachment passes exactly when it declares no checksum or
   declares, in decimal digits, the CRC32 of its bytes.
   */
  lemma PassesCorrected(ps: seq<Param>, slice: seq<byte>, crc: seq<byte> -> nat)
    ensures Passes(Corrected, ps, slice, crc) <==>
              Lookup(ps, "c").None?
              || (|Lookup(ps, "c").value| > 0 && AllDigits(Lookup(ps, "c").value)
                  && DigitsValue(Lookup(ps, "c").value) == crc(slice))
  {
  }

  /**
   A checksum declared as `str(zlib.crc32(b))` of the attachment's own bytes
   passes the corrected comparison and fails the as-written one.
   */
  lemma DeclaredChecksum(ps: seq<Param>, slice: seq<byte>, crc: seq<byte> -> nat)
    requires Lookup(ps, "c") == Some(Decimal(crc(slice)))
    ensures Passes(Corrected, ps, slice, crc) && !Passes(AsWritten, ps, slice, crc)
  {
    DecimalRoundTrip(crc(slice));
  }

  /** Every size is readable and every declared checksum is accepted. */
  predicate AllPass(mode: CheckMode, ds: seq<Descriptor>, binary: seq<byte>, crc: seq<byte> -> nat)
  {
    Sized(ds) && forall i :: 0 <= i < |ds| ==> Passes(mode, ds[i].params, Cut(ds, binary)[i], crc)
  }

  lemma SizedTail(ds: seq<Descriptor>)
    requires |ds| >= 1
    ensures Sized(ds) <==> SizeValid(ds[0].params) && Sized(ds[1..])
  {
    if SizeValid(ds[0].params) && Sized(ds[1..]) {
      forall i | 0 <= i < |ds| ensures SizeValid(ds[i].params) {
        if i > 0 { assert ds[i] == ds[1..][i - 1]; }
      }
    }
    if Sized(ds) {
      forall i | 0 <= i < |ds[1..]| ensures SizeValid(ds[1..][i].params) {
        assert ds[1..][i] == ds[i + 1];
      }
    }
  }

  lemma CutFront(ds: seq<Descriptor>, binary: seq<byte>, i: nat)
    requires Sized(ds) && 1 <= i < |ds|
    ensures Sized(ds[1..])
    ensures Cut(ds, binary)[i] == Cut(ds[1..], Drop(binary, Size(ds[0].params, |binary|)))[i - 1]
  {
    assert ds[i] == ds[1..][i - 1];
  }

  lemma AllPassFront(mode: CheckMode, ds: seq<Descriptor>, binary: seq<byte>, crc: seq<byte> -> nat)
    requires Sized(ds) && |ds| >= 1
    ensures Sized(ds[1..])
    ensures AllPass(mode, ds, binary, crc) <==>
              Passes(mode, ds[0].params, Take(binary, Size(ds[0].params, |binary|)), crc)
              && AllPass(mode, ds[1..], Drop(binary, Size(ds[0].params, |binary|)), crc)
  {
    var s := Size(ds[0].params, |binary|);
    var tail := Cut(ds[1..], Drop(binary, s));
    SizedTail(ds);
    forall i | 1 <= i < |ds|
      ensures Passes(mode, ds[i].params, Cut(ds, binary)[i], crc)
          <==> Passes(mode, ds[1..][i - 1].params, tail[i - 1], crc)
    {
      CutFront(ds, binary, i);
    }
    if AllPass(mode, ds[1..], Drop(binary, s), crc) && Passes(mode, ds[0].params, Take(binary, s), crc) {
      forall i | 0 <= i < |ds| ensures Passes(mode, ds[i].params, Cut(ds, binary)[i], crc) {
        if i > 0 {
          assert Passes(mode, ds[1..][i - 1].params, tail[i - 1], crc);
        }
      }
    }
  }

  /**
   The loop over the media types: each takes `s` bytes (or all that is left
   when it declares no size), and fails on an unreadable size or a rejected
   checksum, in the order the media types come.
   */
  function Attach(ds: seq<Descriptor>, binary: seq<byte>, crc: seq<byte> -> nat, mode: CheckMode): (r: Result<seq<seq<byte>>>)
    ensures r.Failure? ==> r.error == BadSize || r.error == ChecksumMismatch
    ensures r.Failure? && Sized(ds) ==> r.error == ChecksumMismatch
    ensures r.Success? <==> AllPass(mode, ds, binary, crc)
    ensures r.Success? ==> r.value == Cut(ds, binary)
    decreases |ds|
  {
    if |ds| == 0 then Success([])
    else
      var sv := Lookup(ds[0].params, "s");
      if sv.Some? && ParseDecimal(sv.value).None? then Failure(BadSize)
      else
        var s := Size(ds[0].params, |binary|);
        var slice := Take(binary, s);
        if !Passes(mode, ds[0].params, slice, crc) then Failure(ChecksumMismatch)
        else
          var rest :- Attach(ds[1..], Drop(binary, s), crc, mode);
          AttachFront(ds, binary, crc, mode);
          Success([slice] + rest)
  }

  lemma AttachFront(ds: seq<Descriptor>, binary: seq<byte>, crc: seq<byte> -> nat, mode: CheckMode)
    requires |ds| >= 1 && SizeValid(ds[0].params)
    ensures Sized(ds) <==> Sized(ds[1..])
    ensures Sized(ds) ==> (AllPass(mode, ds, binary, crc) <==>
              Passes(mode, ds[0].params, Take(binary, Size(ds[0].params, |binary|)), crc)
              && AllPass(mode, ds[1..], Drop(binary, Size(ds[0].params, |binary|)), crc))
  {
    SizedTail(ds);
    if Sized(ds) {
      AllPassFront(mode, ds, binary, crc);
    }
  }

  /** `b[:s] + (rest + left) == b` when `rest + left == b[s:]`. */
  lemma JoinParts(b: seq<byte>, s: nat, rest: seq<byte>, left: seq<byte>)
    requires rest + left == Drop(b, s)
    ensures Take(b, s) + rest + left == b
  {
    TakeDrop(b, s);
  }

  /** Joined back together, the attachments and the leftover are the payload. */
  lemma {:induction false} CutCovers(ds: seq<Descriptor>, binary: seq<byte>)
    requires Sized(ds)
    ensures Concat(Cut(ds, binary)) + Leftover(ds, binary) == binary
    decreases |ds|
  {
    if |ds| > 0 {
      var s := Size(ds[0].params, |binary|);
      SizedTail(ds);
      var tail := Cut(ds[1..], Drop(binary, s));
      var left := Leftover(ds[1..], Drop(binary, s));
      CutCovers(ds[1..], Drop(binary, s));
      assert Concat(Cut(ds, binary)) == Take(binary, s) + Concat(tail) by {
        assert Cut(ds, binary) == [Take(binary, s)] + tail;
        ConcatAppend([Take(binary, s)], tail);
        assert Concat([Take(binary, s)]) == Take(binary, s);
      }
      assert Leftover(ds, binary) == left;
      JoinParts(binary, s, Concat(tail), left);
    }
  }

  /** A last media type without a size takes everything that is left. */
  lemma {:induction false} LastTakesRest(ds: seq<Descriptor>, binary: seq<byte>)
    requires Sized(ds) && |ds| >= 1 && Lookup(ds[|ds| - 1].params, "s").None?
    ensures Leftover(ds, binary) == []
    decreases |ds|
  {
    var s := Size(ds[0].params, |binary|);
    if |ds| > 1 {
      SizedTail(ds);
      assert ds[1..][|ds[1..]| - 1] == ds[|ds| - 1];
      LastTakesRest(ds[1..], Drop(binary, s));
    }
  }

  /** As written, declaring a checksum on any attachment makes decoding fail. */
  lemma AsWrittenRejectsChecksums(ds: seq<Descriptor>, binary: seq<byte>, crc: seq<byte> -> nat, i: nat)
    requires Sized(ds) && i < |ds| && Lookup(ds[i].params, "c").Some?
    ensures Attach(ds, binary, crc, AsWritten) == Failure(ChecksumMismatch)
  {
    assert !Passes(AsWritten, ds[i].params, Cut(ds, binary)[i], crc);
  }

  /** As written, attachments without declared checksums are cut by their sizes. */
  lemma AsWrittenAcceptsUnchecked(ds: seq<Descriptor>, binary: seq<byte>, crc: seq<byte> -> nat)
    requires Sized(ds) && forall i :: 0 <= i < |ds| ==> Lookup(ds[i].params, "c").None?
    ensures Attach(ds, binary, crc, AsWritten) == Success(Cut(ds, binary))
  {
    assert AllPass(AsWritten, ds, binary, crc);
  }

  /**
   Corrected, the attachments are accepted exactly when every declared
   checksum is the decimal CRC32 of its attachment.
   */
  lemma CorrectedAcceptsMatching(ds: seq<Descriptor>, binary: seq<byte>, crc: seq<byte> -> nat)
    requires Sized(ds)
    ensures Attach(ds, binary, crc, Corrected) == Success(Cut(ds, binary)) <==>
              forall i :: 0 <= i < |ds| && Lookup(ds[i].params, "c").Some? ==>
                ParseDecimal(Lookup(ds[i].params, "c").value) == Some(crc(Cut(ds, binary)[i]))
  {
  }
}
