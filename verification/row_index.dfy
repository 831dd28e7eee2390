/**
 `_encode_index`: the two-character base-36 row index that opens every key.
 */
module RowIndex {
  import opened Results

  /** The largest index two base-36 digits can write (36 * 36 - 1). */
  const MaxIndex: nat := 1295

  /** `(string.digits + string.ascii_lowercase)[d]` */
  function Alphabet(d: nat): (c: char)
    requires d < 36
    ensures IsIndexChar(c)
  {
    if d < 10 then ('0' as int + d) as char else ('a' as int + d - 10) as char
  }

  /** A character of `string.digits + string.ascii_lowercase`. */
  predicate IsIndexChar(c: char)
  {
    '0' <= c <= '9' || 'a' <= c <= 'z'
  }

  /** Position of a character in the alphabet. */
  function DigitValue(c: char): nat
  {
    if '0' <= c <= '9' then c as int - '0' as int
    else if 'a' <= c <= 'z' then c as int - 'a' as int + 10
    else 0
  }

  /** The value two index characters stand for. */
  function IndexValue(s: string): nat
    requires |s| == 2
  {
    36 * DigitValue(s[0]) + DigitValue(s[1])
  }

  /**
   `_encode_index(i)`: defined exactly on 0..1295, where it writes two alphabet
   characters whose base-36 value is `i`; anything larger fails its assertion.
   */
  function EncodeIndex(i: nat): (r: Result<string>)
    ensures r.Success? <==> i <= MaxIndex
    ensures r.Failure? ==> r.error == IndexOutOfRange
    ensures r.Success? ==> |r.value| == 2 && IsIndexChar(r.value[0]) && IsIndexChar(r.value[1])
    ensures r.Success? ==> IndexValue(r.value) == i
  {
    if i <= MaxIndex then
      Success([Alphabet(i / 36), Alphabet(i % 36)])
    else Failure(IndexOutOfRange)
  }

  /** Distinct rows get distinct indices. */
  lemma IndexInjective(i: nat, j: nat)
    requires EncodeIndex(i).Success? && EncodeIndex(j).Success?
    requires EncodeIndex(i).value == EncodeIndex(j).value
    ensures i == j
  {
  }
}
