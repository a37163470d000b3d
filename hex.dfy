/**
 * Entry identifiers (generateID in internal/tui/main_model.go): eight random bytes written
 * as lower-case hexadecimal, two digits per byte, high nibble first, as hex.EncodeToString
 * writes them. The decoder is the independent partner that shows the encoding loses nothing.
 */
module Hex {
  import opened Wrappers

  /** The number of random bytes in an identifier. */
  const IdBytes := 8

  /** The lower-case hexadecimal digit of a nibble. */
  function Digit(n: nat): (c: char)
    requires n < 16
    ensures IsDigit(c)
  {
    if n < 10 then ('0' as int + n) as char else ('a' as int + n - 10) as char
  }

  predicate IsDigit(c: char) {
    '0' <= c <= '9' || 'a' <= c <= 'f'
  }

  /** The nibble a lower-case hexadecimal digit stands for. */
  function DigitValue(c: char): (n: nat)
    requires IsDigit(c)
    ensures n < 16 && Digit(n) == c
  {
    if c <= '9' then c as int - '0' as int else c as int - 'a' as int + 10
  }

  function Encode(b: seq<byte>): (s: string)
    ensures |s| == 2 * |b|
    ensures forall i :: 0 <= i < |s| ==> IsDigit(s[i])
  {
    if b == [] then "" else [Digit(b[0] as int / 16), Digit(b[0] as int % 16)] + Encode(b[1..])
  }

  /** Two digits per byte; anything else is rejected. */
  function Decode(s: string): (r: Option<seq<byte>>)
    ensures r.Some? ==> 2 * |r.value| == |s|
  {
    if s == [] then Some([])
    else if |s| == 1 || !IsDigit(s[0]) || !IsDigit(s[1]) then None
    else match Decode(s[2..])
      case None => None
      case Some(rest) => Some([(DigitValue(s[0]) * 16 + DigitValue(s[1])) as byte] + rest)
  }

  lemma {:induction false} DecodeEncode(b: seq<byte>)
    ensures Decode(Encode(b)) == Some(b)
  {
    if b != [] {
      var s := Encode(b);
      var hi, lo := b[0] as int / 16, b[0] as int % 16;
      assert s[0] == Digit(hi) && s[1] == Digit(lo) && s[2..] == Encode(b[1..]);
      DecodeEncode(b[1..]);
      assert DigitValue(Digit(hi)) == hi && DigitValue(Digit(lo)) == lo;
      assert (hi * 16 + lo) as byte == b[0];
      assert Decode(s) == Some([b[0]] + b[1..]);
      assert [b[0]] + b[1..] == b;
    }
  }

  /**
   * generateID: the random bytes as hexadecimal. The result is 16 lower-case hexadecimal
   * characters, so never the empty ID that marks a new entry.
   */
  function GenerateId(randomBytes: seq<byte>): (id: string)
    requires |randomBytes| == IdBytes
    ensures |id| == 2 * IdBytes && id != ""
    ensures forall i :: 0 <= i < |id| ==> IsDigit(id[i])
    ensures Decode(id) == Some(randomBytes)
  {
    DecodeEncode(randomBytes);
    Encode(randomBytes)
  }
}
