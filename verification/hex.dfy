/** Node's `Buffer.prototype.toString('hex')`: two lower-case hexadecimal
    digits per byte, high nibble first. `Decode` is its inverse and is what
    makes the encoding injective. */
module Hex {
  import opened Wrappers

  type byte = x: int | 0 <= x < 256

  const Digits: string := "0123456789abcdef"

  function Digit(n: int): (c: char)
    requires 0 <= n < 16
    ensures c in Digits
  {
    Digits[n]
  }

  /** The value of a lower-case hexadecimal digit, or `None`. */
  function DigitValue(c: char): (r: Option<int>)
    ensures r.Some? ==> 0 <= r.value < 16 && Digit(r.value) == c
    ensures r.None? ==> c !in Digits
  {
    if '0' <= c <= '9' then Some(c as int - '0' as int)
    else if 'a' <= c <= 'f' then Some(c as int - 'a' as int + 10)
    else None
  }

  /** The two digits of one byte, high nibble first. */
  function EncodeByte(b: byte): (s: string)
    ensures |s| == 2
  {
    [Digit(b / 16), Digit(b % 16)]
  }

  function DecodeByte(hi: char, lo: char): Option<byte>
  {
    match (DigitValue(hi), DigitValue(lo))
    case (Some(h), Some(l)) => Some(h * 16 + l)
    case _ => None
  }

  function Encode(bs: seq<byte>): (s: string)
    ensures |s| == 2 * |bs|
  {
    if |bs| == 0 then "" else EncodeByte(bs[0]) + Encode(bs[1..])
  }

  function Decode(s: string): Option<seq<byte>>
  {
    if |s| == 0 then Some([])
    else if |s| == 1 then None
    else match (DecodeByte(s[0], s[1]), Decode(s[2..]))
      case (Some(b), Some(rest)) => Some([b] + rest)
      case _ => None
  }

  lemma DigitRoundTrip(n: int)
    requires 0 <= n < 16
    ensures DigitValue(Digit(n)) == Some(n)
  {
  }

  lemma ByteRoundTrip(b: byte)
    ensures DecodeByte(EncodeByte(b)[0], EncodeByte(b)[1]) == Some(b)
  {
    DigitRoundTrip(b / 16);
    DigitRoundTrip(b % 16);
  }

  lemma {:induction false} DecodeEncode(bs: seq<byte>)
    ensures Decode(Encode(bs)) == Some(bs)
  {
    if |bs| > 0 {
      var s := Encode(bs);
      var e := EncodeByte(bs[0]);
      assert s == e + Encode(bs[1..]);
      assert s[0] == e[0] && s[1] == e[1];
      assert s[2..] == Encode(bs[1..]);
      ByteRoundTrip(bs[0]);
      DecodeEncode(bs[1..]);
      assert [bs[0]] + bs[1..] == bs;
    }
  }

  /** Distinct byte strings never share a hexadecimal rendering. */
  lemma EncodeInjective(a: seq<byte>, b: seq<byte>)
    ensures Encode(a) == Encode(b) <==> a == b
  {
    if Encode(a) == Encode(b) {
      DecodeEncode(a);
      DecodeEncode(b);
    }
  }
}
