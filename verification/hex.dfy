/** Lower-case hexadecimal, as Go's `hex.EncodeToString` writes it. */
module Hex {
  import opened Results
  import opened GoStrings

  /** A 4-bit value: one hexadecimal digit. */
  type nibble = x: int | 0 <= x < 16

  /** The digit character of a nibble: `0`-`9`, then `a`-`f`. */
  function Digit(v: nibble): (c: byte)
    ensures DigitValue(c) == Some(v)
  {
    if v < 10 then 48 + v else 87 + v
  }

  /** The nibble a lower-case digit character stands for; `None` for any other byte. */
  function DigitValue(c: byte): Option<nibble> {
    if 48 <= c <= 57 then Some(c - 48)
    else if 97 <= c <= 102 then Some(c - 87)
    else None
  }

  /** `c` is one of `0123456789abcdef`. */
  predicate IsLowerHexDigit(c: byte) {
    48 <= c <= 57 || 97 <= c <= 102
  }

  /** `hex.EncodeToString`: two lower-case digits per byte, high nibble first. */
  function Encode(d: seq<byte>): (r: GoString)
    ensures |r| == 2 * |d|
    ensures forall i | 0 <= i < |r| :: IsLowerHexDigit(r[i])
  {
    if d == [] then [] else [Digit(d[0] / 16), Digit(d[0] % 16)] + Encode(d[1..])
  }

  /** Reads pairs of lower-case digits back into bytes; `None` on any other input. */
  function Decode(s: GoString): Option<seq<byte>>
    decreases |s|
  {
    if s == [] then Some([])
    else if |s| == 1 then None
    else
      match (DigitValue(s[0]), DigitValue(s[1]), Decode(s[2..]))
      case (Some(hi), Some(lo), Some(rest)) =>
        var b: byte := hi as int * 16 + lo as int;
        Some([b] + rest)
      case _ => None
  }

  /** Decoding inverts encoding. */
  lemma {:induction false} DecodeEncode(d: seq<byte>)
    ensures Decode(Encode(d)) == Some(d)
  {
    if d != [] {
      var e := Encode(d);
      assert e[2..] == Encode(d[1..]);
      DecodeEncode(d[1..]);
      assert DigitValue(e[0]) == Some(d[0] / 16);
      assert DigitValue(e[1]) == Some(d[0] % 16);
      assert [d[0]] + d[1..] == d;
    }
  }

  /** Two byte strings have the same encoding only if they are equal. */
  lemma EncodeInjective(d: seq<byte>, d': seq<byte>)
    ensures Encode(d) == Encode(d') <==> d == d'
  {
    if Encode(d) == Encode(d') {
      DecodeEncode(d);
      DecodeEncode(d');
    }
  }
}
