/**
 The standard base 64 alphabet with `=` padding, as in section 4 of RFC 4648
 (Go's `base64.StdEncoding`), together with a decoder that serves as its
 inverse. Encoding is split in two layers: cutting the bytes into 6-bit
 digits (and padding marks), then writing each digit as its alphabet
 character.
 */
module Base64 {
  import opened Results
  import opened GoStrings

  /** A 6-bit group: one base 64 digit. */
  type sextet = x: int | 0 <= x < 64

  /** The padding character `=`. */
  const Pad: byte := 61

  /** The 64 characters of the alphabet: A-Z, a-z, 0-9, `+` and `/`. */
  predicate InAlphabet(c: byte) {
    65 <= c <= 90 || 97 <= c <= 122 || 48 <= c <= 57 || c == 43 || c == 47
  }

  /** The alphabet character of a digit. */
  function Char(v: sextet): (c: byte)
    ensures InAlphabet(c)
  {
    if v < 26 then 65 + v
    else if v < 52 then 71 + v
    else if v < 62 then v - 4
    else if v == 62 then 43
    else 47
  }

  /** The digit an alphabet character stands for; `None` for any other byte. */
  function Value(c: byte): (r: Option<sextet>)
    ensures r.Some? <==> InAlphabet(c)
  {
    if 65 <= c <= 90 then Some(c - 65)
    else if 97 <= c <= 122 then Some(c - 71)
    else if 48 <= c <= 57 then Some(c + 4)
    else if c == 43 then Some(62)
    else if c == 47 then Some(63)
    else None
  }

  /** Reading a character back gives the digit it was written for. */
  lemma ValueOfChar(v: sextet)
    ensures Value(Char(v)) == Some(v)
  {
  }

  /** One position of the encoded text: a digit, or a padding mark. */
  datatype Symbol = Digit(v: sextet) | Padding

  /** How many `=` close the encoding of `n` bytes. */
  function PadCount(n: nat): nat {
    (3 - n % 3) % 3
  }

  /** Four digits for three bytes. */
  function Block(a: byte, b: byte, c: byte): seq<Symbol> {
    [Digit(a / 4), Digit(a % 4 * 16 + b / 16), Digit(b % 16 * 4 + c / 64), Digit(c % 64)]
  }

  /**
   The symbols of `s`: every three bytes become four digits; a last group of
   one or two bytes is zero-filled and padded up to four symbols.
   */
  function Symbols(s: seq<byte>): (r: seq<Symbol>)
    ensures |r| == 4 * ((|s| + 2) / 3)
    decreases |s|
  {
    if |s| == 0 then []
    else if |s| == 1 then [Digit(s[0] / 4), Digit(s[0] % 4 * 16), Padding, Padding]
    else if |s| == 2 then [Digit(s[0] / 4), Digit(s[0] % 4 * 16 + s[1] / 16), Digit(s[1] % 16 * 4), Padding]
    else Block(s[0], s[1], s[2]) + Symbols(s[3..])
  }

  /** The character written for one symbol. */
  function Glyph(x: Symbol): byte {
    if x.Digit? then Char(x.v) else Pad
  }

  /** Writes each digit as its alphabet character and each padding mark as `=`. */
  function Render(r: seq<Symbol>): (t: seq<byte>)
    ensures |t| == |r|
    ensures forall i | 0 <= i < |r| :: r[i].Digit? ==> InAlphabet(t[i])
    ensures forall i | 0 <= i < |r| :: r[i].Padding? ==> t[i] == Pad
  {
    if r == [] then [] else [Glyph(r[0])] + Render(r[1..])
  }

  /** `base64.StdEncoding.EncodeToString`. */
  function Encode(s: seq<byte>): (t: seq<byte>)
    ensures |t| == 4 * ((|s| + 2) / 3)
  {
    Render(Symbols(s))
  }

  /** Reads characters back into symbols; `None` on a byte that is neither in the alphabet nor `=`. */
  function Scan(t: seq<byte>): Option<seq<Symbol>> {
    if t == [] then Some([])
    else
      var head := if t[0] == Pad then Some(Padding)
                  else match Value(t[0]) case Some(v) => Some(Digit(v)) case None => None;
      match (head, Scan(t[1..]))
      case (Some(x), Some(rest)) => Some([x] + rest)
      case _ => None
  }

  /** Three bytes from four digits. */
  function Combine(v0: sextet, v1: sextet, v2: sextet, v3: sextet): seq<byte> {
    [v0 * 4 + v1 / 16, v1 % 16 * 16 + v2 / 4, v2 % 4 * 64 + v3]
  }

  /** Decodes four symbols that must all be digits. */
  function UnBlock(q: seq<Symbol>): Option<seq<byte>>
    requires |q| == 4
  {
    if q[0].Digit? && q[1].Digit? && q[2].Digit? && q[3].Digit? then
      Some(Combine(q[0].v, q[1].v, q[2].v, q[3].v))
    else
      None
  }

  /**
   Decodes the last four symbols, which may end in two padding marks (one
   byte) or one (two bytes). The bits the padding leaves over must be zero, so
   that every byte string has exactly one encoding.
   */
  function UnBlockFinal(q: seq<Symbol>): Option<seq<byte>>
    requires |q| == 4
  {
    if q[0].Digit? && q[1].Digit? && q[2].Padding? && q[3].Padding? then
      if q[1].v % 16 == 0 then
        var a: byte := q[0].v * 4 + q[1].v / 16;
        Some([a])
      else
        None
    else if q[0].Digit? && q[1].Digit? && q[2].Digit? && q[3].Padding? then
      if q[2].v % 4 == 0 then
        var a: byte := q[0].v * 4 + q[1].v / 16;
        var b: byte := q[1].v % 16 * 16 + q[2].v / 4;
        Some([a, b])
      else
        None
    else
      UnBlock(q)
  }

  /** Reads symbols back into bytes, four at a time; padding may only close the last group. */
  function UnSymbols(r: seq<Symbol>): Option<seq<byte>>
    decreases |r|
  {
    if |r| == 0 then Some([])
    else if |r| < 4 then None
    else if |r| == 4 then UnBlockFinal(r)
    else
      match (UnBlock(r[..4]), UnSymbols(r[4..]))
      case (Some(head), Some(tail)) => Some(head + tail)
      case _ => None
  }

  /** Decodes a padded base 64 string; `None` when it is not one. */
  function Decode(t: seq<byte>): Option<seq<byte>> {
    match Scan(t)
    case Some(r) => UnSymbols(r)
    case None => None
  }

  /** Scanning reads back exactly the symbols that were rendered. */
  lemma {:induction false} ScanRender(r: seq<Symbol>)
    ensures Scan(Render(r)) == Some(r)
  {
    if r != [] {
      var t := Render(r);
      assert t[1..] == Render(r[1..]);
      ScanRender(r[1..]);
      if r[0].Digit? {
        ValueOfChar(r[0].v);
      }
      assert [r[0]] + r[1..] == r;
    }
  }

  /** The second digit of a block splits back into the low bits of `x` and the high bits of `y`. */
  lemma SplitJoin16(x: byte, y: byte)
    ensures (x % 4 * 16 + y / 16) / 16 == x % 4
    ensures (x % 4 * 16 + y / 16) % 16 == y / 16
  {
  }

  /** The third digit of a block splits back into the low bits of `x` and the high bits of `y`. */
  lemma SplitJoin64(x: byte, y: byte)
    ensures (x % 16 * 4 + y / 64) / 4 == x % 16
    ensures (x % 16 * 4 + y / 64) % 4 == y / 64
  {
  }

  /** The digits of a block combine back into its three bytes. */
  lemma CombineBlock(a: byte, b: byte, c: byte)
    ensures Combine(a / 4, a % 4 * 16 + b / 16, b % 16 * 4 + c / 64, c % 64) == [a, b, c]
  {
    SplitJoin16(a, b);
    SplitJoin64(b, c);
    assert a / 4 * 4 + a % 4 == a;
    assert b / 16 * 16 + b % 16 == b;
    assert c / 64 * 64 + c % 64 == c;
  }

  /** Four digits decode to their combination, whether or not they are the last group. */
  lemma UnBlockOfDigits(w: sextet, x: sextet, y: sextet, z: sextet)
    ensures UnBlock([Digit(w), Digit(x), Digit(y), Digit(z)]) == Some(Combine(w, x, y, z))
    ensures UnBlockFinal([Digit(w), Digit(x), Digit(y), Digit(z)]) == Some(Combine(w, x, y, z))
  {
  }

  /** A full block decodes back to its three bytes, whether or not it is the last. */
  lemma UnBlockOfBlock(a: byte, b: byte, c: byte)
    ensures UnBlock(Block(a, b, c)) == Some([a, b, c])
    ensures UnBlockFinal(Block(a, b, c)) == Some([a, b, c])
  {
    UnBlockOfDigits(a / 4, a % 4 * 16 + b / 16, b % 16 * 4 + c / 64, c % 64);
    CombineBlock(a, b, c);
  }

  /** The padded group of one byte decodes back to it. */
  lemma UnBlockFinalOne(a: byte)
    ensures UnBlockFinal([Digit(a / 4), Digit(a % 4 * 16), Padding, Padding]) == Some([a])
  {
    var x := a % 4;
    assert (x * 16) / 16 == x && (x * 16) % 16 == 0;
    assert a / 4 * 4 + x == a;
  }

  /** The padded group of two bytes decodes back to them. */
  lemma UnBlockFinalTwo(a: byte, b: byte)
    ensures UnBlockFinal([Digit(a / 4), Digit(a % 4 * 16 + b / 16), Digit(b % 16 * 4), Padding]) == Some([a, b])
  {
    SplitJoin16(a, b);
    var y := b % 16;
    assert (y * 4) / 4 == y && (y * 4) % 4 == 0;
    assert a / 4 * 4 + a % 4 == a;
    assert b / 16 * 16 + y == b;
  }

  /** Reading the symbols back inverts cutting the bytes into symbols. */
  lemma {:induction false} UnSymbolsSymbols(s: seq<byte>)
    ensures UnSymbols(Symbols(s)) == Some(s)
    decreases |s|
  {
    if |s| == 1 {
      UnBlockFinalOne(s[0]);
      assert [s[0]] == s;
    } else if |s| == 2 {
      UnBlockFinalTwo(s[0], s[1]);
      assert [s[0], s[1]] == s;
    } else if |s| >= 3 {
      var r := Symbols(s);
      var block := Block(s[0], s[1], s[2]);
      var rest := Symbols(s[3..]);
      UnBlockOfBlock(s[0], s[1], s[2]);
      assert r == block + rest;
      if |s| == 3 {
        assert rest == [];
        assert r == block;
        assert UnSymbols(r) == UnBlockFinal(block);
        assert [s[0], s[1], s[2]] == s;
      } else {
        assert |rest| >= 4;
        assert r[..4] == block;
        assert r[4..] == rest;
        UnSymbolsSymbols(s[3..]);
        assert UnSymbols(r) == Some([s[0], s[1], s[2]] + s[3..]);
        assert [s[0], s[1], s[2]] + s[3..] == s;
      }
    }
  }

  /** Decoding inverts encoding. */
  lemma DecodeEncode(s: seq<byte>)
    ensures Decode(Encode(s)) == Some(s)
  {
    ScanRender(Symbols(s));
    UnSymbolsSymbols(s);
  }

  /** Encodings differ whenever their inputs do. */
  lemma EncodeInjective(s: seq<byte>, t: seq<byte>)
    ensures Encode(s) == Encode(t) <==> s == t
  {
    if Encode(s) == Encode(t) {
      DecodeEncode(s);
      DecodeEncode(t);
    }
  }

  /** Writing a read digit gives back the character it was read from. */
  lemma CharOfValue(c: byte)
    requires Value(c).Some?
    ensures Char(Value(c).value) == c
  {
  }

  /** Rendering inverts scanning: a scanned text is written back character for character. */
  lemma {:induction false} RenderScan(t: seq<byte>)
    requires Scan(t).Some?
    ensures Render(Scan(t).value) == t
  {
    if t != [] {
      var r := Scan(t).value;
      RenderScan(t[1..]);
      assert r[1..] == Scan(t[1..]).value;
      if t[0] != Pad {
        CharOfValue(t[0]);
      }
      assert Glyph(r[0]) == t[0];
      assert [t[0]] + t[1..] == t;
    }
  }

  /** Three bytes combined from four digits are cut back into the same digits. */
  lemma BlockCombine(w: sextet, x: sextet, y: sextet, z: sextet)
    ensures var b := Combine(w, x, y, z);
            Block(b[0], b[1], b[2]) == [Digit(w), Digit(x), Digit(y), Digit(z)]
  {
    var b := Combine(w, x, y, z);
    assert b[0] / 4 == w && b[0] % 4 == x / 16;
    assert b[1] / 16 == x % 16 && b[1] % 16 == y / 4;
    assert b[2] / 64 == y % 4 && b[2] % 64 == z;
    assert x / 16 * 16 + x % 16 == x;
    assert y / 4 * 4 + y % 4 == y;
  }

  /** The last group read back is cut into the same symbols again. */
  lemma SymbolsUnBlockFinal(q: seq<Symbol>)
    requires |q| == 4 && UnBlockFinal(q).Some?
    ensures Symbols(UnBlockFinal(q).value) == q
  {
    var s := UnBlockFinal(q).value;
    if q[2].Padding? && q[3].Padding? {
      var a := q[0].v * 4 + q[1].v / 16;
      assert s == [a];
      assert a / 4 == q[0].v && a % 4 == q[1].v / 16;
      assert q[1].v / 16 * 16 + q[1].v % 16 == q[1].v;
      assert q == [Digit(q[0].v), Digit(q[1].v), Padding, Padding];
    } else if q[3].Padding? {
      var a := q[0].v * 4 + q[1].v / 16;
      var b := q[1].v % 16 * 16 + q[2].v / 4;
      assert s == [a, b];
      assert a / 4 == q[0].v && a % 4 == q[1].v / 16;
      assert b / 16 == q[1].v % 16 && b % 16 == q[2].v / 4;
      assert q[1].v / 16 * 16 + q[1].v % 16 == q[1].v;
      assert q[2].v / 4 * 4 + q[2].v % 4 == q[2].v;
      assert q == [Digit(q[0].v), Digit(q[1].v), Digit(q[2].v), Padding];
    } else {
      BlockCombine(q[0].v, q[1].v, q[2].v, q[3].v);
      assert q == [Digit(q[0].v), Digit(q[1].v), Digit(q[2].v), Digit(q[3].v)];
      assert s[3..] == [];
    }
  }

  /** Cutting bytes into symbols inverts reading symbols back: a decodable symbol string is the only one for its bytes. */
  lemma {:induction false} SymbolsUnSymbols(r: seq<Symbol>)
    requires UnSymbols(r).Some?
    ensures Symbols(UnSymbols(r).value) == r
    decreases |r|
  {
    if |r| == 4 {
      SymbolsUnBlockFinal(r);
    } else if |r| > 4 {
      var q := r[..4];
      var head := UnBlock(q).value;
      var tail := UnSymbols(r[4..]).value;
      SymbolsUnSymbols(r[4..]);
      BlockCombine(q[0].v, q[1].v, q[2].v, q[3].v);
      assert q == [Digit(q[0].v), Digit(q[1].v), Digit(q[2].v), Digit(q[3].v)];
      var s := head + tail;
      assert UnSymbols(r).value == s;
      assert s[3..] == tail;
      assert Symbols(s) == Block(head[0], head[1], head[2]) + Symbols(tail);
      assert r == q + r[4..];
    }
  }

  /** A decodable text is the encoding of what it decodes to: every byte string has exactly one encoding. */
  lemma EncodeDecode(t: seq<byte>)
    requires Decode(t).Some?
    ensures Encode(Decode(t).value) == t
  {
    RenderScan(t);
    SymbolsUnSymbols(Scan(t).value);
  }

  /** A text decodes to `s` exactly when it is the encoding of `s`. */
  lemma DecodeIff(t: seq<byte>, s: seq<byte>)
    ensures Decode(t) == Some(s) <==> t == Encode(s)
  {
    if Decode(t) == Some(s) {
      EncodeDecode(t);
    }
    if t == Encode(s) {
      DecodeEncode(s);
    }
  }

  /** All but the last `k` characters of `t` are in the alphabet, and the last `k` are `=`. */
  predicate PaddedWith(t: seq<byte>, k: nat) {
    && k <= |t|
    && (forall i | 0 <= i < |t| - k :: InAlphabet(t[i]))
    && (forall i | |t| - k <= i < |t| :: t[i] == Pad)
  }

  /** Only the last `k` symbols are padding marks. */
  predicate SymbolsPaddedWith(r: seq<Symbol>, k: nat) {
    && k <= |r|
    && (forall i | 0 <= i < |r| - k :: r[i].Digit?)
    && (forall i | |r| - k <= i < |r| :: r[i].Padding?)
  }

  /** The symbols of `s` end in `PadCount(|s|)` padding marks and have no other. */
  lemma {:induction false} SymbolsPadding(s: seq<byte>)
    ensures SymbolsPaddedWith(Symbols(s), PadCount(|s|))
    decreases |s|
  {
    if |s| >= 3 {
      var r := Symbols(s);
      var rest := Symbols(s[3..]);
      assert r == Block(s[0], s[1], s[2]) + rest;
      assert PadCount(|s|) == PadCount(|s| - 3);
      SymbolsPadding(s[3..]);
      assert forall i | 4 <= i < |r| :: r[i] == rest[i - 4];
    }
  }

  /**
   The padding of an encoding sits only at the end: all characters but the
   last `PadCount(|s|)` are in the alphabet, and those are `=`.
   */
  lemma EncodePadding(s: seq<byte>)
    ensures PaddedWith(Encode(s), PadCount(|s|))
  {
    SymbolsPadding(s);
  }

  /** Cutting into symbols works three bytes at a time, so it distributes over whole groups. */
  lemma {:induction false} SymbolsAppend(s: seq<byte>, t: seq<byte>)
    requires |s| % 3 == 0
    ensures Symbols(s + t) == Symbols(s) + Symbols(t)
    decreases |s|
  {
    if s == [] {
      assert s + t == t;
    } else {
      var st := s + t;
      assert st[..3] == s[..3];
      assert st[3..] == s[3..] + t;
      SymbolsAppend(s[3..], t);
    }
  }

  /** Writing symbols out works one symbol at a time. */
  lemma {:induction false} RenderAppend(r: seq<Symbol>, q: seq<Symbol>)
    ensures Render(r + q) == Render(r) + Render(q)
  {
    if r == [] {
      assert r + q == q;
    } else {
      assert (r + q)[1..] == r[1..] + q;
      RenderAppend(r[1..], q);
    }
  }

  /** The encoding of whole groups followed by anything is the two encodings joined. */
  lemma EncodeAppend(s: seq<byte>, t: seq<byte>)
    requires |s| % 3 == 0
    ensures Encode(s + t) == Encode(s) + Encode(t)
  {
    SymbolsAppend(s, t);
    RenderAppend(Symbols(s), Symbols(t));
  }

  /** Four symbols are written as their four characters. */
  lemma RenderFour(w: Symbol, x: Symbol, y: Symbol, z: Symbol)
    ensures Render([w, x, y, z]) == [Glyph(w), Glyph(x), Glyph(y), Glyph(z)]
  {
    assert [z][1..] == [];
    assert Render([z]) == [Glyph(z)];
    assert [y, z][1..] == [z];
    assert Render([y, z]) == [Glyph(y), Glyph(z)];
    assert [x, y, z][1..] == [y, z];
    assert Render([x, y, z]) == [Glyph(x), Glyph(y), Glyph(z)];
    assert [w, x, y, z][1..] == [x, y, z];
  }

  /** One byte encodes to two digits and two `=`. */
  lemma EncodeOne(a: byte)
    ensures Encode([a]) == [Char(a / 4), Char(a % 4 * 16), Pad, Pad]
  {
    RenderFour(Digit(a / 4), Digit(a % 4 * 16), Padding, Padding);
  }

  /** Two bytes encode to three digits and one `=`. */
  lemma EncodeTwo(a: byte, b: byte)
    ensures Encode([a, b]) == [Char(a / 4), Char(a % 4 * 16 + b / 16), Char(b % 16 * 4), Pad]
  {
    RenderFour(Digit(a / 4), Digit(a % 4 * 16 + b / 16), Digit(b % 16 * 4), Padding);
  }

  /** Three bytes encode to the characters of their four digits. */
  lemma EncodeThree(a: byte, b: byte, c: byte)
    ensures Encode([a, b, c]) == [Char(a / 4), Char(a % 4 * 16 + b / 16), Char(b % 16 * 4 + c / 64), Char(c % 64)]
  {
    assert [a, b, c][3..] == [];
    assert Symbols([a, b, c]) == Block(a, b, c);
    RenderFour(Digit(a / 4), Digit(a % 4 * 16 + b / 16), Digit(b % 16 * 4 + c / 64), Digit(c % 64));
  }

  /** Section 10 of RFC 4648: "f" encodes to "Zg==". */
  lemma VectorF()
    ensures Encode([102]) == [90, 103, 61, 61]
  {
    EncodeOne(102);
    assert 102 / 4 == 25 && 102 % 4 == 2;
  }

  /** Section 10 of RFC 4648: "fo" encodes to "Zm8=". */
  lemma VectorFo()
    ensures Encode([102, 111]) == [90, 109, 56, 61]
  {
    EncodeTwo(102, 111);
    assert 102 / 4 == 25 && 102 % 4 == 2 && 111 / 16 == 6 && 111 % 16 == 15;
  }

  /** Six bytes encode as two groups of three. */
  lemma EncodeSix(a: byte, b: byte, c: byte, d: byte, e: byte, f: byte)
    ensures Encode([a, b, c, d, e, f]) == Encode([a, b, c]) + Encode([d, e, f])
  {
    assert [a, b, c, d, e, f] == [a, b, c] + [d, e, f];
    EncodeAppend([a, b, c], [d, e, f]);
  }

  /** Section 10 of RFC 4648: "foo" encodes to "Zm9v". */
  lemma VectorFoo()
    ensures Encode([102, 111, 111]) == [90, 109, 57, 118]
  {
    EncodeThree(102, 111, 111);
    assert 102 / 4 == 25 && 102 % 4 == 2 && 111 / 16 == 6 && 111 % 16 == 15 && 111 / 64 == 1 && 111 % 64 == 47;
  }

  /** "bar" encodes to "YmFy". */
  lemma VectorBar()
    ensures Encode([98, 97, 114]) == [89, 109, 70, 121]
  {
    EncodeThree(98, 97, 114);
    assert 98 / 4 == 24 && 98 % 4 == 2 && 97 / 16 == 6 && 97 % 16 == 1 && 114 / 64 == 1 && 114 % 64 == 50;
  }

  /** Four groups, the first three full, encode group by group. */
  lemma EncodeFourGroups(g0: seq<byte>, g1: seq<byte>, g2: seq<byte>, g3: seq<byte>)
    requires |g0| == 3 && |g1| == 3 && |g2| == 3
    ensures Encode(g0 + g1 + g2 + g3) == Encode(g0) + Encode(g1) + Encode(g2) + Encode(g3)
  {
    assert g0 + g1 + g2 + g3 == g0 + (g1 + (g2 + g3));
    EncodeAppend(g0, g1 + (g2 + g3));
    EncodeAppend(g1, g2 + g3);
    EncodeAppend(g2, g3);
  }

  /** "adm" encodes to "YWRt". */
  lemma VectorAdm()
    ensures Encode([97, 100, 109]) == [89, 87, 82, 116]
  {
    EncodeThree(97, 100, 109);
    assert 97 / 4 == 24 && 97 % 4 == 1 && 100 / 16 == 6 && 100 % 16 == 4 && 109 / 64 == 1 && 109 % 64 == 45;
  }

  /** "in:" encodes to "aW46". */
  lemma VectorInColon()
    ensures Encode([105, 110, 58]) == [97, 87, 52, 54]
  {
    EncodeThree(105, 110, 58);
    assert 105 / 4 == 26 && 105 % 4 == 1 && 110 / 16 == 6 && 110 % 16 == 14 && 58 / 64 == 0 && 58 % 64 == 58;
  }

  /** "sec" encodes to "c2Vj". */
  lemma VectorSec()
    ensures Encode([115, 101, 99]) == [99, 50, 86, 106]
  {
    EncodeThree(115, 101, 99);
    assert 115 / 4 == 28 && 115 % 4 == 3 && 101 / 16 == 6 && 101 % 16 == 5 && 99 / 64 == 1 && 99 % 64 == 35;
  }

  /** "ret" encodes to "cmV0". */
  lemma VectorRet()
    ensures Encode([114, 101, 116]) == [99, 109, 86, 48]
  {
    EncodeThree(114, 101, 116);
    assert 114 / 4 == 28 && 114 % 4 == 2 && 101 / 16 == 6 && 101 % 16 == 5 && 116 / 64 == 1 && 116 % 64 == 52;
  }

  /** Section 10 of RFC 4648: "foobar" encodes to "Zm9vYmFy". */
  lemma VectorFoobar()
    ensures Encode([102, 111, 111, 98, 97, 114]) == [90, 109, 57, 118, 89, 109, 70, 121]
  {
    VectorFoo();
    VectorBar();
    EncodeSix(102, 111, 111, 98, 97, 114);
    var x: seq<byte> := [90, 109, 57, 118];
    var y: seq<byte> := [89, 109, 70, 121];
    assert x + y == [90, 109, 57, 118, 89, 109, 70, 121];
  }
}
