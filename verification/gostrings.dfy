/** Small wrapper datatypes shared by the whole model. */
module Results {

  /** A value that may be absent: Go's "comma ok" idiom and nil results. */
  datatype Option<+T> = None | Some(value: T)

  /** A value or the reason it could not be produced. */
  datatype Result<+T, +E> = Ok(value: T) | Err(error: E)
}

/**
 Go strings as byte sequences, and the few standard-library string and path
 functions (`strings.Index`, `path.Base`) the deployer relies on.
 */
module GoStrings {

  /** A Go `byte`. */
  type byte = b: int | 0 <= b < 256

  /** A Go `string`: an immutable sequence of bytes. */
  type GoString = seq<byte>

  const Dot: byte := 46
  const Slash: byte := 47
  const Colon: byte := 58

  /** The bytes of an ASCII literal. */
  function Ascii(s: string): (r: GoString)
    requires forall i | 0 <= i < |s| :: s[i] as int < 128
    ensures |r| == |s|
    ensures forall i | 0 <= i < |s| :: r[i] == s[i] as int
  {
    seq(|s|, i requires 0 <= i < |s| => s[i] as int)
  }

  /** `strings.Index(s, c)` for a one-byte needle: the first position of `c`, or -1. */
  function Index(s: GoString, c: byte): (r: int)
    ensures -1 <= r < |s|
    ensures r == -1 <==> c !in s
    ensures 0 <= r ==> s[r] == c && c !in s[..r]
  {
    if |s| == 0 then -1
    else if s[0] == c then 0
    else
      var i := Index(s[1..], c);
      assert s[1..][..i + 1] == s[1..i + 2] by { }
      if i == -1 then -1 else i + 1
  }

  /** `strings.LastIndex(s, c)` for a one-byte needle: the last position of `c`, or -1. */
  function LastIndex(s: GoString, c: byte): (r: int)
    ensures -1 <= r < |s|
    ensures r == -1 <==> c !in s
    ensures 0 <= r ==> s[r] == c && c !in s[r + 1..]
  {
    if |s| == 0 then -1
    else if s[|s| - 1] == c then |s| - 1
    else
      var i := LastIndex(s[..|s| - 1], c);
      DropLast(s, 0);
      if i == -1 then -1 else DropLast(s, i + 1); i
  }

  /** A suffix of `s` is the same suffix of `s` without its last byte, then that byte. */
  lemma DropLast(s: GoString, i: nat)
    requires i < |s|
    ensures s[i..] == s[..|s| - 1][i..] + [s[|s| - 1]]
  {
  }

  /** `p` with every trailing slash removed. */
  function TrimTrailingSlashes(p: GoString): (r: GoString)
    ensures r <= p
    ensures |r| == 0 || r[|r| - 1] != Slash
    ensures forall i | |r| <= i < |p| :: p[i] == Slash
  {
    if |p| > 0 && p[|p| - 1] == Slash then TrimTrailingSlashes(p[..|p| - 1]) else p
  }

  /** The part of `t` after its last slash (all of `t` when it has none). */
  function LastElement(t: GoString): (r: GoString)
    ensures |r| <= |t| && t[|t| - |r|..] == r
    ensures Slash !in r
    ensures |r| < |t| ==> t[|t| - |r| - 1] == Slash
  {
    var i := LastIndex(t, Slash);
    if i >= 0 then t[i + 1..] else t
  }

  /**
   `path.Base(p)`: the last slash-separated element of `p`, after trailing
   slashes are dropped; "." for the empty path and "/" for a path made only
   of slashes.
   */
  function Base(p: GoString): (r: GoString)
    ensures |r| > 0
    ensures r == [Slash] || Slash !in r
    ensures r == [Slash] <==> p != [] && AllSlashes(p)
    ensures p == [] ==> r == [Dot]
    ensures p != [] && r != [Slash] ==> r == LastElement(TrimTrailingSlashes(p))
  {
    if p == [] then [Dot]
    else
      var t := TrimTrailingSlashes(p);
      var last := LastElement(t);
      TrimmedAwayIffSlashes(p);
      if last == [] then [Slash] else last
  }

  /** Every byte of `p` is a slash. */
  predicate AllSlashes(p: GoString) {
    forall i | 0 <= i < |p| :: p[i] == Slash
  }

  /** Trimming leaves nothing, and the last element is empty, exactly when the path is only slashes. */
  lemma TrimmedAwayIffSlashes(p: GoString)
    ensures LastElement(TrimTrailingSlashes(p)) == [] <==> AllSlashes(p)
  {
    var t := TrimTrailingSlashes(p);
    if t != [] {
      assert p[|t| - 1] == t[|t| - 1];
    }
  }

  /** A path that is only slashes has base "/". */
  lemma BaseOfSlashes(p: GoString)
    requires p != [] && AllSlashes(p)
    ensures Base(p) == [Slash]
  {
  }

  /** The base of `dir/name` is `name` whenever `name` is a non-empty slash-free element. */
  lemma BaseOfJoin(dir: GoString, name: GoString)
    requires name != [] && Slash !in name
    ensures Base(dir + [Slash] + name) == name
  {
    var p := dir + [Slash] + name;
    assert p[|p| - 1] == name[|name| - 1];
    assert TrimTrailingSlashes(p) == p;
    var i := LastIndex(p, Slash);
    assert p[|dir|] == Slash;
    assert forall k | |dir| < k < |p| :: p[k] == name[k - |dir| - 1];
    assert i == |dir|;
    assert p[i + 1..] == name;
  }

  /** "/" and every non-empty element without slashes are their own base. */
  lemma BaseFixedPoint(b: GoString)
    requires b == [Slash] || (b != [] && Slash !in b)
    ensures Base(b) == b
  {
    if b == [Slash] {
      BaseOfSlashes(b);
    } else {
      assert b[|b| - 1] != Slash;
      assert TrimTrailingSlashes(b) == b;
      assert LastIndex(b, Slash) == -1;
    }
  }

  /** `path.Base` is idempotent. */
  lemma BaseIdempotent(p: GoString)
    ensures Base(Base(p)) == Base(p)
  {
    BaseFixedPoint(Base(p));
  }
}
