/** Bytes, C strings and the in-place buffer writes that the C sources build everything from. */
module ByteStrings {
  type byte = x: int | 0 <= x < 256
  type Bytes = seq<byte>

  const NUL: byte := 0
  const SLASH: byte := 47
  const DOT: byte := 46
  const ZERO_DIGIT: byte := 48
  const SPACE: byte := 32

  const TWO_32 := 0x1_0000_0000

  /** The value a 32-bit unsigned variable holds after being assigned x. */
  function U32(x: int): (r: nat)
    ensures r < TWO_32
    ensures 0 <= x < TWO_32 ==> r == x
  {
    x % TWO_32
  }

  /** The C string that starts at the beginning of s: everything before the first NUL. */
  function CStr(s: Bytes): (r: Bytes)
    ensures r <= s && NUL !in r
    ensures |r| < |s| ==> s[|r|] == NUL
  {
    if s == [] || s[0] == NUL then [] else [s[0]] + CStr(s[1..])
  }

  function Zeros(n: nat): (r: Bytes)
    ensures |r| == n && forall i :: 0 <= i < n ==> r[i] == NUL
  {
    seq(n, _ => NUL)
  }

  /** s in a field of n bytes, filled up with NULs, as strncpy leaves it. */
  function Pad(s: Bytes, n: nat): (r: Bytes)
    requires |s| <= n
    ensures |r| == n && s <= r && forall i :: |s| <= i < n ==> r[i] == NUL
  {
    s + Zeros(n - |s|)
  }

  lemma CStrIsUnique(s: Bytes, r: Bytes)
    requires r <= s && NUL !in r
    requires |r| < |s| ==> s[|r|] == NUL
    ensures CStr(s) == r
  {
    var c := CStr(s);
    assert forall i :: 0 <= i < |r| ==> s[i] == r[i] != NUL;
    assert forall i :: 0 <= i < |c| ==> s[i] == c[i] != NUL;
    assert c == s[..|c|] && r == s[..|r|];
  }

  lemma CStrOfPad(s: Bytes, n: nat)
    requires |s| <= n && NUL !in s
    ensures CStr(Pad(s, n)) == s
  {
    CStrIsUnique(Pad(s, n), s);
  }

  /** b with the bytes from off onwards replaced by s. */
  function Splice<T>(b: seq<T>, off: nat, s: seq<T>): (r: seq<T>)
    requires off + |s| <= |b|
    ensures |r| == |b|
  {
    b[..off] + s + b[off + |s|..]
  }

  lemma SpliceAt(b: Bytes, off: nat, s: Bytes)
    requires off + |s| <= |b|
    ensures Splice(b, off, s)[off..off + |s|] == s
  {
  }

  lemma SpliceByte(b: Bytes, off: nat, s: Bytes, i: nat)
    requires off + |s| <= |b| && i < |b|
    ensures Splice(b, off, s)[i] == if off <= i < off + |s| then s[i - off] else b[i]
  {
  }

  /** memcpy into a buffer. */
  method Put(b: array<byte>, off: nat, s: Bytes)
    requires off + |s| <= b.Length
    modifies b
    ensures b[..] == Splice(old(b[..]), off, s)
  {
    forall k | 0 <= k < |s| {
      b[off + k] := s[k];
    }
  }
}
