/**
 * C strings as the queue stores them: the bytes before the terminating NUL,
 * compared the way `strcmp` compares them (unsigned bytes, lexicographic,
 * only the sign of the result matters to the callers).
 */
module CString {

  /** A byte of a caller's buffer (the terminating NUL included). */
  type Byte = b: int | 0 <= b < 256

  /** A byte of a C string's contents: never the terminating NUL. */
  type Char = c: int | 1 <= c < 256 witness 1

  /** The contents of a NUL-terminated string, terminator excluded. */
  type Str = seq<Char>

  /**
   * The sign of `strcmp(a, b)`. The terminator sorts below every byte, so a
   * proper prefix compares below the longer string.
   */
  function StrCmp(a: Str, b: Str): (r: int)
    ensures -1 <= r <= 1
  {
    if a == [] && b == [] then 0
    else if a == [] then -1
    else if b == [] then 1
    else if a[0] < b[0] then -1
    else if a[0] > b[0] then 1
    else StrCmp(a[1..], b[1..])
  }

  /** strcmp reports equality exactly for equal strings. */
  lemma {:induction false} StrCmpZero(a: Str, b: Str)
    ensures StrCmp(a, b) == 0 <==> a == b
  {
    if a != [] && b != [] && a[0] == b[0] {
      StrCmpZero(a[1..], b[1..]);
      assert a == [a[0]] + a[1..] && b == [b[0]] + b[1..];
    }
  }

  /** Swapping the arguments of strcmp flips the sign. */
  lemma {:induction false} StrCmpFlip(a: Str, b: Str)
    ensures StrCmp(b, a) == -StrCmp(a, b)
  {
    if a != [] && b != [] && a[0] == b[0] {
      StrCmpFlip(a[1..], b[1..]);
    }
  }

  /** strcmp is a total order: "at most" is transitive, and strictly so when one step is strict. */
  lemma {:induction false} StrCmpTrans(a: Str, b: Str, c: Str)
    requires StrCmp(a, b) <= 0 && StrCmp(b, c) <= 0
    ensures StrCmp(a, c) <= 0
    ensures StrCmp(a, b) < 0 || StrCmp(b, c) < 0 ==> StrCmp(a, c) < 0
  {
    if a != [] && b != [] && c != [] && a[0] == b[0] && b[0] == c[0] {
      StrCmpTrans(a[1..], b[1..], c[1..]);
    }
    if StrCmp(a, c) == 0 {
      StrCmpZero(a, c);
      StrCmpFlip(a, b);
    }
  }

  /**
   * What `q_remove_head` copies into a caller buffer of `bufsize` bytes before
   * the terminator: the longest prefix of the value that leaves room for it.
   */
  function Truncated(v: Str, bufsize: nat): (t: Str)
    requires bufsize >= 1
    ensures |t| < bufsize && t <= v
    ensures |t| == |v| || |t| == bufsize - 1
  {
    if |v| < bufsize then v else v[..bufsize - 1]
  }

  /**
   * The copy-out loop of `q_remove_head`: copies bytes while more than one byte
   * of room is left and the value has not ended, then writes the terminator.
   */
  method CopyOut(v: Str, sp: array<Byte>, bufsize: nat)
    requires 1 <= bufsize <= sp.Length
    modifies sp
    ensures sp[..|Truncated(v, bufsize)|] == Truncated(v, bufsize)
    ensures sp[|Truncated(v, bufsize)|] == 0
    ensures sp[|Truncated(v, bufsize)| + 1..] == old(sp[|Truncated(v, bufsize)| + 1..])
  {
    var i, room := 0, bufsize;
    while room > 1 && i < |v|
      invariant 0 <= i <= |v| && room == bufsize - i && room >= 1
      invariant sp[..i] == v[..i]
      invariant sp[i..] == old(sp[i..])
    {
      sp[i] := v[i];
      i, room := i + 1, room - 1;
    }
    sp[i] := 0;
    assert v[..i] == Truncated(v, bufsize);
  }
}
