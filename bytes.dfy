/** Byte strings as Python's `bytes` holds them, and the two operations on them the core uses:
    slicing with clamped bounds and `b"".join`. */
module Bytes {

  type byte = b: int | 0 <= b < 256

  function Min(a: int, b: int): int { if a <= b then a else b }

  /** Python's `s[lo:hi]` for non-negative bounds: both bounds are clamped to the length. */
  function PySlice<T>(s: seq<T>, lo: nat, hi: nat): (r: seq<T>)
    ensures lo <= hi <= |s| ==> r == s[lo..hi]
    ensures lo <= |s| <= hi ==> r == s[lo..]
    ensures |r| == if hi <= lo || |s| <= lo then 0 else Min(hi, |s|) - lo
  {
    if hi <= lo || |s| <= lo then [] else s[lo..Min(hi, |s|)]
  }

  /** `b"".join(parts)`: the parts concatenated in order. */
  function Join(parts: seq<seq<byte>>): (r: seq<byte>)
    ensures parts != [] ==> parts[0] <= r
    ensures |parts| == 1 ==> r == parts[0]
    ensures (forall k :: 0 <= k < |parts| ==> parts[k] == []) ==> r == []
  {
    if parts == [] then [] else parts[0] + Join(parts[1..])
  }

  lemma {:induction false} JoinAppend(a: seq<seq<byte>>, b: seq<seq<byte>>)
    ensures Join(a + b) == Join(a) + Join(b)
  {
    if a == [] {
      assert a + b == b;
    } else {
      assert (a + b)[1..] == a[1..] + b;
      JoinAppend(a[1..], b);
    }
  }

  lemma JoinSnoc(a: seq<seq<byte>>, x: seq<byte>)
    ensures Join(a + [x]) == Join(a) + x
  {
    JoinAppend(a, [x]);
    assert Join([x]) == x + Join([]);
  }

  /** A prefix grows by the next element. Stated for any element type, so that the solver does
      not compare the elements themselves element by element. */
  lemma TakeNext<T>(prefix: seq<T>, s: seq<T>, k: nat, x: T)
    requires k < |s| && prefix == s[..k] && x == s[k]
    ensures prefix + [x] == s[..k + 1]
  {
    assert s[..k + 1] == s[..k] + [s[k]];
  }

  /** A prefix up to hi is the prefix up to lo followed by the slice between them. */
  lemma TakeSplit<T>(s: seq<T>, lo: nat, hi: nat)
    requires lo <= hi <= |s|
    ensures s[..hi] == s[..lo] + s[lo..hi]
  {
  }
}
