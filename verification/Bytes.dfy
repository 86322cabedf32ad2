/** Byte strings in memcmp order, and the four-byte heads that speed up their comparison. */
module Bytes {

  type byte = x: int | 0 <= x < 256
  type Key = seq<byte>

  /** Length of the longest common prefix. */
  function Common(a: Key, b: Key): (n: nat)
    ensures n <= |a| && n <= |b|
    ensures forall i :: 0 <= i < n ==> a[i] == b[i]
    ensures n < |a| && n < |b| ==> a[n] != b[n]
  {
    if a == [] || b == [] || a[0] != b[0] then 0 else
      var n := Common(a[1..], b[1..]);
      assert forall i :: 0 < i <= n ==> a[i] == a[1..][i - 1] && b[i] == b[1..][i - 1];
      1 + n
  }

  /** memcmp order, a proper prefix sorting first. */
  predicate Less(a: Key, b: Key) {
    var n := Common(a, b);
    n < |b| && (n == |a| || a[n] < b[n])
  }

  predicate LessEq(a: Key, b: Key) {
    !Less(b, a)
  }

  /** Whether p is a prefix of k. */
  predicate StartsWith(k: Key, p: Key) {
    |p| <= |k| && k[..|p|] == p
  }

  lemma {:induction false} CommonIs(a: Key, b: Key, n: nat)
    requires n <= |a| && n <= |b|
    requires forall i :: 0 <= i < n ==> a[i] == b[i]
    requires n == |a| || n == |b| || a[n] != b[n]
    ensures Common(a, b) == n
  {
  }

  lemma {:induction false} LessTotal(a: Key, b: Key)
    ensures !(Less(a, b) && Less(b, a))
    ensures Less(a, b) || Less(b, a) || a == b
    ensures Less(a, b) ==> a != b
  {
    CommonIs(b, a, Common(a, b));
    if !Less(a, b) && !Less(b, a) {
      assert |a| == |b|;
      assert forall i :: 0 <= i < |a| ==> a[i] == b[i];
    }
  }

  lemma {:induction false} LessTrans(a: Key, b: Key, c: Key)
    requires Less(a, b) && Less(b, c)
    ensures Less(a, c)
  {
    var m, n := Common(a, b), Common(b, c);
    CommonIs(a, c, if m < n then m else n);
  }

  /** Less and LessEq compose like < and <=. */
  lemma {:induction false} LessLessEqTrans(a: Key, b: Key, c: Key)
    ensures Less(a, b) && LessEq(b, c) ==> Less(a, c)
    ensures LessEq(a, b) && Less(b, c) ==> Less(a, c)
    ensures LessEq(a, b) && LessEq(b, c) ==> LessEq(a, c)
  {
    LessTotal(a, b);
    LessTotal(b, c);
    LessTotal(a, c);
    if Less(a, b) && Less(b, c) { LessTrans(a, b, c); }
    if Less(c, a) && Less(a, b) { LessTrans(c, a, b); }
    if Less(b, c) && Less(c, a) { LessTrans(b, c, a); }
  }

  /** Dropping a shared prefix does not change the order. */
  lemma {:induction false} LessStrip(a: Key, b: Key, p: nat)
    requires p <= |a| && p <= |b| && a[..p] == b[..p]
    ensures Less(a, b) <==> Less(a[p..], b[p..])
    ensures Common(a, b) == p + Common(a[p..], b[p..])
  {
    var m := Common(a[p..], b[p..]);
    forall i | 0 <= i < p + m
      ensures a[i] == b[i]
    {
      if i < p {
        assert a[i] == a[..p][i] && b[i] == b[..p][i];
      } else {
        assert a[i] == a[p..][i - p] && b[i] == b[p..][i - p];
      }
    }
    CommonIs(a, b, p + m);
  }

  /** Every key between two fences carries the fences' common prefix. */
  lemma {:induction false} PrefixBetween(lower: Key, upper: Key, k: Key)
    requires LessEq(lower, k) && LessEq(k, upper)
    ensures StartsWith(k, lower[..Common(lower, upper)])
  {
    var n := Common(lower, upper);
    var i := Common(lower, k);
    if i < n {
      CommonIs(k, lower, i);
      CommonIs(upper, k, i);
      assert false;
    }
    assert forall x :: 0 <= x < n ==> x < |k| && k[x] == lower[x];
  }

  /** Moving a bound inwards can only lengthen its common prefix with the other bound. */
  lemma {:induction false} CommonGrows(lower: Key, mid: Key, upper: Key)
    requires LessEq(lower, mid) && LessEq(mid, upper)
    ensures Common(lower, upper) <= Common(lower, mid)
    ensures Common(lower, upper) <= Common(mid, upper)
  {
    PrefixBetween(lower, upper, mid);
    var n := Common(lower, upper);
    assert forall x :: 0 <= x < n ==> mid[x] == mid[..n][x] && mid[x] == lower[x] == upper[x];
  }

  // ---------------------------------------------------------------------- heads

  /** The byte at position i, zero past the end. */
  function At(k: Key, i: nat): nat {
    if i < |k| then k[i] as nat else 0
  }

  function Load16(k: Key): (x: nat)
    requires |k| >= 2
  {
    At(k, 0) + 256 * At(k, 1)
  }

  function Load32(k: Key): (x: nat)
    requires |k| >= 4
  {
    At(k, 0) + 256 * At(k, 1) + 65536 * At(k, 2) + 16777216 * At(k, 3)
  }

  function Bswap16(x: nat): nat
    requires x < 65536
  {
    x % 256 * 256 + x / 256
  }

  function Bswap32(x: nat): nat
    requires x < 4294967296
  {
    x % 256 * 16777216 + x / 256 % 256 * 65536 + x / 65536 % 256 * 256 + x / 16777216
  }

  /** Order-preserving head of a key on a little-endian machine. */
  function Head(k: Key): nat {
    if |k| == 0 then 0
    else if |k| == 1 then At(k, 0) * 16777216
    else if |k| == 2 then Bswap16(Load16(k)) * 65536
    else if |k| == 3 then Bswap16(Load16(k)) * 65536 + At(k, 2) * 256
    else Bswap32(Load32(k))
  }

  /** The head is the first four bytes, zero padded, read as a big-endian number. */
  lemma {:induction false} HeadBigEndian(k: Key)
    ensures Head(k) == At(k, 0) * 16777216 + At(k, 1) * 65536 + At(k, 2) * 256 + At(k, 3)
  {
    if |k| == 2 || |k| == 3 {
      assert Load16(k) / 256 == k[1] && Load16(k) % 256 == k[0];
    } else if |k| >= 4 {
      var x := Load32(k);
      assert x / 16777216 == At(k, 3);
      assert x / 65536 == At(k, 2) + 256 * At(k, 3) && x / 65536 % 256 == At(k, 2);
      assert x / 256 == At(k, 1) + 256 * At(k, 2) + 65536 * At(k, 3) && x / 256 % 256 == At(k, 1);
      assert x % 256 == At(k, 0);
    }
  }

  /** Heads never contradict the order of the keys they abbreviate. */
  lemma {:induction false} HeadMonotone(a: Key, b: Key)
    requires LessEq(a, b)
    ensures Head(a) <= Head(b)
  {
    HeadBigEndian(a);
    HeadBigEndian(b);
    LessTotal(a, b);
    var n := Common(a, b);
    assert forall i :: 0 <= i < n ==> At(a, i) == At(b, i);
    if n < |b| {
      assert At(a, n) <= At(b, n);
      assert At(a, n) == At(b, n) ==> n == |a|;
    }
  }

  lemma {:induction false} HeadLess(a: Key, b: Key)
    requires Head(a) < Head(b)
    ensures Less(a, b)
  {
    LessTotal(a, b);
    if !Less(a, b) { HeadMonotone(b, a); }
  }

  /** Byte-by-byte comparison of the first num bytes; the sign of the result orders them. */
  method Memcmp(a: Key, b: Key, num: nat) returns (cmp: int)
    requires num <= |a| && num <= |b|
    ensures cmp == 0 <==> a[..num] == b[..num]
    ensures cmp < 0 <==> Less(a[..num], b[..num])
    ensures cmp > 0 <==> Less(b[..num], a[..num])
  {
    var i := 0;
    while i < num
      invariant 0 <= i <= num
      invariant forall j :: 0 <= j < i ==> a[j] == b[j]
    {
      if a[i] != b[i] {
        CommonIs(a[..num], b[..num], i);
        CommonIs(b[..num], a[..num], i);
        return a[i] as int - b[i] as int;
      }
      i := i + 1;
    }
    assert a[..num] == b[..num];
    LessTotal(a[..num], b[..num]);
    return 0;
  }
}
