/** Folding of typed keys into byte strings whose memcmp order is the order of the keys, from shared/Types.hpp,
    and the composite key of the customer_wdl table from tpcc/Schema.hpp. */
module KeyFold {
  import opened Bytes
  import NodeImage

  type Integer = x: int | -0x8000_0000 <= x < 0x8000_0000
  type Timestamp = x: int | -0x8000_0000_0000_0000 <= x < 0x8000_0000_0000_0000
  type U64 = x: nat | x < 0x1_0000_0000_0000_0000

  /** The len low bytes of n, the highest first: what a byte-swapped store leaves in memory. */
  function BigEndian(n: nat, len: nat): (b: Key)
    ensures |b| == len
  {
    if len == 0 then [] else BigEndian(n / 256, len - 1) + [n % 256]
  }

  function FromBigEndian(b: Key): nat {
    if b == [] then 0 else 256 * FromBigEndian(b[..|b| - 1]) + b[|b| - 1] as nat
  }

  /** Flipping the sign bit moves the signed range onto the unsigned one, in order. */
  function FoldInteger(x: Integer): Key { BigEndian(x + 0x8000_0000, 4) }

  function FoldTimestamp(x: Timestamp): Key { BigEndian(x + 0x8000_0000_0000_0000, 8) }

  function FoldU64(x: U64): Key { BigEndian(x, 8) }

  /** The characters and a terminating zero. */
  function FoldVarchar(s: Key): Key { s + [0] }

  predicate NulFree(s: Key) { forall i :: 0 <= i < |s| ==> s[i] != 0 }

  function UnfoldInteger(b: Key): int
    requires |b| >= 4
  {
    FromBigEndian(b[..4]) - 0x8000_0000
  }

  function UnfoldTimestamp(b: Key): int
    requires |b| >= 8
  {
    FromBigEndian(b[..8]) - 0x8000_0000_0000_0000
  }

  function UnfoldU64(b: Key): nat
    requires |b| >= 8
  {
    FromBigEndian(b[..8])
  }

  /** strlen: up to the first zero, or the whole input if there is none. */
  function UnfoldVarchar(b: Key): (s: Key)
    ensures |s| <= |b| && s == b[..|s|] && NulFree(s) && (|s| < |b| ==> b[|s|] == 0)
  {
    if b == [] || b[0] == 0 then []
    else
      var rest := UnfoldVarchar(b[1..]);
      assert forall i :: 0 < i < |rest| + 1 ==> ([b[0]] + rest)[i] == rest[i - 1];
      [b[0]] + rest
  }

  // ---------------------------------------------------------------------- round trips

  lemma {:induction false} Digits(n: nat, p: nat)
    requires n < 256 * p
    ensures n == 256 * (n / 256) + n % 256 && n / 256 < p
  {
  }

  lemma {:induction false} LastDigit(n: nat, len: nat)
    requires len > 0
    ensures FromBigEndian(BigEndian(n, len)) == 256 * FromBigEndian(BigEndian(n / 256, len - 1)) + n % 256
  {
    var b := BigEndian(n, len);
    assert b[..len - 1] == BigEndian(n / 256, len - 1) && b[len - 1] == n % 256;
  }

  lemma {:induction false} BigEndianRoundTrip(n: nat, len: nat)
    requires n < NodeImage.Pow256(len)
    ensures FromBigEndian(BigEndian(n, len)) == n
  {
    if len > 0 {
      Digits(n, NodeImage.Pow256(len - 1));
      LastDigit(n, len);
      hide BigEndian, FromBigEndian, NodeImage.Pow256;
      BigEndianRoundTrip(n / 256, len - 1);
    }
  }

  lemma {:induction false} Powers()
    ensures NodeImage.Pow256(4) == 0x1_0000_0000 && NodeImage.Pow256(8) == 0x1_0000_0000_0000_0000
  {
    assert NodeImage.Pow256(2) == 65536;
    assert NodeImage.Pow256(4) == 65536 * NodeImage.Pow256(2);
    assert NodeImage.Pow256(6) == 65536 * NodeImage.Pow256(4);
    assert NodeImage.Pow256(8) == 65536 * NodeImage.Pow256(6);
  }

  /** Unfolding takes back what was folded, whatever follows. */
  lemma {:induction false} NumbersRoundTrip(x: Integer, t: Timestamp, u: U64, rest: Key)
    ensures UnfoldInteger(FoldInteger(x) + rest) == x
    ensures UnfoldTimestamp(FoldTimestamp(t) + rest) == t
    ensures UnfoldU64(FoldU64(u) + rest) == u
  {
    Powers();
    BigEndianRoundTrip(x + 0x8000_0000, 4);
    BigEndianRoundTrip(t + 0x8000_0000_0000_0000, 8);
    BigEndianRoundTrip(u, 8);
    assert (FoldInteger(x) + rest)[..4] == FoldInteger(x);
    assert (FoldTimestamp(t) + rest)[..8] == FoldTimestamp(t);
    assert (FoldU64(u) + rest)[..8] == FoldU64(u);
  }

  /** A string survives folding exactly if it contains no zero character. */
  lemma {:induction false} VarcharRoundTrip(s: Key, rest: Key)
    ensures UnfoldVarchar(FoldVarchar(s) + rest) == s <==> NulFree(s)
  {
    if NulFree(s) && s != [] {
      assert (FoldVarchar(s) + rest)[1..] == FoldVarchar(s[1..]) + rest;
      VarcharRoundTrip(s[1..], rest);
      assert [s[0]] + s[1..] == s;
    }
  }

  // ---------------------------------------------------------------------- order

  lemma {:induction false} LessCons(a: byte, s: Key, b: byte, t: Key)
    ensures Less([a] + s, [b] + t) <==> a < b || (a == b && Less(s, t))
  {
    if a == b {
      assert ([a] + s)[..1] == ([b] + t)[..1] && ([a] + s)[1..] == s && ([b] + t)[1..] == t;
      LessStrip([a] + s, [b] + t, 1);
    } else {
      CommonIs([a] + s, [b] + t, 0);
    }
  }

  /** Big-endian numbers compare like the numbers, and what follows decides between equal ones. */
  lemma {:induction false} BigEndianOrder(x: nat, y: nat, len: nat, s: Key, t: Key)
    requires x < NodeImage.Pow256(len) && y < NodeImage.Pow256(len)
    ensures Less(BigEndian(x, len) + s, BigEndian(y, len) + t) <==> x < y || (x == y && Less(s, t))
  {
    hide Less;
    if len == 0 {
      assert BigEndian(x, 0) + s == s && BigEndian(y, 0) + t == t;
    } else {
      assert BigEndian(x, len) + s == BigEndian(x / 256, len - 1) + ([x % 256] + s);
      assert BigEndian(y, len) + t == BigEndian(y / 256, len - 1) + ([y % 256] + t);
      BigEndianOrder(x / 256, y / 256, len - 1, [x % 256] + s, [y % 256] + t);
      LessCons(x % 256, s, y % 256, t);
    }
  }

  /** Folded numbers compare in memory like the numbers, negative ones too. */
  lemma {:induction false} NumbersOrder(x: Integer, y: Integer, a: Timestamp, b: Timestamp, u: U64, v: U64,
                                        s: Key, t: Key)
    ensures Less(FoldInteger(x) + s, FoldInteger(y) + t) <==> x < y || (x == y && Less(s, t))
    ensures Less(FoldTimestamp(a) + s, FoldTimestamp(b) + t) <==> a < b || (a == b && Less(s, t))
    ensures Less(FoldU64(u) + s, FoldU64(v) + t) <==> u < v || (u == v && Less(s, t))
  {
    hide Less, BigEndian;
    Powers();
    BigEndianOrder(x + 0x8000_0000, y + 0x8000_0000, 4, s, t);
    BigEndianOrder(a + 0x8000_0000_0000_0000, b + 0x8000_0000_0000_0000, 8, s, t);
    BigEndianOrder(u, v, 8, s, t);
  }

  /** operator< of Varchar: the common length first, then the lengths. */
  predicate VarcharLess(a: Key, b: Key) {
    var n := if |a| < |b| then |a| else |b|;
    Less(a[..n], b[..n]) || (a[..n] == b[..n] && |a| < |b|)
  }

  lemma {:induction false} VarcharLessIs(a: Key, b: Key)
    ensures VarcharLess(a, b) <==> Less(a, b)
  {
    var n, c := if |a| < |b| then |a| else |b|, Common(a, b);
    if c < n {
      assert forall i :: 0 <= i < c ==> a[..n][i] == b[..n][i];
      CommonIs(a[..n], b[..n], c);
    } else {
      assert a[..n] == b[..n];
      LessTotal(a[..n], b[..n]);
    }
  }

  lemma {:induction false} VarcharCons(a: Key, s: Key)
    requires a != []
    ensures FoldVarchar(a) + s == [a[0]] + (FoldVarchar(a[1..]) + s)
  {
  }

  /** Folded strings without zeros compare like the strings, and what follows decides between equal ones. */
  lemma {:induction false} VarcharOrder(a: Key, b: Key, s: Key, t: Key)
    requires NulFree(a) && NulFree(b)
    ensures Less(FoldVarchar(a) + s, FoldVarchar(b) + t) <==> Less(a, b) || (a == b && Less(s, t))
    decreases |a|
  {
    if a == [] || b == [] {
      VarcharEnds(a, b, s, t);
    } else {
      hide Less, FoldVarchar;
      VarcharOrder(a[1..], b[1..], s, t);
      LessCons(a[0], FoldVarchar(a[1..]) + s, b[0], FoldVarchar(b[1..]) + t);
      VarcharCons(a, s);
      VarcharCons(b, t);
      LessCons(a[0], a[1..], b[0], b[1..]);
      assert a == [a[0]] + a[1..] && b == [b[0]] + b[1..];
    }
  }

  /** One of the strings ends: its zero is smaller than any character. */
  lemma {:induction false} VarcharEnds(a: Key, b: Key, s: Key, t: Key)
    requires NulFree(a) && NulFree(b) && (a == [] || b == [])
    ensures Less(FoldVarchar(a) + s, FoldVarchar(b) + t) <==> Less(a, b) || (a == b && Less(s, t))
  {
    LessTotal(a, b);
    assert Less(a, b) <==> a == [] && b != [];
    hide Less;
    assert FoldVarchar([]) == [0];
    if a != [] { VarcharCons(a, s); }
    if b != [] { VarcharCons(b, t); }
    LessCons(if a == [] then 0 else a[0], if a == [] then s else FoldVarchar(a[1..]) + s,
             if b == [] then 0 else b[0], if b == [] then t else FoldVarchar(b[1..]) + t);
  }

  // ---------------------------------------------------------------------- customer_wdl

  datatype CustomerWdlKey = CustomerWdlKey(w: Integer, d: Integer, last: Key, first: Key)

  function FoldKey(k: CustomerWdlKey): Key {
    FoldInteger(k.w) + (FoldInteger(k.d) + (FoldVarchar(k.last) + FoldVarchar(k.first)))
  }

  predicate TupleLess(a: CustomerWdlKey, b: CustomerWdlKey) {
    || a.w < b.w
    || (a.w == b.w && a.d < b.d)
    || (a.w == b.w && a.d == b.d && VarcharLess(a.last, b.last))
    || (a.w == b.w && a.d == b.d && a.last == b.last && VarcharLess(a.first, b.first))
  }

  /** foldKey, writing behind each other into a buffer. */
  method WriteKey(k: CustomerWdlKey, out: array<byte>) returns (pos: nat)
    requires out.Length >= 10 + |k.last| + |k.first|
    modifies out
    ensures pos == |FoldKey(k)| <= out.Length && out[..pos] == FoldKey(k)
  {
    pos := Append(out, 0, FoldInteger(k.w));
    pos := Append(out, pos, FoldInteger(k.d));
    pos := Append(out, pos, FoldVarchar(k.last));
    pos := Append(out, pos, FoldVarchar(k.first));
    assert FoldKey(k) == FoldInteger(k.w) + FoldInteger(k.d) + FoldVarchar(k.last) + FoldVarchar(k.first);
  }

  method Append(out: array<byte>, pos: nat, bytes: Key) returns (next: nat)
    requires pos + |bytes| <= out.Length
    modifies out
    ensures next == pos + |bytes| && out[..next] == old(out[..pos]) + bytes
  {
    forall i | 0 <= i < |bytes| { out[pos + i] := bytes[i]; }
    next := pos + |bytes|;
  }

  /** unfoldKey: each field starts where the one before it ended. */
  function UnfoldKey(b: Key): (int, int, Key, Key)
    requires |b| >= 8
  {
    var last := UnfoldVarchar(b[8..]);
    var rest := if 9 + |last| <= |b| then b[9 + |last|..] else [];
    (UnfoldInteger(b), UnfoldInteger(b[4..]), last, UnfoldVarchar(rest))
  }

  lemma {:induction false} FoldedLength(s: Key)
    ensures |FoldVarchar(s)| == |s| + 1
  {
  }

  lemma {:induction false} KeyUnfolds(k: CustomerWdlKey)
    requires NulFree(k.last) && NulFree(k.first)
    ensures UnfoldKey(FoldKey(k)) == (k.w, k.d, k.last, k.first)
  {
    hide FromBigEndian, BigEndian, FoldVarchar;
    var b, names := FoldKey(k), FoldVarchar(k.last) + FoldVarchar(k.first);
    assert b == FoldInteger(k.w) + (FoldInteger(k.d) + names) && b[4..] == FoldInteger(k.d) + names && b[8..] == names;
    NumbersRoundTrip(k.w, 0, 0, FoldInteger(k.d) + names);
    NumbersRoundTrip(k.d, 0, 0, names);
    VarcharRoundTrip(k.last, FoldVarchar(k.first));
    hide FoldInteger, UnfoldInteger, FoldKey, UnfoldVarchar;
    FoldedLength(k.last);
    assert b[9 + |k.last|..] == names[1 + |k.last|..] == FoldVarchar(k.first);
    VarcharRoundTrip(k.first, []);
    assert FoldVarchar(k.first) + [] == FoldVarchar(k.first);
  }

  lemma {:induction false} UnfoldedNames(b: Key)
    requires |b| >= 8
    ensures NulFree(UnfoldKey(b).2) && NulFree(UnfoldKey(b).3)
  {
  }

  /** A key comes back as it was exactly if its names contain no zero. */
  lemma {:induction false} KeyRoundTrip(k: CustomerWdlKey)
    ensures UnfoldKey(FoldKey(k)) == (k.w, k.d, k.last, k.first) <==> NulFree(k.last) && NulFree(k.first)
  {
    UnfoldedNames(FoldKey(k));
    hide FoldKey, UnfoldKey, NulFree;
    if NulFree(k.last) && NulFree(k.first) { KeyUnfolds(k); }
  }

  /** The tree's byte order is the order of the keys as tuples. */
  lemma {:induction false} KeyOrder(a: CustomerWdlKey, b: CustomerWdlKey)
    requires NulFree(a.last) && NulFree(a.first) && NulFree(b.last) && NulFree(b.first)
    ensures Less(FoldKey(a), FoldKey(b)) <==> TupleLess(a, b)
  {
    hide Less, VarcharLess, BigEndian;
    Powers();
    var s, t := FoldVarchar(a.last) + FoldVarchar(a.first), FoldVarchar(b.last) + FoldVarchar(b.first);
    BigEndianOrder(a.w + 0x8000_0000, b.w + 0x8000_0000, 4, FoldInteger(a.d) + s, FoldInteger(b.d) + t);
    BigEndianOrder(a.d + 0x8000_0000, b.d + 0x8000_0000, 4, s, t);
    VarcharOrder(a.last, b.last, FoldVarchar(a.first), FoldVarchar(b.first));
    VarcharOrder(a.first, b.first, [], []);
    assert FoldVarchar(a.first) + [] == FoldVarchar(a.first) && FoldVarchar(b.first) + [] == FoldVarchar(b.first);
    LessTotal([], []);
    VarcharLessIs(a.last, b.last);
    VarcharLessIs(a.first, b.first);
  }
}
