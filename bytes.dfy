/**
  Byte strings and the comparisons and big-endian integer codec that the
  NSData category offers (NSData+GTWCompare.h): byte-lexicographic
  comparison, comparison of the common prefix only, the prefix test, and
  8-byte big-endian encoding of unsigned 64-bit integers. The B+tree orders
  its keys with Compare and relies on the codec preserving numeric order.
*/
module Bytes {

  newtype byte = x: int | 0 <= x < 256

  /** The three answers of NSComparisonResult. */
  datatype Ordering = Ascending | Same | Descending

  function Flip(o: Ordering): Ordering
  {
    match o
    case Ascending => Descending
    case Same => Same
    case Descending => Ascending
  }

  function CompareByte(x: byte, y: byte): Ordering
  {
    if x < y then Ascending else if x > y then Descending else Same
  }

  /**
    gtw_compare: byte-lexicographic order; when one string is a prefix of
    the other, the shorter one comes first.
  */
  function Compare(a: seq<byte>, b: seq<byte>): (r: Ordering)
  {
    if |a| == 0 then (if |b| == 0 then Same else Ascending)
    else if |b| == 0 then Descending
    else if a[0] < b[0] then Ascending
    else if a[0] > b[0] then Descending
    else Compare(a[1..], b[1..])
  }

  /** Compare answers Same exactly for equal strings. */
  lemma {:induction false} CompareSame(a: seq<byte>, b: seq<byte>)
    ensures Compare(a, b) == Same <==> a == b
  {
    if a != [] && b != [] && a[0] == b[0] {
      CompareSame(a[1..], b[1..]);
      assert a == [a[0]] + a[1..] && b == [b[0]] + b[1..];
    }
  }

  /** The strict order the B+tree keeps its keys in. */
  predicate Less(a: seq<byte>, b: seq<byte>)
  {
    Compare(a, b) == Ascending
  }

  lemma {:induction false} CompareAntisymmetric(a: seq<byte>, b: seq<byte>)
    ensures Compare(b, a) == Flip(Compare(a, b))
  {
    if a != [] && b != [] && a[0] == b[0] {
      CompareAntisymmetric(a[1..], b[1..]);
    }
  }

  /** Exactly one of a < b, a == b, b < a holds. */
  lemma LessTrichotomy(a: seq<byte>, b: seq<byte>)
    ensures a == b || Less(a, b) || Less(b, a)
    ensures !(Less(a, b) && Less(b, a))
    ensures !Less(a, a)
  {
    CompareAntisymmetric(a, b);
    CompareSame(a, b);
    CompareSame(a, a);
  }

  lemma {:induction false} LessTransitive(a: seq<byte>, b: seq<byte>, c: seq<byte>)
    requires Less(a, b) && Less(b, c)
    ensures Less(a, c)
  {
    if a != [] && b != [] && c != [] && a[0] == b[0] && b[0] == c[0] {
      LessTransitive(a[1..], b[1..], c[1..]);
    }
  }

  /** a <= b <= c implies a <= c, for the reflexive closure of Less. */
  lemma LessEqTransitive(a: seq<byte>, b: seq<byte>, c: seq<byte>)
    requires a == b || Less(a, b)
    requires b == c || Less(b, c)
    ensures a == c || Less(a, c)
  {
    if a != b && b != c {
      LessTransitive(a, b, c);
    }
  }

  /** Less(a, b) and b <= c give Less(a, c), and a <= b with Less(b, c) too. */
  lemma LessMixedTransitive(a: seq<byte>, b: seq<byte>, c: seq<byte>)
    requires (Less(a, b) && (b == c || Less(b, c))) || ((a == b || Less(a, b)) && Less(b, c))
    ensures Less(a, c)
  {
    if a != b && b != c {
      LessTransitive(a, b, c);
    }
  }

  function Min(x: nat, y: nat): nat
  {
    if x <= y then x else y
  }

  /**
    gtw_trucatedCompare: compares only the first min(|a|, |b|) bytes, so two
    strings of which one is a prefix of the other compare as Same.
  */
  function TruncatedCompare(a: seq<byte>, b: seq<byte>): (r: Ordering)
    ensures r == Compare(a[..Min(|a|, |b|)], b[..Min(|a|, |b|)])
  {
    if a == [] || b == [] then Same
    else if a[0] != b[0] then CompareByte(a[0], b[0])
    else
      var m := Min(|a|, |b|);
      assert a[..m][1..] == a[1..][..m - 1] && b[..m][1..] == b[1..][..m - 1];
      TruncatedCompare(a[1..], b[1..])
  }

  /** gtw_hasPrefix: s starts with the bytes of p. */
  function HasPrefix(s: seq<byte>, p: seq<byte>): (r: bool)
    ensures r <==> |p| <= |s| && s[..|p|] == p
  {
    if p == [] then true
    else if s == [] then false
    else
      assert |p| <= |s| ==> s[..|p|] == [s[0]] + s[1..][..|p| - 1];
      assert p == [p[0]] + p[1..];
      s[0] == p[0] && HasPrefix(s[1..], p[1..])
  }

  /** A string that has prefix p compares Same with p when truncated. */
  lemma PrefixTruncatedSame(s: seq<byte>, p: seq<byte>)
    requires HasPrefix(s, p)
    ensures TruncatedCompare(s, p) == Same
  {
    assert Min(|s|, |p|) == |p|;
    assert p[..|p|] == p;
  }

  /** A prefix never sorts after the strings that start with it. */
  lemma {:induction false} PrefixNotAfter(q: seq<byte>, p: seq<byte>)
    requires HasPrefix(q, p)
    ensures q == p || Less(p, q)
  {
    if p != [] {
      PrefixNotAfter(q[1..], p[1..]);
      assert q == [q[0]] + q[1..];
    }
  }

  /**
    If x sorts after p without starting with p, then x sorts after every
    string that starts with p: the strings with prefix p form a block.
  */
  lemma {:induction false} PrefixBlockBelow(p: seq<byte>, x: seq<byte>, q: seq<byte>)
    requires Less(p, x) && !HasPrefix(x, p) && HasPrefix(q, p)
    ensures Less(q, x)
  {
    assert p != [];
    assert x != [];
    if x[0] == p[0] {
      PrefixBlockBelow(p[1..], x[1..], q[1..]);
    }
  }

  /** And a string below p that does not start with p is below the whole block. */
  lemma {:induction false} PrefixBlockAbove(p: seq<byte>, x: seq<byte>, q: seq<byte>)
    requires Less(x, p) && HasPrefix(q, p)
    ensures Less(x, q)
  {
    PrefixNotAfter(q, p);
    if q != p {
      LessTransitive(x, p, q);
    }
  }

  // ---------------------------------------------------------------------
  // Big-endian unsigned integers
  // ---------------------------------------------------------------------

  function Pow256(n: nat): (r: nat)
    ensures r > 0
  {
    if n == 0 then 1 else 256 * Pow256(n - 1)
  }

  /** 2^64: NSUInteger is an unsigned 64-bit integer. */
  const U64_LIMIT: nat := 0x1_0000_0000_0000_0000

  /** 2^32, the range of the 4-byte flags word of a B+tree node. */
  const U32_LIMIT: nat := 0x1_0000_0000

  lemma Pow256Values()
    ensures Pow256(4) == U32_LIMIT
    ensures Pow256(8) == U64_LIMIT
  {
    assert Pow256(1) == 256;
    assert Pow256(2) == 65536;
    assert Pow256(3) == 16777216;
    assert Pow256(4) == 4294967296;
    assert Pow256(5) == 1099511627776;
    assert Pow256(6) == 281474976710656;
    assert Pow256(7) == 72057594037927936;
  }

  /** The n-byte big-endian representation of v. */
  function EncodeBE(v: nat, n: nat): (r: seq<byte>)
    requires v < Pow256(n)
    ensures |r| == n
  {
    if n == 0 then []
    else EncodeBE(v / 256, n - 1) + [(v % 256) as byte]
  }

  /** The value of a big-endian byte string. */
  function DecodeBE(s: seq<byte>): (r: nat)
    ensures r < Pow256(|s|)
  {
    if s == [] then 0
    else
      var hi := DecodeBE(s[..|s| - 1]);
      assert hi <= Pow256(|s| - 1) - 1;
      hi * 256 + s[|s| - 1] as nat
  }

  lemma {:induction false} DecodeEncodeBE(v: nat, n: nat)
    requires v < Pow256(n)
    ensures DecodeBE(EncodeBE(v, n)) == v
  {
    if n > 0 {
      var s := EncodeBE(v, n);
      assert s[..n - 1] == EncodeBE(v / 256, n - 1);
      DecodeEncodeBE(v / 256, n - 1);
    }
  }

  lemma {:induction false} EncodeDecodeBE(s: seq<byte>)
    ensures EncodeBE(DecodeBE(s), |s|) == s
  {
    if s != [] {
      var init := s[..|s| - 1];
      var v := DecodeBE(s);
      assert v / 256 == DecodeBE(init);
      assert (v % 256) as byte == s[|s| - 1];
      EncodeDecodeBE(init);
      assert s == init + [s[|s| - 1]];
    }
  }

  /** Appending one byte to two strings of equal length refines their order. */
  lemma {:induction false} CompareSnoc(a: seq<byte>, b: seq<byte>, x: byte, y: byte)
    requires |a| == |b|
    ensures Compare(a + [x], b + [y]) == if a == b then CompareByte(x, y) else Compare(a, b)
  {
    if a != [] {
      assert (a + [x])[1..] == a[1..] + [x];
      assert (b + [y])[1..] == b[1..] + [y];
      if a[0] == b[0] {
        CompareSnoc(a[1..], b[1..], x, y);
        assert a == [a[0]] + a[1..] && b == [b[0]] + b[1..];
      }
    }
  }

  /** For strings of equal length, numeric order is byte-lexicographic order. */
  lemma {:induction false} DecodeBEOrder(a: seq<byte>, b: seq<byte>)
    requires |a| == |b|
    ensures DecodeBE(a) < DecodeBE(b) <==> Less(a, b)
    decreases |a|
  {
    if a != [] {
      var a', b' := a[..|a| - 1], b[..|b| - 1];
      var x, y := a[|a| - 1], b[|b| - 1];
      assert a == a' + [x] && b == b' + [y];
      CompareSnoc(a', b', x, y);
      DecodeBEOrder(a', b');
      DecodeBEOrder(b', a');
      LessTrichotomy(a', b');
    }
  }

  /** gtw_bigLongLongDataWithInteger: 8 big-endian bytes. */
  function BigLongLongData(v: nat): (r: seq<byte>)
    requires v < U64_LIMIT
    ensures |r| == 8
  {
    Pow256Values();
    EncodeBE(v, 8)
  }

  /** gtw_integerFromBigLongLong: the value of the first 8 bytes. */
  function IntegerFromBigLongLong(s: seq<byte>): (r: nat)
    requires |s| >= 8
    ensures r < U64_LIMIT
  {
    Pow256Values();
    DecodeBE(s[..8])
  }

  /** The argument of gtw_integerFromBigLongLongRange, an NSRange. */
  datatype Range = Range(location: nat, length: nat)

  /** gtw_integerFromBigLongLongRange: the value of the 8 bytes at range.location. */
  function IntegerFromBigLongLongRange(s: seq<byte>, range: Range): (r: nat)
    requires range.length == 8 && range.location + 8 <= |s|
    ensures r == IntegerFromBigLongLong(s[range.location..])
    ensures r < U64_LIMIT
  {
    var field := s[range.location..range.location + 8];
    assert field == s[range.location..][..8];
    DecodeBE(field)
  }

  /** Decoding the 8-byte encoding gives back the integer. */
  lemma IntegerRoundTrip(v: nat)
    requires v < U64_LIMIT
    ensures IntegerFromBigLongLong(BigLongLongData(v)) == v
  {
    Pow256Values();
    var s := BigLongLongData(v);
    assert s[..8] == s;
    DecodeEncodeBE(v, 8);
  }

  /** Encoding the integer that 8 bytes decode to gives back those bytes. */
  lemma BytesRoundTrip(s: seq<byte>)
    requires |s| == 8
    ensures BigLongLongData(IntegerFromBigLongLong(s)) == s
  {
    assert s[..8] == s;
    EncodeDecodeBE(s);
  }

  /** The encoding preserves order: a < b iff enc(a) sorts before enc(b). */
  lemma EncodingPreservesOrder(a: nat, b: nat)
    requires a < U64_LIMIT && b < U64_LIMIT
    ensures a < b <==> Compare(BigLongLongData(a), BigLongLongData(b)) == Ascending
  {
    var ea, eb := BigLongLongData(a), BigLongLongData(b);
    IntegerRoundTrip(a);
    IntegerRoundTrip(b);
    assert ea[..8] == ea && eb[..8] == eb;
    DecodeBEOrder(ea, eb);
  }
}
