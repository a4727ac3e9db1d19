/** Valid UTF-8 (section 4 of RFC 3629, without NUL) as a sequence of encoded code points. */
module Utf8 {
  import opened Common

  /** 0xFF occurs in no UTF-8 text. */
  const BAD_CHAR: byte := 0xFF

  /** Length of the code point that the byte leads; 0 when it leads none. */
  function LeadLen(b: byte): nat {
    if b < 0x80 then 1 else if b < 0xC0 then 0 else if b < 0xE0 then 2 else if b < 0xF0 then 3
    else if b < 0xF8 then 4 else 0
  }

  predicate IsTail(b: byte) {
    0x80 <= b <= 0xBF
  }

  /** One encoded code point. */
  predicate WellFormedChar(c: bytes) {
    && |c| > 0
    && |c| == LeadLen(c[0])
    && (forall i :: 1 <= i < |c| ==> IsTail(c[i]))
    && 1 <= c[0] <= 0xF4 && c[0] != 0xC0 && c[0] != 0xC1
    && (c[0] == 0xE0 ==> c[1] >= 0xA0) && (c[0] == 0xED ==> c[1] <= 0x9F)
    && (c[0] == 0xF0 ==> c[1] >= 0x90) && (c[0] == 0xF4 ==> c[1] <= 0x8F)
  }

  predicate WellFormed(cs: seq<bytes>) {
    forall i :: 0 <= i < |cs| ==> WellFormedChar(cs[i])
  }

  predicate ValidUtf8(b: bytes)
    decreases |b|
  {
    b == [] ||
    var n := LeadLen(b[0]);
    1 <= n <= |b| && WellFormedChar(b[..n]) && ValidUtf8(b[n..])
  }

  function Chars(b: bytes): (cs: seq<bytes>)
    requires ValidUtf8(b)
    ensures WellFormed(cs)
    decreases |b|
  {
    if b == [] then [] else [b[..LeadLen(b[0])]] + Chars(b[LeadLen(b[0])..])
  }

  function Flatten(cs: seq<bytes>): bytes {
    if cs == [] then [] else cs[0] + Flatten(cs[1..])
  }

  lemma FlattenCons(c: bytes, cs: seq<bytes>)
    ensures Flatten([c] + cs) == c + Flatten(cs)
  {
    assert ([c] + cs)[1..] == cs;
  }

  lemma {:induction false} FlattenConcat(a: seq<bytes>, b: seq<bytes>)
    ensures Flatten(a + b) == Flatten(a) + Flatten(b)
  {
    if a == [] {
      assert a + b == b;
    } else {
      assert (a + b)[1..] == a[1..] + b;
      FlattenConcat(a[1..], b);
    }
  }

  lemma {:induction false} FlattenChars(b: bytes)
    requires ValidUtf8(b)
    ensures Flatten(Chars(b)) == b
    decreases |b|
  {
    if b != [] {
      var n := LeadLen(b[0]);
      var c, rest := b[..n], b[n..];
      assert Chars(b) == [c] + Chars(rest);
      calc {
        Flatten(Chars(b));
        Flatten([c] + Chars(rest));
        { FlattenCons(c, Chars(rest)); }
        c + Flatten(Chars(rest));
        { FlattenChars(rest); }
        c + rest;
        b;
      }
    }
  }

  /** UTF-8 decodes uniquely. */
  lemma {:induction false} CharsFlatten(cs: seq<bytes>)
    requires WellFormed(cs)
    ensures ValidUtf8(Flatten(cs)) && Chars(Flatten(cs)) == cs
  {
    if cs != [] {
      var b, n := Flatten(cs), |cs[0]|;
      CharsFlatten(cs[1..]);
      assert b[..n] == cs[0] && b[n..] == Flatten(cs[1..]);
      assert b[0] == cs[0][0];
      assert [cs[0]] + cs[1..] == cs;
    }
  }

  lemma FlattenInjective(a: seq<bytes>, b: seq<bytes>)
    requires WellFormed(a) && WellFormed(b) && Flatten(a) == Flatten(b)
    ensures a == b
  {
    CharsFlatten(a);
    CharsFlatten(b);
  }

  lemma {:induction false} NoBadChar(cs: seq<bytes>)
    requires WellFormed(cs)
    ensures BAD_CHAR !in Flatten(cs)
  {
    if cs != [] {
      NoBadChar(cs[1..]);
      forall i | 0 <= i < |cs[0]|
        ensures cs[0][i] != BAD_CHAR
      {
      }
    }
  }

  /** Byte offset of the k-th code point. */
  function Offset(cs: seq<bytes>, k: nat): nat
    requires k <= |cs|
  {
    |Flatten(cs[..k])|
  }

  /** The bytes between two code point offsets are the code points in between. */
  lemma SliceIsFlatten(cs: seq<bytes>, i: nat, j: nat)
    requires i <= j <= |cs|
    ensures Offset(cs, i) <= Offset(cs, j) <= |Flatten(cs)|
    ensures Flatten(cs)[Offset(cs, i)..Offset(cs, j)] == Flatten(cs[i..j])
  {
    assert cs == cs[..j] + cs[j..];
    FlattenConcat(cs[..j], cs[j..]);
    assert cs[..j] == cs[..i] + cs[i..j];
    FlattenConcat(cs[..i], cs[i..j]);
  }

  lemma OffsetStep(cs: seq<bytes>, k: nat)
    requires k < |cs|
    ensures Offset(cs, k + 1) == Offset(cs, k) + |cs[k]|
  {
    assert cs[..k + 1] == cs[..k] + [cs[k]];
    FlattenConcat(cs[..k], [cs[k]]);
    assert Flatten([cs[k]]) == cs[k] + Flatten([]);
  }

  lemma OffsetEnds(cs: seq<bytes>)
    ensures Offset(cs, 0) == 0 && Offset(cs, |cs|) == |Flatten(cs)|
  {
    assert cs[..|cs|] == cs;
  }

  // ----- self-synchronisation

  /** A position of the text that does not hold a tail byte is the start of a code point. */
  lemma {:induction false} LeadStartsChar(cs: seq<bytes>, p: nat) returns (k: nat)
    requires WellFormed(cs) && p < |Flatten(cs)| && !IsTail(Flatten(cs)[p])
    ensures k < |cs| && Offset(cs, k) == p
  {
    var n := |cs[0]|;
    if p < n {
      assert Flatten(cs)[p] == cs[0][p];
      k := 0;
      OffsetEnds(cs);
    } else {
      assert Flatten(cs)[p] == Flatten(cs[1..])[p - n];
      k := LeadStartsChar(cs[1..], p - n);
      k := k + 1;
      assert cs[..k] == [cs[0]] + cs[1..][..k - 1];
      FlattenConcat([cs[0]], cs[1..][..k - 1]);
      assert Flatten([cs[0]]) == cs[0] + Flatten([]);
    }
  }

  /** Two texts that agree on the bytes of qs, from a common start, agree on its code points. */
  lemma {:induction false} PrefixBytesPrefixChars(cs: seq<bytes>, qs: seq<bytes>)
    requires WellFormed(cs) && WellFormed(qs) && Flatten(qs) <= Flatten(cs)
    ensures qs <= cs
  {
    if qs != [] {
      assert Flatten(qs)[0] == qs[0][0];
      assert Flatten(cs)[0] == cs[0][0];
      var n := |qs[0]|;
      assert |cs[0]| == n;
      assert qs[0] == Flatten(qs)[..n] == Flatten(cs)[..n] == cs[0];
      assert Flatten(qs)[n..] == Flatten(qs[1..]) && Flatten(cs)[n..] == Flatten(cs[1..]);
      PrefixBytesPrefixChars(cs[1..], qs[1..]);
    }
  }

  /** q stands at position p of t. */
  predicate OccursAt<T(==)>(q: seq<T>, t: seq<T>, p: int) {
    0 <= p <= |t| - |q| && t[p..p + |q|] == q
  }

  /** q occurs in t as consecutive elements. */
  ghost predicate Occurs<T>(q: seq<T>, t: seq<T>) {
    exists p :: OccursAt(q, t, p)
  }

  lemma ByteMatchStartsChar(cs: seq<bytes>, qs: seq<bytes>, p: int) returns (k: nat)
    requires WellFormed(cs) && WellFormed(qs) && qs != []
    requires OccursAt(Flatten(qs), Flatten(cs), p)
    ensures OccursAt(qs, cs, k) && Offset(cs, k) == p
  {
    var t, q := Flatten(cs), Flatten(qs);
    assert q[0] == qs[0][0];
    assert t[p] == t[p..p + |q|][0];
    k := LeadStartsChar(cs, p);
    var rest := cs[k..];
    assert cs == cs[..k] + rest;
    FlattenConcat(cs[..k], rest);
    assert Flatten(rest) == t[p..];
    assert t[p..][..|q|] == q;
    PrefixBytesPrefixChars(rest, qs);
    assert cs[k..k + |qs|] == rest[..|qs|];
  }

  lemma CharMatchIsByteMatch(cs: seq<bytes>, qs: seq<bytes>, k: int)
    requires OccursAt(qs, cs, k)
    ensures OccursAt(Flatten(qs), Flatten(cs), Offset(cs, k))
  {
    SliceIsFlatten(cs, k, k + |qs|);
    var p, e := Offset(cs, k), Offset(cs, k + |qs|);
    assert |Flatten(cs)[p..e]| == e - p;
  }

  /** A non-empty valid query occurs in a valid text byte for byte exactly when its code points occur
      in the text's code points: no match straddles a code point. */
  lemma ByteMatchIsCharMatch(cs: seq<bytes>, qs: seq<bytes>)
    requires WellFormed(cs) && WellFormed(qs) && qs != []
    ensures Occurs(Flatten(qs), Flatten(cs)) <==> Occurs(qs, cs)
  {
    if p :| OccursAt(Flatten(qs), Flatten(cs), p) {
      var k := ByteMatchStartsChar(cs, qs, p);
    }
    if k :| OccursAt(qs, cs, k) {
      CharMatchIsByteMatch(cs, qs, k);
    }
  }

  predicate EndsWith<T(==)>(t: seq<T>, q: seq<T>) {
    |q| <= |t| && t[|t| - |q|..] == q
  }

  /** The same for suffixes: a valid suffix starts at a code point. */
  lemma ByteSuffixIsCharSuffix(cs: seq<bytes>, qs: seq<bytes>)
    requires WellFormed(cs) && WellFormed(qs) && qs != []
    ensures EndsWith(Flatten(cs), Flatten(qs)) <==> EndsWith(cs, qs)
  {
    if EndsWith(Flatten(cs), Flatten(qs)) {
      ByteSuffixGivesCharSuffix(cs, qs);
    }
    if EndsWith(cs, qs) {
      CharSuffixGivesByteSuffix(cs, qs);
    }
  }

  lemma CharSuffixGivesByteSuffix(cs: seq<bytes>, qs: seq<bytes>)
    requires EndsWith(cs, qs)
    ensures EndsWith(Flatten(cs), Flatten(qs))
  {
    var front := cs[..|cs| - |qs|];
    assert cs == front + qs;
    FlattenConcat(front, qs);
  }

  lemma ByteSuffixGivesCharSuffix(cs: seq<bytes>, qs: seq<bytes>)
    requires WellFormed(cs) && WellFormed(qs) && qs != []
    requires EndsWith(Flatten(cs), Flatten(qs))
    ensures EndsWith(cs, qs)
  {
    var t, q := Flatten(cs), Flatten(qs);
    var p := |t| - |q|;
    assert q[0] == qs[0][0];
    assert t[p] == t[p..][0];
    var k := LeadStartsChar(cs, p);
    var front, rest := cs[..k], cs[k..];
    assert cs == front + rest;
    FlattenConcat(front, rest);
    assert t[p..] == Flatten(rest);
    FlattenInjective(rest, qs);
  }

  /** The same for prefixes. */
  lemma BytePrefixIsCharPrefix(cs: seq<bytes>, qs: seq<bytes>)
    requires WellFormed(cs) && WellFormed(qs)
    ensures Flatten(qs) <= Flatten(cs) <==> qs <= cs
  {
    if Flatten(qs) <= Flatten(cs) {
      PrefixBytesPrefixChars(cs, qs);
    }
    if qs <= cs {
      assert cs == qs + cs[|qs|..];
      FlattenConcat(qs, cs[|qs|..]);
    }
  }

  lemma {:induction false} CharCountAtMostBytes(cs: seq<bytes>)
    requires WellFormed(cs)
    ensures |cs| <= |Flatten(cs)|
  {
    if cs != [] {
      CharCountAtMostBytes(cs[1..]);
    }
  }
}
