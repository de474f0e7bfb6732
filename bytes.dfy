/** Bytes and the byte-level primitives the programs call from the StringZilla
    library (sz_find_byte, sz_rfind_byte, sz_find, sz_order), each given by the
    behaviour it promises on a bounded span of memory. A span is written as a
    half-open index range [lo, hi) into a memory snapshot m. */
module Bytes {

  type byte = x: int | 0 <= x < 256

  datatype Option<T> = None | Some(value: T)

  const NEWLINE: byte := 10
  const SEMICOLON: byte := 59
  const MINUS: byte := 45
  const DOT: byte := 46
  const DIGIT_ZERO: byte := 48
  const DIGIT_NINE: byte := 57

  /** The value of a byte read through a (signed) C `char`. */
  function SignedChar(b: byte): (r: int)
    ensures -128 <= r < 128
    ensures (r + 256) % 256 == b
  {
    if b < 128 then b else b - 256
  }

  /** Memory m with the bytes written at offset at; nothing else changes. */
  function Splice(m: seq<byte>, at: nat, bytes: seq<byte>): (r: seq<byte>)
    requires at + |bytes| <= |m|
    ensures |r| == |m|
  {
    seq(|m|, k requires 0 <= k < |m| => if at <= k < at + |bytes| then bytes[k - at] else m[k])
  }

  /** Splice, element by element. */
  lemma SpliceByElement(m: seq<byte>, at: nat, bytes: seq<byte>, r: seq<byte>)
    requires at + |bytes| <= |m| && |r| == |m|
    requires forall k :: 0 <= k < |m| ==> r[k] == if at <= k < at + |bytes| then bytes[k - at] else m[k]
    ensures r == Splice(m, at, bytes)
  {
  }

  /** The written span reads back the bytes written. */
  lemma SpliceSlice(m: seq<byte>, at: nat, bytes: seq<byte>, end: nat)
    requires end == at + |bytes| <= |m|
    ensures Splice(m, at, bytes)[at..end] == bytes
  {
    var l := Splice(m, at, bytes)[at..end];
    forall k | 0 <= k < |bytes| ensures l[k] == bytes[k] {
      assert l[k] == Splice(m, at, bytes)[at + k];
    }
    assert l == bytes;
  }

  /** Two writes side by side are one write of the concatenation. */
  lemma SpliceAppend(m: seq<byte>, at: nat, a: seq<byte>, b: seq<byte>)
    requires at + |a| + |b| <= |m|
    ensures Splice(Splice(m, at, a), at + |a|, b) == Splice(m, at, a + b)
  {
    var l, r := Splice(Splice(m, at, a), at + |a|, b), Splice(m, at, a + b);
    assert |l| == |r|;
    forall k | 0 <= k < |m| ensures l[k] == r[k] {
      if at <= k < at + |a| {
        assert l[k] == a[k - at] == (a + b)[k - at];
      } else if at + |a| <= k < at + |a| + |b| {
        assert l[k] == b[k - at - |a|] == (a + b)[k - at];
      }
    }
  }

  /** A write hides an earlier write of the same span. */
  lemma SpliceOver(m: seq<byte>, at: nat, a: seq<byte>, b: seq<byte>)
    requires at + |a| <= |m| && |a| == |b|
    ensures Splice(Splice(m, at, a), at, b) == Splice(m, at, b)
  {
    var l, r := Splice(Splice(m, at, a), at, b), Splice(m, at, b);
    assert |l| == |r|;
    forall k | 0 <= k < |m| ensures l[k] == r[k] {
      if at <= k < at + |b| {
        assert l[k] == b[k - at];
      }
    }
  }

  /** n zero bytes. */
  function Zeros(n: nat): (r: seq<byte>)
    ensures |r| == n && forall k :: 0 <= k < n ==> r[k] == 0
  {
    seq(n, _ => 0)
  }

  /** sz_find_byte: the first index in [lo, hi) that holds x, if any. */
  function FindByte(m: seq<byte>, lo: nat, hi: nat, x: byte): (r: Option<nat>)
    requires lo <= hi <= |m|
    ensures r.Some? ==> lo <= r.value < hi && m[r.value] == x
    decreases hi - lo
  {
    if lo == hi then None
    else if m[lo] == x then Some(lo)
    else FindByte(m, lo + 1, hi, x)
  }

  /** FindByte finds the first x: none lies before it, and when nothing is
      found x lies nowhere in [lo, hi). */
  lemma {:induction false} FindByteFirst(m: seq<byte>, lo: nat, hi: nat, x: byte)
    requires lo <= hi <= |m|
    ensures FindByte(m, lo, hi, x).Some? ==> forall k :: lo <= k < FindByte(m, lo, hi, x).value ==> m[k] != x
    ensures FindByte(m, lo, hi, x).None? ==> forall k :: lo <= k < hi ==> m[k] != x
    decreases hi - lo
  {
    if lo < hi && m[lo] != x {
      FindByteFirst(m, lo + 1, hi, x);
    }
  }

  /** sz_rfind_byte: the last index in [lo, hi) that holds x, if any. */
  function RFindByte(m: seq<byte>, lo: nat, hi: nat, x: byte): (r: Option<nat>)
    requires lo <= hi <= |m|
    ensures r.Some? ==> lo <= r.value < hi && m[r.value] == x
    decreases hi - lo
  {
    if lo == hi then None
    else if m[hi - 1] == x then Some(hi - 1)
    else RFindByte(m, lo, hi - 1, x)
  }

  /** The index RFindByte finds is the last x in [lo, hi), and None means
      there is no x there. */
  lemma {:induction false} RFindByteLast(m: seq<byte>, lo: nat, hi: nat, x: byte)
    requires lo <= hi <= |m|
    ensures RFindByte(m, lo, hi, x).Some? ==>
      forall k :: RFindByte(m, lo, hi, x).value < k < hi ==> m[k] != x
    ensures RFindByte(m, lo, hi, x).None? ==> forall k :: lo <= k < hi ==> m[k] != x
    decreases hi - lo
  {
    if lo < hi && m[hi - 1] != x {
      RFindByteLast(m, lo, hi - 1, x);
    }
  }

  /** The needle sits in m starting at index k. */
  predicate OccursAt(m: seq<byte>, k: nat, needle: seq<byte>)
  {
    k + |needle| <= |m| && m[k..k + |needle|] == needle
  }

  /** The comparison sz_find makes at k: the needle against m, byte by byte. */
  predicate SameBytes(m: seq<byte>, k: nat, needle: seq<byte>)
    decreases |needle|
  {
    needle == [] || (k < |m| && m[k] == needle[0] && SameBytes(m, k + 1, needle[1..]))
  }

  /** The byte-by-byte comparison succeeds exactly where the needle occurs. */
  lemma {:induction false} SameBytesOccurs(m: seq<byte>, k: nat, needle: seq<byte>)
    requires k <= |m|
    ensures SameBytes(m, k, needle) <==> OccursAt(m, k, needle)
    decreases |needle|
  {
    if needle != [] && k < |m| {
      SameBytesOccurs(m, k + 1, needle[1..]);
      if k + |needle| <= |m| {
        assert m[k..k + |needle|] == [m[k]] + m[k + 1..k + 1 + |needle[1..]|];
        assert needle == [needle[0]] + needle[1..];
      }
    }
  }

  /** sz_find: the first index k in [lo, hi) such that the whole needle lies in
      [k, hi) at k. An empty needle is never found. */
  function FindSeq(m: seq<byte>, lo: nat, hi: nat, needle: seq<byte>): (r: Option<nat>)
    requires lo <= hi <= |m|
    ensures r.Some? ==> lo <= r.value && r.value + |needle| <= hi
    decreases hi - lo
  {
    if needle == [] || hi - lo < |needle| then None
    else if SameBytes(m, lo, needle) then Some(lo)
    else FindSeq(m, lo + 1, hi, needle)
  }

  /** FindSeq finds the first place of the needle: the needle lies there and
      not before it, and when nothing is found a non-empty needle lies nowhere
      in [lo, hi). */
  lemma {:induction false} FindSeqFirst(m: seq<byte>, lo: nat, hi: nat, needle: seq<byte>)
    requires lo <= hi <= |m|
    ensures FindSeq(m, lo, hi, needle).Some? ==> OccursAt(m, FindSeq(m, lo, hi, needle).value, needle)
    ensures FindSeq(m, lo, hi, needle).Some? ==>
      forall k :: lo <= k < FindSeq(m, lo, hi, needle).value ==> !OccursAt(m, k, needle)
    ensures FindSeq(m, lo, hi, needle).None? && needle != [] ==>
      forall k :: lo <= k && k + |needle| <= hi ==> !OccursAt(m, k, needle)
    decreases hi - lo
  {
    if needle != [] && hi - lo >= |needle| {
      SameBytesOccurs(m, lo, needle);
      if !SameBytes(m, lo, needle) {
        FindSeqFirst(m, lo + 1, hi, needle);
      }
    }
  }

  /** Number of bytes of s equal to x. */
  function CountByte(s: seq<byte>, x: byte): (r: nat)
    ensures r <= |s|
  {
    if s == [] then 0
    else (if s[0] == x then 1 else 0) + CountByte(s[1..], x)
  }

  /** No x at all exactly when the count is zero. */
  lemma {:induction false} CountByteZero(s: seq<byte>, x: byte)
    ensures CountByte(s, x) == 0 <==> forall k :: 0 <= k < |s| ==> s[k] != x
  {
    if s != [] {
      CountByteZero(s[1..], x);
      assert forall k :: 1 <= k < |s| ==> s[k] == s[1..][k - 1];
    }
  }

  lemma {:induction false} CountByteAppend(a: seq<byte>, b: seq<byte>, x: byte)
    ensures CountByte(a + b, x) == CountByte(a, x) + CountByte(b, x)
  {
    if a == [] {
      assert a + b == b;
    } else {
      assert (a + b)[1..] == a[1..] + b;
      CountByteAppend(a[1..], b, x);
    }
  }

  /** The number of x in m[lo .. hi), counted in place from lo on. */
  function CountIn(m: seq<byte>, lo: nat, hi: nat, x: byte): nat
    requires lo <= hi <= |m|
    decreases hi - lo
  {
    if lo == hi then 0 else (if m[lo] == x then 1 else 0) + CountIn(m, lo + 1, hi, x)
  }

  /** Counting in place is counting the slice. */
  lemma {:induction false} CountInSlice(m: seq<byte>, lo: nat, hi: nat, x: byte)
    requires lo <= hi <= |m|
    ensures CountIn(m, lo, hi, x) == CountByte(m[lo..hi], x)
    decreases hi - lo
  {
    if lo < hi {
      CountInSlice(m, lo + 1, hi, x);
      assert m[lo..hi][1..] == m[lo + 1..hi];
    }
  }

  /** A range holds at most as many x as it has bytes. */
  lemma {:induction false} CountInBound(m: seq<byte>, lo: nat, hi: nat, x: byte)
    requires lo <= hi <= |m|
    ensures CountIn(m, lo, hi, x) <= hi - lo
    decreases hi - lo
  {
    if lo < hi {
      CountInBound(m, lo + 1, hi, x);
    }
  }

  /** Counting in place splits at any point in between. */
  lemma {:induction false} CountInSplit(m: seq<byte>, lo: nat, mid: nat, hi: nat, x: byte)
    requires lo <= mid <= hi <= |m|
    ensures CountIn(m, lo, hi, x) == CountIn(m, lo, mid, x) + CountIn(m, mid, hi, x)
    decreases mid - lo
  {
    if lo < mid {
      CountInSplit(m, lo + 1, mid, hi, x);
    }
  }

  /** A range without x counts zero. */
  lemma {:induction false} CountInNone(m: seq<byte>, lo: nat, hi: nat, x: byte)
    requires lo <= hi <= |m| && forall k :: lo <= k < hi ==> m[k] != x
    ensures CountIn(m, lo, hi, x) == 0
    decreases hi - lo
  {
    if lo < hi {
      CountInNone(m, lo + 1, hi, x);
    }
  }

  /** The bytes m[lo .. hi), taken out one by one from lo on. */
  function Segment(m: seq<byte>, lo: nat, hi: nat): (r: seq<byte>)
    requires lo <= hi <= |m|
    ensures |r| == hi - lo
    decreases hi - lo
  {
    if lo == hi then [] else [m[lo]] + Segment(m, lo + 1, hi)
  }

  /** Taking the bytes out one by one gives the slice. */
  lemma {:induction false} SegmentSlice(m: seq<byte>, lo: nat, hi: nat)
    requires lo <= hi <= |m|
    ensures Segment(m, lo, hi) == m[lo..hi]
    decreases hi - lo
  {
    if lo < hi {
      SegmentSlice(m, lo + 1, hi);
      assert m[lo..hi] == [m[lo]] + m[lo + 1..hi];
    }
  }

  /** What one step of a count-by-searching loop relies on: the number of x in
      [lo, hi) is 0 when no x is found there, and otherwise one more than the
      number of x after the first one found. */
  lemma {:induction false} CountAfterFind(m: seq<byte>, lo: nat, hi: nat, x: byte)
    requires lo <= hi <= |m|
    ensures FindByte(m, lo, hi, x).None? ==> CountByte(m[lo..hi], x) == 0
    ensures FindByte(m, lo, hi, x).Some? ==>
      var f := FindByte(m, lo, hi, x).value;
      CountByte(m[lo..hi], x) == 1 + CountByte(m[f + 1..hi], x)
    decreases hi - lo
  {
    if lo < hi {
      assert m[lo..hi][1..] == m[lo + 1..hi];
      if m[lo] != x {
        CountAfterFind(m, lo + 1, hi, x);
      }
    }
  }

  /** CountAfterFind for counting in place. */
  lemma {:induction false} CountInAfterFind(m: seq<byte>, lo: nat, hi: nat, x: byte)
    requires lo <= hi <= |m|
    ensures FindByte(m, lo, hi, x).None? ==> CountIn(m, lo, hi, x) == 0
    ensures FindByte(m, lo, hi, x).Some? ==>
      CountIn(m, lo, hi, x) == 1 + CountIn(m, FindByte(m, lo, hi, x).value + 1, hi, x)
    decreases hi - lo
  {
    if lo < hi && m[lo] != x {
      CountInAfterFind(m, lo + 1, hi, x);
    }
  }

  /** sz_order: three-way byte-lexicographic comparison (-1, 0 or 1); a proper
      prefix orders first. */
  function Order(a: seq<byte>, b: seq<byte>): (r: int)
    ensures -1 <= r <= 1
  {
    if a == [] then (if b == [] then 0 else -1)
    else if b == [] then 1
    else if a[0] < b[0] then -1
    else if a[0] > b[0] then 1
    else Order(a[1..], b[1..])
  }

  lemma {:induction false} OrderZero(a: seq<byte>, b: seq<byte>)
    ensures Order(a, b) == 0 <==> a == b
  {
    if a != [] && b != [] && a[0] == b[0] {
      OrderZero(a[1..], b[1..]);
      assert a == [a[0]] + a[1..] && b == [b[0]] + b[1..];
    }
  }

  lemma {:induction false} OrderFlip(a: seq<byte>, b: seq<byte>)
    ensures Order(b, a) == -Order(a, b)
  {
    if a != [] && b != [] && a[0] == b[0] {
      OrderFlip(a[1..], b[1..]);
    }
  }

  lemma {:induction false} OrderTransitive(a: seq<byte>, b: seq<byte>, c: seq<byte>)
    requires Order(a, b) <= 0 && Order(b, c) <= 0
    ensures Order(a, c) <= 0
  {
    if a != [] && b != [] && c != [] && a[0] == b[0] && b[0] == c[0] {
      OrderTransitive(a[1..], b[1..], c[1..]);
    }
  }

  /** m and n hold the same bytes at every position of [lo, hi): the memory
      a block lies in, and another memory holding that block at the same
      place. */
  predicate Agree(m: seq<byte>, n: seq<byte>, lo: nat, hi: nat)
    decreases hi - lo
  {
    lo <= hi <= |m| && hi <= |n| && (lo == hi || (m[lo] == n[lo] && Agree(m, n, lo + 1, hi)))
  }

  lemma {:induction false} AgreeAt(m: seq<byte>, n: seq<byte>, lo: nat, hi: nat, k: nat)
    requires Agree(m, n, lo, hi) && lo <= k < hi
    ensures m[k] == n[k]
    decreases k - lo
  {
    if lo < k {
      AgreeAt(m, n, lo + 1, hi, k);
    }
  }

  lemma {:induction false} AgreeWithin(m: seq<byte>, n: seq<byte>, lo: nat, hi: nat, lo2: nat, hi2: nat)
    requires Agree(m, n, lo, hi) && lo <= lo2 <= hi2 <= hi
    ensures Agree(m, n, lo2, hi2)
    decreases hi2 - lo2
  {
    if lo2 < hi2 {
      AgreeAt(m, n, lo, hi, lo2);
      AgreeWithin(m, n, lo, hi, lo2 + 1, hi2);
    }
  }

  /** Two memories agree wherever they hold the same slice. */
  lemma {:induction false} SlicesAgree(m: seq<byte>, n: seq<byte>, lo: nat, hi: nat)
    requires lo <= hi <= |m| && hi <= |n| && m[lo..hi] == n[lo..hi]
    ensures Agree(m, n, lo, hi)
    decreases hi - lo
  {
    if lo < hi {
      assert m[lo] == m[lo..hi][0] == n[lo..hi][0] == n[lo];
      assert m[lo + 1..hi] == m[lo..hi][1..] == n[lo..hi][1..] == n[lo + 1..hi];
      SlicesAgree(m, n, lo + 1, hi);
    }
  }

  /** sz_find_byte over a range reads nothing outside it. */
  lemma {:induction false} FindByteAgree(m: seq<byte>, n: seq<byte>, lo: nat, hi: nat, x: byte)
    requires Agree(m, n, lo, hi)
    ensures FindByte(m, lo, hi, x) == FindByte(n, lo, hi, x)
    decreases hi - lo
  {
    if lo < hi {
      FindByteAgree(m, n, lo + 1, hi, x);
    }
  }

  /** The same for sz_rfind_byte. */
  lemma {:induction false} RFindByteAgree(m: seq<byte>, n: seq<byte>, lo: nat, hi: nat, x: byte)
    requires Agree(m, n, lo, hi)
    ensures RFindByte(m, lo, hi, x) == RFindByte(n, lo, hi, x)
    decreases hi - lo
  {
    if lo < hi {
      AgreeAt(m, n, lo, hi, hi - 1);
      AgreeWithin(m, n, lo, hi, lo, hi - 1);
      RFindByteAgree(m, n, lo, hi - 1, x);
    }
  }

  /** A comparison inside [lo, hi) reads nothing outside it. */
  lemma {:induction false} SameBytesAgree(m: seq<byte>, n: seq<byte>, lo: nat, hi: nat, needle: seq<byte>)
    requires Agree(m, n, lo, hi) && lo + |needle| <= hi
    ensures SameBytes(m, lo, needle) == SameBytes(n, lo, needle)
    decreases |needle|
  {
    if needle != [] {
      SameBytesAgree(m, n, lo + 1, hi, needle[1..]);
    }
  }

  /** sz_find over a range reads nothing outside it. */
  lemma {:induction false} FindSeqAgree(m: seq<byte>, n: seq<byte>, lo: nat, hi: nat, needle: seq<byte>)
    requires Agree(m, n, lo, hi)
    ensures FindSeq(m, lo, hi, needle) == FindSeq(n, lo, hi, needle)
    decreases hi - lo
  {
    if needle != [] && hi - lo >= |needle| {
      SameBytesAgree(m, n, lo, hi, needle);
      FindSeqAgree(m, n, lo + 1, hi, needle);
    }
  }

  /** Counting over a range reads nothing outside it. */
  lemma {:induction false} CountInAgree(m: seq<byte>, n: seq<byte>, lo: nat, hi: nat, x: byte)
    requires Agree(m, n, lo, hi)
    ensures CountIn(m, lo, hi, x) == CountIn(n, lo, hi, x)
    decreases hi - lo
  {
    if lo < hi {
      CountInAgree(m, n, lo + 1, hi, x);
    }
  }

  /** The bytes of a range are the same in memories that agree on it. */
  lemma {:induction false} SegmentAgree(m: seq<byte>, n: seq<byte>, lo: nat, hi: nat)
    requires Agree(m, n, lo, hi)
    ensures Segment(m, lo, hi) == Segment(n, lo, hi)
    decreases hi - lo
  {
    if lo < hi {
      SegmentAgree(m, n, lo + 1, hi);
    }
  }
}
