/** The helpers of src/common/memory.c: byte copy and byte clear (serial and
    32-bytes-at-a-time) and counting one byte value in a block, together with
    the StringZilla copy the programs call. A C pointer is an array together
    with an offset into it; an AVX2 lane is 32 bytes. */
module Memory {
  import opened Bytes

  /** copy_serial: copy `length` bytes forwards, one at a time. A forward copy
      stays exact when the two regions overlap with the target at or below the
      source, so only the other overlap is excluded. */
  method CopySerial(target: array<byte>, t: nat, source: array<byte>, s: nat, length: nat)
    requires t + length <= target.Length && s + length <= source.Length
    requires target == source ==> t <= s || s + length <= t
    modifies target
    ensures target[..] == Splice(old(target[..]), t, old(source[s..s + length]))
  {
    if length < 1 {
      assert old(source[s..s + length]) == [];
      return;
    }
    var dest: nat, src: nat, remaining: nat := t, s, length;
    while remaining > 0
      invariant remaining <= length
      invariant dest == t + (length - remaining) && src == s + (length - remaining)
      invariant target[..] == Splice(old(target[..]), t, old(source[s..src]))
      invariant forall k :: src <= k < s + length ==> source[k] == old(source[k])
    {
      target[dest] := source[src];
      dest, src, remaining := dest + 1, src + 1, remaining - 1;
    }
  }

  /** clear_serial: zero `length` bytes, one at a time. */
  method ClearSerial(target: array<byte>, t: nat, length: nat)
    requires t + length <= target.Length
    modifies target
    ensures target[..] == Splice(old(target[..]), t, Zeros(length))
  {
    if length < 1 {
      return;
    }
    var dest: nat, remaining: nat := t, length;
    while remaining > 0
      invariant remaining <= length
      invariant dest == t + (length - remaining)
      invariant target[..] == Splice(old(target[..]), t, Zeros(length - remaining))
    {
      target[dest] := 0;
      dest, remaining := dest + 1, remaining - 1;
    }
  }

  /** sz_copy_avx2: copy n bytes. All of the source span is read before the
      target is written, so the result is exact even when the spans overlap. */
  method SzCopy(target: array<byte>, t: nat, source: array<byte>, s: nat, n: nat)
    requires t + n <= target.Length && s + n <= source.Length
    modifies target
    ensures target[..] == Splice(old(target[..]), t, old(source[s..s + n]))
  {
    var bytes := source[s..s + n];
    ghost var before := target[..];
    forall i | 0 <= i < n {
      target[t + i] := bytes[i];
    }
    SpliceByElement(before, t, bytes, target[..]);
  }

  /** _mm256_storeu_si256: one unaligned 32-byte store of the lane `bytes`. */
  method Store32(target: array<byte>, at: nat, bytes: seq<byte>)
    requires at + 32 <= target.Length && |bytes| == 32
    modifies target
    ensures forall k :: 0 <= k < target.Length ==>
      target[k] == if at <= k < at + 32 then bytes[k - at] else old(target[k])
  {
    forall i | 0 <= i < 32 {
      target[at + i] := bytes[i];
    }
  }

  /** What `copy` leaves in memory as written: each 32-byte store goes to the
      start of the target, so after k whole lanes the first 32 bytes hold the
      last lane copied, the bytes 32 .. 32k are untouched, and only the final
      length % 32 bytes land at their own offsets. */
  function CopyAsWritten(m: seq<byte>, t: nat, src: seq<byte>, s: nat, length: nat): (r: seq<byte>)
    requires t + length <= |m| && s + length <= |src|
    ensures |r| == |m|
  {
    CopyLanes(m, t, src, s, length, length / 32)
  }

  /** CopyAsWritten once the number k of whole lanes is known. */
  function CopyLanes(m: seq<byte>, t: nat, src: seq<byte>, s: nat, length: nat, k: nat): (r: seq<byte>)
    requires t + length <= |m| && s + length <= |src| && 32 * k <= length
    ensures |r| == |m|
  {
    seq(|m|, j requires 0 <= j < |m| =>
      if t + 32 * k <= j < t + length then src[s + (j - t)]
      else if 0 < k && t <= j < t + 32 then src[s + 32 * k - 32 + (j - t)]
      else m[j])
  }

  /** What `clear` leaves in memory as written (see CopyAsWritten). */
  function ClearAsWritten(m: seq<byte>, t: nat, length: nat): (r: seq<byte>)
    requires t + length <= |m|
    ensures |r| == |m|
  {
    var k := length / 32;
    seq(|m|, j requires 0 <= j < |m| =>
      if t + 32 * k <= j < t + length then 0
      else if 0 < k && t <= j < t + 32 then 0
      else m[j])
  }

  /** copy, as written: the lane loop stores to `target` instead of `dest`. */
  method Copy(target: array<byte>, t: nat, source: array<byte>, s: nat, length: nat)
    requires t + length <= target.Length && s + length <= source.Length
    requires target == source ==> t + length <= s || s + length <= t
    modifies target
    ensures target[..] == CopyAsWritten(old(target[..]), t, old(source[..]), s, length)
  {
    ghost var ot, os := target[..], source[..];
    var dest: nat, src: nat, remaining: nat := t, s, length;
    ghost var lanes: nat := 0;
    while remaining >= 32
      invariant length == 32 * lanes + remaining
      invariant dest == t + 32 * lanes && src == s + 32 * lanes
      invariant forall k :: 0 <= k < target.Length ==>
        target[k] == if 0 < lanes && t <= k < t + 32 then os[src - 32 + (k - t)] else ot[k]
      invariant forall k :: s <= k < s + length ==> source[k] == os[k]
    {
      ghost var pre := source[..];
      Store32(target, t, source[src..src + 32]);
      assert forall k :: s <= k < s + length ==> source[k] == pre[k] by {
        if target == source {
          forall k | s <= k < s + length ensures source[k] == pre[k] {
            assert !(t <= k < t + 32);
          }
        }
      }
      src, dest, remaining := src + 32, dest + 32, remaining - 32;
      lanes := lanes + 1;
    }
    ghost var mid, msrc := target[..], source[..];
    CopySerial(target, dest, source, src, remaining);
    CopyTailFinishes(ot, t, os, s, length, lanes, mid, msrc, dest, src, remaining, target[..]);
  }

  /** The step that closes `copy` as written: memory `mid` after the lane loop,
      then the tail copied from `msrc`, which agrees with the source `src` on
      the copied span, gives CopyAsWritten. */
  lemma CopyTailFinishes(m: seq<byte>, t: nat, src: seq<byte>, s: nat, length: nat, lanes: nat,
                         mid: seq<byte>, msrc: seq<byte>, at: nat, from: nat, rest: nat, r: seq<byte>)
    requires t + length <= |m| && s + length <= |src| && |mid| == |m| && |msrc| == |src|
    requires 32 * lanes <= length < 32 * lanes + 32
    requires forall k :: 0 <= k < |mid| ==>
      mid[k] == if 0 < lanes && t <= k < t + 32 then src[s + 32 * lanes - 32 + (k - t)] else m[k]
    requires forall k :: s <= k < s + length ==> msrc[k] == src[k]
    requires at == t + 32 * lanes && from == s + 32 * lanes && rest == length - 32 * lanes
    requires r == Splice(mid, at, msrc[from..from + rest])
    ensures r == CopyAsWritten(m, t, src, s, length)
  {
    assert length / 32 == lanes;
    var w := CopyLanes(m, t, src, s, length, lanes);
    forall j | 0 <= j < |m| ensures r[j] == w[j] {
      if at <= j < at + rest {
        assert r[at + (j - at)] == msrc[from..from + rest][j - at] == msrc[s + (j - t)];
        assert w[j] == src[s + (j - t)];
      } else if 0 < lanes && t <= j < t + 32 {
        assert r[j] == mid[j] == src[s + 32 * lanes - 32 + (j - t)];
        assert w[j] == src[s + 32 * lanes - 32 + (j - t)];
      } else {
        assert r[j] == mid[j] == m[j];
        assert w[j] == m[j];
      }
    }
  }

  /** clear, as written: the lane loop stores to `target` instead of `dest`. */
  method Clear(target: array<byte>, t: nat, length: nat)
    requires t + length <= target.Length
    modifies target
    ensures target[..] == ClearAsWritten(old(target[..]), t, length)
  {
    ghost var ot := target[..];
    var dest: nat, remaining: nat := t, length;
    ghost var lanes: nat := 0;
    while remaining >= 32
      invariant length == 32 * lanes + remaining && dest == t + 32 * lanes
      invariant forall k :: 0 <= k < target.Length ==>
        target[k] == if 0 < lanes && t <= k < t + 32 then 0 else ot[k]
    {
      Store32(target, t, Zeros(32));
      dest, remaining := dest + 32, remaining - 32;
      lanes := lanes + 1;
    }
    ghost var mid := target[..];
    ClearSerial(target, dest, remaining);
    ClearTailFinishes(ot, t, length, lanes, mid, dest, remaining, target[..]);
  }

  /** The step that closes `clear` as written (see CopyTailFinishes). */
  lemma ClearTailFinishes(m: seq<byte>, t: nat, length: nat, lanes: nat, mid: seq<byte>, at: nat, rest: nat, r: seq<byte>)
    requires t + length <= |m| && |mid| == |m|
    requires 32 * lanes <= length < 32 * lanes + 32
    requires forall k :: 0 <= k < |mid| ==> mid[k] == if 0 < lanes && t <= k < t + 32 then 0 else m[k]
    requires at == t + 32 * lanes && rest == length - 32 * lanes
    requires r == Splice(mid, at, Zeros(rest))
    ensures r == ClearAsWritten(m, t, length)
  {
    assert length / 32 == lanes;
    var w := ClearAsWritten(m, t, length);
    forall j | 0 <= j < |m| ensures r[j] == w[j] {
      if !(at <= j < at + rest) {
        assert r[j] == mid[j];
      }
    }
  }

  /** copy as evidently intended: every lane is stored at `dest`. */
  method CopyIntended(target: array<byte>, t: nat, source: array<byte>, s: nat, length: nat)
    requires t + length <= target.Length && s + length <= source.Length
    requires target == source ==> t + length <= s || s + length <= t
    modifies target
    ensures target[..] == Splice(old(target[..]), t, old(source[s..s + length]))
  {
    ghost var ot, os := target[..], source[..];
    var dest: nat, src: nat, remaining: nat := t, s, length;
    while remaining >= 32
      invariant remaining <= length
      invariant dest == t + (length - remaining) && src == s + (length - remaining)
      invariant forall k :: 0 <= k < target.Length ==>
        target[k] == if t <= k < dest then os[s + (k - t)] else ot[k]
      invariant forall k :: s <= k < s + length ==> source[k] == os[k]
    {
      ghost var pre := source[..];
      Store32(target, dest, source[src..src + 32]);
      assert forall k :: s <= k < s + length ==> source[k] == pre[k] by {
        if target == source {
          forall k | s <= k < s + length ensures source[k] == pre[k] {
            assert !(dest <= k < dest + 32);
          }
        }
      }
      src, dest, remaining := src + 32, dest + 32, remaining - 32;
    }
    ghost var mid := target[..];
    assert src + remaining == s + length;
    CopySerial(target, dest, source, src, remaining);
    SpliceByElement(ot, t, os[s..s + length], target[..]);
  }

  /** clear as evidently intended: every lane is stored at `dest`. */
  method ClearIntended(target: array<byte>, t: nat, length: nat)
    requires t + length <= target.Length
    modifies target
    ensures target[..] == Splice(old(target[..]), t, Zeros(length))
  {
    ghost var ot := target[..];
    var dest: nat, remaining: nat := t, length;
    while remaining >= 32
      invariant remaining <= length
      invariant dest == t + (length - remaining)
      invariant forall k :: 0 <= k < target.Length ==>
        target[k] == if t <= k < dest then 0 else ot[k]
    {
      Store32(target, dest, Zeros(32));
      dest, remaining := dest + 32, remaining - 32;
    }
    ghost var mid := target[..];
    ClearSerial(target, dest, remaining);
    SpliceByElement(ot, t, Zeros(length), target[..]);
  }

  /** Below one lane, copy is copy_serial. */
  lemma CopyShortIsSerial(m: seq<byte>, t: nat, src: seq<byte>, s: nat, length: nat)
    requires t + length <= |m| && s + length <= |src| && length < 32
    ensures CopyAsWritten(m, t, src, s, length) == Splice(m, t, src[s..s + length])
  {
  }

  /** Below one lane, clear is clear_serial. */
  lemma ClearShortIsSerial(m: seq<byte>, t: nat, length: nat)
    requires t + length <= |m| && length < 32
    ensures ClearAsWritten(m, t, length) == Splice(m, t, Zeros(length))
  {
  }

  /** With two whole lanes, byte 32 of the target is not written by copy as
      written, so it differs from the source byte it should have received. */
  lemma CopyAsWrittenSkipsSecondLane(m: seq<byte>, src: seq<byte>)
    requires |m| >= 64 && |src| >= 64 && m[32] != src[32]
    ensures CopyAsWritten(m, 0, src, 0, 64)[32] == m[32]
    ensures CopyAsWritten(m, 0, src, 0, 64) != Splice(m, 0, src[..64])
  {
    var lanes := Splice(m, 0, src[32..64]);
    var r := Splice(lanes, 64, []);
    assert CopyAsWritten(m, 0, src, 0, 64) == r;
    assert r[32] == lanes[32];
    assert lanes[32] == m[32];
    var want := Splice(m, 0, src[..64]);
    assert want[0 + 32] == src[..64][32] == src[32];
  }

  /** With two whole lanes, byte 32 of the target keeps a non-zero value under
      clear as written. */
  lemma ClearAsWrittenSkipsSecondLane(m: seq<byte>)
    requires |m| >= 64 && m[32] != 0
    ensures ClearAsWritten(m, 0, 64)[32] == m[32] != 0
  {
    var lanes := Splice(m, 0, Zeros(32));
    assert ClearAsWritten(m, 0, 64) == Splice(lanes, 64, Zeros(0));
    assert lanes[32] == m[32];
  }

  /** count_byte_in_block: how many bytes of block[from .. from + size) equal x,
      found by repeated forward search. The block is only read, so it is
      passed as the bytes it holds. */
  method CountByteInBlock(block: seq<byte>, from: nat, size: nat, x: byte) returns (count: nat)
    requires from + size <= |block|
    ensures count == CountIn(block, from, from + size, x)
    ensures count <= size
    ensures size == 0 ==> count == 0
  {
    CountInBound(block, from, from + size, x);
    var remain: nat := size;
    var buf: nat := from;
    count := 0;
    while remain != 0
      invariant from <= buf <= from + size && remain == from + size - buf
      invariant count + CountIn(block, buf, from + size, x) == CountIn(block, from, from + size, x)
      decreases remain
    {
      var found := FindByte(block, buf, buf + remain, x);
      CountInAfterFind(block, buf, from + size, x);
      if found.None? {
        break;
      }
      count := count + 1;
      buf := found.value + 1;
      remain := size - (buf - from);
    }
  }
}
