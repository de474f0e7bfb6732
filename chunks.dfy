/** Reading a file in chunks, as the three programs do it. Each ReadFile call
    fills a buffer of FILE_BUFFER_SIZE bytes. 1brc and find_line keep the
    buffer in the second half of a region twice that size; after a block is
    handled, its tail from the last newline on is carried into the end of the
    first half, so that the next block, which starts at the carried bytes,
    sees the partial last line again in front of the newly read bytes. */
module Chunks {
  import opened Bytes
  import Memory

  /** MEGABYTES(5). */
  const FILE_BUFFER_SIZE: nat := 5 * 1024 * 1024

  /** The outcome of one ReadFile call. */
  datatype ReadResult = Read(bytes: seq<byte>) | ReadFailed

  /** The results of the ReadFile calls made by a loop that reads while fewer
      than fileSize bytes have been read, `parsed` bytes having been read
      already: every successful read returns at most FILE_BUFFER_SIZE bytes,
      and the trace ends with the first failure or with the read that brings
      the total to fileSize. */
  predicate IsReadTrace(trace: seq<ReadResult>, parsed: nat, fileSize: nat)
    decreases |trace|
  {
    |trace| > 0 &&
    match trace[0]
    case ReadFailed => |trace| == 1
    case Read(b) =>
      |b| <= FILE_BUFFER_SIZE &&
      if parsed + |b| >= fileSize then |trace| == 1
      else IsReadTrace(trace[1..], parsed + |b|, fileSize)
  }

  /** What IsReadTrace says about the read at i: a successful read returns at
      most FILE_BUFFER_SIZE bytes, and the trace goes on past i exactly when
      that read succeeds and leaves the total below fileSize. */
  lemma ReadTraceStep(trace: seq<ReadResult>, i: nat, parsed: nat, fileSize: nat)
    requires i < |trace| && IsReadTrace(trace[i..], parsed, fileSize)
    ensures trace[i].Read? ==> |trace[i].bytes| <= FILE_BUFFER_SIZE
    ensures trace[i].ReadFailed? ==> |trace| == i + 1
    ensures trace[i].Read? && parsed + |trace[i].bytes| >= fileSize ==> |trace| == i + 1
    ensures trace[i].Read? && parsed + |trace[i].bytes| < fileSize ==>
      i + 1 < |trace| && IsReadTrace(trace[i + 1..], parsed + |trace[i].bytes|, fileSize)
  {
    assert trace[i..][0] == trace[i];
    assert trace[i..][1..] == trace[i + 1..];
  }

  /** The trace goes on after a successful read at i that leaves the total
      below fileSize. */
  lemma ReadTraceNext(trace: seq<ReadResult>, i: nat, parsed: nat, fileSize: nat, bytes: seq<byte>,
                       next: nat, total: nat)
    requires i < |trace| && IsReadTrace(trace[i..], parsed, fileSize)
    requires trace[i] == Read(bytes) && next == i + 1 && total == parsed + |bytes| < fileSize
    ensures next < |trace| && IsReadTrace(trace[next..], total, fileSize)
  {
    ReadTraceStep(trace, i, parsed, fileSize);
  }

  /** A prefix as long as the trace is the trace. */
  lemma WholeTrace(trace: seq<ReadResult>, n: nat)
    requires n == |trace|
    ensures trace[..n] == trace
  {
  }

  /** All bytes returned by successful trace, in order. */
  function ReadBytes(trace: seq<ReadResult>): (r: seq<byte>)
  {
    if trace == [] then []
    else match trace[|trace| - 1]
      case ReadFailed => ReadBytes(trace[..|trace| - 1])
      case Read(b) => ReadBytes(trace[..|trace| - 1]) + b
  }

  /** The trace ends with a failed read. */
  predicate EndsInFailure(trace: seq<ReadResult>)
  {
    |trace| > 0 && trace[|trace| - 1].ReadFailed?
  }

  /** x, but no more than limit. */
  function Cap(x: nat, limit: nat): (r: nat)
    ensures r <= x && r <= limit && (r == x || r == limit)
  {
    if x > limit then limit else x
  }

  /** The value the block handlers return: the number of bytes from the last
      newline of m[start .. start + length) to its end, capped at
      overflowLength; 0 when there is no newline. */
  function LeftoverSize(m: seq<byte>, start: nat, length: nat, overflowLength: nat): (r: nat)
    requires start + length <= |m|
  {
    match RFindByte(m, start, start + length, NEWLINE)
    case None => 0
    case Some(n) => Cap(start + length - n, overflowLength)
  }

  /** The memory after the leftover copy: the first LeftoverSize bytes starting
      at the last newline are written to the end of the overflow region. */
  function Carried(m: seq<byte>, start: nat, length: nat, overflowStart: nat, overflowLength: nat): (r: seq<byte>)
    requires start + length <= |m| && overflowStart + overflowLength <= |m|
    ensures |r| == |m|
  {
    match RFindByte(m, start, start + length, NEWLINE)
    case None => m
    case Some(n) =>
      var size := Cap(start + length - n, overflowLength);
      Splice(m, overflowStart + overflowLength - size, m[n..n + size])
  }

  /** The leftover step that ends handle_block in 1brc and
      handle_block_match_whole_line in find_line. */
  method CarryLeftover(mem: array<byte>, start: nat, length: nat, overflowStart: nat, overflowLength: nat)
    returns (leftoverSize: nat)
    requires start + length <= mem.Length && overflowStart + overflowLength <= mem.Length
    modifies mem
    ensures leftoverSize == LeftoverSize(old(mem[..]), start, length, overflowLength)
    ensures mem[..] == Carried(old(mem[..]), start, length, overflowStart, overflowLength)
  {
    ghost var m := mem[..];
    leftoverSize := 0;
    var lastNewline := RFindByte(mem[..], start, start + length, NEWLINE);
    if lastNewline.Some? {
      leftoverSize := (start + length) - lastNewline.value;
      leftoverSize := if leftoverSize > overflowLength then overflowLength else leftoverSize;
      var at := overflowStart + overflowLength - leftoverSize;
      CarriedAt(m, start, length, overflowStart, overflowLength, lastNewline.value, leftoverSize, at);
      Memory.SzCopy(mem, at, mem, lastNewline.value, leftoverSize);
    }
  }

  /** Carried when the block has a newline at n, with the leftover size and
      the place it is written to given by name. */
  lemma CarriedAt(m: seq<byte>, start: nat, length: nat, overflowStart: nat, overflowLength: nat,
                  n: nat, size: nat, at: nat)
    requires start + length <= |m| && overflowStart + overflowLength <= |m|
    requires RFindByte(m, start, start + length, NEWLINE) == Some(n)
    requires size == Cap(start + length - n, overflowLength)
    requires at == overflowStart + overflowLength - size
    ensures size == LeftoverSize(m, start, length, overflowLength)
    ensures n + size <= |m| && at + size <= |m|
    ensures Carried(m, start, length, overflowStart, overflowLength) == Splice(m, at, m[n..n + size])
  {
    var c, s := Carried(m, start, length, overflowStart, overflowLength), Splice(m, at, m[n..n + size]);
    forall k | 0 <= k < |c| ensures c[k] == s[k] {
    }
    assert c == s;
  }

  /** The leftover is never longer than the block or the overflow region, and
      it is empty exactly when the block has no newline or the region is
      empty. */
  lemma LeftoverSizeBounds(m: seq<byte>, start: nat, length: nat, overflowLength: nat)
    requires start + length <= |m|
    ensures LeftoverSize(m, start, length, overflowLength) <= overflowLength
    ensures LeftoverSize(m, start, length, overflowLength) <= length
    ensures LeftoverSize(m, start, length, overflowLength) == 0 <==>
      overflowLength == 0 || forall k :: start <= k < start + length ==> m[k] != NEWLINE
  {
    RFindByteLast(m, start, start + length, NEWLINE);
    if RFindByte(m, start, start + length, NEWLINE).Some? {
      var n := RFindByte(m, start, start + length, NEWLINE).value;
      assert m[n] == NEWLINE;
    }
  }

  /** What the leftover copy does: when the block has a newline, the bytes
      starting at its last newline land in the last LeftoverSize bytes of the
      overflow region, the first of them being that newline when any byte is
      copied, and nothing else changes; without a newline nothing changes. */
  lemma CarriedWrites(m: seq<byte>, start: nat, length: nat, overflowStart: nat, overflowLength: nat)
    requires start + length <= |m| && overflowStart + overflowLength <= |m|
    ensures var size := LeftoverSize(m, start, length, overflowLength);
      var r := Carried(m, start, length, overflowStart, overflowLength);
      match RFindByte(m, start, start + length, NEWLINE)
      case None => r == m
      case Some(n) =>
        && r[overflowStart + overflowLength - size..overflowStart + overflowLength] == m[n..n + size]
        && (size > 0 ==> r[overflowStart + overflowLength - size] == NEWLINE)
        && forall k :: 0 <= k < |m| && !(overflowStart + overflowLength - size <= k < overflowStart + overflowLength) ==>
             r[k] == m[k]
  {
    match RFindByte(m, start, start + length, NEWLINE)
    case None =>
    case Some(n) =>
      var size := LeftoverSize(m, start, length, overflowLength);
      var at := overflowStart + overflowLength - size;
      var r := Carried(m, start, length, overflowStart, overflowLength);
      assert r == Splice(m, at, m[n..n + size]);
      assert r[at..at + size] == m[n..n + size];
      if size > 0 {
        assert r[at + 0] == m[n..n + size][0] == m[n];
      }
  }

  /** The leftover copy leaves every byte past the overflow region as it was. */
  lemma CarriedKeeps(m: seq<byte>, start: nat, length: nat, overflowStart: nat, overflowLength: nat,
                     lo: nat, hi: nat)
    requires start + length <= |m| && overflowStart + overflowLength <= lo <= hi <= |m|
    ensures Carried(m, start, length, overflowStart, overflowLength)[lo..hi] == m[lo..hi]
  {
    CarriedWrites(m, start, length, overflowStart, overflowLength);
    var r := Carried(m, start, length, overflowStart, overflowLength);
    forall k | lo <= k < hi ensures r[k] == m[k] {
    }
    assert r[lo..hi] == m[lo..hi];
  }

  /** The leftover of a block given as a sequence, for an overflow region of
      FILE_BUFFER_SIZE bytes: the bytes from its last newline on, at most
      FILE_BUFFER_SIZE of them. */
  function CarryOf(block: seq<byte>): (r: seq<byte>)
  {
    match RFindByte(block, 0, |block|, NEWLINE)
    case None => []
    case Some(n) => block[n..n + Cap(|block| - n, FILE_BUFFER_SIZE)]
  }

  /** A carried leftover is empty exactly when the block has no newline;
      otherwise it starts with the block's last newline, holds no other
      newline, and is the whole tail of the block unless that tail is longer
      than FILE_BUFFER_SIZE. */
  lemma CarryOfShape(block: seq<byte>)
    ensures CarryOf(block) == [] <==> forall k :: 0 <= k < |block| ==> block[k] != NEWLINE
    ensures CarryOf(block) != [] ==> CarryOf(block)[0] == NEWLINE
    ensures forall k :: 0 < k < |CarryOf(block)| ==> CarryOf(block)[k] != NEWLINE
    ensures |CarryOf(block)| <= FILE_BUFFER_SIZE
    ensures |block| - |CarryOf(block)| <= |block| && (|CarryOf(block)| < FILE_BUFFER_SIZE ==>
      block == block[..|block| - |CarryOf(block)|] + CarryOf(block))
  {
    RFindByteLast(block, 0, |block|, NEWLINE);
    match RFindByte(block, 0, |block|, NEWLINE)
    case None =>
    case Some(n) =>
      var c := CarryTail(block, n, Cap(|block| - n, FILE_BUFFER_SIZE));
  }

  /** CarryOfShape for a block whose last newline is at n. */
  lemma CarryTail(block: seq<byte>, n: nat, size: nat) returns (c: seq<byte>)
    requires n < |block| && block[n] == NEWLINE
    requires forall k :: n < k < |block| ==> block[k] != NEWLINE
    requires size == Cap(|block| - n, FILE_BUFFER_SIZE)
    ensures c == block[n..n + size]
    ensures 0 < |c| && c[0] == NEWLINE
    ensures forall k :: 0 < k < |c| ==> c[k] != NEWLINE
    ensures |c| < FILE_BUFFER_SIZE ==> block == block[..|block| - |c|] + c
  {
    c := block[n..n + size];
    assert c[0] == block[n];
    forall k | 0 < k < size ensures c[k] != NEWLINE {
      assert c[k] == block[n + k];
    }
    if size < FILE_BUFFER_SIZE {
      assert n + size == |block|;
      assert block == block[..n] + c;
    }
  }

  /** The last newline of a span, found in the span on its own, is the same
      byte. */
  lemma RFindByteShift(m: seq<byte>, lo: nat, hi: nat, x: byte)
    requires lo <= hi <= |m|
    ensures match RFindByte(m, lo, hi, x)
      case None => RFindByte(m[lo..hi], 0, |m[lo..hi]|, x).None?
      case Some(n) => RFindByte(m[lo..hi], 0, |m[lo..hi]|, x) == Some(n - lo)
  {
    var b := m[lo..hi];
    RFindByteLast(m, lo, hi, x);
    RFindByteLast(b, 0, |b|, x);
    assert forall k :: 0 <= k < hi - lo ==> b[k] == m[lo + k];
    var r, rb := RFindByte(m, lo, hi, x), RFindByte(b, 0, |b|, x);
    if r.Some? {
      assert b[r.value - lo] == x;
    }
    if rb.Some? {
      assert m[lo + rb.value] == x;
    }
  }

  /** The block handlers' leftover, with the block at m[start .. start +
      length) and the overflow region m[0 .. FILE_BUFFER_SIZE), leaves
      CarryOf(block) at the end of the overflow region. */
  lemma CarriedIsCarryOf(m: seq<byte>, start: nat, length: nat)
    requires start + length <= |m| && FILE_BUFFER_SIZE <= |m|
    ensures var size := LeftoverSize(m, start, length, FILE_BUFFER_SIZE);
      && size == |CarryOf(m[start..start + length])|
      && Carried(m, start, length, 0, FILE_BUFFER_SIZE)[FILE_BUFFER_SIZE - size..FILE_BUFFER_SIZE]
         == CarryOf(m[start..start + length])
  {
    match RFindByte(m, start, start + length, NEWLINE)
    case None =>
      RFindByteShift(m, start, start + length, NEWLINE);
    case Some(n) =>
      CarriedIsCarryOfAt(m, start, length, n, Cap(start + length - n, FILE_BUFFER_SIZE));
  }

  /** CarriedIsCarryOf when the block's last newline is at n. */
  lemma CarriedIsCarryOfAt(m: seq<byte>, start: nat, length: nat, n: nat, size: nat)
    requires start + length <= |m| && FILE_BUFFER_SIZE <= |m|
    requires RFindByte(m, start, start + length, NEWLINE) == Some(n)
    requires size == Cap(start + length - n, FILE_BUFFER_SIZE)
    ensures size == LeftoverSize(m, start, length, FILE_BUFFER_SIZE)
    ensures Carried(m, start, length, 0, FILE_BUFFER_SIZE)[FILE_BUFFER_SIZE - size..FILE_BUFFER_SIZE]
      == CarryOf(m[start..start + length])
    ensures size == |CarryOf(m[start..start + length])|
  {
    var at := FILE_BUFFER_SIZE - size;
    CarryOfSlice(m, start, start + length, n, size);
    var carry := m[n..n + size];
    CarriedAt(m, start, length, 0, FILE_BUFFER_SIZE, n, size, at);
    assert Carried(m, start, length, 0, FILE_BUFFER_SIZE) == Splice(m, at, carry);
    SpliceSlice(m, at, carry, FILE_BUFFER_SIZE);
  }

  /** CarryOf a block whose last newline is at j. */
  lemma CarryOfAt(block: seq<byte>, j: nat, size: nat)
    requires RFindByte(block, 0, |block|, NEWLINE) == Some(j)
    requires size == Cap(|block| - j, FILE_BUFFER_SIZE)
    ensures j + size <= |block| && CarryOf(block) == block[j..j + size]
  {
  }

  /** CarryOf a span of m whose last newline is at n. */
  lemma CarryOfSlice(m: seq<byte>, lo: nat, hi: nat, n: nat, size: nat)
    requires lo <= hi <= |m|
    requires RFindByte(m, lo, hi, NEWLINE) == Some(n)
    requires size == Cap(hi - n, FILE_BUFFER_SIZE)
    ensures CarryOf(m[lo..hi]) == m[n..n + size]
    ensures n + size <= hi
  {
    var block := m[lo..hi];
    RFindByteShift(m, lo, hi, NEWLINE);
    var j := n - lo;
    CarryOfAt(block, j, size);
    SliceOfSlice(m, lo, hi, j, j + size, n, n + size);
  }

  /** A slice of a slice of m is a slice of m. */
  lemma SliceOfSlice(m: seq<byte>, lo: nat, hi: nat, i: nat, j: nat, a: nat, b: nat)
    requires lo <= hi <= |m| && i <= j <= hi - lo
    requires a == lo + i && b == lo + j
    ensures m[lo..hi][i..j] == m[a..b]
  {
    var l, r := m[lo..hi][i..j], m[a..b];
    forall k | 0 <= k < j - i ensures l[k] == r[k] {
      assert l[k] == m[lo..hi][i + k] == m[a + k];
    }
    assert l == r;
  }

  /** ReadFile: the bytes read are stored at buffer[at ..]. */
  method Fill(buffer: array<byte>, at: nat, bytes: seq<byte>)
    requires at + |bytes| <= buffer.Length
    modifies buffer
    ensures buffer[..] == Splice(old(buffer[..]), at, bytes)
  {
    ghost var before := buffer[..];
    forall i | 0 <= i < |bytes| {
      buffer[at + i] := bytes[i];
    }
    SpliceByElement(before, at, bytes, buffer[..]);
  }

  /** The leftover in front of the next block after the trace so far. */
  function LastCarry(trace: seq<ReadResult>): (r: seq<byte>)
  {
    if trace == [] then []
    else match trace[|trace| - 1]
      case ReadFailed => LastCarry(trace[..|trace| - 1])
      case Read(b) => CarryOf(LastCarry(trace[..|trace| - 1]) + b)
  }

  /** The blocks the handlers of 1brc and find_line are given, one per
      successful read: the leftover carried from the previous block followed by
      the bytes just read. The first block has nothing carried. */
  function Stitched(trace: seq<ReadResult>): (r: seq<seq<byte>>)
  {
    if trace == [] then []
    else match trace[|trace| - 1]
      case ReadFailed => Stitched(trace[..|trace| - 1])
      case Read(b) => Stitched(trace[..|trace| - 1]) + [LastCarry(trace[..|trace| - 1]) + b]
  }

  /** A block made of a carried leftover followed by the bytes just read: the
      leftover is at most FILE_BUFFER_SIZE bytes, begins with a newline, and is
      empty in front of the first block. */
  predicate WellStitched(block: seq<byte>, bytes: seq<byte>, first: bool)
  {
    && |bytes| <= |block| <= |bytes| + FILE_BUFFER_SIZE
    && block[|block| - |bytes|..] == bytes
    && (first ==> |block| == |bytes|)
    && (|block| > |bytes| ==> block[0] == NEWLINE)
  }

  /** One block per successful read, each of the shape WellStitched. */
  lemma {:induction false} StitchedShape(trace: seq<ReadResult>)
    ensures |Stitched(trace)| == |SuccessfulReads(trace)|
    ensures forall i :: 0 <= i < |Stitched(trace)| ==>
      WellStitched(Stitched(trace)[i], SuccessfulReads(trace)[i], i == 0)
  {
    if trace != [] {
      var init := trace[..|trace| - 1];
      StitchedShape(init);
      match trace[|trace| - 1]
      case ReadFailed =>
      case Read(b) =>
        var carry := LastCarry(init);
        LastCarryShape(init);
        var blocks, bytes := Stitched(trace), SuccessfulReads(trace);
        assert blocks == Stitched(init) + [carry + b];
        assert bytes == SuccessfulReads(init) + [b];
        forall i | 0 <= i < |blocks| ensures WellStitched(blocks[i], bytes[i], i == 0) {
          if i < |Stitched(init)| {
            assert blocks[i] == Stitched(init)[i] && bytes[i] == SuccessfulReads(init)[i];
          } else {
            assert blocks[i] == carry + b && bytes[i] == b;
            assert (carry + b)[|carry|..] == b;
            if |carry| > 0 {
              assert (carry + b)[0] == carry[0];
            }
          }
        }
    }
  }

  /** The carried leftover is at most FILE_BUFFER_SIZE bytes, starts with a
      newline and is empty before the first block. */
  lemma {:induction false} LastCarryShape(trace: seq<ReadResult>)
    ensures |LastCarry(trace)| <= FILE_BUFFER_SIZE
    ensures LastCarry(trace) != [] ==> LastCarry(trace)[0] == NEWLINE
    ensures SuccessfulReads(trace) == [] ==> LastCarry(trace) == []
  {
    if trace != [] {
      var init := trace[..|trace| - 1];
      LastCarryShape(init);
      match trace[|trace| - 1]
      case ReadFailed =>
      case Read(b) => CarryOfShape(LastCarry(init) + b);
    }
  }

  /** The payloads of the successful trace, in order. */
  function SuccessfulReads(trace: seq<ReadResult>): (r: seq<seq<byte>>)
    ensures |r| <= |trace|
  {
    if trace == [] then []
    else match trace[|trace| - 1]
      case ReadFailed => SuccessfulReads(trace[..|trace| - 1])
      case Read(b) => SuccessfulReads(trace[..|trace| - 1]) + [b]
  }

  /** The trace functions, one read further on. */
  lemma TraceStep(trace: seq<ReadResult>, i: nat)
    requires i < |trace|
    ensures var p, q := trace[..i], trace[..i + 1];
      match trace[i]
      case ReadFailed =>
        && ReadBytes(q) == ReadBytes(p) && SuccessfulReads(q) == SuccessfulReads(p)
        && Stitched(q) == Stitched(p) && LastCarry(q) == LastCarry(p)
      case Read(b) =>
        && ReadBytes(q) == ReadBytes(p) + b && SuccessfulReads(q) == SuccessfulReads(p) + [b]
        && Stitched(q) == Stitched(p) + [LastCarry(p) + b] && LastCarry(q) == CarryOf(LastCarry(p) + b)
  {
    assert trace[..i + 1][..i] == trace[..i];
  }

  /** The block handed to a handler after a read into the second half of a
      region of 2 * FILE_BUFFER_SIZE bytes: the leftover in front of that half,
      then the bytes read. */
  lemma FilledBlock(m: seq<byte>, leftover: nat, bytes: seq<byte>)
    requires |m| == 2 * FILE_BUFFER_SIZE && leftover <= FILE_BUFFER_SIZE && |bytes| <= FILE_BUFFER_SIZE
    ensures Splice(m, FILE_BUFFER_SIZE, bytes)[FILE_BUFFER_SIZE - leftover..FILE_BUFFER_SIZE + |bytes|]
      == m[FILE_BUFFER_SIZE - leftover..FILE_BUFFER_SIZE] + bytes
  {
    var s := Splice(m, FILE_BUFFER_SIZE, bytes);
    var l, r := s[FILE_BUFFER_SIZE - leftover..FILE_BUFFER_SIZE + |bytes|], m[FILE_BUFFER_SIZE - leftover..FILE_BUFFER_SIZE] + bytes;
    forall k | 0 <= k < |l| ensures l[k] == r[k] {
      if k < leftover {
        assert l[k] == m[FILE_BUFFER_SIZE - leftover + k];
      } else {
        assert l[k] == bytes[k - leftover];
      }
    }
    assert l == r;
  }

  /** The blocks of a prefix of the trace are the first blocks of the whole
      trace. */
  lemma {:induction false} StitchedPrefix(trace: seq<ReadResult>, i: nat)
    requires i <= |trace|
    ensures |Stitched(trace[..i])| <= |Stitched(trace)|
    ensures forall k :: 0 <= k < |Stitched(trace[..i])| ==> Stitched(trace[..i])[k] == Stitched(trace)[k]
    decreases |trace| - i
  {
    if i < |trace| {
      StitchedPrefix(trace, i + 1);
      TraceStep(trace, i);
      if i + 1 == |trace| {
        assert trace[..i + 1] == trace;
      }
    } else {
      assert trace[..i] == trace;
    }
  }

  /** One block as a block handler saw it: the whole memory at the call, and the
      block's place in it. Bytes outside the block matter only to a 1brc key copy that
      runs past the block's end. */
  datatype Span = Span(m: seq<byte>, start: nat, end: nat)

  predicate ValidSpans(spans: seq<Span>)
  {
    forall k :: 0 <= k < |spans| ==> spans[k].start <= spans[k].end <= |spans[k].m|
  }

  /** The spans hold the first blocks of blocks, in order. */
  predicate BlocksOf(spans: seq<Span>, blocks: seq<seq<byte>>)
  {
    && ValidSpans(spans) && |spans| <= |blocks|
    && forall k :: 0 <= k < |spans| ==> spans[k].m[spans[k].start..spans[k].end] == blocks[k]
  }

  /** BlocksOf one block further on. */
  lemma BlocksOfAppend(spans: seq<Span>, span: Span, blocks: seq<seq<byte>>, block: seq<byte>)
    requires BlocksOf(spans, blocks) && |spans| == |blocks|
    requires span.start <= span.end <= |span.m| && span.m[span.start..span.end] == block
    ensures BlocksOf(spans + [span], blocks + [block])
  {
  }

  /** Blocks of the trace so far are blocks of the whole trace. */
  lemma BlocksOfTrace(spans: seq<Span>, trace: seq<ReadResult>, i: nat)
    requires i <= |trace| && BlocksOf(spans, Stitched(trace[..i]))
    ensures BlocksOf(spans, Stitched(trace))
  {
    StitchedPrefix(trace, i);
  }

  /** The spans after one more successful read at i. */
  lemma BlocksStep(trace: seq<ReadResult>, i: nat, spans: seq<Span>, span: Span)
    requires i < |trace| && trace[i].Read?
    requires BlocksOf(spans, Stitched(trace[..i])) && |spans| == |Stitched(trace[..i])|
    requires span.start <= span.end <= |span.m|
    requires span.m[span.start..span.end] == LastCarry(trace[..i]) + trace[i].bytes
    ensures BlocksOf(spans + [span], Stitched(trace[..i + 1])) && |spans + [span]| == |Stitched(trace[..i + 1])|
  {
    TraceStep(trace, i);
    BlocksOfAppend(spans, span, Stitched(trace[..i]), LastCarry(trace[..i]) + trace[i].bytes);
  }

  /** The leftover after one more successful read at i. */
  lemma CarryStep(trace: seq<ReadResult>, i: nat, span: Span, size: nat, window: seq<byte>)
    requires i < |trace| && trace[i].Read?
    requires span.start <= span.end <= |span.m|
    requires span.m[span.start..span.end] == LastCarry(trace[..i]) + trace[i].bytes
    requires size == |CarryOf(span.m[span.start..span.end])|
    requires window == CarryOf(span.m[span.start..span.end])
    ensures size == |LastCarry(trace[..i + 1])| && window == LastCarry(trace[..i + 1])
  {
    TraceStep(trace, i);
  }

  /** Where main puts a block in its 2 * FILE_BUFFER_SIZE bytes: the leftover
      ends at FILE_BUFFER_SIZE, so the block begins that far in front of it. */
  function PadOf(carry: seq<byte>): (r: nat)
    ensures |carry| <= FILE_BUFFER_SIZE ==> r + |carry| == FILE_BUFFER_SIZE
  {
    if |carry| <= FILE_BUFFER_SIZE then FILE_BUFFER_SIZE - |carry| else 0
  }

  /** A memory that holds the block carry + bytes at the place main puts it,
      and zeros in front of it. */
  function Layout(carry: seq<byte>, bytes: seq<byte>): (r: seq<byte>)
    ensures |r| == PadOf(carry) + |carry| + |bytes|
  {
    Zeros(PadOf(carry)) + carry + bytes
  }

  /** The layout holds the block where main puts it. */
  lemma LayoutSlice(carry: seq<byte>, bytes: seq<byte>)
    ensures Layout(carry, bytes)[PadOf(carry)..PadOf(carry) + |carry| + |bytes|] == carry + bytes
  {
    assert Layout(carry, bytes) == Zeros(PadOf(carry)) + (carry + bytes);
  }

  /** Each span begins where main puts its block: the leftover carried into
      it ends at FILE_BUFFER_SIZE. */
  predicate Placed(spans: seq<Span>, trace: seq<ReadResult>)
    requires |spans| == |Stitched(trace)|
    decreases |trace|
  {
    trace == [] ||
    var init := trace[..|trace| - 1];
    match trace[|trace| - 1]
    case ReadFailed => Placed(spans, init)
    case Read(b) =>
      var n := |spans| - 1;
      spans[n].start == PadOf(LastCarry(init)) && Placed(spans[..n], init)
  }

  /** A span placed where main puts it agrees with the layout of its block on
      all of the block. */
  lemma LayoutAgree(span: Span, carry: seq<byte>, bytes: seq<byte>)
    requires span.start <= span.end <= |span.m| && span.m[span.start..span.end] == carry + bytes
    requires span.start == PadOf(carry)
    ensures span.end == PadOf(carry) + |carry| + |bytes|
    ensures Agree(span.m, Layout(carry, bytes), span.start, span.end)
  {
    LayoutSlice(carry, bytes);
    SlicesAgree(span.m, Layout(carry, bytes), span.start, span.end);
  }

  /** Placed one successful read further on. */
  lemma PlacedRead(trace: seq<ReadResult>, i: nat, spans: seq<Span>, span: Span)
    requires i < |trace| && trace[i].Read?
    requires |spans| == |Stitched(trace[..i])| && Placed(spans, trace[..i])
    requires span.start == PadOf(LastCarry(trace[..i]))
    ensures |spans + [span]| == |Stitched(trace[..i + 1])| && Placed(spans + [span], trace[..i + 1])
  {
    TraceStep(trace, i);
    assert trace[..i + 1][..i] == trace[..i];
    assert (spans + [span])[..|spans|] == spans;
  }

  /** A failed read places nothing. */
  lemma PlacedFailed(trace: seq<ReadResult>, i: nat, spans: seq<Span>)
    requires i < |trace| && trace[i].ReadFailed?
    requires |spans| == |Stitched(trace[..i])| && Placed(spans, trace[..i])
    ensures |spans| == |Stitched(trace[..i + 1])| && Placed(spans, trace[..i + 1])
  {
    TraceStep(trace, i);
    assert trace[..i + 1][..i] == trace[..i];
  }

  /** What BlocksOf and Placed say about the last block of a trace that ends
      in a successful read, and about the blocks before it. */
  lemma BlocksOfLast(trace: seq<ReadResult>, spans: seq<Span>)
    requires trace != [] && trace[|trace| - 1].Read?
    requires BlocksOf(spans, Stitched(trace)) && |spans| == |Stitched(trace)| && Placed(spans, trace)
    ensures var init, n := trace[..|trace| - 1], |spans| - 1;
      && |spans| > 0 && |spans[..n]| == |Stitched(init)|
      && BlocksOf(spans[..n], Stitched(init)) && Placed(spans[..n], init)
      && spans[n].start == PadOf(LastCarry(init))
      && spans[n].start <= spans[n].end <= |spans[n].m|
      && spans[n].m[spans[n].start..spans[n].end] == LastCarry(init) + trace[|trace| - 1].bytes
  {
    var init := trace[..|trace| - 1];
    var n := |spans| - 1;
    assert Stitched(trace) == Stitched(init) + [LastCarry(init) + trace[|trace| - 1].bytes];
    assert spans[n].m[spans[n].start..spans[n].end] == Stitched(trace)[n];
    forall k | 0 <= k < n
      ensures spans[..n][k].m[spans[..n][k].start..spans[..n][k].end] == Stitched(init)[k]
    {
      assert spans[k].m[spans[k].start..spans[k].end] == Stitched(trace)[k];
    }
  }
}
