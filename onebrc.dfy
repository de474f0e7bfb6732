/** 1brc: reads `station;value` lines, where value is `-?D[D].D`, folds each
    value into the station table, then sorts the table and writes one line per
    named slot. handle_block scans one stitched block of the read buffer. */
module OneBrc {
  import opened Bytes
  import opened Chunks
  import opened Stations
  import Memory

  /** is_char_a_number, on the value of a (signed) char. */
  function IsCharANumber(c: int): bool
  {
    c >= DIGIT_ZERO && c <= DIGIT_NINE
  }

  /** Bytes of 128 and above read as negative chars, so no such byte passes
      for a digit. */
  lemma IsCharANumberDigits(b: byte)
    ensures IsCharANumber(SignedChar(b)) <==> DIGIT_ZERO <= b <= DIGIT_NINE
  {
  }

  /** `*p - '0'`. */
  function Digit(b: byte): int
  {
    SignedChar(b) - DIGIT_ZERO
  }

  /** The key as handle_block builds it: a zeroed KEY_SIZE buffer into which
      count bytes are copied from memory at from. Bytes past KEY_SIZE are not
      stored and bytes past the end of memory read as 0. */
  function KeyCopy(m: seq<byte>, from: nat, count: nat): (key: Key)
  {
    seq(KEY_SIZE, k requires 0 <= k < KEY_SIZE => if k < count && from + k < |m| then m[from + k] else 0)
  }

  /** The key holds the first CopiedLength(count) bytes at from, then zeros:
      a key shorter than KEY_SIZE is copied whole and zero-padded, a longer one
      is cut to KEY_SIZE bytes. */
  lemma KeyCopyShape(m: seq<byte>, from: nat, count: nat)
    requires from + CopiedLength(count) <= |m|
    ensures KeyCopy(m, from, count)[..CopiedLength(count)] == m[from..from + CopiedLength(count)]
    ensures KeyCopy(m, from, count)[CopiedLength(count)..] == Zeros(KEY_SIZE - CopiedLength(count))
  {
  }

  /** Where the key is copied from: the last newline before the semicolon, or
      the current position when there is none. */
  function KeyStart(m: seq<byte>, p: nat, semicolon: nat): (r: nat)
    requires p <= semicolon <= |m|
    ensures p <= r <= semicolon
  {
    match RFindByte(m, p, semicolon, NEWLINE)
    case None => p
    case Some(k) => k
  }

  /** One pass of handle_block's loop from position p: a record to fold in and
      the position after it, a stop, or the abort with exit code 4. */
  datatype Step = Parsed(obs: Obs, next: nat) | Stop | Malformed

  /** One pass of handle_block's loop, by position: the first semicolon in
      m[p .. end), the value after it if at least four bytes follow it, and
      the key before it. */
  function ScanStep(m: seq<byte>, p: nat, end: nat): (r: Step)
    requires p <= end <= |m|
    ensures r.Parsed? ==> p < r.next <= end
  {
    match FindByte(m, p, end, SEMICOLON)
    case None => Stop
    case Some(semicolon) =>
      if end - semicolon < 4 then Stop
      else
        match ValueAt(m, semicolon, end)
        case Short => Stop
        case Bad => Malformed
        case Value(temp, next) => Parsed(Obs(KeyCopy(m, KeyStart(m, p, semicolon), semicolon - p), temp), next)
  }

  /** A record takes at least four bytes: the semicolon, a digit, the point
      and the tenth digit. */
  lemma ScanStepAdvance(m: seq<byte>, p: nat, end: nat)
    requires p <= end <= |m|
    ensures ScanStep(m, p, end).Parsed? ==> p + 4 <= ScanStep(m, p, end).next
  {
  }

  /** The value after a semicolon: read, too short to read, or malformed. */
  datatype ValueStep = Value(temp: int, next: nat) | Short | Bad

  /** The value after the semicolon at position semicolon. working_len is
      end - semicolon there, then one less; the sign takes one more. The first
      digit does not reduce it, so it holds one more than the bytes left, and
      the `working_len < 3` test asks for the point and the last digit. The
      `working_len == 0` test after the sign cannot fire: at least two bytes
      remain there. */
  function ValueAt(m: seq<byte>, semicolon: nat, end: nat): (r: ValueStep)
    requires semicolon + 4 <= end <= |m|
    ensures r.Value? ==> semicolon + 4 <= r.next <= end
  {
    var negative := m[semicolon + 1] == MINUS;
    var first := if negative then semicolon + 2 else semicolon + 1;
    var two := IsCharANumber(SignedChar(m[first + 1]));
    var point := if two then first + 2 else first + 1;
    if end - point + 1 < 3 then Short
    else if m[point] != DOT then Bad
    else Value(Tenths(m, negative, first, two, point), point + 2)
  }

  /** The value parsed: the integer digits at first (two of them when two),
      the digit after the point, and the sign. */
  function Tenths(m: seq<byte>, negative: bool, first: nat, two: bool, point: nat): int
    requires first + 1 < |m| && point + 1 < |m|
  {
    var whole := if two then 10 * Digit(m[first]) + Digit(m[first + 1]) else Digit(m[first]);
    var tenths := 10 * whole + Digit(m[point + 1]);
    if negative then -tenths else tenths
  }

  /** A decimal digit. */
  predicate IsDigit(b: byte)
  {
    DIGIT_ZERO <= b <= DIGIT_NINE
  }

  /** The text of a reading `-?D[D].D`. */
  function ReadingText(negative: bool, digits: seq<byte>, tenth: byte): (r: seq<byte>)
    ensures |r| == (if negative then 1 else 0) + |digits| + 2
  {
    (if negative then [MINUS] else []) + digits + [DOT, tenth]
  }

  /** What a reading denotes in tenths: the sign times ten times its integer
      digits I plus its tenth digit F. */
  function Reading(negative: bool, digits: seq<byte>, tenth: byte): (r: int)
    requires 1 <= |digits| <= 2
    ensures (forall k :: 0 <= k < |digits| ==> IsDigit(digits[k])) && IsDigit(tenth) ==> -999 <= r <= 999
  {
    var whole := if |digits| == 1 then digits[0] - DIGIT_ZERO
                 else 10 * (digits[0] - DIGIT_ZERO) + (digits[1] - DIGIT_ZERO);
    var t := 10 * whole + (tenth - DIGIT_ZERO);
    if negative then -t else t
  }

  /** A well-formed reading right after the semicolon is read as what it
      denotes, and the scan resumes just past it. */
  lemma ValueAtReading(m: seq<byte>, semicolon: nat, end: nat, negative: bool, digits: seq<byte>, tenth: byte)
    requires 1 <= |digits| <= 2 && (forall k :: 0 <= k < |digits| ==> IsDigit(digits[k])) && IsDigit(tenth)
    requires semicolon + 1 + |ReadingText(negative, digits, tenth)| <= end <= |m|
    requires m[semicolon + 1..semicolon + 1 + |ReadingText(negative, digits, tenth)|] == ReadingText(negative, digits, tenth)
    ensures ValueAt(m, semicolon, end)
      == Value(Reading(negative, digits, tenth), semicolon + 1 + |ReadingText(negative, digits, tenth)|)
  {
    var text := ReadingText(negative, digits, tenth);
    var sign := if negative then 1 else 0;
    forall k | 0 <= k < |text|
      ensures m[semicolon + 1 + k] == text[k]
    {
      assert m[semicolon + 1..semicolon + 1 + |text|][k] == text[k];
    }
    assert m[semicolon + 1] == MINUS <==> negative by {
      if !negative {
        assert text[0] == digits[0];
      }
    }
    var first := semicolon + 1 + sign;
    assert m[first] == digits[0] by {
      assert text[sign] == digits[0];
    }
    IsCharANumberDigits(m[first + 1]);
    if |digits| == 2 {
      assert text[sign + 1] == digits[1] && text[sign + 2] == DOT && text[sign + 3] == tenth;
    } else {
      assert text[sign + 1] == DOT && text[sign + 2] == tenth;
    }
  }

  /** Anything but a point or a further digit where the point belongs, with
      room left for the point and the tenth digit, aborts the run. */
  lemma ValueAtMisplacedPoint(m: seq<byte>, semicolon: nat, end: nat, negative: bool, digits: seq<byte>, other: byte)
    requires 1 <= |digits| <= 2 && (forall k :: 0 <= k < |digits| ==> IsDigit(digits[k]))
    requires other != DOT && (|digits| == 1 ==> !IsDigit(other))
    requires semicolon + (if negative then 1 else 0) + |digits| + 3 <= end <= |m|
    requires m[semicolon + 1..semicolon + (if negative then 1 else 0) + |digits| + 2]
      == (if negative then [MINUS] else []) + digits + [other]
    ensures ValueAt(m, semicolon, end) == Bad
  {
    var sign := if negative then 1 else 0;
    var text := (if negative then [MINUS] else []) + digits + [other];
    forall k | 0 <= k < |text|
      ensures m[semicolon + 1 + k] == text[k]
    {
      assert m[semicolon + 1..semicolon + 1 + |text|][k] == text[k];
    }
    assert m[semicolon + 1] == MINUS <==> negative by {
      if !negative {
        assert text[0] == digits[0];
      }
    }
    var first := semicolon + 1 + sign;
    IsCharANumberDigits(m[first + 1]);
    if |digits| == 2 {
      assert text[sign + 1] == digits[1] && text[sign + 2] == other;
    } else {
      assert text[sign + 1] == other;
    }
  }

  /** What handle_block's loop parses from position p on: the measurements in
      order, and whether it ends in the exit(4) abort. */
  datatype Scan = Scan(obs: seq<Obs>, malformed: bool)

  /** handle_block's loop from position p to end. Every record takes at least
      four bytes from its semicolon on (`;D.D`), so the loop parses at most a
      quarter as many records as there are bytes. */
  function ScanFrom(m: seq<byte>, p: nat, end: nat): (r: Scan)
    requires p <= end <= |m|
    ensures 4 * |r.obs| <= end - p
    decreases end - p
  {
    match ScanStep(m, p, end)
    case Stop => Scan([], false)
    case Malformed => Scan([], true)
    case Parsed(o, next) =>
      ScanStepAdvance(m, p, end);
      var rest := ScanFrom(m, next, end);
      Scan([o] + rest.obs, rest.malformed)
  }

  /** The key buffer of one pass: `char key[KEY_SIZE] = {0}` and the copy into
      it. */
  method CopyKey(m: seq<byte>, from: nat, count: nat) returns (key: Key)
    requires from <= |m|
    ensures key == KeyCopy(m, from, count)
  {
    var buffer := new byte[KEY_SIZE](_ => 0);
    var n := if count > KEY_SIZE then KEY_SIZE else count;
    n := if from + n > |m| then |m| - from else n;
    forall i | 0 <= i < n {
      buffer[i] := m[from + i];
    }
    key := buffer[..];
  }

  /** What handle_block returns: the leftover size, or the process exits with
      code 4. */
  datatype BlockResult = Leftover(size: nat) | Aborted

  /** handle_block: parses the block m[start .. start + length), folding every
      measurement into records, then carries its tail into the end of the
      overflow region. */
  method HandleBlock(mem: array<byte>, start: nat, length: nat, overflowStart: nat, overflowLength: nat,
                     records: array<Record>, hash: seq<byte> -> nat)
    returns (result: BlockResult)
    requires start + length <= mem.Length && overflowStart + overflowLength <= mem.Length
    requires records.Length == STATION_COUNT
    modifies mem, records
    ensures var scan := ScanFrom(old(mem[..]), start, start + length);
      && records[..] == ApplyAll(old(records[..]), scan.obs, hash)
      && (scan.malformed ==> result == Aborted && mem[..] == old(mem[..]))
      && (!scan.malformed ==>
            && result == Leftover(LeftoverSize(old(mem[..]), start, length, overflowLength))
            && mem[..] == Carried(old(mem[..]), start, length, overflowStart, overflowLength))
  {
    var m := mem[..];
    var malformed := ScanBlock(m, start, start + length, records, hash);
    if malformed {
      return Aborted;
    }
    assert mem[..] == m;
    var size := CarryLeftover(mem, start, length, overflowStart, overflowLength);
    result := Leftover(size);
  }

  /** handle_block's loop over m[start .. end): every measurement is folded
      into records until the loop stops, or meets a malformed value.
      working_len is carried from one pass to the next, and each pass leaves
      it at the number of bytes between the new position and the end. */
  method ScanBlock(m: seq<byte>, start: nat, end: nat, records: array<Record>, hash: seq<byte> -> nat)
    returns (malformed: bool)
    requires start <= end <= |m| && records.Length == STATION_COUNT
    modifies records
    ensures records[..] == ApplyAll(old(records[..]), ScanFrom(m, start, end).obs, hash)
    ensures malformed == ScanFrom(m, start, end).malformed
  {
    ghost var table := records[..];
    ghost var done: seq<Obs> := [];
    var currentPos := start;
    var workingLen := end - start;
    while true
      invariant start <= currentPos <= end
      invariant workingLen == end - currentPos
      invariant records[..] == ApplyAll(table, done, hash)
      invariant ScanFrom(m, start, end) ==
        Scan(done + ScanFrom(m, currentPos, end).obs, ScanFrom(m, currentPos, end).malformed)
      decreases end - currentPos
    {
      var step, nextLen := ParseLine(m, currentPos, end, workingLen);
      ScanFromStep(m, currentPos, end, step);
      match step
      case Stop =>
        assert done + [] == done;
        return false;
      case Malformed =>
        assert done + [] == done;
        return true;
      case Parsed(o, next) =>
        ApplyAllAppend(table, done, o, hash);
        UpdateSlot(records, o.key, o.temp, hash);
        ScanFromAdvance(m, start, currentPos, end, done, o, next);
        done := done + [o];
        currentPos := next;
        workingLen := nextLen;
    }
  }

  /** One pass of handle_block's loop from p, with working_len equal to
      end - p on entry: the measurement and the position after it, or the
      stop, or the abort. After a record, working_len is again the number of
      bytes from the new position to the end. */
  method ParseLine(m: seq<byte>, p: nat, end: nat, workingLen: nat) returns (step: Step, nextLen: nat)
    requires p <= end <= |m| && workingLen == end - p
    ensures step == ScanStep(m, p, end)
    ensures step.Parsed? ==> nextLen == end - step.next
  {
    var currentPos := p;
    nextLen := workingLen;
    var semicolon := FindByte(m, currentPos, currentPos + nextLen, SEMICOLON);
    if semicolon.None? {
      return Stop, nextLen;
    }
    nextLen := nextLen - (semicolon.value - currentPos);
    if nextLen < 4 {
      return Stop, nextLen;
    }
    nextLen := nextLen - 1;
    var keyStart := RFindByte(m, currentPos, semicolon.value, NEWLINE);
    var from := if keyStart.None? then currentPos else keyStart.value;
    var key := CopyKey(m, from, semicolon.value - currentPos);
    var value;
    value, nextLen := ReadValue(m, semicolon.value, end, nextLen);
    match value
    case Short =>
      return Stop, nextLen;
    case Bad =>
      return Malformed, nextLen;
    case Value(temp, next) =>
      return Parsed(Obs(key, temp), next), nextLen;
  }

  /** The value part of one pass, from the semicolon on, with working_len
      counted down as handle_block does: on entry it is the number of bytes
      after the semicolon, and after a value, the number of bytes after it. */
  method ReadValue(m: seq<byte>, semicolon: nat, end: nat, workingLen: nat) returns (value: ValueStep, nextLen: nat)
    requires semicolon + 4 <= end <= |m| && workingLen == end - (semicolon + 1)
    ensures value == ValueAt(m, semicolon, end)
    ensures value.Value? ==> nextLen == end - value.next
  {
    nextLen := workingLen;
    var currentPos := semicolon + 1;
    var negative := false;
    if m[currentPos] == MINUS {
      negative := true;
      currentPos := currentPos + 1;
      nextLen := nextLen - 1;
    }
    if nextLen == 0 {
      return Short, nextLen;
    }
    ghost var first := currentPos;
    var temp := Digit(m[currentPos]);
    currentPos := currentPos + 1;
    ghost var two := IsCharANumber(SignedChar(m[currentPos]));
    if IsCharANumber(SignedChar(m[currentPos])) {
      temp := temp * 10 + Digit(m[currentPos]);
      currentPos := currentPos + 1;
      nextLen := nextLen - 1;
    }
    if nextLen < 3 {
      return Short, nextLen;
    }
    if m[currentPos] != DOT {
      return Bad, nextLen;
    }
    ghost var point := currentPos;
    currentPos := currentPos + 1;
    temp := 10 * temp + Digit(m[currentPos]);
    currentPos := currentPos + 1;
    if negative {
      temp := -temp;
    }
    nextLen := nextLen - 3;
    assert temp == Tenths(m, negative, first, two, point);
    value := Value(temp, currentPos);
  }

  /** The loop invariant of handle_block carried past one parsed record. */
  lemma ScanFromAdvance(m: seq<byte>, start: nat, p: nat, end: nat, done: seq<Obs>, o: Obs, next: nat)
    requires start <= p <= end <= |m|
    requires ScanFrom(m, start, end) == Scan(done + ScanFrom(m, p, end).obs, ScanFrom(m, p, end).malformed)
    requires ScanStep(m, p, end) == Parsed(o, next)
    ensures ScanFrom(m, start, end) == Scan((done + [o]) + ScanFrom(m, next, end).obs, ScanFrom(m, next, end).malformed)
  {
    assert done + ([o] + ScanFrom(m, next, end).obs) == (done + [o]) + ScanFrom(m, next, end).obs;
  }

  /** ScanFrom after one step. */
  lemma ScanFromStep(m: seq<byte>, p: nat, end: nat, step: Step)
    requires p <= end <= |m| && step == ScanStep(m, p, end)
    ensures step.Stop? ==> ScanFrom(m, p, end) == Scan([], false)
    ensures step.Malformed? ==> ScanFrom(m, p, end) == Scan([], true)
    ensures step.Parsed? ==>
      ScanFrom(m, p, end) == Scan([step.obs] + ScanFrom(m, step.next, end).obs, ScanFrom(m, step.next, end).malformed)
  {
  }

  /** The end of one pass: the slot of the key is updated with temp, and
      named by the key if its first key byte is 0. */
  method UpdateSlot(records: array<Record>, key: Key, temp: int, hash: seq<byte> -> nat)
    requires records.Length == STATION_COUNT
    modifies records
    ensures records[..] == Absorb(old(records[..]), Obs(key, temp), hash)
  {
    var index := SlotIndex(hash, key);
    UpdateRecord(records, index, temp);
    if records[index].key[0] == 0 {
      records[index] := records[index].(key := key);
    }
  }

  /** The measurements of the blocks handled, one block after the other, up
      to the first malformed value. */
  function ScanSpans(spans: seq<Span>): (r: Scan)
    requires ValidSpans(spans)
  {
    if spans == [] then Scan([], false)
    else
      var before := ScanSpans(spans[..|spans| - 1]);
      var last := spans[|spans| - 1];
      if before.malformed then before
      else
        var scan := ScanFrom(last.m, last.start, last.end);
        Scan(before.obs + scan.obs, scan.malformed)
  }

  /** ScanSpans of the blocks handled, by its last block. */
  lemma ScanSpansLast(spans: seq<Span>)
    requires ValidSpans(spans) && spans != []
    ensures var n := |spans| - 1;
      ScanSpans(spans) ==
        var before := ScanSpans(spans[..n]);
        if before.malformed then before
        else
          var scan := ScanFrom(spans[n].m, spans[n].start, spans[n].end);
          Scan(before.obs + scan.obs, scan.malformed)
  {
  }

  /** ScanSpans one block further on. */
  lemma ScanSpansAppend(spans: seq<Span>, span: Span)
    requires ValidSpans(spans) && span.start <= span.end <= |span.m|
    requires !ScanSpans(spans).malformed
    ensures ValidSpans(spans + [span])
    ensures var scan := ScanFrom(span.m, span.start, span.end);
      ScanSpans(spans + [span]) == Scan(ScanSpans(spans).obs + scan.obs, scan.malformed)
  {
    assert (spans + [span])[..|spans|] == spans;
  }

  /** The number of bytes a key copy takes: count, up to KEY_SIZE. */
  function CopiedLength(count: nat): nat
  {
    if count < KEY_SIZE then count else KEY_SIZE
  }

  /** Every key handle_block copies from m[p .. end) lies inside it. The copy
      takes semicolon - p bytes from the key start, so when the key start is a
      newline after p the copy runs past the semicolon, and may run past the
      end of the block into whatever memory follows it. */
  predicate KeysInside(m: seq<byte>, p: nat, end: nat)
    requires p <= end <= |m|
    decreases end - p
  {
    match FindByte(m, p, end, SEMICOLON)
    case None => true
    case Some(semicolon) =>
      match ScanStep(m, p, end)
      case Parsed(_, next) =>
        KeyStart(m, p, semicolon) + CopiedLength(semicolon - p) <= end && KeysInside(m, next, end)
      case _ => true
  }

  /** The value after a semicolon is read from the bytes after it up to end
      alone. */
  lemma ValueAtAgree(m: seq<byte>, n: seq<byte>, semicolon: nat, end: nat)
    requires semicolon + 4 <= end && Agree(m, n, semicolon + 1, end)
    ensures ValueAt(m, semicolon, end) == ValueAt(n, semicolon, end)
  {
    forall k | semicolon + 1 <= k < end
      ensures m[k] == n[k]
    {
      AgreeAt(m, n, semicolon + 1, end, k);
    }
  }

  /** A key copied from inside [lo, hi) is the same in memories that agree
      there. */
  lemma KeyCopyAgree(m: seq<byte>, n: seq<byte>, lo: nat, hi: nat, from: nat, count: nat)
    requires Agree(m, n, lo, hi) && lo <= from && from + CopiedLength(count) <= hi
    ensures KeyCopy(m, from, count) == KeyCopy(n, from, count)
  {
    forall k | 0 <= k < KEY_SIZE
      ensures KeyCopy(m, from, count)[k] == KeyCopy(n, from, count)[k]
    {
      if k < count {
        AgreeAt(m, n, lo, hi, from + k);
      }
    }
  }

  /** One pass reads nothing outside the block, as long as its key lies
      inside it. */
  lemma ScanStepAgree(m: seq<byte>, n: seq<byte>, p: nat, end: nat)
    requires Agree(m, n, p, end) && KeysInside(n, p, end)
    ensures ScanStep(m, p, end) == ScanStep(n, p, end)
  {
    FindByteAgree(m, n, p, end, SEMICOLON);
    match FindByte(m, p, end, SEMICOLON)
    case None =>
    case Some(semicolon) =>
      if end - semicolon >= 4 {
        AgreeWithin(m, n, p, end, semicolon + 1, end);
        ValueAtAgree(m, n, semicolon, end);
        if ValueAt(n, semicolon, end).Value? {
          AgreeWithin(m, n, p, end, p, semicolon);
          RFindByteAgree(m, n, p, semicolon, NEWLINE);
          KeyCopyAgree(m, n, p, end, KeyStart(n, p, semicolon), semicolon - p);
        }
      }
  }

  /** handle_block's loop reads nothing outside its block, as long as every
      key it copies lies inside it. */
  lemma {:induction false} ScanFromAgree(m: seq<byte>, n: seq<byte>, p: nat, end: nat)
    requires Agree(m, n, p, end) && KeysInside(n, p, end)
    ensures ScanFrom(m, p, end) == ScanFrom(n, p, end)
    decreases end - p
  {
    ScanStepAgree(m, n, p, end);
    match ScanStep(n, p, end)
    case Parsed(_, next) =>
      AgreeWithin(m, n, p, end, next, end);
      ScanFromAgree(m, n, next, end);
    case _ =>
  }

  /** The body of main's read loop after a successful read: the bytes read
      land in the second half of mem, and the block handed to handle_block is
      the leftover in front of them followed by them. */
  method HandleRead(mem: array<byte>, leftoverBlockSize: nat, bytesRead: seq<byte>,
                    records: array<Record>, hash: seq<byte> -> nat)
    returns (r: BlockResult, ghost span: Span)
    requires mem.Length == 2 * FILE_BUFFER_SIZE && records.Length == STATION_COUNT
    requires leftoverBlockSize <= FILE_BUFFER_SIZE && |bytesRead| <= FILE_BUFFER_SIZE
    modifies mem, records
    ensures span.start == FILE_BUFFER_SIZE - leftoverBlockSize && span.start <= span.end <= |span.m|
    ensures span.m[span.start..span.end] == old(mem[FILE_BUFFER_SIZE - leftoverBlockSize..FILE_BUFFER_SIZE]) + bytesRead
    ensures var scan := ScanFrom(span.m, span.start, span.end);
      && records[..] == ApplyAll(old(records[..]), scan.obs, hash)
      && (r.Aborted? <==> scan.malformed)
    ensures r.Leftover? ==>
      && r.size <= FILE_BUFFER_SIZE
      && r.size == |CarryOf(span.m[span.start..span.end])|
      && mem[FILE_BUFFER_SIZE - r.size..FILE_BUFFER_SIZE] == CarryOf(span.m[span.start..span.end])
  {
    ghost var before := mem[..];
    Fill(mem, FILE_BUFFER_SIZE, bytesRead);
    var start := FILE_BUFFER_SIZE - leftoverBlockSize;
    var length := |bytesRead| + leftoverBlockSize;
    ghost var snap := mem[..];
    FilledBlock(before, leftoverBlockSize, bytesRead);
    span := Span(snap, start, start + length);
    r := HandleBlock(mem, start, length, 0, FILE_BUFFER_SIZE, records, hash);
    if r.Leftover? {
      CarriedIsCarryOf(snap, start, length);
      LeftoverSizeBounds(snap, start, length, FILE_BUFFER_SIZE);
    }
  }

  /** The table after one more block, in terms of ScanSpans. */
  lemma TallyStep(spans: seq<Span>, span: Span, before: seq<Record>, after: seq<Record>, hash: seq<byte> -> nat)
    requires ValidSpans(spans) && span.start <= span.end <= |span.m|
    requires !ScanSpans(spans).malformed
    requires before == ApplyAll(InitialTable(), ScanSpans(spans).obs, hash)
    requires after == ApplyAll(before, ScanFrom(span.m, span.start, span.end).obs, hash)
    ensures ValidSpans(spans + [span])
    ensures ScanSpans(spans + [span]).malformed == ScanFrom(span.m, span.start, span.end).malformed
    ensures after == ApplyAll(InitialTable(), ScanSpans(spans + [span]).obs, hash)
  {
    ScanSpansAppend(spans, span);
    ApplyAllConcat(InitialTable(), ScanSpans(spans).obs, ScanFrom(span.m, span.start, span.end).obs, hash);
  }

  /** One successful read of main's loop, in terms of the trace: the blocks
      handled, the table, and the leftover carried after it. */
  lemma ReadStep(trace: seq<ReadResult>, i: nat, spans: seq<Span>, span: Span, before: seq<Record>,
                 after: seq<Record>, hash: seq<byte> -> nat, r: BlockResult)
    requires i < |trace| && trace[i].Read?
    requires BlocksOf(spans, Stitched(trace[..i])) && |spans| == |Stitched(trace[..i])|
    requires span.start <= span.end <= |span.m|
    requires span.m[span.start..span.end] == LastCarry(trace[..i]) + trace[i].bytes
    requires !ScanSpans(spans).malformed
    requires before == ApplyAll(InitialTable(), ScanSpans(spans).obs, hash)
    requires after == ApplyAll(before, ScanFrom(span.m, span.start, span.end).obs, hash)
    requires r.Aborted? <==> ScanFrom(span.m, span.start, span.end).malformed
    ensures BlocksOf(spans + [span], Stitched(trace[..i + 1])) && |spans + [span]| == |Stitched(trace[..i + 1])|
    ensures ScanSpans(spans + [span]).malformed <==> r.Aborted?
    ensures after == ApplyAll(InitialTable(), ScanSpans(spans + [span]).obs, hash)
  {
    TallyStep(spans, span, before, after, hash);
    BlocksStep(trace, i, spans, span);
  }

  /** A failed read ends main's loop with the blocks handled so far. */
  lemma FailedReadEnds(trace: seq<ReadResult>, i: nat, parsed: nat, fileSize: nat, spans: seq<Span>)
    requires i < |trace| && IsReadTrace(trace[i..], parsed, fileSize) && trace[i].ReadFailed?
    requires BlocksOf(spans, Stitched(trace[..i])) && |spans| == |Stitched(trace[..i])| && Placed(spans, trace[..i])
    ensures BlocksOf(spans, Stitched(trace)) && |spans| == |Stitched(trace)|
    ensures KeysInBlocks(trace) ==> ScanSpans(spans) == StitchedScan(trace)
  {
    ReadTraceStep(trace, i, parsed, fileSize);
    TraceStep(trace, i);
    WholeTrace(trace, i + 1);
    PlacedFailed(trace, i, spans);
    SpansScanTrace(trace, i + 1, spans);
  }

  /** The rest of one pass of main's loop after a successful read at i: the
      block handled is the next stitched block and the table folds in its
      records. Unless the block aborts, the loop either ends at the file size
      with every block of the trace handled, or goes on at nextI with the
      trace's leftover under the read buffer. */
  method ReadNext(mem: array<byte>, records: array<Record>, trace: seq<ReadResult>, i: nat, parsed: nat,
                  fileSize: nat, leftoverBlockSize: nat, ghost spans: seq<Span>, hash: seq<byte> -> nat)
    returns (r: BlockResult, ghost next: seq<Span>, nextI: nat, nextParsed: nat)
    requires mem.Length == 2 * FILE_BUFFER_SIZE && records.Length == STATION_COUNT
    requires leftoverBlockSize <= FILE_BUFFER_SIZE
    requires i < |trace| && IsReadTrace(trace[i..], parsed, fileSize) && trace[i].Read?
    requires leftoverBlockSize == |LastCarry(trace[..i])|
    requires mem[FILE_BUFFER_SIZE - leftoverBlockSize..FILE_BUFFER_SIZE] == LastCarry(trace[..i])
    requires BlocksOf(spans, Stitched(trace[..i])) && |spans| == |Stitched(trace[..i])| && Placed(spans, trace[..i])
    requires !ScanSpans(spans).malformed
    requires records[..] == ApplyAll(InitialTable(), ScanSpans(spans).obs, hash)
    modifies mem, records
    ensures nextI == i + 1 && nextParsed == parsed + |trace[i].bytes|
    ensures BlocksOf(next, Stitched(trace))
    ensures BlocksOf(next, Stitched(trace[..nextI])) && |next| == |Stitched(trace[..nextI])| && Placed(next, trace[..nextI])
    ensures records[..] == ApplyAll(InitialTable(), ScanSpans(next).obs, hash)
    ensures ScanSpans(next).malformed <==> r.Aborted?
    ensures r.Leftover? ==> r.size <= FILE_BUFFER_SIZE
    ensures r.Leftover? && nextParsed >= fileSize ==> |next| == |Stitched(trace)|
    ensures r.Aborted? || nextParsed >= fileSize ==> KeysInBlocks(trace) ==> ScanSpans(next) == StitchedScan(trace)
    ensures r.Leftover? && nextParsed < fileSize ==>
      && nextI < |trace| && IsReadTrace(trace[nextI..], nextParsed, fileSize)
      && r.size == |LastCarry(trace[..nextI])|
      && mem[FILE_BUFFER_SIZE - r.size..FILE_BUFFER_SIZE] == LastCarry(trace[..nextI])
  {
    ReadTraceStep(trace, i, parsed, fileSize);
    ghost var tableBefore := records[..];
    ghost var span;
    r, span := HandleRead(mem, leftoverBlockSize, trace[i].bytes, records, hash);
    ReadStep(trace, i, spans, span, tableBefore, records[..], hash, r);
    PlacedRead(trace, i, spans, span);
    next := spans + [span];
    nextI := i + 1;
    nextParsed := parsed + |trace[i].bytes|;
    BlocksOfTrace(next, trace, nextI);
    if r.Aborted? {
      SpansScanTrace(trace, nextI, next);
    }
    if r.Leftover? {
      CarryStep(trace, i, span, r.size, mem[FILE_BUFFER_SIZE - r.size..FILE_BUFFER_SIZE]);
      if nextParsed >= fileSize {
        WholeTrace(trace, nextI);
        SpansScanTrace(trace, nextI, next);
      } else {
        ReadTraceNext(trace, i, parsed, fileSize, trace[i].bytes, nextI, nextParsed);
      }
    }
  }

  /** What handle_block parses over a whole trace, from the reads alone: each
      stitched block is scanned where main puts it, the leftover ending at
      FILE_BUFFER_SIZE, until a block aborts. */
  function StitchedScan(trace: seq<ReadResult>): (r: Scan)
    decreases |trace|
  {
    if trace == [] then Scan([], false)
    else
      var init := trace[..|trace| - 1];
      var before := StitchedScan(init);
      match trace[|trace| - 1]
      case ReadFailed => before
      case Read(b) =>
        if before.malformed then before
        else
          var scan := BlockScan(LastCarry(init), b);
          Scan(before.obs + scan.obs, scan.malformed)
  }

  /** What handle_block parses from the block carry + b where main puts it. */
  function BlockScan(carry: seq<byte>, b: seq<byte>): Scan
  {
    ScanFrom(Layout(carry, b), PadOf(carry), PadOf(carry) + |carry| + |b|)
  }

  /** Every key copied from every stitched block, where main puts it, lies
      inside that block. */
  predicate KeysInBlocks(trace: seq<ReadResult>)
    decreases |trace|
  {
    trace == [] ||
    var init := trace[..|trace| - 1];
    && KeysInBlocks(init)
    && match trace[|trace| - 1]
       case ReadFailed => true
       case Read(b) =>
         BlockKeysInside(LastCarry(init), b)
  }

  /** Every key copied from the block carry + b, where main puts it, lies
      inside the block. */
  predicate BlockKeysInside(carry: seq<byte>, b: seq<byte>)
  {
    KeysInside(Layout(carry, b), PadOf(carry), PadOf(carry) + |carry| + |b|)
  }

  /** StitchedScan one successful read further on. */
  lemma StitchedScanRead(trace: seq<ReadResult>, init: seq<ReadResult>, b: seq<byte>, carry: seq<byte>, start: nat, end: nat)
    requires trace == init + [Read(b)]
    requires carry == LastCarry(init) && start == PadOf(carry) && end == start + |carry| + |b|
    ensures end <= |Layout(carry, b)|
    ensures StitchedScan(trace) ==
      var before := StitchedScan(init);
      if before.malformed then before
      else
        var scan := BlockScan(carry, b);
        Scan(before.obs + scan.obs, scan.malformed)
  {
    assert trace[..|trace| - 1] == init;
  }

  /** KeysInBlocks one successful read further on. */
  lemma KeysInBlocksRead(trace: seq<ReadResult>, init: seq<ReadResult>, b: seq<byte>, carry: seq<byte>, start: nat, end: nat)
    requires trace == init + [Read(b)]
    requires carry == LastCarry(init) && start == PadOf(carry) && end == start + |carry| + |b|
    ensures end <= |Layout(carry, b)|
    ensures KeysInBlocks(trace) <==> KeysInBlocks(init) && BlockKeysInside(carry, b)
  {
    assert trace[..|trace| - 1] == init;
  }

  /** A block main handles scans as the layout of the block does, as long as
      its keys lie inside it. */
  lemma BlockScanInLayout(m: seq<byte>, start: nat, end: nat, carry: seq<byte>, b: seq<byte>)
    requires start <= end <= |m| && m[start..end] == carry + b && start == PadOf(carry)
    requires end == start + |carry| + |b| && BlockKeysInside(carry, b)
    ensures ScanFrom(m, start, end) == BlockScan(carry, b)
  {
    var n := Layout(carry, b);
    LayoutSlice(carry, b);
    assert end == PadOf(carry) + |carry| + |b|;
    SlicesAgree(m, n, start, end);
    ScanFromAgree(m, n, start, end);
  }

  /** What main parses from the blocks it handles is what StitchedScan
      parses, when every key lies inside its block: the table depends on the
      trace alone and not on the bytes left in memory around each block. */
  lemma {:induction false} ScanSpansStitched(trace: seq<ReadResult>, spans: seq<Span>)
    requires BlocksOf(spans, Stitched(trace)) && |spans| == |Stitched(trace)| && Placed(spans, trace)
    requires KeysInBlocks(trace)
    ensures ScanSpans(spans) == StitchedScan(trace)
    decreases |trace|
  {
    if trace != [] {
      var init := trace[..|trace| - 1];
      match trace[|trace| - 1]
      case ReadFailed =>
        ScanSpansStitched(init, spans);
      case Read(b) =>
        var n := |spans| - 1;
        var carry := LastCarry(init);
        var sp := spans[n];
        BlocksOfLast(trace, spans);
        assert trace == init + [Read(b)];
        StitchedScanRead(trace, init, b, carry, sp.start, sp.end);
        KeysInBlocksRead(trace, init, b, carry, sp.start, sp.end);
        ScanSpansStitched(init, spans[..n]);
        BlockScanInLayout(sp.m, sp.start, sp.end, carry, b);
        ScanSpansLast(spans);
    }
  }

  /** Nothing is parsed after a block aborts. */
  lemma {:induction false} StitchedScanPrefix(trace: seq<ReadResult>, j: nat)
    requires j <= |trace| && StitchedScan(trace[..j]).malformed
    ensures StitchedScan(trace) == StitchedScan(trace[..j])
    decreases |trace|
  {
    if j == |trace| {
      assert trace[..j] == trace;
    } else {
      var init := trace[..|trace| - 1];
      assert init[..j] == trace[..j];
      StitchedScanPrefix(init, j);
    }
  }

  lemma {:induction false} KeysInBlocksPrefix(trace: seq<ReadResult>, j: nat)
    requires j <= |trace| && KeysInBlocks(trace)
    ensures KeysInBlocks(trace[..j])
    decreases |trace|
  {
    if j == |trace| {
      assert trace[..j] == trace;
    } else {
      var init := trace[..|trace| - 1];
      assert init[..j] == trace[..j];
      KeysInBlocksPrefix(init, j);
    }
  }

  /** The blocks main handled, up to the end of the trace or up to the block
      that aborts, parse as the whole trace does. */
  lemma SpansScanTrace(trace: seq<ReadResult>, j: nat, spans: seq<Span>)
    requires j <= |trace| && BlocksOf(spans, Stitched(trace[..j])) && |spans| == |Stitched(trace[..j])|
    requires Placed(spans, trace[..j])
    requires j == |trace| || ScanSpans(spans).malformed
    ensures KeysInBlocks(trace) ==> ScanSpans(spans) == StitchedScan(trace)
  {
    if KeysInBlocks(trace) {
      KeysInBlocksPrefix(trace, j);
      ScanSpansStitched(trace[..j], spans);
      if j == |trace| {
        assert trace[..j] == trace;
      } else {
        StitchedScanPrefix(trace, j);
      }
    }
  }

  /** How 1brc ends: exit code 4 on a malformed value, or the lines written
      to the results file. */
  datatype RunResult = Exit4 | Written(lines: seq<Line>)

  /** main's table initialisation and read loop, which stitches every read
      onto the leftover of the previous block and hands it to handle_block. It
      ends after the read that brings the total to the file size, at a failed
      read, or at the exit(4) abort, which `malformed` reports. spans are the
      blocks handled, in order. */
  method Aggregate(trace: seq<ReadResult>, fileSize: nat, hash: seq<byte> -> nat)
    returns (malformed: bool, records: array<Record>, ghost spans: seq<Span>)
    requires IsReadTrace(trace, 0, fileSize)
    ensures fresh(records) && records.Length == STATION_COUNT
    ensures BlocksOf(spans, Stitched(trace))
    ensures malformed == ScanSpans(spans).malformed
    ensures !malformed ==> |spans| == |Stitched(trace)|
    ensures records[..] == ApplyAll(InitialTable(), ScanSpans(spans).obs, hash)
    ensures KeysInBlocks(trace) ==> ScanSpans(spans) == StitchedScan(trace)
  {
    malformed := false;
    var mem := new byte[2 * FILE_BUFFER_SIZE];
    records := NewTable();
    var leftoverBlockSize: nat := 0;
    var bytesParsed: nat := 0;
    var i := 0;
    spans := [];
    while true
      invariant mem.Length == 2 * FILE_BUFFER_SIZE && records.Length == STATION_COUNT
      invariant leftoverBlockSize <= FILE_BUFFER_SIZE
      invariant i < |trace| && IsReadTrace(trace[i..], bytesParsed, fileSize)
      invariant leftoverBlockSize == |LastCarry(trace[..i])|
      invariant mem[FILE_BUFFER_SIZE - leftoverBlockSize..FILE_BUFFER_SIZE] == LastCarry(trace[..i])
      invariant BlocksOf(spans, Stitched(trace[..i])) && |spans| == |Stitched(trace[..i])| && Placed(spans, trace[..i])
      invariant !ScanSpans(spans).malformed
      invariant records[..] == ApplyAll(InitialTable(), ScanSpans(spans).obs, hash)
      decreases |trace| - i
    {
      if trace[i].ReadFailed? {
        FailedReadEnds(trace, i, bytesParsed, fileSize, spans);
        break;
      }
      var r;
      r, spans, i, bytesParsed := ReadNext(mem, records, trace, i, bytesParsed, fileSize, leftoverBlockSize, spans, hash);
      if r.Aborted? {
        malformed := true;
        return;
      }
      leftoverBlockSize := r.size;
      if bytesParsed >= fileSize {
        break;
      }
    }
  }

  /** main: the read loop, then the qsort and the output loop. A failed read
      ends the loop, and the table so far is still sorted and written out. */
  method Run(trace: seq<ReadResult>, fileSize: nat, hash: seq<byte> -> nat)
    returns (result: RunResult, records: array<Record>, ghost spans: seq<Span>)
    requires IsReadTrace(trace, 0, fileSize)
    ensures BlocksOf(spans, Stitched(trace))
    ensures KeysInBlocks(trace) ==> ScanSpans(spans) == StitchedScan(trace)
    ensures var scan := ScanSpans(spans);
      && (result == Exit4 <==> scan.malformed)
      && (scan.malformed ==> records[..] == ApplyAll(InitialTable(), scan.obs, hash))
      && (!scan.malformed ==>
            && |spans| == |Stitched(trace)|
            && Sorted(records[..])
            && multiset(records[..]) == multiset(ApplyAll(InitialTable(), scan.obs, hash))
            && result == Written(Report(records[..])))
  {
    var malformed;
    malformed, records, spans := Aggregate(trace, fileSize, hash);
    if malformed {
      result := Exit4;
      return;
    }
    Qsort(records);
    var lines := Emit(records);
    result := Written(lines);
  }

  /** Reading "\nb;2.0\n" as "\nb;2.0" and then "\n": the record is complete
      in the first block, and the whole block, from its newline on, is carried
      in front of the second. */
  lemma BoundaryTrace(trace: seq<ReadResult>)
    requires trace == [Read([10, 98, 59, 50, 46, 48]), Read([10])]
    ensures IsReadTrace(trace, 0, 7)
    ensures Stitched(trace) == [[10, 98, 59, 50, 46, 48], [10, 98, 59, 50, 46, 48, 10]]
    ensures LastCarry(trace[..1]) == [10, 98, 59, 50, 46, 48]
  {
    var first := trace[..1];
    assert first == [Read([10, 98, 59, 50, 46, 48])] && first[..|first| - 1] == [];
    assert trace[..|trace| - 1] == first;
    assert trace[1..] == [Read([10])];
    assert RFindByte([10, 98, 59, 50, 46, 48], 0, 6, NEWLINE) == Some(0);
    assert CarryOf([10, 98, 59, 50, 46, 48]) == [10, 98, 59, 50, 46, 48];
    assert LastCarry([]) + [10, 98, 59, 50, 46, 48] == [10, 98, 59, 50, 46, 48];
    assert LastCarry(first) == [10, 98, 59, 50, 46, 48];
    assert Stitched(first) == [[] + [10, 98, 59, 50, 46, 48]];
    assert trace[|trace| - 1] == Read([10]);
    assert [10, 98, 59, 50, 46, 48] + [10] == [10, 98, 59, 50, 46, 48, 10];
  }

  /** "\nb;2.0" at s in m, alone or followed by a newline, scans as the one
      record b (key "\nb", zero-padded) with 2.0, and its key lies inside
      it. */
  lemma ScanBoundaryBlock(m: seq<byte>, s: nat, e: nat)
    requires s + 6 <= e <= s + 7 && e <= |m| && m[s..s + 6] == [10, 98, 59, 50, 46, 48]
    requires e == s + 7 ==> m[s + 6] == NEWLINE
    ensures ScanFrom(m, s, e) == Scan([Obs(KeyCopy([10, 98], 0, 2), 20)], false)
    ensures KeysInside(m, s, e)
  {
    assert m[s] == NEWLINE && m[s + 1] == 98 && m[s + 2] == SEMICOLON by {
      assert m[s..s + 6][0] == NEWLINE && m[s..s + 6][1] == 98 && m[s..s + 6][2] == SEMICOLON;
    }
    assert FindByte(m, s + 2, e, SEMICOLON) == Some(s + 2);
    assert FindByte(m, s + 1, e, SEMICOLON) == Some(s + 2);
    assert m[s + 3..s + 6] == ReadingText(false, [50], 48) by {
      assert m[s + 3..s + 6] == m[s..s + 6][3..6];
    }
    ValueAtReading(m, s + 2, e, false, [50], 48);
    assert RFindByte(m, s, s + 2, NEWLINE) == Some(s);
    assert e == s + 7 ==> FindByte(m, s + 7, e, SEMICOLON) == None;
    assert FindByte(m, s + 6, e, SEMICOLON) == None;
    assert ScanFrom(m, s + 6, e) == Scan([], false) && KeysInside(m, s + 6, e);
    assert KeyStart(m, s, s + 2) == s;
    assert ScanStep(m, s, e) == Parsed(Obs(KeyCopy(m, s, 2), 20), s + 6);
    assert m[s..s + 2] == [10, 98][0..2] by {
      assert m[s..s + 2] == m[s..s + 6][..2];
    }
    KeyCopySame(m, s, [10, 98], 0, 2);
  }

  /** The key copied depends only on the bytes it is copied from. */
  lemma KeyCopySame(m: seq<byte>, from: nat, n: seq<byte>, at: nat, count: nat)
    requires from + count <= |m| && at + count <= |n| && m[from..from + count] == n[at..at + count]
    ensures KeyCopy(m, from, count) == KeyCopy(n, at, count)
  {
    forall k | 0 <= k < KEY_SIZE
      ensures KeyCopy(m, from, count)[k] == KeyCopy(n, at, count)[k]
    {
      if k < count {
        assert m[from..from + count][k] == n[at..at + count][k];
      }
    }
  }

  /** A record complete before the end of a block whose last newline precedes
      it is parsed twice: once in its block and again in the next one, where
      it is carried. Splitting "\nb;2.0\n" after its sixth byte tallies b
      twice; every key lies inside its block, so this is what Run folds into
      the table. */
  lemma RecordCountedTwice(trace: seq<ReadResult>, hash: seq<byte> -> nat)
    requires trace == [Read([10, 98, 59, 50, 46, 48]), Read([10])]
    ensures IsReadTrace(trace, 0, 7)
    ensures KeysInBlocks(trace)
    ensures StitchedScan(trace) == Scan([Obs(KeyCopy([10, 98], 0, 2), 20), Obs(KeyCopy([10, 98], 0, 2), 20)], false)
    ensures var table := ApplyAll(InitialTable(), StitchedScan(trace).obs, hash);
      var slot := SlotIndex(hash, KeyCopy([10, 98], 0, 2));
      table[slot].count == 2 && table[slot].sum == 40
  {
    BoundaryTrace(trace);
    var first := trace[..1];
    assert first == [Read([10, 98, 59, 50, 46, 48])] && trace == first + [Read([10])];
    FirstBoundaryBlock(first);
    var o := Obs(KeyCopy([10, 98], 0, 2), 20);
    SecondBoundaryBlock(trace, first, [10], o);
    TalliedTwice(o, hash);
  }

  /** A measurement folded twice into the initial table counts twice in its
      slot, with twice its value as the sum, and names the slot. */
  lemma TalliedTwice(o: Obs, hash: seq<byte> -> nat)
    requires o.key[0] != 0
    ensures var table := ApplyAll(InitialTable(), [o, o], hash);
      var slot := SlotIndex(hash, o.key);
      table[slot].count == 2 && table[slot].sum == 2 * o.temp && table[slot].key == o.key
  {
    var t0 := InitialTable();
    var slot := SlotIndex(hash, o.key);
    assert [o, o][..1] == [o] && [o][..0] == [];
    var t1 := Absorb(t0, o, hash);
    assert ApplyAll(t0, [o], hash) == t1;
    assert t1[slot].count == 1 && t1[slot].sum == o.temp && t1[slot].key == o.key;
  }

  /** "\nb;2.0", alone or followed by a newline, as a stitched block main
      puts in place: one record b with 2.0, its key inside the block. */
  lemma BoundaryBlockScan(carry: seq<byte>, b: seq<byte>, s: nat, e: nat)
    requires |carry| <= FILE_BUFFER_SIZE && 6 <= |carry + b| <= 7
    requires (carry + b)[..6] == [10, 98, 59, 50, 46, 48] && (|carry + b| == 7 ==> (carry + b)[6] == NEWLINE)
    requires s == PadOf(carry) && e == s + |carry| + |b|
    ensures e <= |Layout(carry, b)|
    ensures BlockScan(carry, b) == Scan([Obs(KeyCopy([10, 98], 0, 2), 20)], false)
    ensures BlockKeysInside(carry, b)
  {
    var m := Layout(carry, b);
    LayoutSlice(carry, b);
    assert m[s..s + 6] == (carry + b)[..6] by {
      assert m[s..s + 6] == m[s..e][..6];
    }
    assert e == s + 7 ==> m[s + 6] == (carry + b)[6] by {
      if e == s + 7 {
        assert m[s + 6] == m[s..e][6];
      }
    }
    ScanBoundaryBlock(m, s, e);
  }

  /** "\nb;2.0", read first, scans as the one record b. */
  lemma FirstBoundaryBlock(first: seq<ReadResult>)
    requires first == [Read([10, 98, 59, 50, 46, 48])]
    ensures KeysInBlocks(first)
    ensures StitchedScan(first) == Scan([Obs(KeyCopy([10, 98], 0, 2), 20)], false)
  {
    var b := first[0].bytes;
    var s := PadOf([]);
    assert first == [] + [Read(b)] && LastCarry([]) == [] && [] + b == b;
    BoundaryBlockScan([], b, s, s + 6);
    StitchedScanRead(first, [], b, [], s, s + 6);
    KeysInBlocksRead(first, [], b, [], s, s + 6);
    assert StitchedScan([]) == Scan([], false);
  }

  /** The second read, "\n", after the whole first block is carried: the
      record b is scanned again. */
  lemma SecondBoundaryBlock(trace: seq<ReadResult>, first: seq<ReadResult>, b: seq<byte>, o: Obs)
    requires trace == first + [Read(b)] && b == [10]
    requires LastCarry(first) == [10, 98, 59, 50, 46, 48] && o == Obs(KeyCopy([10, 98], 0, 2), 20)
    requires KeysInBlocks(first) && StitchedScan(first) == Scan([o], false)
    ensures KeysInBlocks(trace)
    ensures StitchedScan(trace) == Scan([o, o], false)
  {
    var carry := LastCarry(first);
    var s := PadOf(carry);
    var e := s + |carry| + |b|;
    assert (carry + b)[..6] == carry && (carry + b)[6] == NEWLINE;
    BoundaryBlockScan(carry, b, s, e);
    assert [o] + [o] == [o, o];
    StitchedScanRead(trace, first, b, carry, s, e);
    KeysInBlocksRead(trace, first, b, carry, s, e);
  }
}
