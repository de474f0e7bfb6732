/** count_lines: counts the newline bytes of a file, reading it in chunks of
    FILE_BUFFER_SIZE bytes into one buffer. */
module CountLines {
  import opened Bytes
  import opened Chunks

  /** handle_block: the number of newlines in block[0 .. blockSize), found by
      repeated searches for the next newline. */
  method HandleBlock(block: array<byte>, blockSize: nat) returns (newlineCount: nat)
    requires blockSize <= block.Length
    ensures newlineCount == CountByte(block[..blockSize], NEWLINE)
    ensures newlineCount <= blockSize
    ensures blockSize == 0 ==> newlineCount == 0
  {
    ghost var m := block[..];
    var bufRemain: nat := blockSize;
    var buf: nat := 0;
    newlineCount := 0;
    while bufRemain != 0
      invariant buf <= blockSize && bufRemain == blockSize - buf
      invariant newlineCount + CountByte(m[buf..blockSize], NEWLINE) == CountByte(m[0..blockSize], NEWLINE)
      decreases bufRemain
    {
      var foundNewline := FindByte(block[..], buf, buf + bufRemain, NEWLINE);
      CountAfterFind(m, buf, blockSize, NEWLINE);
      if foundNewline.None? {
        break;
      }
      ghost var before := newlineCount + CountByte(m[buf..blockSize], NEWLINE);
      newlineCount := newlineCount + 1;
      buf := foundNewline.value + 1;
      assert newlineCount + CountByte(m[buf..blockSize], NEWLINE) == before;
      bufRemain := blockSize - buf;
    }
    assert m[0..blockSize] == block[..blockSize];
  }

  /** main's read loop: every successful read is counted into lineCount; a
      failed read ends the program without the count being printed, which
      `completed` reports. */
  method Run(trace: seq<ReadResult>, fileSize: nat) returns (lineCount: nat, completed: bool)
    requires IsReadTrace(trace, 0, fileSize)
    ensures lineCount == CountByte(ReadBytes(trace), NEWLINE)
    ensures completed <==> !EndsInFailure(trace)
  {
    var buffer := new byte[FILE_BUFFER_SIZE];
    lineCount := 0;
    var bytesParsed: nat := 0;
    var i := 0;
    completed := false;
    while true
      invariant i < |trace| && IsReadTrace(trace[i..], bytesParsed, fileSize)
      invariant lineCount == CountByte(ReadBytes(trace[..i]), NEWLINE)
      invariant !completed
      decreases |trace| - i
    {
      ReadTraceStep(trace, i, bytesParsed, fileSize);
      TraceStep(trace, i);
      if trace[i].ReadFailed? {
        WholeTrace(trace, i + 1);
        break;
      }
      var bytesRead := trace[i].bytes;
      ghost var before := buffer[..];
      Fill(buffer, 0, bytesRead);
      SpliceSlice(before, 0, bytesRead, |bytesRead|);
      assert buffer[..|bytesRead|] == buffer[..][0..|bytesRead|];
      var count := HandleBlock(buffer, |bytesRead|);
      CountByteAppend(ReadBytes(trace[..i]), bytesRead, NEWLINE);
      ghost var parsedBefore := bytesParsed;
      lineCount := lineCount + count;
      bytesParsed := bytesParsed + |bytesRead|;
      i := i + 1;
      if bytesParsed >= fileSize {
        WholeTrace(trace, i);
        completed := true;
        break;
      }
      ReadTraceNext(trace, i - 1, parsedBefore, fileSize, bytesRead, i, bytesParsed);
    }
  }
}
