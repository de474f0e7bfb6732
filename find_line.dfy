/** find_line: prints every line of a file that equals one of the phrases
    given on the command line, with a line number, reading the file in chunks
    as 1brc does. A phrase is searched for with a newline on each side, so a
    hit is a whole line. */
module FindLine {
  import opened Bytes
  import opened Chunks
  import Memory

  /** A phrase as the search uses it: the raw phrase between two newlines. */
  function Frame(raw: seq<byte>): (r: seq<byte>)
    ensures |r| == |raw| + 2 && r[0] == NEWLINE && r[|r| - 1] == NEWLINE
    ensures r[1..|r| - 1] == raw
  {
    [NEWLINE] + raw + [NEWLINE]
  }

  /** A phrase that starts and ends with a newline. */
  predicate Framed(phrase: seq<byte>)
  {
    |phrase| >= 2 && phrase[0] == NEWLINE && phrase[|phrase| - 1] == NEWLINE
  }

  predicate AllFramed(phrases: seq<seq<byte>>)
  {
    forall k :: 0 <= k < |phrases| ==> Framed(phrases[k])
  }

  /** A framed phrase whose raw part holds no newline: it matches exactly one
      whole line. */
  predicate WholeLine(phrase: seq<byte>)
  {
    Framed(phrase) && forall k :: 0 < k < |phrase| - 1 ==> phrase[k] != NEWLINE
  }

  /** Every framed phrase is Framed, and it is WholeLine exactly when the raw
      phrase has no newline. */
  lemma FrameWholeLine(raw: seq<byte>)
    ensures Framed(Frame(raw))
    ensures WholeLine(Frame(raw)) <==> forall k :: 0 <= k < |raw| ==> raw[k] != NEWLINE
  {
    var p := Frame(raw);
    assert forall k :: 0 <= k < |raw| ==> p[k + 1] == raw[k];
  }

  /** The phrase assembly of main: a buffer of length + 2 bytes, the raw
      phrase copied in at 1, a newline written at each end. */
  method FramePhrase(raw: seq<byte>) returns (phrase: seq<byte>)
    ensures phrase == Frame(raw)
  {
    var length := |raw|;
    var buffer := new byte[length + 2];
    forall i | 0 <= i < length {
      buffer[1 + i] := raw[i];
    }
    buffer[0] := NEWLINE;
    buffer[length + 1] := NEWLINE;
    phrase := buffer[..];
    assert phrase == Frame(raw) by {
      forall k | 0 <= k < length + 2 ensures phrase[k] == Frame(raw)[k] {
      }
    }
  }

  /** main's loop over the command-line phrases, framing each one. */
  method AssemblePhrases(raws: seq<seq<byte>>) returns (phrases: seq<seq<byte>>)
    ensures |phrases| == |raws|
    ensures forall k :: 0 <= k < |raws| ==> phrases[k] == Frame(raws[k])
    ensures AllFramed(phrases)
  {
    var table := new seq<byte>[|raws|];
    for i := 0 to |raws|
      invariant forall k :: 0 <= k < i ==> table[k] == Frame(raws[k])
    {
      table[i] := FramePhrase(raws[i]);
    }
    phrases := table[..];
    forall k | 0 <= k < |raws| ensures Framed(phrases[k]) {
      FrameWholeLine(raws[k]);
    }
  }

  /** One line printed by the handler: the phrase was found at `at` (the
      position of its leading newline), `text` is the rest of that line, and
      `line` is the line number printed. */
  datatype Match = Match(at: nat, text: seq<byte>, line: nat)

  /** The newline that ends a hit of a framed phrase at ps lies inside the
      hit: the search from ps + 1 for it always succeeds, and for a WholeLine
      phrase it finds the phrase's own closing newline. */
  lemma FramedLineEnd(m: seq<byte>, ps: nat, end: nat, phrase: seq<byte>)
    requires ps + |phrase| <= end <= |m| && Framed(phrase) && OccursAt(m, ps, phrase)
    ensures FindByte(m, ps + 1, end, NEWLINE).Some?
    ensures FindByte(m, ps + 1, end, NEWLINE).value <= ps + |phrase| - 1
    ensures WholeLine(phrase) ==> FindByte(m, ps + 1, end, NEWLINE).value == ps + |phrase| - 1
  {
    FindByteFirst(m, ps + 1, end, NEWLINE);
    assert m[ps + |phrase| - 1] == m[ps..ps + |phrase|][|phrase| - 1];
    if WholeLine(phrase) {
      forall k | ps + 1 <= k < ps + |phrase| - 1 ensures m[k] != NEWLINE {
        assert m[k] == m[ps..ps + |phrase|][k - ps];
      }
    }
  }

  /** The outcome of one search of the inner loop. */
  datatype Hit = Hit(ps: nat, le: nat) | Miss

  /** One search of the inner loop from buf: the phrase is looked for in
      m[buf .. end), and after a hit at ps the newline that ends its line,
      at le, is looked for from ps + 1. */
  function NextHit(m: seq<byte>, buf: nat, end: nat, phrase: seq<byte>): (h: Hit)
    requires buf <= end <= |m| && Framed(phrase)
    ensures h.Hit? ==> buf <= h.ps < h.le < end
  {
    match FindSeq(m, buf, end, phrase)
    case None => Miss
    case Some(ps) =>
      FindSeqFirst(m, buf, end, phrase);
      FramedLineEnd(m, ps, end, phrase);
      Hit(ps, FindByte(m, ps + 1, end, NEWLINE).value)
  }

  /** The line printed for a hit at ps whose line ends at le, the search
      having started at buf: the text between the phrase's leading newline
      and le, and, as written, the number of newlines in the first
      le - buf + 1 bytes of the block. */
  function HitMatch(m: seq<byte>, start: nat, buf: nat, ps: nat, le: nat, startingLineCount: nat): Match
    requires start <= buf <= ps < le < |m|
  {
    Match(ps, Segment(m, ps + 1, le), startingLineCount + CountIn(m, start, start + (le - buf + 1), NEWLINE))
  }

  /** HitMatch in terms of slices of m. */
  lemma HitMatchSlices(m: seq<byte>, start: nat, buf: nat, ps: nat, le: nat, startingLineCount: nat)
    requires start <= buf <= ps < le < |m|
    requires start + (le - buf + 1) <= |m|
    ensures HitMatch(m, start, buf, ps, le, startingLineCount)
      == Match(ps, m[ps + 1..le], startingLineCount + CountByte(m[start..start + (le - buf + 1)], NEWLINE))
  {
    SegmentSlice(m, ps + 1, le);
    CountInSlice(m, start, start + (le - buf + 1), NEWLINE);
  }

  /** The inner loop of handle_block_match_whole_line for one phrase, as
      written, from search position buf on, for the block m[start .. end):
      after each hit the search goes on from the end of the hit's line. */
  function PhraseMatches(m: seq<byte>, start: nat, end: nat, phrase: seq<byte>, buf: nat,
                         startingLineCount: nat): (r: seq<Match>)
    requires start <= buf <= end <= |m| && Framed(phrase)
    decreases end - buf
  {
    if buf == end then []
    else match NextHit(m, buf, end, phrase)
      case Miss => []
      case Hit(ps, le) =>
        [HitMatch(m, start, buf, ps, le, startingLineCount)] + PhraseMatches(m, start, end, phrase, le, startingLineCount)
  }

  /** What a hit is: the first place in m[buf .. end) where the phrase lies,
      and the first newline after its leading one, which for a WholeLine
      phrase is its closing newline; a miss means the phrase lies nowhere in
      m[buf .. end). */
  lemma NextHitIs(m: seq<byte>, buf: nat, end: nat, phrase: seq<byte>)
    requires buf <= end <= |m| && Framed(phrase)
    ensures match NextHit(m, buf, end, phrase)
      case Miss => forall k :: !Occurrence(m, buf, end, phrase, k)
      case Hit(ps, le) =>
        && Occurrence(m, buf, end, phrase, ps)
        && (forall k :: buf <= k < ps ==> !OccursAt(m, k, phrase))
        && le <= ps + |phrase| - 1 && m[le] == NEWLINE
        && (forall k :: ps < k < le ==> m[k] != NEWLINE)
        && (WholeLine(phrase) ==> le == ps + |phrase| - 1 && m[ps + 1..le] == phrase[1..|phrase| - 1])
  {
    FindSeqFirst(m, buf, end, phrase);
    match FindSeq(m, buf, end, phrase)
    case None =>
    case Some(ps) =>
      FramedLineEnd(m, ps, end, phrase);
      FindByteFirst(m, ps + 1, end, NEWLINE);
      var le := FindByte(m, ps + 1, end, NEWLINE).value;
      if WholeLine(phrase) {
        SliceOfSlice(m, ps, ps + |phrase|, 1, |phrase| - 1, ps + 1, le);
      }
  }

  /** The matches of handle_block_match_whole_line for the block m[start ..
      end): phrase after phrase, each searched through the whole block. */
  function BlockMatches(m: seq<byte>, start: nat, end: nat, phrases: seq<seq<byte>>,
                        startingLineCount: nat): (r: seq<Match>)
    requires start <= end <= |m| && AllFramed(phrases)
  {
    if phrases == [] then []
    else
      var n := |phrases| - 1;
      BlockMatches(m, start, end, phrases[..n], startingLineCount)
      + PhraseMatches(m, start, end, phrases[n], start, startingLineCount)
  }

  /** k is a place in m[buf .. end) where the phrase lies whole. */
  predicate Occurrence(m: seq<byte>, buf: nat, end: nat, phrase: seq<byte>, k: nat)
  {
    buf <= k && k + |phrase| <= end && OccursAt(m, k, phrase)
  }

  /** Some match in r was found at k. */
  predicate Reported(r: seq<Match>, k: nat)
  {
    exists j :: 0 <= j < |r| && r[j].at == k
  }

  /** PhraseMatches after a hit: the hit's match, then the matches from the
      end of its line on. */
  lemma PhraseMatchesHit(m: seq<byte>, start: nat, end: nat, phrase: seq<byte>, buf: nat,
                         startingLineCount: nat, ps: nat, le: nat)
    requires start <= buf < end <= |m| && Framed(phrase)
    requires NextHit(m, buf, end, phrase) == Hit(ps, le)
    ensures PhraseMatches(m, start, end, phrase, buf, startingLineCount)
      == [HitMatch(m, start, buf, ps, le, startingLineCount)] + PhraseMatches(m, start, end, phrase, le, startingLineCount)
  {
  }

  /** Every match is a hit of the phrase inside m[buf .. end). */
  lemma {:induction false} PhraseMatchesInBlock(m: seq<byte>, start: nat, end: nat, phrase: seq<byte>,
                                                buf: nat, startingLineCount: nat)
    requires start <= buf <= end <= |m| && Framed(phrase)
    ensures var r := PhraseMatches(m, start, end, phrase, buf, startingLineCount);
      forall j :: 0 <= j < |r| ==> Occurrence(m, buf, end, phrase, r[j].at)
    decreases end - buf
  {
    var r := PhraseMatches(m, start, end, phrase, buf, startingLineCount);
    if buf < end && NextHit(m, buf, end, phrase).Hit? {
      var h := NextHit(m, buf, end, phrase);
      NextHitIs(m, buf, end, phrase);
      PhraseMatchesHit(m, start, end, phrase, buf, startingLineCount, h.ps, h.le);
      var rest := PhraseMatches(m, start, end, phrase, h.le, startingLineCount);
      PhraseMatchesInBlock(m, start, end, phrase, h.le, startingLineCount);
      forall j | 0 <= j < |r| ensures Occurrence(m, buf, end, phrase, r[j].at) {
        if j > 0 {
          assert r[j] == rest[j - 1];
        }
      }
    }
  }

  /** The matches come in the order of the block, each after the previous. */
  lemma {:induction false} PhraseMatchesOrdered(m: seq<byte>, start: nat, end: nat, phrase: seq<byte>,
                                                buf: nat, startingLineCount: nat)
    requires start <= buf <= end <= |m| && Framed(phrase)
    ensures var r := PhraseMatches(m, start, end, phrase, buf, startingLineCount);
      forall j, j' :: 0 <= j < j' < |r| ==> r[j].at < r[j'].at
    decreases end - buf
  {
    var r := PhraseMatches(m, start, end, phrase, buf, startingLineCount);
    if buf < end && NextHit(m, buf, end, phrase).Hit? {
      var h := NextHit(m, buf, end, phrase);
      PhraseMatchesHit(m, start, end, phrase, buf, startingLineCount, h.ps, h.le);
      var rest := PhraseMatches(m, start, end, phrase, h.le, startingLineCount);
      PhraseMatchesOrdered(m, start, end, phrase, h.le, startingLineCount);
      PhraseMatchesInBlock(m, start, end, phrase, h.le, startingLineCount);
      forall j, j' | 0 <= j < j' < |r| ensures r[j].at < r[j'].at {
        assert r[j'] == rest[j' - 1];
        if j > 0 {
          assert r[j] == rest[j - 1];
        } else {
          assert Occurrence(m, h.le, end, phrase, rest[j' - 1].at);
        }
      }
    }
  }

  /** For a WholeLine phrase the text printed with every match is the raw
      phrase. */
  lemma {:induction false} PhraseMatchesText(m: seq<byte>, start: nat, end: nat, phrase: seq<byte>,
                                             buf: nat, startingLineCount: nat)
    requires start <= buf <= end <= |m| && WholeLine(phrase)
    ensures var r := PhraseMatches(m, start, end, phrase, buf, startingLineCount);
      forall j :: 0 <= j < |r| ==> r[j].text == phrase[1..|phrase| - 1]
    decreases end - buf
  {
    var r := PhraseMatches(m, start, end, phrase, buf, startingLineCount);
    if buf < end && NextHit(m, buf, end, phrase).Hit? {
      var h := NextHit(m, buf, end, phrase);
      NextHitIs(m, buf, end, phrase);
      SegmentSlice(m, h.ps + 1, h.le);
      PhraseMatchesHit(m, start, end, phrase, buf, startingLineCount, h.ps, h.le);
      var rest := PhraseMatches(m, start, end, phrase, h.le, startingLineCount);
      PhraseMatchesText(m, start, end, phrase, h.le, startingLineCount);
      forall j | 0 <= j < |r| ensures r[j].text == phrase[1..|phrase| - 1] {
        if j > 0 {
          assert r[j] == rest[j - 1];
        }
      }
    }
  }

  /** The raw phrase inside a framed one. */
  function Unframe(phrase: seq<byte>): seq<byte>
  {
    if |phrase| >= 2 then phrase[1..|phrase| - 1] else []
  }

  /** Framing a phrase and taking the frame off gives the phrase back. */
  lemma UnframeFrame(raw: seq<byte>)
    ensures Unframe(Frame(raw)) == raw
  {
  }

  /** Every match in r was printed with one of texts. */
  predicate PrintsOnly(r: seq<Match>, texts: seq<seq<byte>>)
  {
    forall j :: 0 <= j < |r| ==> r[j].text in texts
  }

  lemma PrintsOnlyConcat(a: seq<Match>, c: seq<Match>, texts: seq<seq<byte>>)
    requires PrintsOnly(a, texts) && PrintsOnly(c, texts)
    ensures PrintsOnly(a + c, texts)
  {
    forall j | 0 <= j < |a + c| ensures (a + c)[j].text in texts {
      if j < |a| {
        assert (a + c)[j] == a[j];
      } else {
        assert (a + c)[j] == c[j - |a|];
      }
    }
  }

  /** No raw phrase holds a newline. */
  predicate SingleLines(raws: seq<seq<byte>>)
  {
    forall k, i :: 0 <= k < |raws| && 0 <= i < |raws[k]| ==> raws[k][i] != NEWLINE
  }

  /** With command-line phrases that hold no newline, the text printed with
      every match of a block is one of them. */
  lemma {:induction false} BlockMatchesText(m: seq<byte>, start: nat, end: nat, raws: seq<seq<byte>>,
                                            startingLineCount: nat)
    requires start <= end <= |m| && SingleLines(raws)
    ensures PrintsOnly(BlockMatches(m, start, end, FrameAll(raws), startingLineCount), raws)
    decreases |raws|
  {
    if raws != [] {
      var n := |raws| - 1;
      var phrases := FrameAll(raws);
      BlockMatchesText(m, start, end, raws[..n], startingLineCount);
      assert phrases[..n] == FrameAll(raws[..n]);
      FrameWholeLine(raws[n]);
      PhraseMatchesText(m, start, end, phrases[n], start, startingLineCount);
      UnframeFrame(raws[n]);
      var a := BlockMatches(m, start, end, phrases[..n], startingLineCount);
      forall j | 0 <= j < |a| ensures a[j].text in raws {
        assert a[j].text in raws[..n];
      }
      forall j | 0 <= j < |PhraseMatches(m, start, end, phrases[n], start, startingLineCount)|
        ensures PhraseMatches(m, start, end, phrases[n], start, startingLineCount)[j].text in raws
      {
        assert PhraseMatches(m, start, end, phrases[n], start, startingLineCount)[j].text == raws[n];
      }
      PrintsOnlyConcat(a, PhraseMatches(m, start, end, phrases[n], start, startingLineCount), raws);
    }
  }

  /** Reported on a match followed by more matches. */
  lemma ReportedCons(x: Match, rest: seq<Match>, k: nat)
    ensures Reported([x] + rest, k) <==> x.at == k || Reported(rest, k)
  {
    var r := [x] + rest;
    if Reported(rest, k) {
      var j :| 0 <= j < |rest| && rest[j].at == k;
      assert r[j + 1] == rest[j];
    }
    if Reported(r, k) && x.at != k {
      var j :| 0 <= j < |r| && r[j].at == k;
      assert rest[j - 1] == r[j];
    }
    if x.at == k {
      assert r[0].at == k;
    }
  }

  /** Two hits of a WholeLine phrase overlap at most in one newline: a hit
      after one at ps starts no earlier than ps's closing newline. */
  lemma WholeLineHitsApart(m: seq<byte>, phrase: seq<byte>, ps: nat, k: nat)
    requires WholeLine(phrase) && OccursAt(m, ps, phrase) && OccursAt(m, k, phrase) && ps < k
    ensures ps + |phrase| - 1 <= k
  {
    assert m[k] == NEWLINE by {
      assert m[k] == m[k..k + |phrase|][0];
    }
    forall i | ps < i < ps + |phrase| - 1 ensures m[i] != NEWLINE {
      assert m[i] == m[ps..ps + |phrase|][i - ps];
    }
  }

  /** For a WholeLine phrase the search misses nothing: the places reported
      are exactly the places in m[buf .. end) where the phrase lies. */
  lemma {:induction false} PhraseMatchesComplete(m: seq<byte>, start: nat, end: nat, phrase: seq<byte>,
                                                 buf: nat, startingLineCount: nat)
    requires start <= buf <= end <= |m| && WholeLine(phrase)
    ensures var r := PhraseMatches(m, start, end, phrase, buf, startingLineCount);
      forall k :: Reported(r, k) <==> Occurrence(m, buf, end, phrase, k)
    decreases end - buf
  {
    var r := PhraseMatches(m, start, end, phrase, buf, startingLineCount);
    NextHitIs(m, buf, end, phrase);
    if buf < end && NextHit(m, buf, end, phrase).Hit? {
      var h := NextHit(m, buf, end, phrase);
      PhraseMatchesHit(m, start, end, phrase, buf, startingLineCount, h.ps, h.le);
      var x := HitMatch(m, start, buf, h.ps, h.le, startingLineCount);
      var rest := PhraseMatches(m, start, end, phrase, h.le, startingLineCount);
      PhraseMatchesComplete(m, start, end, phrase, h.le, startingLineCount);
      forall k: nat ensures Reported(r, k) <==> Occurrence(m, buf, end, phrase, k) {
        ReportedCons(x, rest, k);
        if Occurrence(m, buf, end, phrase, k) && k > h.ps {
          WholeLineHitsApart(m, phrase, h.ps, k);
        }
      }
    } else if buf == end {
      forall k: nat ensures !Occurrence(m, buf, end, phrase, k) {
      }
    }
  }

  /** The line number of the first match of a WholeLine phrase in a block:
      one more than the number of newlines before the matched line, counted
      from the block's start. */
  lemma FirstMatchLine(m: seq<byte>, start: nat, end: nat, phrase: seq<byte>, startingLineCount: nat)
    requires start <= end <= |m| && WholeLine(phrase)
    requires PhraseMatches(m, start, end, phrase, start, startingLineCount) != []
    ensures var x := PhraseMatches(m, start, end, phrase, start, startingLineCount)[0];
      start <= x.at < end && x.line == startingLineCount + 1 + CountByte(m[start..x.at + 1], NEWLINE)
  {
    var h := NextHit(m, start, end, phrase);
    NextHitIs(m, start, end, phrase);
    PhraseMatchesHit(m, start, end, phrase, start, startingLineCount, h.ps, h.le);
    HitLineCount(m, start, h.ps, h.le);
  }

  /** The newlines in the bytes from start up to and including the newline
      at le that ends a hit at ps: the ones up to ps, and le's own. */
  lemma HitLineCount(m: seq<byte>, start: nat, ps: nat, le: nat)
    requires start <= ps < le < |m| && m[le] == NEWLINE
    requires forall k :: ps < k < le ==> m[k] != NEWLINE
    ensures CountIn(m, start, start + (le - start + 1), NEWLINE) == 1 + CountByte(m[start..ps + 1], NEWLINE)
  {
    CountInSplit(m, start, ps + 1, le + 1, NEWLINE);
    CountInSplit(m, ps + 1, le, le + 1, NEWLINE);
    CountInNone(m, ps + 1, le, NEWLINE);
    CountInSlice(m, start, ps + 1, NEWLINE);
  }

  /** The two searches of the inner loop over "x\nfoo\nfoo\n" for "foo". */
  lemma SlipHits(m: seq<byte>, p: seq<byte>)
    requires m == [120, 10, 102, 111, 111, 10, 102, 111, 111, 10] && p == [10, 102, 111, 111, 10]
    ensures NextHit(m, 0, 10, p) == Hit(1, 5) && NextHit(m, 5, 10, p) == Hit(5, 9)
  {
    assert SameBytes(m, 1, p) by {
      assert SameBytes(m, 5, [10]) by { assert SameBytes(m, 6, []); }
      assert SameBytes(m, 4, [111, 10]) by { assert [111, 10][1..] == [10]; }
      assert SameBytes(m, 3, [111, 111, 10]) by { assert [111, 111, 10][1..] == [111, 10]; }
      assert SameBytes(m, 2, [102, 111, 111, 10]) by { assert [102, 111, 111, 10][1..] == [111, 111, 10]; }
      assert p[1..] == [102, 111, 111, 10];
    }
    assert SameBytes(m, 5, p) by {
      assert SameBytes(m, 9, [10]) by { assert SameBytes(m, 10, []); }
      assert SameBytes(m, 8, [111, 10]) by { assert [111, 10][1..] == [10]; }
      assert SameBytes(m, 7, [111, 111, 10]) by { assert [111, 111, 10][1..] == [111, 10]; }
      assert SameBytes(m, 6, [102, 111, 111, 10]) by { assert [102, 111, 111, 10][1..] == [111, 111, 10]; }
      assert p[1..] == [102, 111, 111, 10];
    }
    assert FindSeq(m, 0, 10, p) == Some(1);
    assert FindByte(m, 2, 10, NEWLINE) == Some(5);
    assert FindSeq(m, 5, 10, p) == Some(5);
    assert FindByte(m, 6, 10, NEWLINE) == Some(9);
  }

  /** The line number as written counts from the block's start only
      le - buf + 1 bytes, so a second hit in the same block gets a line
      number that is too small: in "x\nfoo\nfoo\n" the second "foo" is on
      line 3 but is printed as line 1. */
  lemma LineNumberSlip()
    ensures var m: seq<byte> := [120, 10, 102, 111, 111, 10, 102, 111, 111, 10];
      PhraseMatches(m, 0, 10, Frame([102, 111, 111]), 0, 0)
      == [Match(1, [102, 111, 111], 2), Match(5, [102, 111, 111], 1)]
  {
    var m: seq<byte> := [120, 10, 102, 111, 111, 10, 102, 111, 111, 10];
    var p := Frame([102, 111, 111]);
    assert p == [10, 102, 111, 111, 10];
    SlipHits(m, p);
    assert Segment(m, 2, 5) == [102, 111, 111];
    assert CountIn(m, 0, 6, NEWLINE) == 2;
    assert Segment(m, 6, 9) == [102, 111, 111];
    assert CountIn(m, 0, 5, NEWLINE) == 1;
    assert PhraseMatches(m, 0, 10, p, 9, 0) == [];
    PhraseMatchesHit(m, 0, 10, p, 5, 0, 5, 9);
    PhraseMatchesHit(m, 0, 10, p, 0, 0, 1, 5);
  }

  /** The inner loop with the line count evidently intended: the newlines in
      the block from its start up to and including the end of the hit's line,
      whatever the search position. */
  function PhraseMatchesIntended(m: seq<byte>, start: nat, end: nat, phrase: seq<byte>, buf: nat,
                                 startingLineCount: nat): (r: seq<Match>)
    requires start <= buf <= end <= |m| && Framed(phrase)
    decreases end - buf
  {
    if buf == end then []
    else match NextHit(m, buf, end, phrase)
      case Miss => []
      case Hit(ps, le) =>
        [HitMatch(m, start, start, ps, le, startingLineCount)]
        + PhraseMatchesIntended(m, start, end, phrase, le, startingLineCount)
  }

  /** With the intended count, the same hits are reported with the same
      text. */
  lemma {:induction false} PhraseMatchesIntendedHits(m: seq<byte>, start: nat, end: nat, phrase: seq<byte>,
                                                     buf: nat, startingLineCount: nat)
    requires start <= buf <= end <= |m| && Framed(phrase)
    ensures var r := PhraseMatchesIntended(m, start, end, phrase, buf, startingLineCount);
      var w := PhraseMatches(m, start, end, phrase, buf, startingLineCount);
      |r| == |w| && forall j :: 0 <= j < |r| ==> r[j].at == w[j].at && r[j].text == w[j].text
    decreases end - buf
  {
    if buf < end && NextHit(m, buf, end, phrase).Hit? {
      var h := NextHit(m, buf, end, phrase);
      PhraseMatchesHit(m, start, end, phrase, buf, startingLineCount, h.ps, h.le);
      PhraseMatchesIntendedHits(m, start, end, phrase, h.le, startingLineCount);
      var r := PhraseMatchesIntended(m, start, end, phrase, buf, startingLineCount);
      var w := PhraseMatches(m, start, end, phrase, buf, startingLineCount);
      var r' := PhraseMatchesIntended(m, start, end, phrase, h.le, startingLineCount);
      var w' := PhraseMatches(m, start, end, phrase, h.le, startingLineCount);
      assert r == [HitMatch(m, start, start, h.ps, h.le, startingLineCount)] + r';
      assert w == [HitMatch(m, start, buf, h.ps, h.le, startingLineCount)] + w';
      forall j | 0 <= j < |r|
        ensures r[j].at == w[j].at && r[j].text == w[j].text
      {
        if j > 0 {
          assert r[j] == r'[j - 1] && w[j] == w'[j - 1];
        }
      }
    }
  }

  /** With the intended count, every match gets the line number of its line:
      one more than the newlines before it in the block. */
  lemma {:induction false} PhraseMatchesIntendedLines(m: seq<byte>, start: nat, end: nat, phrase: seq<byte>,
                                                      buf: nat, startingLineCount: nat)
    requires start <= buf <= end <= |m| && Framed(phrase)
    ensures forall j :: 0 <= j < |PhraseMatchesIntended(m, start, end, phrase, buf, startingLineCount)| ==>
      var x := PhraseMatchesIntended(m, start, end, phrase, buf, startingLineCount)[j];
      buf <= x.at < end && x.line == startingLineCount + 1 + CountIn(m, start, x.at + 1, NEWLINE)
    decreases end - buf
  {
    if buf < end && NextHit(m, buf, end, phrase).Hit? {
      var h := NextHit(m, buf, end, phrase);
      NextHitLineEnd(m, buf, end, phrase);
      IntendedHitLine(m, start, end, h.ps, h.le, startingLineCount);
      PhraseMatchesIntendedLines(m, start, end, phrase, h.le, startingLineCount);
      assert PhraseMatchesIntended(m, start, end, phrase, buf, startingLineCount)
        == [HitMatch(m, start, start, h.ps, h.le, startingLineCount)]
           + PhraseMatchesIntended(m, start, end, phrase, h.le, startingLineCount);
    }
  }

  /** A hit's line ends at the first newline after the phrase's leading
      one. */
  lemma NextHitLineEnd(m: seq<byte>, buf: nat, end: nat, phrase: seq<byte>)
    requires buf <= end <= |m| && Framed(phrase) && NextHit(m, buf, end, phrase).Hit?
    ensures FindByte(m, NextHit(m, buf, end, phrase).ps + 1, end, NEWLINE) == Some(NextHit(m, buf, end, phrase).le)
  {
    FindSeqFirst(m, buf, end, phrase);
    FramedLineEnd(m, NextHit(m, buf, end, phrase).ps, end, phrase);
  }

  /** The intended line number of a hit at ps whose line ends at the first
      newline le after ps + 1. */
  lemma IntendedHitLine(m: seq<byte>, start: nat, end: nat, ps: nat, le: nat, startingLineCount: nat)
    requires start <= ps < end <= |m| && FindByte(m, ps + 1, end, NEWLINE) == Some(le)
    ensures HitMatch(m, start, start, ps, le, startingLineCount).line
      == startingLineCount + 1 + CountIn(m, start, ps + 1, NEWLINE)
  {
    FindByteFirst(m, ps + 1, end, NEWLINE);
    CountInSplit(m, start, ps + 1, le + 1, NEWLINE);
    CountInSplit(m, ps + 1, le, le + 1, NEWLINE);
    CountInNone(m, ps + 1, le, NEWLINE);
  }

  /** With the intended count, the second "foo" of "x\nfoo\nfoo\n" is printed
      as line 3. */
  lemma LineNumberIntended()
    ensures var m: seq<byte> := [120, 10, 102, 111, 111, 10, 102, 111, 111, 10];
      PhraseMatchesIntended(m, 0, 10, Frame([102, 111, 111]), 0, 0)
      == [Match(1, [102, 111, 111], 2), Match(5, [102, 111, 111], 3)]
  {
    var m: seq<byte> := [120, 10, 102, 111, 111, 10, 102, 111, 111, 10];
    var p := Frame([102, 111, 111]);
    assert p == [10, 102, 111, 111, 10];
    SlipHits(m, p);
    assert Segment(m, 2, 5) == [102, 111, 111];
    assert CountIn(m, 0, 6, NEWLINE) == 2;
    assert Segment(m, 6, 9) == [102, 111, 111];
    assert CountIn(m, 0, 10, NEWLINE) == 3;
    assert PhraseMatchesIntended(m, 0, 10, p, 9, 0) == [];
    assert PhraseMatchesIntended(m, 0, 10, p, 5, 0) == [Match(5, [102, 111, 111], 3)];
  }

  /** Reading "a\nfoo\n" as "a\n" and then "foo\n": the second block is the
      carried "\n" followed by "foo\n", and one line has been counted before
      it. */
  lemma CarryTrace(trace: seq<ReadResult>)
    requires trace == [Read([97, 10]), Read([102, 111, 111, 10])]
    ensures Stitched(trace) == [[97, 10], [10, 102, 111, 111, 10]]
    ensures LastCarry(trace[..1]) == [10]
    ensures CountByte(ReadBytes(trace[..1]), NEWLINE) == 1
  {
    var first := trace[..1];
    assert first == [Read([97, 10])] && first[..|first| - 1] == [];
    assert trace[..|trace| - 1] == first;
    assert RFindByte([97, 10], 0, 2, NEWLINE) == Some(1);
    assert CarryOf([97, 10]) == [10];
    assert LastCarry([]) + [97, 10] == [97, 10];
    assert LastCarry(first) == [10];
    assert Stitched(first) == [[] + [97, 10]] == [[97, 10]];
    assert ReadBytes(first) == [] + [97, 10] == [97, 10];
    assert trace[|trace| - 1] == Read([102, 111, 111, 10]);
    assert [10] + [102, 111, 111, 10] == [10, 102, 111, 111, 10];
    assert Stitched(trace) == [[97, 10]] + [[10, 102, 111, 111, 10]];
  }

  /** The carried newline is counted twice: it is in the line count handed
      to the second block and is counted again from that block's start, so
      "foo", on line 2 of "a\nfoo\n", is printed as line 3 when the file is
      read as "a\n" then "foo\n". The match lies at the carried newline, one
      byte in front of FILE_BUFFER_SIZE. */
  lemma CarryCountedTwice(trace: seq<ReadResult>, phrases: seq<seq<byte>>)
    requires trace == [Read([97, 10]), Read([102, 111, 111, 10])] && phrases == FrameAll([[102, 111, 111]])
    ensures IsReadTrace(trace, 0, 6)
    ensures ReadBytes(trace) == [97, 10, 102, 111, 111, 10]
    ensures 1 + CountByte(ReadBytes(trace)[..2], NEWLINE) == 2
    ensures StitchedMatches(trace, phrases) == [Match(FILE_BUFFER_SIZE - 1, [102, 111, 111], 3)]
  {
    CarryReads(trace);
    assert CountByte([97, 10], NEWLINE) == 1;
    CarryMatches(trace, phrases);
  }

  /** The two reads of "a\nfoo\n". */
  lemma CarryReads(trace: seq<ReadResult>)
    requires trace == [Read([97, 10]), Read([102, 111, 111, 10])]
    ensures IsReadTrace(trace, 0, 6)
    ensures ReadBytes(trace) == [97, 10, 102, 111, 111, 10] && ReadBytes(trace)[..2] == [97, 10]
  {
    var first := trace[..1];
    assert first == [Read([97, 10])] && first[..0] == [] && trace[..|trace| - 1] == first;
    assert trace[1..] == [Read([102, 111, 111, 10])] && trace[1..][1..] == [];
    assert ReadBytes(first) == [] + [97, 10];
    assert ReadBytes(trace) == [97, 10] + [102, 111, 111, 10];
  }

  /** What is printed for the two reads of "a\nfoo\n". */
  lemma CarryMatches(trace: seq<ReadResult>, phrases: seq<seq<byte>>)
    requires trace == [Read([97, 10]), Read([102, 111, 111, 10])] && phrases == FrameAll([[102, 111, 111]])
    ensures StitchedMatches(trace, phrases) == [Match(FILE_BUFFER_SIZE - 1, [102, 111, 111], 3)]
  {
    CarryTrace(trace);
    var first := trace[..1];
    var carry := LastCarry(first);
    var b := trace[1].bytes;
    assert first == [Read([97, 10])] && trace == first + [Read(b)];
    FirstBlockNoMatch(first, phrases);
    var s := PadOf(carry);
    assert s == FILE_BUFFER_SIZE - 1;
    LayoutSlice(carry, b);
    assert carry + b == [10, 102, 111, 111, 10];
    CarriedBlockMatch(phrases, Layout(carry, b), s);
    StitchedMatchesRead(trace, phrases, first, b, carry, s, s + 5, 1);
  }

  /** "a\n", read first, holds no "\nfoo\n". */
  lemma FirstBlockNoMatch(first: seq<ReadResult>, phrases: seq<seq<byte>>)
    requires first == [Read([97, 10])] && phrases == FrameAll([[102, 111, 111]])
    ensures StitchedMatches(first, phrases) == []
  {
    var p := Frame([102, 111, 111]);
    var b := first[0].bytes;
    var s := FILE_BUFFER_SIZE;
    assert phrases == [p] && phrases[..0] == [];
    assert first[..0] == [] && first == [] + [Read(b)];
    assert LastCarry([]) == [] && PadOf([]) == s;
    StitchedMatchesRead(first, phrases, [], b, [], s, s + 2, 0);
    assert FindSeq(Layout([], b), s, s + 2, p) == None;
    assert PhraseMatches(Layout([], b), s, s + 2, p, s, 0) == [];
    assert BlockMatches(Layout([], b), s, s + 2, phrases, 0) == [] + [];
    assert StitchedMatches([], phrases) == [];
  }

  /** A block "\nfoo\n" at s, with one line counted before it, prints foo on
      line 3, found at s. */
  lemma CarriedBlockMatch(phrases: seq<seq<byte>>, m: seq<byte>, s: nat)
    requires phrases == FrameAll([[102, 111, 111]])
    requires s + 5 <= |m| && m[s..s + 5] == [10, 102, 111, 111, 10]
    ensures BlockMatches(m, s, s + 5, phrases, 1) == [Match(s, [102, 111, 111], 3)]
  {
    var p := Frame([102, 111, 111]);
    assert phrases == [p] && phrases[..0] == [];
    assert p == [10, 102, 111, 111, 10];
    assert m[s] == 10 && m[s + 1] == 102 && m[s + 2] == 111 && m[s + 3] == 111 && m[s + 4] == 10 by {
      assert m[s..s + 5][0] == 10 && m[s..s + 5][1] == 102 && m[s..s + 5][2] == 111;
      assert m[s..s + 5][3] == 111 && m[s..s + 5][4] == 10;
    }
    assert SameBytes(m, s, p) by {
      assert SameBytes(m, s + 4, [10]) by { assert SameBytes(m, s + 5, []); }
      assert SameBytes(m, s + 3, [111, 10]) by { assert [111, 10][1..] == [10]; }
      assert SameBytes(m, s + 2, [111, 111, 10]) by { assert [111, 111, 10][1..] == [111, 10]; }
      assert SameBytes(m, s + 1, [102, 111, 111, 10]) by { assert [102, 111, 111, 10][1..] == [111, 111, 10]; }
      assert p[1..] == [102, 111, 111, 10];
    }
    assert FindSeq(m, s, s + 5, p) == Some(s);
    assert FindByte(m, s + 1, s + 5, NEWLINE) == Some(s + 4) by {
      assert FindByte(m, s + 4, s + 5, NEWLINE) == Some(s + 4);
      assert FindByte(m, s + 3, s + 5, NEWLINE) == Some(s + 4);
      assert FindByte(m, s + 2, s + 5, NEWLINE) == Some(s + 4);
    }
    assert NextHit(m, s, s + 5, p) == Hit(s, s + 4);
    assert Segment(m, s + 1, s + 4) == [102, 111, 111] by {
      assert Segment(m, s + 3, s + 4) == [111] + [];
      assert Segment(m, s + 2, s + 4) == [111] + [111];
    }
    assert CountIn(m, s, s + 5, NEWLINE) == 2 by {
      assert CountIn(m, s + 4, s + 5, NEWLINE) == 1 + CountIn(m, s + 5, s + 5, NEWLINE);
      assert CountIn(m, s + 3, s + 5, NEWLINE) == 1;
      assert CountIn(m, s + 2, s + 5, NEWLINE) == 1;
      assert CountIn(m, s + 1, s + 5, NEWLINE) == 1;
    }
    assert PhraseMatches(m, s, s + 5, p, s + 4, 1) == [];
    PhraseMatchesHit(m, s, s + 5, p, s, 1, s, s + 4);
    assert BlockMatches(m, s, s + 5, phrases, 1) == [] + [Match(s, [102, 111, 111], 3)];
  }

  /** One pass of the inner loop of handle_block_match_whole_line: the search
      for the phrase from buf, then for the end of the hit's line, and the
      line counted for the match printed; m is the bytes of the buffer. On a miss the
      match returned is of no meaning. */
  method FindMatch(m: seq<byte>, start: nat, length: nat, phrase: seq<byte>, buf: nat,
                   startingLineCount: nat)
    returns (hit: Hit, found: Match)
    requires start <= buf <= start + length <= |m| && Framed(phrase)
    ensures hit == NextHit(m, buf, start + length, phrase)
    ensures hit.Hit? ==> found == HitMatch(m, start, buf, hit.ps, hit.le, startingLineCount)
  {
    var phraseStart := FindSeq(m, buf, start + length, phrase);
    if phraseStart.None? {
      return Miss, Match(0, [], 0);
    }
    var ps := phraseStart.value;
    FindSeqFirst(m, buf, start + length, phrase);
    FramedLineEnd(m, ps, start + length, phrase);
    var lineEnd := FindByte(m, ps + 1, start + length, NEWLINE).value;
    var upToLineCount := Memory.CountByteInBlock(m, start, lineEnd - buf + 1, NEWLINE);
    hit := Hit(ps, lineEnd);
    found := Match(ps, Segment(m, ps + 1, lineEnd), startingLineCount + upToLineCount);
  }

  /** PhraseMatches in the shape of the inner loop: the matches printed so
      far, done, followed by those still to come from buf on. */
  function PhraseMatchesAfter(m: seq<byte>, start: nat, end: nat, phrase: seq<byte>, buf: nat,
                              startingLineCount: nat, done: seq<Match>): (r: seq<Match>)
    requires start <= buf <= end <= |m| && Framed(phrase)
    decreases end - buf
  {
    if buf == end then done
    else match NextHit(m, buf, end, phrase)
      case Miss => done
      case Hit(ps, le) =>
        PhraseMatchesAfter(m, start, end, phrase, le, startingLineCount,
                           done + [HitMatch(m, start, buf, ps, le, startingLineCount)])
  }

  /** The two shapes agree. */
  lemma {:induction false} PhraseMatchesAfterIs(m: seq<byte>, start: nat, end: nat, phrase: seq<byte>, buf: nat,
                                                startingLineCount: nat, done: seq<Match>)
    requires start <= buf <= end <= |m| && Framed(phrase)
    ensures PhraseMatchesAfter(m, start, end, phrase, buf, startingLineCount, done)
      == done + PhraseMatches(m, start, end, phrase, buf, startingLineCount)
    decreases end - buf
  {
    if buf == end {
      assert done + [] == done;
    } else {
      match NextHit(m, buf, end, phrase)
      case Miss =>
        assert done + [] == done;
      case Hit(ps, le) =>
        var x := HitMatch(m, start, buf, ps, le, startingLineCount);
        PhraseMatchesAfterIs(m, start, end, phrase, le, startingLineCount, done + [x]);
        assert (done + [x]) + PhraseMatches(m, start, end, phrase, le, startingLineCount)
          == done + ([x] + PhraseMatches(m, start, end, phrase, le, startingLineCount));
    }
  }

  /** Once the search reaches the end of the block or misses, the matches
      printed are all of PhraseMatches. */
  lemma MatchesDone(m: seq<byte>, start: nat, end: nat, phrase: seq<byte>, buf: nat,
                    startingLineCount: nat, matches: seq<Match>)
    requires start <= buf <= end <= |m| && Framed(phrase)
    requires buf == end || NextHit(m, buf, end, phrase) == Miss
    requires PhraseMatchesAfter(m, start, end, phrase, buf, startingLineCount, matches)
      == PhraseMatchesAfter(m, start, end, phrase, start, startingLineCount, [])
    ensures matches == PhraseMatches(m, start, end, phrase, start, startingLineCount)
  {
    PhraseMatchesAfterIs(m, start, end, phrase, start, startingLineCount, []);
    assert [] + PhraseMatches(m, start, end, phrase, start, startingLineCount)
      == PhraseMatches(m, start, end, phrase, start, startingLineCount);
  }

  /** The inner loop of handle_block_match_whole_line for one phrase; m is
      the bytes of the buffer. */
  method MatchPhrase(m: seq<byte>, start: nat, length: nat, phrase: seq<byte>,
                     startingLineCount: nat)
    returns (matches: seq<Match>)
    requires start + length <= |m| && Framed(phrase)
    ensures matches == PhraseMatches(m, start, start + length, phrase, start, startingLineCount)
  {
    var bufRemain: nat := length;
    var buf: nat := start;
    matches := [];
    while bufRemain != 0
      invariant start <= buf <= start + length && bufRemain == start + length - buf
      invariant PhraseMatchesAfter(m, start, start + length, phrase, buf, startingLineCount, matches)
        == PhraseMatchesAfter(m, start, start + length, phrase, start, startingLineCount, [])
      decreases bufRemain
    {
      var hit, found := FindMatch(m, start, length, phrase, buf, startingLineCount);
      if hit.Miss? {
        MatchesDone(m, start, start + length, phrase, buf, startingLineCount, matches);
        return;
      }
      matches := matches + [found];
      buf := hit.le;
      bufRemain := length - (buf - start);
    }
    MatchesDone(m, start, start + length, phrase, buf, startingLineCount, matches);
  }

  /** The outer loop of handle_block_match_whole_line: every phrase in turn. */
  method MatchAll(m: seq<byte>, start: nat, length: nat, phrases: seq<seq<byte>>, startingLineCount: nat)
    returns (matches: seq<Match>)
    requires start + length <= |m| && AllFramed(phrases)
    ensures matches == BlockMatches(m, start, start + length, phrases, startingLineCount)
  {
    matches := [];
    for i := 0 to |phrases|
      invariant matches == BlockMatches(m, start, start + length, phrases[..i], startingLineCount)
    {
      var found := MatchPhrase(m, start, length, phrases[i], startingLineCount);
      assert phrases[..i + 1][..i] == phrases[..i];
      matches := matches + found;
    }
    assert phrases[..|phrases|] == phrases;
  }

  /** handle_block_match_whole_line: the matches of every phrase in the block
      mem[start .. start + length), then the leftover copy, whose size is
      returned. */
  method HandleBlockMatchWholeLine(mem: array<byte>, start: nat, length: nat, overflowStart: nat,
                                   overflowLength: nat, phrases: seq<seq<byte>>, startingLineCount: nat)
    returns (leftoverSize: nat, matches: seq<Match>)
    requires start + length <= mem.Length && overflowStart + overflowLength <= mem.Length
    requires AllFramed(phrases)
    modifies mem
    ensures matches == BlockMatches(old(mem[..]), start, start + length, phrases, startingLineCount)
    ensures leftoverSize == LeftoverSize(old(mem[..]), start, length, overflowLength)
    ensures mem[..] == Carried(old(mem[..]), start, length, overflowStart, overflowLength)
  {
    matches := MatchAll(mem[..], start, length, phrases, startingLineCount);
    leftoverSize := CarryLeftover(mem, start, length, overflowStart, overflowLength);
  }

  /** The body of main's read loop after a successful read: the bytes read
      land in the second half of mem, the block from the leftover in front of
      them on is handed to handle_block_match_whole_line with the line count
      so far, and then the newlines of the bytes read, and of them only, are
      counted. */
  method HandleRead(mem: array<byte>, leftoverBlockSize: nat, bytesRead: seq<byte>,
                    phrases: seq<seq<byte>>, lineCount: nat)
    returns (leftover: nat, matches: seq<Match>, newlines: nat, ghost span: Span)
    requires mem.Length == 2 * FILE_BUFFER_SIZE
    requires leftoverBlockSize <= FILE_BUFFER_SIZE && |bytesRead| <= FILE_BUFFER_SIZE
    requires AllFramed(phrases)
    modifies mem
    ensures span.start == FILE_BUFFER_SIZE - leftoverBlockSize && span.start <= span.end <= |span.m|
    ensures span.m[span.start..span.end] == old(mem[FILE_BUFFER_SIZE - leftoverBlockSize..FILE_BUFFER_SIZE]) + bytesRead
    ensures matches == BlockMatches(span.m, span.start, span.end, phrases, lineCount)
    ensures newlines == CountByte(bytesRead, NEWLINE)
    ensures leftover <= FILE_BUFFER_SIZE && leftover == |CarryOf(span.m[span.start..span.end])|
    ensures mem[FILE_BUFFER_SIZE - leftover..FILE_BUFFER_SIZE] == CarryOf(span.m[span.start..span.end])
  {
    ghost var before := mem[..];
    Fill(mem, FILE_BUFFER_SIZE, bytesRead);
    var start := FILE_BUFFER_SIZE - leftoverBlockSize;
    var length := |bytesRead| + leftoverBlockSize;
    ghost var snap := mem[..];
    FilledBlock(before, leftoverBlockSize, bytesRead);
    SpliceSlice(before, FILE_BUFFER_SIZE, bytesRead, FILE_BUFFER_SIZE + |bytesRead|);
    span := Span(snap, start, start + length);
    leftover, matches := HandleBlockMatchWholeLine(mem, start, length, 0, FILE_BUFFER_SIZE, phrases, lineCount);
    CarriedIsCarryOf(snap, start, length);
    LeftoverSizeBounds(snap, start, length, FILE_BUFFER_SIZE);
    CarriedKeeps(snap, start, length, 0, FILE_BUFFER_SIZE, FILE_BUFFER_SIZE, FILE_BUFFER_SIZE + |bytesRead|);
    newlines := Memory.CountByteInBlock(mem[..], FILE_BUFFER_SIZE, |bytesRead|, NEWLINE);
    CountInSlice(mem[..], FILE_BUFFER_SIZE, FILE_BUFFER_SIZE + |bytesRead|, NEWLINE);
  }

  /** The matches printed over a whole trace of reads: block after block, the
      matches of each block, numbered from the newlines of the bytes read
      before it. spans are the blocks handled, one per successful read. */
  function TraceMatches(trace: seq<ReadResult>, spans: seq<Span>, phrases: seq<seq<byte>>): (r: seq<Match>)
    requires ValidSpans(spans) && |spans| == |Stitched(trace)| && AllFramed(phrases)
    decreases |trace|
  {
    if trace == [] then []
    else
      var init := trace[..|trace| - 1];
      match trace[|trace| - 1]
      case ReadFailed => TraceMatches(init, spans, phrases)
      case Read(b) =>
        var n := |spans| - 1;
        TraceMatches(init, spans[..n], phrases)
        + BlockMatches(spans[n].m, spans[n].start, spans[n].end, phrases, CountByte(ReadBytes(init), NEWLINE))
  }

  /** TraceMatches one successful read further on. */
  lemma TraceMatchesRead(trace: seq<ReadResult>, i: nat, spans: seq<Span>, span: Span, phrases: seq<seq<byte>>)
    requires i < |trace| && trace[i].Read? && AllFramed(phrases)
    requires ValidSpans(spans) && |spans| == |Stitched(trace[..i])|
    requires span.start <= span.end <= |span.m|
    ensures ValidSpans(spans + [span]) && |spans + [span]| == |Stitched(trace[..i + 1])|
    ensures TraceMatches(trace[..i + 1], spans + [span], phrases)
      == TraceMatches(trace[..i], spans, phrases)
         + BlockMatches(span.m, span.start, span.end, phrases, CountByte(ReadBytes(trace[..i]), NEWLINE))
  {
    TraceStep(trace, i);
    assert trace[..i + 1][..i] == trace[..i];
    assert (spans + [span])[..|spans|] == spans;
  }

  /** A failed read adds no match. */
  lemma TraceMatchesFailed(trace: seq<ReadResult>, i: nat, spans: seq<Span>, phrases: seq<seq<byte>>)
    requires i < |trace| && trace[i].ReadFailed? && AllFramed(phrases)
    requires ValidSpans(spans) && |spans| == |Stitched(trace[..i])|
    ensures |spans| == |Stitched(trace[..i + 1])|
    ensures TraceMatches(trace[..i + 1], spans, phrases) == TraceMatches(trace[..i], spans, phrases)
  {
    TraceStep(trace, i);
    assert trace[..i + 1][..i] == trace[..i];
  }

  /** What main's read loop keeps after the reads before i: the blocks
      handled so far, where they were placed, the matches printed, the
      newlines counted and the size of the leftover. */
  predicate Progress(trace: seq<ReadResult>, i: nat, spans: seq<Span>, phrases: seq<seq<byte>>,
                     matches: seq<Match>, lineCount: nat, carried: nat)
    requires AllFramed(phrases)
  {
    && i <= |trace|
    && carried == |LastCarry(trace[..i])| <= FILE_BUFFER_SIZE
    && BlocksOf(spans, Stitched(trace[..i])) && |spans| == |Stitched(trace[..i])| && Placed(spans, trace[..i])
    && lineCount == CountByte(ReadBytes(trace[..i]), NEWLINE)
    && matches == TraceMatches(trace[..i], spans, phrases)
  }

  /** The state of main's read loop one successful read further on. */
  lemma RunStep(trace: seq<ReadResult>, i: nat, spans: seq<Span>, span: Span, phrases: seq<seq<byte>>,
                matches: seq<Match>, found: seq<Match>, lineCount: nat, newlines: nat,
                carried: nat, leftover: nat, window: seq<byte>)
    requires i < |trace| && trace[i].Read? && AllFramed(phrases)
    requires Progress(trace, i, spans, phrases, matches, lineCount, carried)
    requires span.start <= span.end <= |span.m| && span.start == FILE_BUFFER_SIZE - carried
    requires span.m[span.start..span.end] == LastCarry(trace[..i]) + trace[i].bytes
    requires found == BlockMatches(span.m, span.start, span.end, phrases, lineCount)
    requires newlines == CountByte(trace[i].bytes, NEWLINE)
    requires leftover <= FILE_BUFFER_SIZE && leftover == |CarryOf(span.m[span.start..span.end])|
    requires window == CarryOf(span.m[span.start..span.end])
    ensures Progress(trace, i + 1, spans + [span], phrases, matches + found, lineCount + newlines, leftover)
    ensures window == LastCarry(trace[..i + 1])
  {
    TraceMatchesRead(trace, i, spans, span, phrases);
    BlocksStep(trace, i, spans, span);
    PlacedRead(trace, i, spans, span);
    CarryStep(trace, i, span, leftover, window);
    TraceStep(trace, i);
    CountByteAppend(ReadBytes(trace[..i]), trace[i].bytes, NEWLINE);
  }

  /** The state of main's read loop after a failed read at i. */
  lemma FailedStep(trace: seq<ReadResult>, i: nat, spans: seq<Span>, phrases: seq<seq<byte>>,
                   matches: seq<Match>, lineCount: nat, carried: nat)
    requires i < |trace| && trace[i].ReadFailed? && AllFramed(phrases)
    requires Progress(trace, i, spans, phrases, matches, lineCount, carried)
    ensures Progress(trace, i + 1, spans, phrases, matches, lineCount, carried)
  {
    TraceStep(trace, i);
    TraceMatchesFailed(trace, i, spans, phrases);
    PlacedFailed(trace, i, spans);
  }

  /** The phrases main searches for: each command-line phrase framed. */
  function FrameAll(raws: seq<seq<byte>>): (r: seq<seq<byte>>)
    ensures |r| == |raws| && AllFramed(r)
  {
    seq(|raws|, k requires 0 <= k < |raws| => Frame(raws[k]))
  }

  /** With command-line phrases that hold no newline, every line printed over
      the whole file is one of them. */
  lemma {:induction false} TraceMatchesText(trace: seq<ReadResult>, spans: seq<Span>, raws: seq<seq<byte>>)
    requires ValidSpans(spans) && |spans| == |Stitched(trace)| && SingleLines(raws)
    ensures PrintsOnly(TraceMatches(trace, spans, FrameAll(raws)), raws)
    decreases |trace|
  {
    if trace != [] {
      var init := trace[..|trace| - 1];
      match trace[|trace| - 1]
      case ReadFailed =>
        TraceMatchesText(init, spans, raws);
      case Read(b) =>
        var n := |spans| - 1;
        TraceMatchesText(init, spans[..n], raws);
        BlockMatchesText(spans[n].m, spans[n].start, spans[n].end, raws, CountByte(ReadBytes(init), NEWLINE));
        PrintsOnlyConcat(TraceMatches(init, spans[..n], FrameAll(raws)),
                         BlockMatches(spans[n].m, spans[n].start, spans[n].end, FrameAll(raws), CountByte(ReadBytes(init), NEWLINE)),
                         raws);
    }
  }

  /** A search reads nothing of the memory outside [buf, end). */
  lemma NextHitAgree(m: seq<byte>, n: seq<byte>, buf: nat, end: nat, phrase: seq<byte>)
    requires Agree(m, n, buf, end) && Framed(phrase)
    ensures NextHit(m, buf, end, phrase) == NextHit(n, buf, end, phrase)
  {
    FindSeqAgree(m, n, buf, end, phrase);
    FindSeqFirst(m, buf, end, phrase);
    match FindSeq(m, buf, end, phrase)
    case None =>
    case Some(ps) =>
      FramedLineEnd(m, ps, end, phrase);
      AgreeWithin(m, n, buf, end, ps + 1, end);
      FindByteAgree(m, n, ps + 1, end, NEWLINE);
  }

  /** The line printed for a hit reads nothing of the memory outside the
      block. */
  lemma HitMatchAgree(m: seq<byte>, n: seq<byte>, start: nat, end: nat, buf: nat, ps: nat, le: nat,
                      startingLineCount: nat)
    requires Agree(m, n, start, end) && start <= buf <= ps < le < end
    ensures HitMatch(m, start, buf, ps, le, startingLineCount) == HitMatch(n, start, buf, ps, le, startingLineCount)
  {
    AgreeWithin(m, n, start, end, ps + 1, le);
    SegmentAgree(m, n, ps + 1, le);
    AgreeWithin(m, n, start, end, start, start + (le - buf + 1));
    CountInAgree(m, n, start, start + (le - buf + 1), NEWLINE);
  }

  /** The inner loop for one phrase reads nothing of the memory outside its
      block, whatever lies around it. */
  lemma {:induction false} PhraseMatchesAgree(m: seq<byte>, n: seq<byte>, start: nat, end: nat,
                                              phrase: seq<byte>, buf: nat, startingLineCount: nat)
    requires Agree(m, n, start, end) && start <= buf <= end && Framed(phrase)
    ensures PhraseMatches(m, start, end, phrase, buf, startingLineCount)
         == PhraseMatches(n, start, end, phrase, buf, startingLineCount)
    decreases end - buf
  {
    if buf < end {
      AgreeWithin(m, n, start, end, buf, end);
      NextHitAgree(m, n, buf, end, phrase);
      match NextHit(m, buf, end, phrase)
      case Miss =>
      case Hit(ps, le) =>
        PhraseMatchesAgree(m, n, start, end, phrase, le, startingLineCount);
        HitMatchAgree(m, n, start, end, buf, ps, le, startingLineCount);
    }
  }

  /** handle_block_match_whole_line's matches depend only on its block and on
      where the block lies. */
  lemma {:induction false} BlockMatchesAgree(m: seq<byte>, n: seq<byte>, start: nat, end: nat,
                                             phrases: seq<seq<byte>>, startingLineCount: nat)
    requires Agree(m, n, start, end) && AllFramed(phrases)
    ensures BlockMatches(m, start, end, phrases, startingLineCount)
         == BlockMatches(n, start, end, phrases, startingLineCount)
    decreases |phrases|
  {
    if phrases != [] {
      var k := |phrases| - 1;
      BlockMatchesAgree(m, n, start, end, phrases[..k], startingLineCount);
      PhraseMatchesAgree(m, n, start, end, phrases[k], start, startingLineCount);
    }
  }

  /** The matches over a whole trace, from the reads alone: each stitched
      block is searched where main puts it, the leftover ending at
      FILE_BUFFER_SIZE, with the newlines of the bytes read before it as its
      starting line count. */
  function StitchedMatches(trace: seq<ReadResult>, phrases: seq<seq<byte>>): (r: seq<Match>)
    requires AllFramed(phrases)
    decreases |trace|
  {
    if trace == [] then []
    else
      var init := trace[..|trace| - 1];
      match trace[|trace| - 1]
      case ReadFailed => StitchedMatches(init, phrases)
      case Read(b) =>
        var carry := LastCarry(init);
        StitchedMatches(init, phrases)
        + BlockMatches(Layout(carry, b), PadOf(carry), PadOf(carry) + |carry| + |b|, phrases,
                       CountByte(ReadBytes(init), NEWLINE))
  }

  /** What main prints for the blocks it handles is what StitchedMatches
      finds: the output, positions included, depends on the trace alone and
      not on the bytes left in memory around each block. */
  lemma {:induction false} TraceMatchesStitched(trace: seq<ReadResult>, spans: seq<Span>, phrases: seq<seq<byte>>)
    requires BlocksOf(spans, Stitched(trace)) && |spans| == |Stitched(trace)| && Placed(spans, trace)
    requires AllFramed(phrases)
    ensures TraceMatches(trace, spans, phrases) == StitchedMatches(trace, phrases)
    decreases |trace|
  {
    if trace != [] {
      var init := trace[..|trace| - 1];
      match trace[|trace| - 1]
      case ReadFailed =>
        TraceMatchesStitched(init, spans, phrases);
      case Read(b) =>
        var n := |spans| - 1;
        var carry := LastCarry(init);
        var sp := spans[n];
        var c := CountByte(ReadBytes(init), NEWLINE);
        BlocksOfLast(trace, spans);
        TraceMatchesStitched(init, spans[..n], phrases);
        BlockInLayout(sp.m, sp.start, sp.end, carry, b, phrases, c);
        TraceMatchesLast(trace, spans, phrases, init, b, c);
        StitchedMatchesRead(trace, phrases, init, b, carry, sp.start, sp.end, c);
    }
  }

  /** A block main handles finds what it finds in the layout of the block. */
  lemma BlockInLayout(m: seq<byte>, start: nat, end: nat, carry: seq<byte>, b: seq<byte>,
                      phrases: seq<seq<byte>>, startingLineCount: nat)
    requires start <= end <= |m| && m[start..end] == carry + b && start == PadOf(carry)
    requires AllFramed(phrases)
    ensures end == start + |carry| + |b| && end <= |Layout(carry, b)|
    ensures BlockMatches(m, start, end, phrases, startingLineCount)
         == BlockMatches(Layout(carry, b), start, end, phrases, startingLineCount)
  {
    LayoutAgree(Span(m, start, end), carry, b);
    BlockMatchesAgree(m, Layout(carry, b), start, end, phrases, startingLineCount);
  }

  /** TraceMatches of a trace that ends in a successful read. */
  lemma TraceMatchesLast(trace: seq<ReadResult>, spans: seq<Span>, phrases: seq<seq<byte>>,
                         init: seq<ReadResult>, b: seq<byte>, startingLineCount: nat)
    requires trace != [] && init == trace[..|trace| - 1] && trace[|trace| - 1] == Read(b)
    requires ValidSpans(spans) && |spans| == |Stitched(trace)| && AllFramed(phrases)
    requires startingLineCount == CountByte(ReadBytes(init), NEWLINE)
    ensures trace == init + [Read(b)] && |spans| > 0
    ensures TraceMatches(trace, spans, phrases)
         == TraceMatches(init, spans[..|spans| - 1], phrases)
            + BlockMatches(spans[|spans| - 1].m, spans[|spans| - 1].start, spans[|spans| - 1].end, phrases, startingLineCount)
  {
  }

  /** StitchedMatches one successful read further on. */
  lemma StitchedMatchesRead(trace: seq<ReadResult>, phrases: seq<seq<byte>>, init: seq<ReadResult>, b: seq<byte>,
                            carry: seq<byte>, start: nat, end: nat, startingLineCount: nat)
    requires trace == init + [Read(b)] && AllFramed(phrases)
    requires carry == LastCarry(init) && start == PadOf(carry) && end == start + |carry| + |b|
    requires startingLineCount == CountByte(ReadBytes(init), NEWLINE)
    ensures StitchedMatches(trace, phrases)
         == StitchedMatches(init, phrases) + BlockMatches(Layout(carry, b), start, end, phrases, startingLineCount)
  {
    assert trace[..|trace| - 1] == init;
  }

  /** How find_line ends: a usage message when no phrase is given, otherwise
      the matches printed and the number of lines printed at the end. */
  datatype Outcome = Usage | Searched(matches: seq<Match>, lineCount: nat)

  /** One successful read of main's read loop: the read bytes handled by
      HandleRead, and the loop's state one read further on. */
  method SearchStep(mem: array<byte>, trace: seq<ReadResult>, i: nat, ghost spans: seq<Span>,
                    phrases: seq<seq<byte>>, matches: seq<Match>, lineCount: nat, leftoverBlockSize: nat)
    returns (leftover: nat, found: seq<Match>, newlines: nat, ghost span: Span)
    requires mem.Length == 2 * FILE_BUFFER_SIZE && AllFramed(phrases)
    requires i < |trace| && trace[i].Read? && |trace[i].bytes| <= FILE_BUFFER_SIZE
    requires Progress(trace, i, spans, phrases, matches, lineCount, leftoverBlockSize)
    requires mem[FILE_BUFFER_SIZE - leftoverBlockSize..FILE_BUFFER_SIZE] == LastCarry(trace[..i])
    modifies mem
    ensures Progress(trace, i + 1, spans + [span], phrases, matches + found, lineCount + newlines, leftover)
    ensures mem[FILE_BUFFER_SIZE - leftover..FILE_BUFFER_SIZE] == LastCarry(trace[..i + 1])
  {
    leftover, found, newlines, span := HandleRead(mem, leftoverBlockSize, trace[i].bytes, phrases, lineCount);
    RunStep(trace, i, spans, span, phrases, matches, found, lineCount, newlines, leftoverBlockSize, leftover,
            mem[FILE_BUFFER_SIZE - leftover..FILE_BUFFER_SIZE]);
  }

  /** main's read loop, for the framed phrases. */
  method Search(trace: seq<ReadResult>, fileSize: nat, phrases: seq<seq<byte>>)
    returns (matches: seq<Match>, lineCount: nat, ghost spans: seq<Span>)
    requires IsReadTrace(trace, 0, fileSize) && AllFramed(phrases)
    ensures BlocksOf(spans, Stitched(trace)) && |spans| == |Stitched(trace)| && Placed(spans, trace)
    ensures matches == TraceMatches(trace, spans, phrases)
    ensures lineCount == CountByte(ReadBytes(trace), NEWLINE)
  {
    spans := [];
    var mem := new byte[2 * FILE_BUFFER_SIZE];
    var leftoverBlockSize: nat := 0;
    lineCount := 0;
    matches := [];
    var bytesParsed: nat := 0;
    var i := 0;
    while true
      invariant mem.Length == 2 * FILE_BUFFER_SIZE
      invariant i < |trace| && IsReadTrace(trace[i..], bytesParsed, fileSize)
      invariant Progress(trace, i, spans, phrases, matches, lineCount, leftoverBlockSize)
      invariant mem[FILE_BUFFER_SIZE - leftoverBlockSize..FILE_BUFFER_SIZE] == LastCarry(trace[..i])
      decreases |trace| - i
    {
      ReadTraceStep(trace, i, bytesParsed, fileSize);
      if trace[i].ReadFailed? {
        FailedStep(trace, i, spans, phrases, matches, lineCount, leftoverBlockSize);
        WholeTrace(trace, i + 1);
        break;
      }
      var bytesRead := trace[i].bytes;
      ghost var parsedBefore := bytesParsed;
      var leftover, found, newlines, span := SearchStep(mem, trace, i, spans, phrases, matches, lineCount, leftoverBlockSize);
      spans := spans + [span];
      matches := matches + found;
      lineCount := lineCount + newlines;
      leftoverBlockSize := leftover;
      bytesParsed := bytesParsed + |bytesRead|;
      i := i + 1;
      if bytesParsed >= fileSize {
        WholeTrace(trace, i);
        break;
      }
      ReadTraceNext(trace, i - 1, parsedBefore, fileSize, bytesRead, i, bytesParsed);
    }
  }

  /** main: the phrase assembly, then the read loop that stitches every read
      onto the leftover of the previous block, searches the block, and adds
      the newlines of the bytes read to the line count. A failed read ends the
      loop, and the count so far is still printed. spans are the blocks
      searched, in order. */
  method Run(trace: seq<ReadResult>, fileSize: nat, raws: seq<seq<byte>>)
    returns (outcome: Outcome, ghost spans: seq<Span>)
    requires IsReadTrace(trace, 0, fileSize)
    ensures raws == [] <==> outcome == Usage
    ensures raws != [] ==>
      && BlocksOf(spans, Stitched(trace)) && |spans| == |Stitched(trace)|
      && outcome == Searched(TraceMatches(trace, spans, FrameAll(raws)), CountByte(ReadBytes(trace), NEWLINE))
    ensures raws != [] ==> outcome.matches == StitchedMatches(trace, FrameAll(raws))
  {
    spans := [];
    if raws == [] {
      return Usage, spans;
    }
    var phrases := AssemblePhrases(raws);
    assert phrases == FrameAll(raws);
    var matches, lineCount;
    matches, lineCount, spans := Search(trace, fileSize, phrases);
    TraceMatchesStitched(trace, spans, phrases);
    outcome := Searched(matches, lineCount);
  }
}
