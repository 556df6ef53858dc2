/**
 * A message on which stripping links before censoring does not give the
 * censored message with the links deleted: a link that extraction finds is the
 * whole gap between two censored runs.
 */
module StripWitness {
  import opened Wrappers
  import opened Spans
  import opened Utf8Text
  import opened ByteEncoding
  import opened Censoring
  import opened Stripping
  import opened StripThenCensor
  import opened StripCorrectness
  import opened StripExactness
  import opened UrlScanner

  /**
   * A smiling face, the link "a.co", and "<" with a stroke through it before
   * "b": the link ends before "<", and the face is no word character, so the
   * link starts after it.
   */
  const MESSAGE := "\U{1F600}a.co<\U{0338}b"

  const BYTES: Bytes := [0xF0, 0x9F, 0x98, 0x80, 0x61, 0x2E, 0x63, 0x6F, 0x3C, 0xCC, 0xB8, 0x62]

  /** The face, and the crossed "<" with "b". */
  const CENSORED_SPANS := [ByteSpan(0, 4), ByteSpan(8, 12)]

  const LINK := ByteSpan(4, 8)

  const CANDIDATES := [UrlCandidate(LINK, SurfaceSpan(LINK, LINK))]

  // ---- Bytes and offsets ----------------------------------------------------------------------

  lemma Bytes()
    ensures Utf8(MESSAGE) == BYTES
  {
    var a, b := "\U{1F600}a.c", "o<\U{0338}b";
    assert MESSAGE == a + b;
    Utf8Concat(a, b);
    FirstBytes();
    LastBytes();
  }

  lemma FirstBytes()
    ensures Utf8("\U{1F600}a.c") == [0xF0, 0x9F, 0x98, 0x80, 0x61, 0x2E, 0x63]
  {
    var s := "\U{1F600}a.c";
    assert s[1..] == "a.c" && "a.c"[1..] == ".c" && ".c"[1..] == "c" && "c"[1..] == "";
    assert Encode('\U{1F600}') == [0xF0, 0x9F, 0x98, 0x80];
    assert Utf8("c") == [0x63] && Utf8(".c") == [0x2E, 0x63] && Utf8("a.c") == [0x61, 0x2E, 0x63];
  }

  lemma LastBytes()
    ensures Utf8("o<\U{0338}b") == [0x6F, 0x3C, 0xCC, 0xB8, 0x62]
  {
    var s := "o<\U{0338}b";
    assert s[1..] == "<\U{0338}b" && "<\U{0338}b"[1..] == "\U{0338}b" && "\U{0338}b"[1..] == "b" && "b"[1..] == "";
    assert Encode('\U{0338}') == [0xCC, 0xB8];
    assert Utf8("b") == [0x62] && Utf8("\U{0338}b") == [0xCC, 0xB8, 0x62] && Utf8("<\U{0338}b") == [0x3C, 0xCC, 0xB8, 0x62];
  }

  lemma Offsets()
    ensures Offset(MESSAGE, 0) == 0 && Offset(MESSAGE, 1) == 4 && Offset(MESSAGE, 5) == 8 && Offset(MESSAGE, 8) == 12
  {
    OffsetStep(MESSAGE, 0);
    OffsetStep(MESSAGE, 1);
    OffsetStep(MESSAGE, 2);
    OffsetStep(MESSAGE, 3);
    OffsetStep(MESSAGE, 4);
    OffsetStep(MESSAGE, 5);
    OffsetStep(MESSAGE, 6);
    OffsetStep(MESSAGE, 7);
  }

  lemma ScalarsOfSpans()
    ensures ByteLen(MESSAGE) == 12
    ensures IsBoundary(MESSAGE, 0) && Scalar(MESSAGE, 0) == 0 && IsBoundary(MESSAGE, 4) && Scalar(MESSAGE, 4) == 1
    ensures IsBoundary(MESSAGE, 8) && Scalar(MESSAGE, 8) == 5 && IsBoundary(MESSAGE, 12) && Scalar(MESSAGE, 12) == 8
  {
    hide ScalarAt, ByteLen;
    Offsets();
    assert MESSAGE[..8] == MESSAGE;
    ScalarOfOffset(MESSAGE, 0);
    ScalarOfOffset(MESSAGE, 1);
    ScalarOfOffset(MESSAGE, 5);
    ScalarOfOffset(MESSAGE, 8);
  }

  // ---- The link is extracted --------------------------------------------------------------------

  lemma NoStart(b: nat)
    requires b < |BYTES| && !IsAlnum(BYTES[b])
    ensures Candidate(BYTES, b) == None
  {
    hide TokenEnd, TrimEnd, Position;
    assert Lower(BYTES[b]) != "https://"[0] as nat && Lower(BYTES[b]) != "http://"[0] as nat;
  }

  lemma LastByteIsNoLink()
    ensures Candidate(BYTES, 11) == None
  {
    hide TrimEnd, Position;
    assert Lower(BYTES[11]) != "https://"[0] as nat && Lower(BYTES[11]) != "http://"[0] as nat;
    assert RunEnd(BYTES, 12, 12) == 12;
  }

  lemma TokenOfLink()
    ensures TokenEnd(BYTES, 4) == 8 && TrimEnd(BYTES, 4, 8) == 8
  {
    assert EndsToken(BYTES[8]) by { assert "<>`"[0] == '<'; }
    assert TokenEnd(BYTES, 8) == 8;
    assert TokenEnd(BYTES, 7) == 8;
    assert TokenEnd(BYTES, 6) == 8;
    assert TokenEnd(BYTES, 5) == 8;
    NotTerminal(BYTES[7]);
  }

  lemma DomainOfLink()
    ensures ScanDomain(BYTES, 4, 8, 0) == Some(8)
  {
    assert RunEnd(BYTES, 5, 8) == 5;
    assert RunEnd(BYTES, 8, 8) == 8 && RunEnd(BYTES, 7, 8) == 8;
    assert AllAlpha(BYTES, 6, 8);
    assert ScanDomain(BYTES, 6, 8, 1) == Some(8);
  }

  lemma LinkFound()
    ensures Candidate(BYTES, 4) == Some(CANDIDATES[0])
  {
    hide TokenEnd, TrimEnd, Position, ScanDomain;
    TokenOfLink();
    DomainOfLink();
    assert Lower(BYTES[4]) != "https://"[0] as nat && Lower(BYTES[4]) != "http://"[0] as nat && Lower(BYTES[4]) != "www."[0] as nat;
  }

  lemma LinkIsTaken(alphanumeric: char -> bool)
    requires !alphanumeric('\U{1F600}')
    ensures Taken(alphanumeric, MESSAGE, CANDIDATES[0], 12)
  {
    hide Candidate, CandidateOk, Utf8, ScalarAt, ByteLen;
    Bytes();
    LinkFound();
    ScalarsOfSpans();
    CandidateIsOk(MESSAGE, 4);
  }

  lemma NoOtherLink(b: nat)
    requires b < 12 && !(4 <= b < 8)
    ensures Candidate(BYTES, b) == None
  {
    if b == 11 {
      LastByteIsNoLink();
    } else {
      NoStart(b);
    }
  }

  lemma LinkIsExtracted(alphanumeric: char -> bool)
    requires !alphanumeric('\U{1F600}')
    ensures Extracted(alphanumeric, MESSAGE, CANDIDATES, |Utf8(MESSAGE)|) && Urls(CANDIDATES) == [LINK]
  {
    hide Candidate, CandidateOk, Utf8, IsBoundary, Taken, MayStart;
    Bytes();
    LinkIsTaken(alphanumeric);
    forall b: nat | b < 12 && StartsLink(alphanumeric, MESSAGE, b) ensures InsideOne(CANDIDATES, b) {
      if 4 <= b < 8 {
        assert CANDIDATES[0].url.start <= b < CANDIDATES[0].url.end;
      } else {
        NoOtherLink(b);
      }
    }
  }

  // ---- The results differ ------------------------------------------------------------------------

  lemma SpansKept()
    ensures Surviving(CENSORED_SPANS, [LINK]) == CENSORED_SPANS
    ensures MergedSpans(CENSORED_SPANS) == CENSORED_SPANS && MergedSpans([LINK]) == [LINK]
  {
    var a, b := CENSORED_SPANS[0], CENSORED_SPANS[1];
    assert !OverlapsAny(a, [LINK]) && !OverlapsAny(b, [LINK]);
    assert CENSORED_SPANS[1..] == [b] && [b][1..] == [];
    assert Surviving([b], [LINK]) == [b];
    assert Canonical(CENSORED_SPANS) && Canonical([LINK]);
    MergedFixed(CENSORED_SPANS);
    MergedFixed([LINK]);
  }

  lemma SpansInScalars()
    ensures AllValid(MESSAGE, CENSORED_SPANS) && AllValid(MESSAGE, [LINK])
    ensures Runs(MESSAGE, CENSORED_SPANS, [LINK]) == [ByteSpan(0, 1), ByteSpan(5, 8)]
    ensures Links(MESSAGE, [LINK]) == [ByteSpan(1, 5)]
  {
    hide ScalarAt, ByteLen, Surviving, MergedSpans;
    ScalarsOfSpans();
    SpansKept();
  }

  /**
   * Two censored runs that cutting an extracted link joins are masked as one
   * run, which shows the first run's only scalar; the censored message hides it.
   */
  lemma TouchingRunsDiffer(alphanumeric: char -> bool)
    requires !alphanumeric('\U{1F600}')
    ensures Extracted(alphanumeric, MESSAGE, CANDIDATES, |Utf8(MESSAGE)|) && Urls(CANDIDATES) == [LINK]
    ensures AllValid(MESSAGE, CENSORED_SPANS) && AllValid(MESSAGE, [LINK])
    ensures Transformed(MESSAGE, CENSORED_SPANS, true, [LINK])
      != Ok(Kept(CensorText(MESSAGE, Runs(MESSAGE, CENSORED_SPANS, [LINK])), Links(MESSAGE, [LINK])))
  {
    hide Extracted, Transformed, Kept, CensorText, AllValid, Runs, Links;
    LinkIsExtracted(alphanumeric);
    SpansInScalars();
    StripThenCensorIff(MESSAGE, CENSORED_SPANS, [LINK]);
    var runs, links := [ByteSpan(0, 1), ByteSpan(5, 8)], [ByteSpan(1, 5)];
    assert ByteSpan(runs[0].end, runs[1].start) == links[0];
    assert Joined(runs, links) == {1};
    assert FirstChanges(runs, {1}, 0);
    assert MESSAGE[runs[0].start] != '#';
  }
}
