/**
 * analysis.rs: the URL scanner. It works on the UTF-8 bytes of a message; the
 * links it finds are ordered, disjoint, on character boundaries, each around
 * a domain of the stated grammar, and no link start outside them is missed.
 */
module UrlScanner {
  import opened Wrappers
  import opened Spans
  import opened Utf8Text
  import opened ByteEncoding
  import opened Censoring
  import opened StripThenCensor
  import StripCorrectness

  type Bytes = seq<Byte>

  // ---- Boundaries ---------------------------------------------------------------------------

  lemma {:induction false} Utf8Concat(a: string, b: string)
    ensures Utf8(a + b) == Utf8(a) + Utf8(b)
  {
    if a == [] {
      assert a + b == b;
    } else {
      assert (a + b)[1..] == a[1..] + b && (a + b)[0] == a[0];
      Utf8Concat(a[1..], b);
    }
  }

  /** The bytes of scalar `i`. */
  lemma ScalarBytes(s: string, i: nat)
    requires i < |s|
    ensures Offset(s, i) < Offset(s, i + 1) <= |Utf8(s)| && Utf8(s)[Offset(s, i)..Offset(s, i + 1)] == Encode(s[i])
  {
    hide Encode, Utf8, ByteLen;
    var pre, one, post := s[..i], [s[i]], s[i + 1..];
    Utf8Length(s);
    Utf8Length(pre);
    OffsetStep(s, i);
    OffsetBound(s, i + 1);
    assert s == pre + (one + post);
    Utf8Concat(pre, one + post);
    Utf8Concat(one, post);
    OneScalar(s[i]);
  }

  lemma OneScalar(c: char)
    ensures Utf8([c]) == Encode(c)
  {
    assert [c][1..] == [] && Utf8([]) == [];
  }

  lemma AsciiEncoding(c: char, k: nat)
    requires k < |Encode(c)| && Encode(c)[k] < 0x80
    ensures k == 0 && |Encode(c)| == 1
  {
  }

  /** Which scalar a byte belongs to. */
  lemma {:induction false} ScalarOfByte(s: string, b: nat, n: nat) returns (i: nat)
    requires n <= |s| && b < Offset(s, n)
    ensures i < n && Offset(s, i) <= b < Offset(s, i + 1)
  {
    if b >= Offset(s, n - 1) {
      i := n - 1;
    } else {
      i := ScalarOfByte(s, b, n - 1);
    }
  }

  /** Both sides of an ASCII byte are character boundaries. */
  lemma AsciiBoundary(s: string, b: nat)
    requires b < |Utf8(s)| && Utf8(s)[b] < 0x80
    ensures IsBoundary(s, b) && IsBoundary(s, b + 1)
  {
    Utf8Length(s);
    assert s[..|s|] == s;
    var i := ScalarOfByte(s, b, |s|);
    ScalarBytes(s, i);
    var k := b - Offset(s, i);
    assert Encode(s[i])[k] == Utf8(s)[Offset(s, i)..Offset(s, i + 1)][k] == Utf8(s)[b];
    AsciiEncoding(s[i], k);
    ScalarOfOffset(s, i);
    ScalarOfOffset(s, i + 1);
  }

  // ---- Byte tests --------------------------------------------------------------------------------

  predicate IsDigit(b: Byte) { '0' as nat <= b <= '9' as nat }

  predicate IsAlpha(b: Byte) { 'a' as nat <= b <= 'z' as nat || 'A' as nat <= b <= 'Z' as nat }

  predicate IsAlnum(b: Byte) { IsDigit(b) || IsAlpha(b) }

  predicate IsLabelByte(b: Byte) { IsAlnum(b) || b == '-' as nat }

  predicate OneOf(b: Byte, s: string) { exists i :: 0 <= i < |s| && b == s[i] as nat }

  const TERMINAL := ".,!?;:'\"`)]}"

  predicate EndsToken(b: Byte) { b == 0x20 || b == 0x09 || b == 0x0A || b == 0x0C || b == 0x0D || OneOf(b, "<>`") }

  function Lower(b: Byte): Byte { if 'A' as nat <= b <= 'Z' as nat then b + 32 else b }

  predicate StartsWith(bytes: Bytes, start: nat, needle: string) {
    start + |needle| <= |bytes| && forall i :: 0 <= i < |needle| ==> Lower(bytes[start + i]) == needle[i] as nat
  }

  // ---- The domain grammar --------------------------------------------------------------------------

  /** Letters, digits and inner hyphens. */
  predicate IsLabel(bytes: Bytes, a: nat, b: nat) {
    a < b <= |bytes| && IsAlnum(bytes[a]) && bytes[b - 1] != '-' as nat && forall i :: a <= i < b ==> IsLabelByte(bytes[i])
  }

  /** At least two letters and nothing else. */
  predicate IsTopLabel(bytes: Bytes, a: nat, b: nat) {
    a + 2 <= b <= |bytes| && forall i :: a <= i < b ==> IsAlpha(bytes[i])
  }

  /** `n` labels separated by dots, the last one a top-level label. */
  ghost predicate Labels(bytes: Bytes, start: nat, end: nat, n: nat)
    decreases n
  {
    if n == 0 then false
    else if n == 1 then IsLabel(bytes, start, end) && IsTopLabel(bytes, start, end)
    else exists m: nat :: IsLabel(bytes, start, m) && m < |bytes| && bytes[m] == '.' as nat && Labels(bytes, m + 1, end, n - 1)
  }

  /** Neither the last label nor the list of labels goes on at `end`. */
  predicate StopsAt(bytes: Bytes, end: nat, limit: nat)
    requires limit <= |bytes|
  {
    end <= limit && (end < limit ==>
      !IsLabelByte(bytes[end]) && !(bytes[end] == '.' as nat && end + 1 < limit && IsAlnum(bytes[end + 1])))
  }

  ghost predicate IsDomain(bytes: Bytes, start: nat, end: nat) { exists n: nat :: n >= 2 && Labels(bytes, start, end, n) }

  /** The first byte from `i` on that no label contains. */
  function RunEnd(bytes: Bytes, i: nat, limit: nat): (e: nat)
    requires i <= limit <= |bytes|
    ensures i <= e <= limit && (forall k :: i <= k < e ==> IsLabelByte(bytes[k])) && (e < limit ==> !IsLabelByte(bytes[e]))
    decreases limit - i
  {
    if i < limit && IsLabelByte(bytes[i]) then RunEnd(bytes, i + 1, limit) else i
  }

  predicate AllAlpha(bytes: Bytes, a: nat, b: nat)
    requires a <= b <= |bytes|
  {
    forall i :: a <= i < b ==> IsAlpha(bytes[i])
  }

  /** One label at a time, `before` labels having been read. */
  function ScanDomain(bytes: Bytes, start: nat, limit: nat, before: nat): Option<nat>
    requires limit <= |bytes|
    decreases limit - start
  {
    if start >= limit || !IsAlnum(bytes[start]) then None
    else
      var e := RunEnd(bytes, start + 1, limit);
      if bytes[e - 1] == '-' as nat then None
      else if e + 1 < limit && bytes[e] == '.' as nat && IsAlnum(bytes[e + 1]) then ScanDomain(bytes, e + 1, limit, before + 1)
      else if before + 1 >= 2 && e - start >= 2 && AllAlpha(bytes, start, e) then Some(e) else None
  }

  lemma RunIsLabel(bytes: Bytes, start: nat, limit: nat)
    requires start < limit <= |bytes| && IsAlnum(bytes[start]) && bytes[RunEnd(bytes, start + 1, limit) - 1] != '-' as nat
    ensures IsLabel(bytes, start, RunEnd(bytes, start + 1, limit))
  {
  }

  /** A label that a non-label byte or the limit ends is the whole run. */
  lemma LabelIsRun(bytes: Bytes, start: nat, m: nat, limit: nat)
    requires IsLabel(bytes, start, m) && m <= limit <= |bytes| && (m < limit ==> !IsLabelByte(bytes[m]))
    ensures RunEnd(bytes, start + 1, limit) == m
  {
    var e := RunEnd(bytes, start + 1, limit);
    assert !(e < m) && !(m < e);
  }

  lemma {:induction false} ScanSound(bytes: Bytes, start: nat, limit: nat, before: nat)
    requires limit <= |bytes| && ScanDomain(bytes, start, limit, before).Some?
    ensures var e := ScanDomain(bytes, start, limit, before).value;
      StopsAt(bytes, e, limit) && exists n: nat :: n >= 1 && before + n >= 2 && Labels(bytes, start, e, n)
    decreases limit - start
  {
    var m := RunEnd(bytes, start + 1, limit);
    RunIsLabel(bytes, start, limit);
    hide IsLabel, RunEnd, Labels, IsLabelByte;
    if m + 1 < limit && bytes[m] == '.' as nat && IsAlnum(bytes[m + 1]) {
      ScanSound(bytes, m + 1, limit, before + 1);
      var e := ScanDomain(bytes, m + 1, limit, before + 1).value;
      hide StopsAt;
      var n: nat :| n >= 1 && before + 1 + n >= 2 && Labels(bytes, m + 1, e, n);
      AddLabel(bytes, start, m, e, n);
    } else {
      LastLabel(bytes, start, m);
    }
  }

  lemma AddLabel(bytes: Bytes, start: nat, m: nat, e: nat, n: nat)
    requires IsLabel(bytes, start, m) && m < |bytes| && bytes[m] == '.' as nat && n >= 1 && Labels(bytes, m + 1, e, n)
    ensures Labels(bytes, start, e, n + 1)
  {
    hide IsLabel, IsTopLabel;
  }

  lemma LastLabel(bytes: Bytes, start: nat, m: nat)
    requires IsLabel(bytes, start, m) && start + 2 <= m && AllAlpha(bytes, start, m)
    ensures Labels(bytes, start, m, 1)
  {
    TopLabel(bytes, start, m);
    hide IsLabel, IsTopLabel;
  }

  lemma TopLabel(bytes: Bytes, a: nat, b: nat)
    requires a + 2 <= b <= |bytes| && AllAlpha(bytes, a, b)
    ensures IsTopLabel(bytes, a, b)
  {
  }

  lemma {:induction false} ScanComplete(bytes: Bytes, start: nat, limit: nat, before: nat, e: nat, n: nat)
    requires limit <= |bytes| && n >= 1 && before + n >= 2 && Labels(bytes, start, e, n) && StopsAt(bytes, e, limit)
    ensures ScanDomain(bytes, start, limit, before) == Some(e)
    decreases n
  {
    hide RunEnd, IsTopLabel, IsLabel;
    if n == 1 {
      OnlyLabel(bytes, start, limit, before, e);
    } else {
      var m: nat :| IsLabel(bytes, start, m) && m < |bytes| && bytes[m] == '.' as nat && Labels(bytes, m + 1, e, n - 1);
      LabelsStart(bytes, m + 1, e, n - 1);
      ScanComplete(bytes, m + 1, limit, before + 1, e, n - 1);
      hide Labels, StopsAt;
      FirstLabel(bytes, start, limit, before, m);
    }
  }

  lemma OnlyLabel(bytes: Bytes, start: nat, limit: nat, before: nat, e: nat)
    requires limit <= |bytes| && before >= 1 && IsLabel(bytes, start, e) && IsTopLabel(bytes, start, e) && StopsAt(bytes, e, limit)
    ensures ScanDomain(bytes, start, limit, before) == Some(e)
  {
    hide RunEnd;
    LabelIsRun(bytes, start, e, limit);
  }

  lemma FirstLabel(bytes: Bytes, start: nat, limit: nat, before: nat, m: nat)
    requires limit <= |bytes| && IsLabel(bytes, start, m) && m + 1 < limit && bytes[m] == '.' as nat && IsAlnum(bytes[m + 1])
    ensures ScanDomain(bytes, start, limit, before) == ScanDomain(bytes, m + 1, limit, before + 1)
  {
    hide RunEnd;
    LabelIsRun(bytes, start, m, limit);
  }

  lemma {:induction false} LabelsStart(bytes: Bytes, start: nat, end: nat, n: nat)
    requires Labels(bytes, start, end, n)
    ensures start < end <= |bytes| && IsAlnum(bytes[start]) && IsAlpha(bytes[end - 1])
    decreases n
  {
    if n > 1 {
      var m: nat :| IsLabel(bytes, start, m) && m < |bytes| && bytes[m] == '.' as nat && Labels(bytes, m + 1, end, n - 1);
      LabelsStart(bytes, m + 1, end, n - 1);
    }
  }

  /** The scan finds exactly the domain that starts here and stops before anything that would extend it. */
  lemma ScanFindsDomain(bytes: Bytes, start: nat, limit: nat, e: nat)
    requires limit <= |bytes|
    ensures ScanDomain(bytes, start, limit, 0) == Some(e) <==> IsDomain(bytes, start, e) && StopsAt(bytes, e, limit)
  {
    hide Labels, StopsAt, ScanDomain;
    if ScanDomain(bytes, start, limit, 0) == Some(e) {
      ScanSound(bytes, start, limit, 0);
    }
    if n: nat :| n >= 2 && Labels(bytes, start, e, n) && StopsAt(bytes, e, limit) {
      ScanComplete(bytes, start, limit, 0, e, n);
    }
  }

  lemma RunNext(bytes: Bytes, i: nat, limit: nat)
    requires i <= limit <= |bytes|
    ensures RunEnd(bytes, i, limit) == if i < limit && IsLabelByte(bytes[i]) then RunEnd(bytes, i + 1, limit) else i
  {
  }

  /** The inner loop over one label. */
  method ReadLabel(bytes: Bytes, start: nat, limit: nat) returns (cursor: nat)
    requires start < limit <= |bytes|
    ensures cursor == RunEnd(bytes, start + 1, limit)
  {
    hide RunEnd, IsLabelByte;
    cursor := start + 1;
    RunNext(bytes, cursor, limit);
    while cursor < limit && IsLabelByte(bytes[cursor])
      invariant start < cursor <= limit && RunEnd(bytes, cursor, limit) == RunEnd(bytes, start + 1, limit)
    {
      RunNext(bytes, cursor, limit);
      cursor := cursor + 1;
    }
    RunNext(bytes, cursor, limit);
  }

  /** `parse_domain_at`. */
  method ParseDomainAt(bytes: Bytes, start: nat, limit: nat) returns (r: Option<nat>)
    requires limit <= |bytes|
    ensures r == ScanDomain(bytes, start, limit, 0)
  {
    hide RunEnd, AllAlpha, IsLabelByte;
    var cursor, labels: nat := start, 0;
    while true
      invariant ScanDomain(bytes, cursor, limit, labels) == ScanDomain(bytes, start, limit, 0)
      decreases limit - cursor
    {
      var labelStart := cursor;
      if cursor >= limit || !IsAlnum(bytes[cursor]) {
        return None;
      }
      cursor := ReadLabel(bytes, labelStart, limit);
      if bytes[cursor - 1] == '-' as nat {
        return None;
      }
      labels := labels + 1;
      if cursor >= limit || bytes[cursor] != '.' as nat || cursor + 1 >= limit || !IsAlnum(bytes[cursor + 1]) {
        if labels < 2 || cursor - labelStart < 2 || !AllAlpha(bytes, labelStart, cursor) {
          return None;
        }
        return Some(cursor);
      }
      cursor := cursor + 1;
    }
  }

  // ---- One candidate ---------------------------------------------------------------------------------

  datatype SurfaceSpan = SurfaceSpan(attributed: ByteSpan, text: ByteSpan)

  datatype UrlCandidate = UrlCandidate(url: ByteSpan, domain: SurfaceSpan)

  function TokenEnd(bytes: Bytes, i: nat): (e: nat)
    requires i <= |bytes|
    ensures i <= e <= |bytes| && (forall k :: i <= k < e ==> !EndsToken(bytes[k])) && (e < |bytes| ==> EndsToken(bytes[e]))
    decreases |bytes| - i
  {
    if i < |bytes| && !EndsToken(bytes[i]) then TokenEnd(bytes, i + 1) else i
  }

  function TrimEnd(bytes: Bytes, start: nat, end: nat): (e: nat)
    requires start <= end <= |bytes|
    ensures start <= e <= end && (e < end ==> OneOf(bytes[e], TERMINAL)) && (e > start ==> !OneOf(bytes[e - 1], TERMINAL))
    decreases end
  {
    if end > start && OneOf(bytes[end - 1], TERMINAL) then TrimEnd(bytes, start, end - 1) else end
  }

  /** The first byte of [a, b) that is one of `stops`, or `b`. */
  function Position(bytes: Bytes, a: nat, b: nat, stops: string): (p: nat)
    requires a <= b <= |bytes|
    ensures a <= p <= b && (forall k :: a <= k < p ==> !OneOf(bytes[k], stops)) && (p < b ==> OneOf(bytes[p], stops))
    decreases b - a
  {
    if a < b && !OneOf(bytes[a], stops) then Position(bytes, a + 1, b, stops) else a
  }

  predicate AllDigits(bytes: Bytes, a: nat, b: nat)
    requires b <= |bytes|
  {
    forall i :: a <= i < b ==> IsDigit(bytes[i])
  }

  predicate AllTerminal(bytes: Bytes, a: nat, b: nat)
    requires b <= |bytes|
  {
    forall i :: a <= i < b ==> OneOf(bytes[i], TERMINAL)
  }

  /** `domain_span`: a leading `www.` is attributed but not matched. */
  function DomainSpan(bytes: Bytes, d: ByteSpan): SurfaceSpan
    requires d.start <= d.end <= |bytes|
  {
    var text := d.start + 4;
    if StartsWith(bytes, d.start, "www.") && text < d.end && (exists i :: text <= i < d.end && bytes[i] == '.' as nat)
    then SurfaceSpan(d, ByteSpan(text, d.end)) else SurfaceSpan(d, d)
  }

  function SchemeLength(bytes: Bytes, start: nat): nat {
    if StartsWith(bytes, start, "https://") then 8 else if StartsWith(bytes, start, "http://") then 7 else 0
  }

  lemma SchemeInToken(bytes: Bytes, start: nat)
    requires start <= |bytes|
    ensures start + SchemeLength(bytes, start) <= TokenEnd(bytes, start)
    ensures SchemeLength(bytes, start) > 0 ==> bytes[start + SchemeLength(bytes, start) - 1] == '/' as nat
  {
    var n := SchemeLength(bytes, start);
    if n > 0 {
      forall k | start <= k < start + n ensures !EndsToken(bytes[k]) {
        SchemeByte(bytes, start, k - start);
      }
      SchemeSlash(bytes, start);
    }
  }

  lemma SchemeSlash(bytes: Bytes, start: nat)
    requires SchemeLength(bytes, start) > 0
    ensures bytes[start + SchemeLength(bytes, start) - 1] == '/' as nat
  {
    if SchemeLength(bytes, start) == 8 {
      assert Lower(bytes[start + 7]) == "https://"[7] as nat;
    } else {
      assert Lower(bytes[start + 6]) == "http://"[6] as nat;
    }
  }

  lemma SchemeByte(bytes: Bytes, start: nat, k: nat)
    requires SchemeLength(bytes, start) > 0 && k < SchemeLength(bytes, start)
    ensures !EndsToken(bytes[start + k])
  {
    var s := if SchemeLength(bytes, start) == 8 then "https://" else "http://";
    assert Lower(bytes[start + k]) == s[k] as nat;
    assert s[k] == 'h' || s[k] == 't' || s[k] == 'p' || s[k] == 's' || s[k] == ':' || s[k] == '/';
  }

  function ParseHttpUrl(bytes: Bytes, start: nat): Option<UrlCandidate>
    requires start <= |bytes|
  {
    var scheme := SchemeLength(bytes, start);
    if scheme == 0 then None
    else
      SchemeInToken(bytes, start);
      var token := TokenEnd(bytes, start);
      var authority := start + scheme;
      var authorityEnd := TrimEnd(bytes, authority, Position(bytes, authority, token, "/?#"));
      var hostEnd := Position(bytes, authority, authorityEnd, ":");
      if ScanDomain(bytes, authority, hostEnd, 0) != Some(hostEnd) then None
      else if hostEnd != authorityEnd && !AllDigits(bytes, hostEnd + 1, authorityEnd) then None
      else
        var end := TrimEnd(bytes, start, token);
        if end > start then Some(UrlCandidate(ByteSpan(start, end), DomainSpan(bytes, ByteSpan(authority, hostEnd)))) else None
  }

  predicate ValidDomainTail(bytes: Bytes, a: nat, limit: nat)
    requires a <= limit <= |bytes|
  {
    a == limit || OneOf(bytes[a], "/?#") || AllTerminal(bytes, a, limit)
  }

  function ParseDomainUrl(bytes: Bytes, start: nat): Option<UrlCandidate>
    requires start <= |bytes|
  {
    var token := TokenEnd(bytes, start);
    var domainEnd := ScanDomain(bytes, start, token, 0);
    if domainEnd.None? then None
    else
      ScanFindsDomain(bytes, start, token, domainEnd.value);
      DomainBounds(bytes, start, domainEnd.value);
      if !ValidDomainTail(bytes, domainEnd.value, token) then None
      else
        var end := TrimEnd(bytes, start, token);
        if end > start then Some(UrlCandidate(ByteSpan(start, end), DomainSpan(bytes, ByteSpan(start, domainEnd.value)))) else None
  }

  lemma DomainBounds(bytes: Bytes, start: nat, end: nat)
    requires IsDomain(bytes, start, end)
    ensures start < end <= |bytes| && IsAlpha(bytes[end - 1])
  {
    var n: nat :| n >= 2 && Labels(bytes, start, end, n);
    LabelsStart(bytes, start, end, n);
  }

  /** `parse_http_url(..).or_else(parse_domain_url)`. */
  function Candidate(bytes: Bytes, start: nat): Option<UrlCandidate>
    requires start <= |bytes|
  {
    var http := ParseHttpUrl(bytes, start);
    if http.Some? then http else ParseDomainUrl(bytes, start)
  }

  // ---- What a candidate is ----------------------------------------------------------------------------

  predicate OnBoundaries(input: string, x: ByteSpan) { IsBoundary(input, x.start) && IsBoundary(input, x.end) }

  /** A link on character boundaries around a domain of the grammar; the matchable text ends with the domain. */
  ghost predicate CandidateOk(input: string, c: UrlCandidate) {
    && c.url.start < c.url.end <= |Utf8(input)| && OnBoundaries(input, c.url)
    && c.url.start <= c.domain.attributed.start < c.domain.attributed.end <= c.url.end && OnBoundaries(input, c.domain.attributed)
    && IsDomain(Utf8(input), c.domain.attributed.start, c.domain.attributed.end)
    && c.domain.attributed.start <= c.domain.text.start < c.domain.text.end == c.domain.attributed.end
    && OnBoundaries(input, c.domain.text)
  }

  /** Trimming stops at the last byte of a domain. */
  lemma TrimKeepsDomain(bytes: Bytes, start: nat, d: nat, end: nat)
    requires start < d <= end <= |bytes| && IsAlpha(bytes[d - 1])
    ensures TrimEnd(bytes, start, end) >= d
  {
    hide TrimEnd;
    TrimmedAll(bytes, start, end);
    NotTerminal(bytes[d - 1]);
  }

  lemma {:induction false} TrimmedAll(bytes: Bytes, start: nat, end: nat)
    requires start <= end <= |bytes|
    ensures AllTerminal(bytes, TrimEnd(bytes, start, end), end)
    decreases end
  {
    if end > start && OneOf(bytes[end - 1], TERMINAL) {
      TrimmedAll(bytes, start, end - 1);
    }
  }

  lemma NotTerminal(b: Byte)
    ensures IsAlpha(b) ==> !OneOf(b, TERMINAL)
    ensures OneOf(b, TERMINAL) || EndsToken(b) ==> b < 0x80
  {
  }

  /** Where a trimmed token ends is a character boundary. */
  lemma UrlEndBoundary(input: string, start: nat)
    requires start <= |Utf8(input)|
    ensures IsBoundary(input, TrimEnd(Utf8(input), start, TokenEnd(Utf8(input), start)))
  {
    hide TrimEnd, TokenEnd;
    var bytes := Utf8(input);
    var token := TokenEnd(bytes, start);
    var e := TrimEnd(bytes, start, token);
    if e < |bytes| {
      NotTerminal(bytes[e]);
      AsciiBoundary(input, e);
    } else {
      Utf8Length(input);
      EndBoundary(input);
    }
  }

  lemma DomainSpanOk(input: string, d: ByteSpan)
    requires d.start < d.end <= |Utf8(input)| && IsBoundary(input, d.start) && IsBoundary(input, d.end)
    ensures var s := DomainSpan(Utf8(input), d);
      && s.attributed == d && d.start <= s.text.start < s.text.end == d.end && OnBoundaries(input, s.text)
  {
    hide IsBoundary;
    var bytes := Utf8(input);
    if StartsWith(bytes, d.start, "www.") {
      assert Lower(bytes[d.start + 3]) == "www."[3] as nat;
      AsciiBoundary(input, d.start + 3);
    }
  }

  lemma CandidateFrom(input: string, url: ByteSpan, d: ByteSpan)
    requires url.start < url.end <= |Utf8(input)| && IsBoundary(input, url.start) && IsBoundary(input, url.end)
    requires url.start <= d.start < d.end <= url.end && IsBoundary(input, d.start) && IsBoundary(input, d.end)
    requires IsDomain(Utf8(input), d.start, d.end)
    ensures CandidateOk(input, UrlCandidate(url, DomainSpan(Utf8(input), d)))
  {
    hide IsBoundary, DomainSpan, IsDomain;
    DomainSpanOk(input, d);
  }

  /** Where the host of an http URL lies. */
  lemma HttpParts(bytes: Bytes, start: nat) returns (authority: nat, host: nat)
    requires start <= |bytes| && ParseHttpUrl(bytes, start).Some?
    ensures start < authority <= host <= TokenEnd(bytes, start) && bytes[authority - 1] == '/' as nat
    ensures ScanDomain(bytes, authority, host, 0) == Some(host)
    ensures ParseHttpUrl(bytes, start) ==
      Some(UrlCandidate(ByteSpan(start, TrimEnd(bytes, start, TokenEnd(bytes, start))), DomainSpan(bytes, ByteSpan(authority, host))))
    ensures start < TrimEnd(bytes, start, TokenEnd(bytes, start))
  {
    hide TokenEnd, TrimEnd, Position, ScanDomain, DomainSpan, SchemeLength, OneOf, EndsToken, AllDigits;
    SchemeInToken(bytes, start);
    authority := start + SchemeLength(bytes, start);
    var authorityEnd := TrimEnd(bytes, authority, Position(bytes, authority, TokenEnd(bytes, start), "/?#"));
    host := Position(bytes, authority, authorityEnd, ":");
  }

  /** The host of an http URL is a domain, and the trimmed token reaches past it. */
  lemma HttpHost(bytes: Bytes, start: nat) returns (authority: nat, host: nat)
    requires start <= |bytes| && ParseHttpUrl(bytes, start).Some?
    ensures start < authority < host <= TrimEnd(bytes, start, TokenEnd(bytes, start)) <= |bytes|
    ensures bytes[authority - 1] < 0x80 && bytes[host - 1] < 0x80 && IsDomain(bytes, authority, host)
    ensures ParseHttpUrl(bytes, start) ==
      Some(UrlCandidate(ByteSpan(start, TrimEnd(bytes, start, TokenEnd(bytes, start))), DomainSpan(bytes, ByteSpan(authority, host))))
  {
    hide TokenEnd, TrimEnd, ScanDomain, DomainSpan, IsDomain, ParseHttpUrl, StopsAt;
    authority, host := HttpParts(bytes, start);
    ScanFindsDomain(bytes, authority, host, host);
    DomainBounds(bytes, authority, host);
    TrimKeepsDomain(bytes, start, host, TokenEnd(bytes, start));
  }

  lemma HttpOk(input: string, start: nat)
    requires start <= |Utf8(input)| && IsBoundary(input, start) && ParseHttpUrl(Utf8(input), start).Some?
    ensures CandidateOk(input, ParseHttpUrl(Utf8(input), start).value)
    ensures ParseHttpUrl(Utf8(input), start).value.url.start == start
  {
    hide IsBoundary, TokenEnd, TrimEnd, DomainSpan, IsDomain, ParseHttpUrl, CandidateOk, Utf8;
    var bytes := Utf8(input);
    var authority, host := HttpHost(bytes, start);
    UrlEndBoundary(input, start);
    AsciiBoundary(input, authority - 1);
    AsciiBoundary(input, host - 1);
    CandidateFrom(input, ByteSpan(start, TrimEnd(bytes, start, TokenEnd(bytes, start))), ByteSpan(authority, host));
  }

  lemma DomainUrlOk(input: string, start: nat)
    requires start <= |Utf8(input)| && IsBoundary(input, start) && ParseDomainUrl(Utf8(input), start).Some?
    ensures CandidateOk(input, ParseDomainUrl(Utf8(input), start).value)
    ensures ParseDomainUrl(Utf8(input), start).value.url.start == start
  {
    hide IsBoundary, TokenEnd, TrimEnd, ScanDomain, DomainSpan, IsDomain;
    var bytes := Utf8(input);
    var token := TokenEnd(bytes, start);
    var domainEnd := ScanDomain(bytes, start, token, 0).value;
    ScanFindsDomain(bytes, start, token, domainEnd);
    DomainBounds(bytes, start, domainEnd);
    TrimKeepsDomain(bytes, start, domainEnd, token);
    UrlEndBoundary(input, start);
    AsciiBoundary(input, domainEnd - 1);
    CandidateFrom(input, ByteSpan(start, TrimEnd(bytes, start, token)), ByteSpan(start, domainEnd));
  }

  lemma CandidateIsOk(input: string, start: nat)
    requires start <= |Utf8(input)| && IsBoundary(input, start) && Candidate(Utf8(input), start).Some?
    ensures CandidateOk(input, Candidate(Utf8(input), start).value) && Candidate(Utf8(input), start).value.url.start == start
  {
    hide ParseHttpUrl, ParseDomainUrl, CandidateOk;
    if ParseHttpUrl(Utf8(input), start).Some? {
      HttpOk(input, start);
    } else {
      DomainUrlOk(input, start);
    }
  }

  // ---- The scan ------------------------------------------------------------------------------------------

  /** `is_start_boundary`: no word character, hyphen, at sign or dot stands before. */
  predicate MayStart(alphanumeric: char -> bool, input: string, b: nat)
    requires IsBoundary(input, b)
  {
    var i := Scalar(input, b);
    i == 0 || (!alphanumeric(input[i - 1]) && input[i - 1] != '_' && input[i - 1] != '-' && input[i - 1] != '@' && input[i - 1] != '.')
  }

  /** A link can start at byte `b`. */
  predicate StartsLink(alphanumeric: char -> bool, input: string, b: nat) {
    b <= |Utf8(input)| && IsBoundary(input, b) && MayStart(alphanumeric, input, b) && Candidate(Utf8(input), b).Some?
  }

  /** The candidates are what starts where they start; they are in order and apart; and nothing before `upto` is missed. */
  ghost predicate Extracted(alphanumeric: char -> bool, input: string, cs: seq<UrlCandidate>, upto: nat) {
    && (forall i :: 0 <= i < |cs| ==> Taken(alphanumeric, input, cs[i], upto))
    && (forall i, j :: 0 <= i < j < |cs| ==> cs[i].url.end <= cs[j].url.start)
    && (forall b: nat :: b < upto && StartsLink(alphanumeric, input, b) ==> InsideOne(cs, b))
  }

  ghost predicate Taken(alphanumeric: char -> bool, input: string, c: UrlCandidate, upto: nat) {
    && StartsLink(alphanumeric, input, c.url.start) && Candidate(Utf8(input), c.url.start) == Some(c)
    && CandidateOk(input, c) && c.url.end <= upto
  }

  ghost predicate InsideOne(cs: seq<UrlCandidate>, b: nat) {
    exists i :: 0 <= i < |cs| && cs[i].url.start <= b < cs[i].url.end
  }

  lemma NothingHere(alphanumeric: char -> bool, input: string, cs: seq<UrlCandidate>, cursor: nat)
    requires Extracted(alphanumeric, input, cs, cursor) && !StartsLink(alphanumeric, input, cursor)
    ensures Extracted(alphanumeric, input, cs, cursor + 1)
  {
    hide StartsLink, CandidateOk, Candidate;
  }

  lemma OneMore(alphanumeric: char -> bool, input: string, cs: seq<UrlCandidate>, cursor: nat, c: UrlCandidate)
    requires Extracted(alphanumeric, input, cs, cursor) && StartsLink(alphanumeric, input, cursor)
    requires Candidate(Utf8(input), cursor) == Some(c) && CandidateOk(input, c) && c.url.start == cursor < c.url.end
    ensures Extracted(alphanumeric, input, cs + [c], c.url.end)
  {
    hide StartsLink, CandidateOk, Candidate;
    var all := cs + [c];
    forall i | 0 <= i < |all| ensures Taken(alphanumeric, input, all[i], c.url.end) {
      assert i < |cs| ==> Taken(alphanumeric, input, cs[i], cursor);
    }
    forall b: nat | b < c.url.end && StartsLink(alphanumeric, input, b) ensures InsideOne(all, b) {
      if b < cursor {
        assert InsideOne(cs, b);
        var i :| 0 <= i < |cs| && cs[i].url.start <= b < cs[i].url.end;
        assert all[i] == cs[i];
      } else {
        assert all[|cs|] == c;
      }
    }
  }

  /** `extract_urls`. */
  method ExtractUrls(alphanumeric: char -> bool, input: string) returns (candidates: seq<UrlCandidate>)
    ensures Extracted(alphanumeric, input, candidates, |Utf8(input)|)
  {
    hide Extracted, CandidateOk, Candidate, MayStart, IsBoundary;
    var bytes := Utf8(input);
    candidates := [];
    var cursor := 0;
    NothingYet(alphanumeric, input);
    while cursor < |bytes|
      invariant cursor <= |bytes| && Extracted(alphanumeric, input, candidates, cursor)
      decreases |bytes| - cursor
    {
      if !IsBoundary(input, cursor) || !MayStart(alphanumeric, input, cursor) {
        NothingHere(alphanumeric, input, candidates, cursor);
        cursor := cursor + 1;
        continue;
      }
      var candidate := Candidate(bytes, cursor);
      if candidate.None? {
        NothingHere(alphanumeric, input, candidates, cursor);
        cursor := cursor + 1;
        continue;
      }
      CandidateIsOk(input, cursor);
      CandidateBounds(input, candidate.value);
      OneMore(alphanumeric, input, candidates, cursor, candidate.value);
      candidates := candidates + [candidate.value];
      cursor := candidate.value.url.end;
    }
  }

  lemma NothingYet(alphanumeric: char -> bool, input: string)
    ensures Extracted(alphanumeric, input, [], 0)
  {
  }

  lemma CandidateBounds(input: string, c: UrlCandidate)
    requires CandidateOk(input, c)
    ensures c.url.start < c.url.end <= |Utf8(input)|
  {
  }

  // ---- What stripping relies on ------------------------------------------------------------------------------

  function Urls(cs: seq<UrlCandidate>): (r: seq<ByteSpan>)
    ensures |r| == |cs| && forall i :: 0 <= i < |r| ==> r[i] == cs[i].url
  {
    seq(|cs|, i requires 0 <= i < |cs| => cs[i].url)
  }

  /** The extracted links are valid spans of their message, so stripping them fails only on an invalid censor span. */
  lemma ExtractedLinksStrip(alphanumeric: char -> bool, input: string, cs: seq<UrlCandidate>, censor: seq<ByteSpan>)
    requires Extracted(alphanumeric, input, cs, |Utf8(input)|)
    ensures AllValid(input, Urls(cs))
    ensures Transformed(input, censor, true, Urls(cs)).Ok? <==> AllValid(input, censor)
  {
    hide StartsLink, Candidate, IsBoundary, Transformed, IsDomain, InsideOne;
    Utf8Length(input);
    forall i | 0 <= i < |cs| ensures ValidSpan(input, Urls(cs)[i]) {
      assert Taken(alphanumeric, input, cs[i], |Utf8(input)|);
    }
    StripCorrectness.StripSucceedsIff(input, censor, Urls(cs));
  }
}
