/**
 * What a link is, byte by byte: where it may start, what stands around its
 * domain, and where it ends.
 */
module LinkMeaning {
  import opened Wrappers
  import opened Spans
  import opened Utf8Text
  import opened ByteEncoding
  import opened UrlScanner

  // ---- Bytes -----------------------------------------------------------------------------------------

  ghost predicate Among(b: Byte, s: set<char>) { exists c :: c in s && b == c as nat }

  /** White space, angle brackets and the backtick end a token. */
  ghost predicate EndsWord(b: Byte) { Among(b, {' ', '\t', '\n', '\r', '<', '>', '`'}) || b == 12 }

  /** Punctuation that a sentence puts after a link. */
  ghost predicate Closing(b: Byte) { Among(b, {'.', ',', '!', '?', ';', ':', '\'', '"', '`', ')', ']', '}'}) }

  ghost predicate Letter(b: Byte) { 65 <= b <= 90 || 97 <= b <= 122 }

  ghost predicate Digit(b: Byte) { 48 <= b <= 57 }

  lemma ByteTests(b: Byte)
    ensures IsAlpha(b) <==> Letter(b)
    ensures IsDigit(b) <==> Digit(b)
    ensures IsAlnum(b) <==> Letter(b) || Digit(b)
    ensures IsLabelByte(b) <==> Letter(b) || Digit(b) || b == 45
  {
  }

  lemma EndsMeans(b: Byte)
    ensures EndsToken(b) <==> EndsWord(b)
  {
    OneOfMeans(b, "<>`", {'<', '>', '`'});
    hide OneOf;
    if EndsToken(b) {
      assert b == 32 ==> b == ' ' as nat;
      assert b == 9 ==> b == '\t' as nat;
      assert b == 10 ==> b == '\n' as nat;
      assert b == 13 ==> b == '\r' as nat;
    }
  }

  lemma ClosingMeans(b: Byte)
    ensures OneOf(b, TERMINAL) <==> Closing(b)
  {
    var s := {'.', ',', '!', '?', ';', ':', '\'', '"', '`', ')', ']', '}'};
    assert TERMINAL == ['.', ',', '!', '?', ';', ':', '\'', '"', '`', ')', ']', '}'];
    assert forall i :: 0 <= i < |TERMINAL| ==> TERMINAL[i] in s;
    assert TERMINAL[0] == '.' && TERMINAL[1] == ',' && TERMINAL[2] == '!' && TERMINAL[3] == '?' && TERMINAL[4] == ';' && TERMINAL[5] == ':';
    assert TERMINAL[6] == '\'' && TERMINAL[7] == '"' && TERMINAL[8] == '`' && TERMINAL[9] == ')' && TERMINAL[10] == ']' && TERMINAL[11] == '}';
    assert forall c :: c in s ==> c in TERMINAL;
    OneOfMeans(b, TERMINAL, s);
  }

  lemma OneOfMeans(b: Byte, text: string, s: set<char>)
    requires forall c :: c in s <==> c in text
    ensures OneOf(b, text) <==> Among(b, s)
  {
    if i :| 0 <= i < |text| && b == text[i] as nat {
      assert text[i] in s;
    }
    if c :| c in s && b == c as nat {
      var i :| 0 <= i < |text| && text[i] == c;
    }
  }

  // ---- Where things end ---------------------------------------------------------------------------------

  /** The token goes on until a byte that ends it, or the end. */
  ghost predicate TokenTo(bytes: Bytes, start: nat, token: nat) {
    start <= token <= |bytes| && (forall k :: start <= k < token ==> !EndsWord(bytes[k])) && (token < |bytes| ==> EndsWord(bytes[token]))
  }

  /** `end` is left of [start, token) once the closing punctuation at its end is gone. */
  ghost predicate TrimmedTo(bytes: Bytes, start: nat, token: nat, end: nat) {
    && start <= end <= token <= |bytes| && (forall k :: end <= k < token ==> Closing(bytes[k]))
    && (end == start || !Closing(bytes[end - 1]))
  }

  /** `p` is the first byte of [a, b) in the set, or `b`. */
  ghost predicate FirstOf(bytes: Bytes, a: nat, b: nat, stops: set<char>, p: nat) {
    a <= p <= b <= |bytes| && (forall k :: a <= k < p ==> !Among(bytes[k], stops)) && (p < b ==> Among(bytes[p], stops))
  }

  lemma TokenMeans(bytes: Bytes, start: nat, token: nat)
    requires start <= |bytes|
    ensures token == TokenEnd(bytes, start) <==> TokenTo(bytes, start, token)
  {
    hide EndsToken, EndsWord;
    forall k | 0 <= k < |bytes| ensures EndsToken(bytes[k]) <==> EndsWord(bytes[k]) {
      EndsMeans(bytes[k]);
    }
    hide TokenEnd;
    var e := TokenEnd(bytes, start);
    if TokenTo(bytes, start, token) {
      assert !(token < e) && !(e < token);
    }
  }

  lemma TrimMeans(bytes: Bytes, start: nat, token: nat, end: nat)
    requires start <= token <= |bytes|
    ensures end == TrimEnd(bytes, start, token) <==> TrimmedTo(bytes, start, token, end)
  {
    hide OneOf, Closing;
    forall k | 0 <= k < |bytes| ensures OneOf(bytes[k], TERMINAL) <==> Closing(bytes[k]) {
      ClosingMeans(bytes[k]);
    }
    TrimmedAll(bytes, start, token);
    hide TrimEnd;
    var e := TrimEnd(bytes, start, token);
    if TrimmedTo(bytes, start, token, end) {
      assert !(end < e) && !(e < end);
    }
  }

  lemma FirstMeans(bytes: Bytes, a: nat, b: nat, text: string, stops: set<char>, p: nat)
    requires a <= b <= |bytes| && forall c :: c in stops <==> c in text
    ensures p == Position(bytes, a, b, text) <==> FirstOf(bytes, a, b, stops, p)
  {
    hide OneOf, Among;
    forall k | 0 <= k < |bytes| ensures OneOf(bytes[k], text) <==> Among(bytes[k], stops) {
      OneOfMeans(bytes[k], text, stops);
    }
    hide Position;
    var e := Position(bytes, a, b, text);
    if FirstOf(bytes, a, b, stops, p) {
      assert !(p < e) && !(e < p);
    }
  }

  // ---- The matchable text of a domain ----------------------------------------------------------------------

  /** The byte is the letter `c`, in either case. */
  ghost predicate EitherCase(b: Byte, c: char) { b == c as nat || ('a' <= c <= 'z' && b + 32 == c as nat) }

  /** The text stands at `start`, in either case. */
  ghost predicate Spells(bytes: Bytes, start: nat, text: string) {
    start + |text| <= |bytes| && forall i :: 0 <= i < |text| ==> EitherCase(bytes[start + i], text[i])
  }

  lemma SpellsMeans(bytes: Bytes, start: nat, text: string)
    requires forall i :: 0 <= i < |text| ==> text[i] < 'A' || 'a' <= text[i]
    ensures StartsWith(bytes, start, text) <==> Spells(bytes, start, text)
  {
    hide Lower, EitherCase;
    if start + |text| <= |bytes| {
      forall i | 0 <= i < |text| ensures Lower(bytes[start + i]) == text[i] as nat <==> EitherCase(bytes[start + i], text[i]) {
        LowerMeans(bytes[start + i], text[i]);
      }
    }
  }

  lemma LowerMeans(b: Byte, c: char)
    requires c < 'A' || 'a' <= c
    ensures Lower(b) == c as nat <==> EitherCase(b, c)
  {
  }

  /** A leading `www.` is no part of the matchable text, if a dot follows it. */
  ghost predicate MatchesFrom(bytes: Bytes, d: ByteSpan, text: ByteSpan) {
    var www := Spells(bytes, d.start, "www.") && exists i :: d.start + 4 <= i < d.end <= |bytes| && bytes[i] == 46;
    text == ByteSpan(if www then d.start + 4 else d.start, d.end)
  }

  lemma DomainSpanMeans(bytes: Bytes, d: ByteSpan)
    requires d.start <= d.end <= |bytes|
    ensures DomainSpan(bytes, d).attributed == d && MatchesFrom(bytes, d, DomainSpan(bytes, d).text)
  {
    hide StartsWith, Spells;
    SpellsMeans(bytes, d.start, "www.");
    if i :| d.start + 4 <= i < d.end && bytes[i] == 46 {
      assert bytes[i] == '.' as nat;
    }
  }

  // ---- Links ------------------------------------------------------------------------------------------------

  /** The domain's labels go no further: no label byte follows, and no dot with a letter or digit after it. */
  ghost predicate NothingExtends(bytes: Bytes, d: nat, limit: nat) {
    && d <= limit <= |bytes| && (d < limit ==> !Letter(bytes[d]) && !Digit(bytes[d]) && bytes[d] != 45)
    && (d + 1 < limit && bytes[d] == 46 ==> !Letter(bytes[d + 1]) && !Digit(bytes[d + 1]))
  }

  /** The link is the trimmed token around the domain `d`. */
  ghost predicate Around(bytes: Bytes, start: nat, d: ByteSpan, c: UrlCandidate) {
    && c.url.start == start && c.url.end > start && c.domain.attributed == d && MatchesFrom(bytes, d, c.domain.text)
    && exists token :: TokenTo(bytes, start, token) && TrimmedTo(bytes, start, token, c.url.end)
  }

  /** The authority runs to a slash, question mark or hash; its host is all of a domain, and after it there is at most a port. */
  ghost predicate HostIn(bytes: Bytes, authority: nat, token: nat, host: nat, path: nat, end: nat) {
    && FirstOf(bytes, authority, token, {'/', '?', '#'}, path) && TrimmedTo(bytes, authority, path, end)
    && FirstOf(bytes, authority, end, {':'}, host) && IsDomain(bytes, authority, host)
    && forall k :: host < k < end ==> Digit(bytes[k])
  }

  ghost predicate Authority(bytes: Bytes, authority: nat, token: nat, host: nat) {
    exists path, end :: HostIn(bytes, authority, token, host, path, end)
  }

  /** A link with a scheme. */
  ghost predicate SchemeLink(bytes: Bytes, start: nat, c: UrlCandidate) {
    exists authority: nat, token: nat, host: nat ::
      && ((authority == start + 8 && Spells(bytes, start, "https://")) || (authority == start + 7 && Spells(bytes, start, "http://")))
      && TokenTo(bytes, start, token) && Authority(bytes, authority, token, host) && Around(bytes, start, ByteSpan(authority, host), c)
  }

  /** A link without one: a domain, and after it a path, query or fragment, or nothing but closing punctuation. */
  ghost predicate BareLink(bytes: Bytes, start: nat, c: UrlCandidate) {
    exists token: nat, d: nat ::
      && TokenTo(bytes, start, token) && IsDomain(bytes, start, d) && NothingExtends(bytes, d, token)
      && (d == token || Among(bytes[d], {'/', '?', '#'}) || forall k :: d <= k < token ==> Closing(bytes[k]))
      && Around(bytes, start, ByteSpan(start, d), c)
  }

  lemma StopsMeans(bytes: Bytes, d: nat, limit: nat)
    requires limit <= |bytes|
    ensures StopsAt(bytes, d, limit) <==> NothingExtends(bytes, d, limit)
  {
  }

  lemma AroundMeans(bytes: Bytes, start: nat, d: ByteSpan, c: UrlCandidate)
    requires start <= |bytes| && d.start <= d.end <= |bytes|
    ensures var end := TrimEnd(bytes, start, TokenEnd(bytes, start));
      Around(bytes, start, d, c) <==> end > start && c == UrlCandidate(ByteSpan(start, end), DomainSpan(bytes, d))
  {
    hide TrimEnd, TokenEnd, DomainSpan, TokenTo, TrimmedTo, Spells;
    var token := TokenEnd(bytes, start);
    DomainSpanMeans(bytes, d);
    forall t ensures t == token <==> TokenTo(bytes, start, t) {
      TokenMeans(bytes, start, t);
    }
    TrimMeans(bytes, start, token, c.url.end);
  }

  /** The authority after a scheme, and its host, as they are computed. */
  ghost predicate HostAt(bytes: Bytes, authority: nat, token: nat, host: nat)
    requires authority <= token <= |bytes|
  {
    var end := TrimEnd(bytes, authority, Position(bytes, authority, token, "/?#"));
    && host == Position(bytes, authority, end, ":") && ScanDomain(bytes, authority, host, 0) == Some(host)
    && (host == end || AllDigits(bytes, host + 1, end))
  }

  lemma AuthorityMeans(bytes: Bytes, authority: nat, token: nat, host: nat)
    requires authority <= token <= |bytes|
    ensures Authority(bytes, authority, token, host) <==> HostAt(bytes, authority, token, host)
  {
    hide TrimEnd, Position, ScanDomain, IsDomain, FirstOf, TrimmedTo, Labels, StopsAt, Among;
    var path := Position(bytes, authority, token, "/?#");
    var end := TrimEnd(bytes, authority, path);
    FirstMeans(bytes, authority, token, "/?#", {'/', '?', '#'}, path);
    TrimMeans(bytes, authority, path, end);
    FirstMeans(bytes, authority, end, ":", {':'}, host);
    if host == Position(bytes, authority, end, ":") {
      WholeHost(bytes, authority, host, end);
    }
    if HostAt(bytes, authority, token, host) {
      assert HostIn(bytes, authority, token, host, path, end);
    }
    if p, e :| HostIn(bytes, authority, token, host, p, e) {
      FirstMeans(bytes, authority, token, "/?#", {'/', '?', '#'}, p);
      TrimMeans(bytes, authority, path, e);
    }
  }

  lemma WholeHost(bytes: Bytes, authority: nat, host: nat, end: nat)
    requires host <= end <= |bytes|
    ensures ScanDomain(bytes, authority, host, 0) == Some(host) <==> IsDomain(bytes, authority, host)
    ensures AllDigits(bytes, host + 1, end) <==> forall k :: host < k < end ==> Digit(bytes[k])
  {
    hide ScanDomain, IsDomain;
    ScanFindsDomain(bytes, authority, host, host);
  }

  lemma SchemeMeans(bytes: Bytes, start: nat)
    ensures SchemeLength(bytes, start) == 8 <==> Spells(bytes, start, "https://")
    ensures SchemeLength(bytes, start) == 7 <==> Spells(bytes, start, "http://")
    ensures SchemeLength(bytes, start) == 0 <==> !Spells(bytes, start, "https://") && !Spells(bytes, start, "http://")
  {
    SpellsMeans(bytes, start, "https://");
    SpellsMeans(bytes, start, "http://");
    NotBoth(bytes, start);
    hide StartsWith, Spells;
  }

  lemma NotBoth(bytes: Bytes, start: nat)
    ensures !(StartsWith(bytes, start, "https://") && StartsWith(bytes, start, "http://"))
  {
    hide Lower;
    var secure, plain := "https://", "http://";
    assert secure[4] == 's' && plain[4] == ':';
  }

  /** The parser of links with a scheme finds exactly those. */
  lemma SchemeLinkMeans(bytes: Bytes, start: nat, c: UrlCandidate)
    requires start <= |bytes|
    ensures ParseHttpUrl(bytes, start) == Some(c) <==> SchemeLink(bytes, start, c)
  {
    hide TrimEnd, TokenEnd, Position, ScanDomain, DomainSpan, SchemeLength, Spells, TokenTo, Authority, Around, AllDigits;
    SchemeMeans(bytes, start);
    SchemeInToken(bytes, start);
    var token := TokenEnd(bytes, start);
    forall t ensures t == token <==> TokenTo(bytes, start, t) {
      TokenMeans(bytes, start, t);
    }
    var n := SchemeLength(bytes, start);
    if n > 0 {
      var authority := start + n;
      SchemeHost(bytes, start, authority, token, c);
      assert SchemeLink(bytes, start, c) <==> exists host: nat :: Authority(bytes, authority, token, host) && Around(bytes, start, ByteSpan(authority, host), c);
    }
  }

  lemma SchemeHost(bytes: Bytes, start: nat, authority: nat, token: nat, c: UrlCandidate)
    requires start <= authority <= token <= |bytes| && token == TokenEnd(bytes, start) && SchemeLength(bytes, start) > 0 && authority == start + SchemeLength(bytes, start)
    ensures ParseHttpUrl(bytes, start) == Some(c) <==>
      exists host: nat :: Authority(bytes, authority, token, host) && Around(bytes, start, ByteSpan(authority, host), c)
  {
    hide TrimEnd, TokenEnd, Position, ScanDomain, DomainSpan, SchemeLength, Authority, Around, AllDigits;
    var host := Position(bytes, authority, TrimEnd(bytes, authority, Position(bytes, authority, token, "/?#")), ":");
    forall h: nat ensures Authority(bytes, authority, token, h) <==> HostAt(bytes, authority, token, h) {
      AuthorityMeans(bytes, authority, token, h);
    }
    AroundMeans(bytes, start, ByteSpan(authority, host), c);
    SchemeInToken(bytes, start);
    assert forall h: nat :: Authority(bytes, authority, token, h) ==> h == host;
  }

  /** The parser of links without a scheme finds exactly those. */
  lemma BareLinkMeans(bytes: Bytes, start: nat, c: UrlCandidate)
    requires start <= |bytes|
    ensures ParseDomainUrl(bytes, start) == Some(c) <==> BareLink(bytes, start, c)
  {
    hide TrimEnd, TokenEnd, ScanDomain, DomainSpan, TokenTo, Around, IsDomain, NothingExtends, ValidDomainTail, Closing, Among;
    var token := TokenEnd(bytes, start);
    forall t ensures t == token <==> TokenTo(bytes, start, t) {
      TokenMeans(bytes, start, t);
    }
    forall d: nat ensures ScanDomain(bytes, start, token, 0) == Some(d) <==> IsDomain(bytes, start, d) && NothingExtends(bytes, d, token) {
      ScanFindsDomain(bytes, start, token, d);
      StopsMeans(bytes, d, token);
    }
    if ScanDomain(bytes, start, token, 0).Some? {
      var d := ScanDomain(bytes, start, token, 0).value;
      BareTail(bytes, start, d, token);
      AroundMeans(bytes, start, ByteSpan(start, d), c);
    }
  }

  lemma BareTail(bytes: Bytes, start: nat, d: nat, token: nat)
    requires IsDomain(bytes, start, d) && NothingExtends(bytes, d, token)
    ensures start < d <= token <= |bytes|
    ensures ValidDomainTail(bytes, d, token) <==>
      d == token || Among(bytes[d], {'/', '?', '#'}) || forall k :: d <= k < token ==> Closing(bytes[k])
  {
    hide IsDomain, OneOf, Closing, Among;
    DomainBounds(bytes, start, d);
    forall k | 0 <= k < |bytes| ensures OneOf(bytes[k], TERMINAL) <==> Closing(bytes[k]) {
      ClosingMeans(bytes[k]);
    }
    if d < token {
      OneOfMeans(bytes[d], "/?#", {'/', '?', '#'});
    }
  }

  /** What is found at a byte: the link with a scheme there, or, if there is none, the one without. */
  lemma LinkMeans(bytes: Bytes, start: nat, c: UrlCandidate)
    requires start <= |bytes|
    ensures Candidate(bytes, start) == Some(c) <==>
      SchemeLink(bytes, start, c) || (BareLink(bytes, start, c) && forall o :: !SchemeLink(bytes, start, o))
  {
    hide ParseHttpUrl, ParseDomainUrl, SchemeLink, BareLink;
    forall o ensures ParseHttpUrl(bytes, start) == Some(o) <==> SchemeLink(bytes, start, o) {
      SchemeLinkMeans(bytes, start, o);
    }
    BareLinkMeans(bytes, start, c);
    if ParseHttpUrl(bytes, start).Some? {
      assert SchemeLink(bytes, start, ParseHttpUrl(bytes, start).value);
    }
  }

  // ---- Where a link may start -----------------------------------------------------------------------------------

  /** Scalar `i` ends at byte `b`. */
  ghost predicate EndsAt(input: string, i: nat, b: nat) { i < |input| && Offset(input, i + 1) == b }

  /** No letter, digit, underscore, hyphen, at sign or dot ends at byte `b`. */
  lemma MayStartMeans(alphanumeric: char -> bool, input: string, b: nat)
    requires IsBoundary(input, b)
    ensures MayStart(alphanumeric, input, b) <==>
      forall i: nat :: EndsAt(input, i, b) ==> !alphanumeric(input[i]) && input[i] !in {'_', '-', '@', '.'}
  {
    hide Offset, IsBoundary;
    var i := Scalar(input, b);
    if i > 0 {
      assert EndsAt(input, i - 1, b);
    }
    forall k: nat | EndsAt(input, k, b) ensures k + 1 == i {
      OneOffset(input, k + 1, i);
    }
  }

  lemma OneOffset(input: string, i: nat, j: nat)
    requires i <= |input| && j <= |input| && Offset(input, i) == Offset(input, j)
    ensures i == j
  {
    hide Offset;
    if i < j {
      OffsetMonotone(input, i, j);
    } else if j < i {
      OffsetMonotone(input, j, i);
    }
  }
}
