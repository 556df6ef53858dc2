/**
 * Which authored patterns are accepted, and as what: the five ways a pattern
 * is written, and why any other text is refused.
 */
module PatternMeaning {
  import opened Wrappers
  import opened PolicyModel
  import opened PatternSyntax

  ghost predicate Blank(whitespace: char -> bool, s: string) { forall i :: 0 <= i < |s| ==> whitespace(s[i]) }

  /** What is left between the white space at both ends. */
  ghost predicate Stripped(whitespace: char -> bool, pattern: string, input: string) {
    && (exists lead, tail :: Blank(whitespace, lead) && Blank(whitespace, tail) && pattern == lead + input + tail)
    && (input != "" ==> !whitespace(input[0]) && !whitespace(input[|input| - 1]))
  }

  /** How a pattern of each type is written around its body. */
  ghost predicate Written(t: PatternType, input: string, body: string) {
    match t
    case ExactWord => input == body
    case Prefix => input == body + "*"
    case Suffix => input == "*" + body
    case Contains => input == "*" + body + "*"
    case Phrase => input == "\"" + body + "\""
  }

  /** Regular expression syntax: one of its special characters, or a dot and a star side by side. */
  ghost predicate Syntactic(s: string) {
    || (exists c :: c in s && c in {'?', '[', ']', '(', ')', '{', '}', '|', '+', '^', '$', '\\'})
    || (exists i: nat :: StandsAt(s, i, ".*") || StandsAt(s, i, "*."))
  }

  ghost predicate StandsAt(s: string, i: nat, x: string) { i + |x| <= |s| && s[i..i + |x|] == x }

  ghost predicate Spaceless(whitespace: char -> bool, s: string) { forall i :: 0 <= i < |s| ==> !whitespace(s[i]) }

  // ---- Counting --------------------------------------------------------------------------------------

  lemma {:induction false} CountConcat(a: string, b: string, c: char)
    ensures Count(a + b, c) == Count(a, c) + Count(b, c)
  {
    if a == "" {
      assert a + b == b;
    } else {
      assert (a + b)[1..] == a[1..] + b && (a + b)[0] == a[0];
      CountConcat(a[1..], b, c);
    }
  }

  lemma {:induction false} CountZero(s: string, c: char)
    ensures Count(s, c) == 0 <==> c !in s
  {
    if s != "" {
      CountZero(s[1..], c);
      assert c in s <==> s[0] == c || c in s[1..];
    }
  }

  lemma CountOne(x: char, c: char)
    ensures Count([x], c) == if x == c then 1 else 0
  {
    assert [x][1..] == "" && Count("", c) == 0;
  }

  /** A character around a text. */
  lemma CountAround(x: string, s: string, y: string, c: char)
    ensures Count(x + s + y, c) == Count(x, c) + Count(s, c) + Count(y, c)
  {
    hide Count;
    CountConcat(x + s, y, c);
    CountConcat(x, s, c);
  }

  // ---- Trimming ----------------------------------------------------------------------------------------

  lemma {:induction false} TrimEndClean(whitespace: char -> bool, s: string)
    ensures var r := TrimEnd(whitespace, s); r != "" ==> s != "" && r[0] == s[0] && !whitespace(r[|r| - 1])
  {
    if s != "" && whitespace(s[|s| - 1]) {
      TrimEndClean(whitespace, s[..|s| - 1]);
    }
  }

  lemma {:induction false} TrimStartClean(whitespace: char -> bool, s: string)
    ensures var r := TrimStart(whitespace, s); r != "" ==> !whitespace(r[0])
  {
    if s != "" && whitespace(s[0]) {
      TrimStartClean(whitespace, s[1..]);
    }
  }

  lemma TrimMeans(whitespace: char -> bool, pattern: string)
    ensures Stripped(whitespace, pattern, TrimEnd(whitespace, TrimStart(whitespace, pattern)))
  {
    hide TrimEnd, TrimStart;
    var lead := TrimStartSplits(whitespace, pattern);
    var rest := TrimStart(whitespace, pattern);
    var tail := TrimEndSplits(whitespace, rest);
    TrimStartClean(whitespace, pattern);
    TrimEndClean(whitespace, rest);
    assert pattern == lead + TrimEnd(whitespace, rest) + tail && Blank(whitespace, lead) && Blank(whitespace, tail);
  }

  // ---- Syntax ------------------------------------------------------------------------------------------------

  lemma SyntaxMeans(s: string)
    ensures UnsupportedSyntaxIn(s) <==> Syntactic(s)
  {
    PairMeans(s, '.', '*');
    PairMeans(s, '*', '.');
    assert [ '.', '*' ] == ".*" && ['*', '.'] == "*.";
    hide HasPair, StandsAt;
    var special := "?[](){}|+^$\\";
    forall c ensures c in special <==> c in {'?', '[', ']', '(', ')', '{', '}', '|', '+', '^', '$', '\\'} {
      SpecialMeans(c);
    }
    if i :| 0 <= i < |s| && s[i] in special {
      assert s[i] in s;
    }
    if c :| c in s && c in special {
      var i :| 0 <= i < |s| && s[i] == c;
    }
  }

  lemma SpecialMeans(c: char)
    ensures c in "?[](){}|+^$\\" <==> c in {'?', '[', ']', '(', ')', '{', '}', '|', '+', '^', '$', '\\'}
  {
  }

  lemma PairMeans(s: string, a: char, b: char)
    ensures HasPair(s, a, b) <==> exists i: nat :: StandsAt(s, i, [a, b])
  {
    if i :| 0 <= i < |s| - 1 && s[i] == a && s[i + 1] == b {
      assert s[i..i + 2] == [a, b];
      assert StandsAt(s, i, [a, b]);
    }
    if i: nat :| StandsAt(s, i, [a, b]) {
      assert s[i..i + 2][0] == s[i] && s[i..i + 2][1] == s[i + 1];
    }
  }

  // ---- Phrases -------------------------------------------------------------------------------------------

  /** The input is a quoted body without quotes inside. */
  ghost predicate Quoted(input: string, body: string) { input == "\"" + body + "\"" && '"' !in body }

  lemma QuotedBody(input: string, body: string)
    requires Quoted(input, body)
    ensures Count(input, '"') == 2 && |input| >= 2 && input[0] == '"' && input[|input| - 1] == '"' && body == input[1..|input| - 1]
  {
    hide Count;
    CountQuoted(body);
    CountZero(body, '"');
  }

  lemma BodyQuoted(input: string)
    requires Count(input, '"') == 2 && |input| >= 2 && input[0] == '"' && input[|input| - 1] == '"'
    ensures Quoted(input, input[1..|input| - 1])
  {
    hide Count;
    var body := input[1..|input| - 1];
    assert input == "\"" + body + "\"";
    CountQuoted(body);
    CountZero(body, '"');
  }

  lemma QuotedMeans(input: string)
    ensures (Count(input, '"') == 2 && |input| >= 2 && input[0] == '"' && input[|input| - 1] == '"') <==> exists body :: Quoted(input, body)
    ensures forall body :: Quoted(input, body) ==> |input| >= 2 && body == input[1..|input| - 1]
  {
    hide Count, Quoted;
    forall body | Quoted(input, body)
      ensures Count(input, '"') == 2 && |input| >= 2 && input[0] == '"' && input[|input| - 1] == '"' && body == input[1..|input| - 1]
    {
      QuotedBody(input, body);
    }
    if Count(input, '"') == 2 && |input| >= 2 && input[0] == '"' && input[|input| - 1] == '"' {
      BodyQuoted(input);
    }
  }

  lemma CountQuoted(body: string)
    ensures Count("\"" + body + "\"", '"') == Count(body, '"') + 2
  {
    CountAround("\"", body, "\"", '"');
    CountOne('"', '"');
  }

  lemma SpaceMeans(s: string)
    ensures HasSpace(s) <==> ' ' in s
  {
  }

  /** A phrase is accepted exactly as the quoted body of two words or more, and refused for the first thing that is wrong. */
  ghost predicate PhraseRead(normalize: string -> string, input: string, r: Result<ParsedPattern, PatternError>) {
    && (r == Err(MalformedQuotes) <==> forall body :: !Quoted(input, body))
    && forall body :: Quoted(input, body) ==>
      var n := normalize(body);
      && (n == "" ==> r == Err(Empty))
      && (n != "" && ' ' !in n ==> r == Err(PhraseNeedsWords))
      && (n != "" && ' ' in n && ('*' in n || Syntactic(n)) ==> r == Err(UnsupportedSyntax))
      && (n != "" && ' ' in n && '*' !in n && !Syntactic(n) ==> r == Ok(ParsedPattern(n, Phrase)))
  }

  lemma PhraseMeans(normalize: string -> string, input: string)
    requires '"' in input
    ensures PhraseRead(normalize, input, ParsePhrase(normalize, input))
  {
    hide Count, UnsupportedSyntaxIn, Syntactic, HasSpace;
    QuotedMeans(input);
    if body :| Quoted(input, body) {
      SpaceMeans(normalize(body));
      SyntaxMeans(normalize(body));
    }
  }

  // ---- Words ---------------------------------------------------------------------------------------------------

  /** A star is neither first nor last. */
  ghost predicate InnerStar(input: string) { exists i :: 0 < i < |input| - 1 && input[i] == '*' }

  /** The input is a body without stars, written as type `t`. */
  ghost predicate Word(t: PatternType, input: string, body: string) {
    t != Phrase && Written(t, input, body) && body != "" && '*' !in body
  }

  /** A word is accepted as the type its stars say, with its body's normal form, and refused for the first thing that is wrong. */
  ghost predicate WordRead(normalize: string -> string, whitespace: char -> bool, input: string, r: Result<ParsedPattern, PatternError>) {
    && (r == Err(UnquotedWhitespace) <==> !Spaceless(whitespace, input))
    && (r == Err(UnsupportedSyntax) <==> Spaceless(whitespace, input) && Syntactic(input))
    && (Spaceless(whitespace, input) && !Syntactic(input) ==>
      && (r == Err(InternalWildcard) <==> InnerStar(input))
      && (r == Err(SlicePanic) <==> input == "*") && (input == "**" ==> r == Err(Empty))
      && forall t, body :: Word(t, input, body) ==>
        r == if normalize(body) == "" then Err(Empty) else Ok(ParsedPattern(normalize(body), t)))
  }

  /** Where the body of a word lies. */
  function BodyOf(input: string): string
    requires input != "" && input != "*"
  {
    input[(if input[0] == '*' then 1 else 0)..(if input[|input| - 1] == '*' then |input| - 1 else |input|)]
  }

  lemma WordBody(input: string, t: PatternType, body: string)
    requires Word(t, input, body)
    ensures input != "" && input != "*" && body == BodyOf(input)
    ensures t in {Prefix, PatternType.Contains} <==> input[|input| - 1] == '*'
    ensures t in {Suffix, PatternType.Contains} <==> input[0] == '*'
  {
    assert body[0] in body && body[|body| - 1] in body;
  }

  lemma InnerMeans(input: string)
    requires input != "" && input != "*"
    ensures '*' in BodyOf(input) <==> InnerStar(input)
    ensures BodyOf(input) == "" ==> input == "**"
  {
    var from := if input[0] == '*' then 1 else 0;
    var body := BodyOf(input);
    assert forall k :: 0 <= k < |body| ==> body[k] == input[k + from];
    if i :| 0 < i < |input| - 1 && input[i] == '*' {
      assert body[i - from] == '*';
    }
    if '*' in body {
      var i :| 0 <= i < |body| && body[i] == '*';
      assert input[i + from] == '*';
    }
  }

  lemma FewStars(input: string)
    requires input != "" && input != "*" && '*' !in BodyOf(input)
    ensures Count(input, '*') <= 2
  {
    hide Count;
    var a := if input[0] == '*' then "*" else "";
    var z := if input[|input| - 1] == '*' then "*" else "";
    var body := BodyOf(input);
    assert input == a + body + z;
    CountAround(a, body, z, '*');
    CountZero(body, '*');
    CountOne('*', '*');
    CountZero("", '*');
  }

  lemma WordMeans(normalize: string -> string, whitespace: char -> bool, input: string)
    requires input != ""
    ensures WordRead(normalize, whitespace, input, ParseWord(normalize, whitespace, input))
  {
    hide Count, UnsupportedSyntaxIn, Syntactic, InnerStar, Written;
    SyntaxMeans(input);
    forall t, body | Word(t, input, body)
      ensures input != "*" && body == BodyOf(input)
        && (t in {Prefix, PatternType.Contains} <==> input[|input| - 1] == '*') && (t in {Suffix, PatternType.Contains} <==> input[0] == '*')
    {
      WordBody(input, t, body);
    }
    if input != "*" {
      InnerMeans(input);
      if '*' !in BodyOf(input) {
        FewStars(input);
      }
    } else {
      NoInnerStar();
    }
  }

  lemma NoInnerStar()
    ensures !InnerStar("*")
  {
  }

  // ---- Patterns -------------------------------------------------------------------------------------------------

  /** Nothing is left of an empty pattern; quotes make a phrase, and all other text is read as a word. */
  ghost predicate ReadAs(normalize: string -> string, whitespace: char -> bool, input: string, r: Result<ParsedPattern, PatternError>) {
    && (input == "" ==> r == Err(Empty))
    && ('"' in input ==> PhraseRead(normalize, input, r))
    && (input != "" && '"' !in input ==> WordRead(normalize, whitespace, input, r))
  }

  /** A pattern is read as what stands between the white space at its ends. */
  lemma ParsingMeans(normalize: string -> string, whitespace: char -> bool, pattern: string) returns (input: string)
    ensures Stripped(whitespace, pattern, input)
    ensures ReadAs(normalize, whitespace, input, ParsePattern(normalize, whitespace, pattern))
  {
    hide Count, TrimEnd, TrimStart, ParsePhrase, ParseWord, PhraseRead, WordRead, Stripped;
    input := TrimEnd(whitespace, TrimStart(whitespace, pattern));
    TrimMeans(whitespace, pattern);
    CountZero(input, '"');
    if '"' in input {
      PhraseMeans(normalize, input);
    } else if input != "" {
      WordMeans(normalize, whitespace, input);
    }
  }
}
