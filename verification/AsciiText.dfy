/**
 * The text functions on ASCII, where they can be written out: ASCII neither
 * reorders nor composes, folding lowers letters, and white space and
 * punctuation separate. Built from the same passes as for any text.
 */
module AsciiText {
  import opened Wrappers
  import opened Spans
  import opened PolicyModel
  import opened TextTables
  import opened CanonicalOrder
  import opened CanonicalCompose
  import opened NormalizedViews
  import opened SecurityView
  import opened MaskedLinks
  import opened PatternSyntax

  const UNICODE := Unicode((c: char) => 0, (a: char, b: char) => NoComposite)

  predicate IsPunctuation(c: char) { '!' <= c <= '/' || ':' <= c <= '@' || '[' <= c <= '`' || '{' <= c <= '~' }

  predicate IsSpace(c: char) { c == ' ' || '\t' <= c <= '\r' }

  predicate IsAlphanumeric(c: char) { AsciiLetter(c) || '0' <= c <= '9' }

  /** `is_ignored_format`: no ASCII scalar is. */
  predicate Ignored(c: char) { false }

  const CHAR_TESTS := CharTests((c: char) => Ignored(c), (c: char) => IsSpace(c), (c: char) => IsPunctuation(c))

  const SECURITY_TESTS := SecurityTests((c: char) => AsciiLetter(c), (c: char) => IsAlphanumeric(c), (c: char) => false,
                                        (c: char) => AsciiLetter(c), (c: char) => false, (c: char) => false)

  function Unchanged(c: char): string { [c] }

  function Folded(c: char): string { [AsciiLower(c)] }

  const PIPELINE := Pipeline(UNICODE, Unchanged, Folded, CHAR_TESTS)

  /** The canonical view, as scalars with their sources. */
  function CanonicalText(s: string): Text { Spaced(CHAR_TESTS, Decomposed(Folded, SourceChars(s))) }

  /** The security view before mixed-script mapping, which has nothing to map in ASCII. */
  ghost function SecurityScalars(s: string): Text {
    Filtered(Filtered(NotIgnored(Ignored, Decomposed(Folded, Visible(SourceChars(s), 0))), Ignorables(SECURITY_TESTS)), Separators(SECURITY_TESTS))
  }

  predicate AllLetters(s: string) { forall i :: 0 <= i < |s| ==> AsciiLetter(s[i]) }

  predicate Eligible(s: string) { AllLetters(s) && |Scalars(CanonicalText(s))| >= 4 }

  ghost const TABLES := Tables((s: string) => Scalars(CanonicalText(s)), (s: string) => Eligible(s),
                               (s: string) => Scalars(SecurityScalars(s)), (c: char) => IsAlphanumeric(c) || c == '_')

  // ---- The tables are the pipelines, on ASCII --------------------------------------------------

  lemma {:induction false} NothingComposes(s: string)
    ensures |Composed(UNICODE, s)| == |s| && forall k :: 0 <= k < |s| ==> Composed(UNICODE, s)[k] == Group(s[k], [k])
  {
    if s != [] {
      NothingComposes(s[..|s| - 1]);
    }
  }

  lemma {:induction false} NothingDecomposes(s: Text)
    ensures Decomposed(Unchanged, s) == s
  {
    if s != [] {
      NothingDecomposes(s[..|s| - 1]);
      assert s == s[..|s| - 1] + [s[|s| - 1]];
    }
  }

  lemma NfkcUnchanged(s: Text)
    ensures IsNfkc(UNICODE, Unchanged, s, s, s)
  {
    NothingDecomposes(s);
    ReachesSelf(UNICODE, s);
    NothingComposes(Scalars(s));
    var out := Composed(UNICODE, Scalars(s));
    forall k | 0 <= k < |s| ensures HullAt(s, [k]) == s[k].source {
    }
  }

  /** `TABLES.normalize` is the normal form of the pipeline. */
  lemma NormalizeIsNormal(s: string)
    ensures Normalizes(PIPELINE, SourceChars(s), TABLES.normalize(s))
  {
    NfkcUnchanged(SourceChars(s));
  }

  /** The canonical view is as `NewNormalizedText` ensures: folded and spaced NFKC. */
  ghost predicate IsCanonicalView(s: string, r: Text) {
    exists d, nfkc :: IsNfkc(UNICODE, Unchanged, SourceChars(s), d, nfkc) && r == Spaced(CHAR_TESTS, Decomposed(Folded, nfkc))
  }

  /** The security view is as `SecurityMapped` ensures: the three passes over the folded NFKC of the visible text. */
  ghost predicate IsSecurityView(s: string, r: Text) {
    exists d, nfkc ::
      && IsNfkc(UNICODE, Unchanged, Visible(SourceChars(s), 0), d, nfkc)
      && IsMixedMapping(SECURITY_TESTS,
           Filtered(Filtered(NotIgnored(Ignored, Decomposed(Folded, nfkc)), Ignorables(SECURITY_TESTS)), Separators(SECURITY_TESTS)), r)
  }

  /** Both views are what the two pipelines compute. */
  lemma ViewsAreComputed(s: string)
    ensures IsCanonicalView(s, CanonicalText(s)) && IsSecurityView(s, SecurityScalars(s))
  {
    hide IsNfkc, SourceChars, Visible, IsMixedMapping, Filtered, NotIgnored, Spaced, Decomposed;
    NfkcUnchanged(SourceChars(s));
    NfkcUnchanged(Visible(SourceChars(s), 0));
    NothingMapped(SecurityScalars(s));
  }

  lemma NothingMapped(s: Text)
    ensures IsMixedMapping(SECURITY_TESTS, s, s)
  {
    hide Mixed, ConfusableShape;
  }

  // ---- Computing them ------------------------------------------------------------------------------

  lemma {:induction false} FoldFixed(s: Text)
    requires forall i :: 0 <= i < |s| ==> AsciiLower(s[i].scalar) == s[i].scalar
    ensures Decomposed(Folded, s) == s
  {
    if s != [] {
      FoldFixed(s[..|s| - 1]);
      assert s == s[..|s| - 1] + [s[|s| - 1]];
    }
  }

  lemma {:induction false} AllKept(s: Text)
    requires forall i :: 0 <= i < |s| ==> IsKept(CHAR_TESTS, s[i].scalar)
    ensures Spaced(CHAR_TESTS, s) == s && Pending(CHAR_TESTS, s) == []
  {
    if s != [] {
      AllKept(s[..|s| - 1]);
      assert s == s[..|s| - 1] + [s[|s| - 1]];
    }
  }

  /** A separator after a text waits for the next kept scalar. */
  lemma SeparatorWaits(s: Text, m: Mapped)
    requires IsSeparator(CHAR_TESTS, m.scalar) && Pending(CHAR_TESTS, s) == []
    ensures Spaced(CHAR_TESTS, s + [m]) == Spaced(CHAR_TESTS, s) && Pending(CHAR_TESTS, s + [m]) == [m.source]
  {
    assert (s + [m])[..|s|] == s;
  }

  lemma KeptAfter(s: Text, m: Mapped)
    requires IsKept(CHAR_TESTS, m.scalar)
    ensures Pending(CHAR_TESTS, s + [m]) == []
    ensures Spaced(CHAR_TESTS, s + [m]) == Spaced(CHAR_TESTS, s)
      + (if Spaced(CHAR_TESTS, s) != [] && Pending(CHAR_TESTS, s) != [] then [Mapped(' ', Hull(Pending(CHAR_TESTS, s)))] else []) + [m]
  {
    assert (s + [m])[..|s|] == s;
  }

  lemma NoMaskedLinks(s: Text)
    requires forall i :: 0 <= i < |s| ==> s[i].scalar != '['
    ensures Visible(s, 0) == s
  {
    hide LabelEndsAt, DestinationEndsAt, IsHttp, Visible;
    NoLinksAllVisible(s, 0);
    assert s[0..] == s;
  }

  lemma {:induction false} NothingIgnored(s: Text)
    ensures NotIgnored(Ignored, s) == s
  {
    if s != [] {
      NothingIgnored(s[..|s| - 1]);
      assert s == s[..|s| - 1] + [s[|s| - 1]];
    }
  }

  lemma NothingIgnorable(s: Text)
    requires forall i :: 0 <= i < |s| ==> s[i].scalar != '\U{2800}'
    ensures Filtered(s, Ignorables(SECURITY_TESTS)) == s
  {
    hide NextOf, PreviousOf;
    NothingDropped(s, Ignorables(SECURITY_TESTS), |s|);
    assert s[..|s|] == s;
  }
}
