/**
 * normalization.rs: the auxiliary security view. Two passes drop scalars by
 * their nearest neighbours, a third maps confusable letters in mixed-script
 * tokens; each settles in one application and keeps source spans in order.
 */
module SecurityView {
  import opened Wrappers
  import opened Spans
  import opened CanonicalOrder

  // ---- Passes that drop by context -----------------------------------------------------------

  /** Drop a `drop` scalar when the nearest scalars that are not `skip`, on both sides, are `side`. */
  datatype Filter = Filter(drop: char -> bool, skip: char -> bool, side: char -> bool)

  /** A pass looks past what it may drop. */
  ghost predicate LooksPast(f: Filter) { forall c :: f.drop(c) ==> f.skip(c) }

  /** The first scalar from `i` on that is not skipped. */
  function NextOf(text: Text, i: nat, skip: char -> bool): Option<char>
    decreases |text| - i
  {
    if i >= |text| then None else if skip(text[i].scalar) then NextOf(text, i + 1, skip) else Some(text[i].scalar)
  }

  /** The last scalar before `i` that is not skipped. */
  function PreviousOf(text: Text, i: nat, skip: char -> bool): Option<char>
    requires i <= |text|
  {
    if i == 0 then None else if skip(text[i - 1].scalar) then PreviousOf(text, i - 1, skip) else Some(text[i - 1].scalar)
  }

  /** `neighboring_character`. */
  method NeighboringCharacter(text: Text, index: nat, direction: int, skip: char -> bool) returns (r: Option<char>)
    requires index < |text| && (direction == 1 || direction == -1)
    ensures r == if direction == 1 then NextOf(text, index + 1, skip) else PreviousOf(text, index, skip)
  {
    var cursor := index + direction;
    while 0 <= cursor < |text|
      invariant -1 <= cursor <= |text|
      invariant direction == 1 ==> cursor >= 0 && NextOf(text, cursor, skip) == NextOf(text, index + 1, skip)
      invariant direction == -1 ==> cursor + 1 <= |text| && PreviousOf(text, cursor + 1, skip) == PreviousOf(text, index, skip)
      decreases if direction == 1 then |text| - cursor else cursor + 1
    {
      var c := text[cursor].scalar;
      if !skip(c) {
        return Some(c);
      }
      cursor := cursor + direction;
    }
    return None;
  }

  predicate Flanked(f: Filter, previous: Option<char>, next: Option<char>) {
    next.Some? && f.side(next.value) && previous.Some? && f.side(previous.value)
  }

  predicate Drops(text: Text, f: Filter, i: nat)
    requires i < |text|
  {
    f.drop(text[i].scalar) && Flanked(f, PreviousOf(text, i, f.skip), NextOf(text, i + 1, f.skip))
  }

  /** What remains of the first `n` scalars. */
  function Remaining(text: Text, f: Filter, n: nat): Text
    requires n <= |text|
  {
    if n == 0 then [] else Remaining(text, f, n - 1) + (if Drops(text, f, n - 1) then [] else [text[n - 1]])
  }

  function Filtered(text: Text, f: Filter): Text { Remaining(text, f, |text|) }

  method ApplyFilter(text: Text, f: Filter) returns (r: Text)
    ensures r == Filtered(text, f)
  {
    hide NextOf, PreviousOf;
    r := [];
    for n := 0 to |text|
      invariant r == Remaining(text, f, n)
    {
      var drop := f.drop(text[n].scalar);
      if drop {
        var next := NeighboringCharacter(text, n, 1, f.skip);
        var previous := NeighboringCharacter(text, n, -1, f.skip);
        drop := Flanked(f, previous, next);
      }
      if !drop {
        r := r + [text[n]];
      }
    }
  }

  /** In a maximal run of skipped scalars all droppable ones share one fate, decided by the run's two neighbours. */
  lemma RunSharesFate(text: Text, f: Filter, i: nat, j: nat, k: nat)
    requires i <= k < j <= |text| && LooksPast(f)
    requires forall m :: i <= m < j ==> f.skip(text[m].scalar)
    requires i > 0 ==> !f.skip(text[i - 1].scalar)
    requires j < |text| ==> !f.skip(text[j].scalar)
    ensures Drops(text, f, k) <==>
      f.drop(text[k].scalar) && i > 0 && f.side(text[i - 1].scalar) && j < |text| && f.side(text[j].scalar)
  {
    NextInRun(text, f.skip, k + 1, j);
    PreviousInRun(text, f.skip, i, k);
  }

  lemma {:induction false} NextInRun(text: Text, skip: char -> bool, k: nat, j: nat)
    requires k <= j <= |text| && forall m :: k <= m < j ==> skip(text[m].scalar)
    requires j < |text| ==> !skip(text[j].scalar)
    ensures NextOf(text, k, skip) == if j < |text| then Some(text[j].scalar) else None
    decreases j - k
  {
    if k < j {
      NextInRun(text, skip, k + 1, j);
    }
  }

  lemma {:induction false} PreviousInRun(text: Text, skip: char -> bool, i: nat, k: nat)
    requires i <= k <= |text| && forall m :: i <= m < k ==> skip(text[m].scalar)
    requires i > 0 ==> !skip(text[i - 1].scalar)
    ensures PreviousOf(text, k, skip) == if i > 0 then Some(text[i - 1].scalar) else None
    decreases k - i
  {
    if i < k {
      PreviousInRun(text, skip, i, k - 1);
    }
  }

  // ---- Filtering settles in one pass --------------------------------------------------------------

  lemma {:induction false} RemainingPrefix(text: Text, f: Filter, k: nat, n: nat)
    requires k <= n <= |text|
    ensures Remaining(text, f, k) <= Remaining(text, f, n)
    decreases n
  {
    hide Drops;
    if k < n {
      RemainingPrefix(text, f, k, n - 1);
    }
  }

  /** A scalar that stays is found where the ones before it end. */
  lemma StaysAt(text: Text, f: Filter, k: nat)
    requires k < |text| && !Drops(text, f, k)
    ensures |Remaining(text, f, k)| < |Filtered(text, f)| && Filtered(text, f)[|Remaining(text, f, k)|] == text[k]
    ensures |Remaining(text, f, k + 1)| == |Remaining(text, f, k)| + 1
  {
    hide Drops;
    RemainingPrefix(text, f, k + 1, |text|);
    assert Remaining(text, f, k + 1)[|Remaining(text, f, k)|] == text[k];
  }

  lemma GoneAt(text: Text, f: Filter, k: nat)
    requires k < |text| && Drops(text, f, k)
    ensures |Remaining(text, f, k + 1)| == |Remaining(text, f, k)|
  {
  }

  lemma {:induction false} NextUnchanged(text: Text, f: Filter, k: nat)
    requires LooksPast(f) && k <= |text|
    ensures NextOf(Filtered(text, f), |Remaining(text, f, k)|, f.skip) == NextOf(text, k, f.skip)
    decreases |text| - k
  {
    if k < |text| {
      NextUnchanged(text, f, k + 1);
      if Drops(text, f, k) {
        GoneAt(text, f, k);
      } else {
        StaysAt(text, f, k);
      }
    }
  }

  lemma {:induction false} PreviousUnchanged(text: Text, f: Filter, k: nat)
    requires LooksPast(f) && k <= |text|
    ensures |Remaining(text, f, k)| <= |Filtered(text, f)|
    ensures PreviousOf(Filtered(text, f), |Remaining(text, f, k)|, f.skip) == PreviousOf(text, k, f.skip)
  {
    RemainingPrefix(text, f, k, |text|);
    if k > 0 {
      PreviousUnchanged(text, f, k - 1);
      if Drops(text, f, k - 1) {
        GoneAt(text, f, k - 1);
      } else {
        StaysAt(text, f, k - 1);
      }
    }
  }

  /** Every position of the result is that of a scalar that stayed. */
  lemma {:induction false} Source(text: Text, f: Filter, n: nat, p: nat) returns (k: nat)
    requires n <= |text| && p < |Remaining(text, f, n)|
    ensures k < n && !Drops(text, f, k) && |Remaining(text, f, k)| == p && Remaining(text, f, n)[p] == text[k]
  {
    hide Drops;
    if p < |Remaining(text, f, n - 1)| {
      k := Source(text, f, n - 1, p);
    } else {
      k := n - 1;
    }
  }

  lemma StaysStaying(text: Text, f: Filter, p: nat)
    requires LooksPast(f) && p < |Filtered(text, f)|
    ensures !Drops(Filtered(text, f), f, p)
  {
    var k := Source(text, f, |text|, p);
    StaysAt(text, f, k);
    NextUnchanged(text, f, k + 1);
    PreviousUnchanged(text, f, k);
    hide NextOf, PreviousOf;
  }

  lemma {:induction false} NothingDropped(text: Text, f: Filter, n: nat)
    requires n <= |text| && forall p :: 0 <= p < n ==> !Drops(text, f, p)
    ensures Remaining(text, f, n) == text[..n]
  {
    hide Drops;
    if n > 0 {
      NothingDropped(text, f, n - 1);
      assert text[..n] == text[..n - 1] + [text[n - 1]];
    }
  }

  /** A second application changes nothing. */
  lemma FilterIdempotent(text: Text, f: Filter)
    requires LooksPast(f)
    ensures Filtered(Filtered(text, f), f) == Filtered(text, f)
  {
    hide Drops, Remaining, LooksPast;
    var r := Filtered(text, f);
    forall p | 0 <= p < |r| ensures !Drops(r, f, p) {
      StaysStaying(text, f, p);
    }
    NothingDropped(r, f, |r|);
    assert r[..|r|] == r;
  }

  /** `r` is what stands in `s` at the ascending positions `at`. */
  ghost predicate Selects(s: Text, r: Text, at: seq<nat>) {
    && |at| == |r| && (forall i :: 0 <= i < |at| ==> at[i] < |s| && r[i] == s[at[i]])
    && (forall i, j :: 0 <= i < j < |at| ==> at[i] < at[j])
  }

  lemma SelectsOneMore(s: Text, r: Text, at: seq<nat>, k: nat)
    requires Selects(s, r, at) && k < |s| && forall i :: 0 <= i < |at| ==> at[i] < k
    ensures Selects(s, r + [s[k]], at + [k]) && forall p: nat :: p in at + [k] <==> p in at || p == k
  {
  }

  lemma RemainingNext(text: Text, f: Filter, n: nat)
    requires 0 < n <= |text|
    ensures Remaining(text, f, 0) == []
    ensures Remaining(text, f, n) == Remaining(text, f, n - 1) + if Drops(text, f, n - 1) then [] else [text[n - 1]]
  {
    hide Drops;
  }

  lemma Before(at: seq<nat>, n: nat)
    requires forall k: nat :: k in at ==> k < n
    ensures forall i :: 0 <= i < |at| ==> at[i] < n
  {
    assert forall i :: 0 <= i < |at| ==> at[i] in at;
  }

  /** The scalars that stay, and no others, keep their spans and their order. */
  lemma {:induction false} FilterKeepsOrder(text: Text, f: Filter, n: nat) returns (at: seq<nat>)
    requires n <= |text|
    ensures Selects(text, Remaining(text, f, n), at) && forall i :: 0 <= i < |at| ==> at[i] < n
    ensures forall k: nat :: k in at <==> k < n && !Drops(text, f, k)
    ensures n == |text| ==> Selects(text, Filtered(text, f), at)
  {
    at := [];
    if n > 0 {
      hide Drops, Selects, Remaining;
      RemainingNext(text, f, n);
      at := FilterKeepsOrder(text, f, n - 1);
      if Drops(text, f, n - 1) {
        assert Remaining(text, f, n) == Remaining(text, f, n - 1);
      } else {
        SelectsOneMore(text, Remaining(text, f, n - 1), at, n - 1);
        at := at + [n - 1];
      }
      Before(at, n);
    }
  }

  // ---- The two passes ---------------------------------------------------------------------------

  /** Unicode properties the security view reads. */
  datatype SecurityTests = SecurityTests(
    alphabetic: char -> bool, alphanumeric: char -> bool, mark: char -> bool, latin: char -> bool,
    defaultIgnorable: char -> bool, greekOrCyrillic: char -> bool)

  predicate IsSecuritySeparator(c: char) { c == '.' || c == '-' || c == '_' || c == '*' || c == '~' || c == '|' || c == '`' }

  predicate IsSecurityIgnorable(t: SecurityTests, c: char) { t.defaultIgnorable(c) || c == '\U{2800}' }

  predicate AsciiLetter(c: char) { 'a' <= c <= 'z' || 'A' <= c <= 'Z' }

  predicate IsLatinLetter(t: SecurityTests, c: char) { AsciiLetter(c) || (t.alphabetic(c) && t.latin(c)) }

  predicate IsLatinCharacter(t: SecurityTests, c: char) { IsLatinLetter(t, c) || '0' <= c <= '9' }

  predicate IsTokenComponent(t: SecurityTests, c: char) { t.alphanumeric(c) || t.mark(c) }

  /** Ignorables go only from between Latin characters, looking past marks, other ignorables and separators. */
  function Ignorables(t: SecurityTests): Filter {
    Filter((c: char) => IsSecurityIgnorable(t, c),
           (c: char) => t.mark(c) || IsSecurityIgnorable(t, c) || IsSecuritySeparator(c),
           (c: char) => IsLatinCharacter(t, c))
  }

  /** Separators go only from between letters or marks, looking past other separators. */
  function Separators(t: SecurityTests): Filter {
    Filter((c: char) => IsSecuritySeparator(c), (c: char) => IsSecuritySeparator(c), (c: char) => t.alphabetic(c) || t.mark(c))
  }

  lemma PassesLookPast(t: SecurityTests)
    ensures LooksPast(Ignorables(t)) && LooksPast(Separators(t))
  {
  }

  /** A separator run goes as a whole, exactly when letters or marks stand on both sides of it. */
  lemma SeparatorRunAllOrNothing(t: SecurityTests, text: Text, i: nat, j: nat)
    requires i < j <= |text| && forall m :: i <= m < j ==> IsSecuritySeparator(text[m].scalar)
    requires i > 0 ==> !IsSecuritySeparator(text[i - 1].scalar)
    requires j < |text| ==> !IsSecuritySeparator(text[j].scalar)
    ensures var between := i > 0 && Separators(t).side(text[i - 1].scalar) && j < |text| && Separators(t).side(text[j].scalar);
      forall k :: i <= k < j ==> (Drops(text, Separators(t), k) <==> between)
  {
    PassesLookPast(t);
    forall k | i <= k < j
      ensures Drops(text, Separators(t), k) <==>
        i > 0 && Separators(t).side(text[i - 1].scalar) && j < |text| && Separators(t).side(text[j].scalar)
    {
      RunSharesFate(text, Separators(t), i, j, k);
    }
  }

  // ---- Mixed-script tokens ------------------------------------------------------------------------

  /** The table of common shapes. */
  function ConfusableShape(c: char): Option<char> {
    match c
    case '\U{03B1}' => Some('a')
    case '\U{03B2}' => Some('b')
    case '\U{03B5}' => Some('e')
    case '\U{03B9}' => Some('i')
    case '\U{03BA}' => Some('k')
    case '\U{03BF}' => Some('o')
    case '\U{03C1}' => Some('p')
    case '\U{03C4}' => Some('t')
    case '\U{03C7}' => Some('x')
    case '\U{03F2}' => Some('c')
    case '\U{0430}' => Some('a')
    case '\U{0432}' => Some('b')
    case '\U{0441}' => Some('c')
    case '\U{0435}' => Some('e')
    case '\U{0456}' => Some('i')
    case '\U{043A}' => Some('k')
    case '\U{043C}' => Some('m')
    case '\U{043D}' => Some('h')
    case '\U{043E}' => Some('o')
    case '\U{0440}' => Some('p')
    case '\U{0442}' => Some('t')
    case '\U{0445}' => Some('x')
    case '\U{0443}' => Some('y')
    case '\U{0455}' => Some('s')
    case '\U{0458}' => Some('j')
    case _ => None
  }

  function Confusable(t: SecurityTests, c: char): Option<char> {
    if ConfusableShape(c).Some? && t.greekOrCyrillic(c) then ConfusableShape(c) else None
  }

  /** Scalars i and j stand in one token. */
  predicate SameToken(t: SecurityTests, text: Text, i: nat, j: nat)
    requires i < |text| && j < |text|
  {
    && (forall k :: i <= k <= j ==> IsTokenComponent(t, text[k].scalar))
    && (forall k :: j <= k <= i ==> IsTokenComponent(t, text[k].scalar))
  }

  /** The token of `i` has a Latin letter and a confusable one. */
  ghost predicate Mixed(t: SecurityTests, text: Text, i: nat)
    requires i < |text|
  {
    && (exists j :: 0 <= j < |text| && SameToken(t, text, i, j) && IsLatinLetter(t, text[j].scalar))
    && (exists j :: 0 <= j < |text| && SameToken(t, text, i, j) && Confusable(t, text[j].scalar).Some?)
  }

  function MapScalar(t: SecurityTests, m: Mapped): Mapped {
    if Confusable(t, m.scalar).Some? then m.(scalar := Confusable(t, m.scalar).value) else m
  }

  /** Confusable letters are replaced in mixed tokens, and only there. */
  ghost predicate IsMixedMapping(t: SecurityTests, text: Text, r: Text) {
    |r| == |text| && forall i :: 0 <= i < |text| ==> r[i] == if Mixed(t, text, i) then MapScalar(t, text[i]) else text[i]
  }

  /** [start, end) is a whole token. */
  predicate IsToken(t: SecurityTests, text: Text, start: nat, end: nat) {
    && start < end <= |text| && (forall k :: start <= k < end ==> IsTokenComponent(t, text[k].scalar))
    && (start > 0 ==> !IsTokenComponent(t, text[start - 1].scalar))
    && (end < |text| ==> !IsTokenComponent(t, text[end].scalar))
  }

  lemma TokenMembers(t: SecurityTests, text: Text, start: nat, end: nat, i: nat, j: nat)
    requires IsToken(t, text, start, end) && start <= i < end && j < |text|
    ensures SameToken(t, text, i, j) <==> start <= j < end
  {
    if j < start {
      assert j <= start - 1 <= i;
    }
    if j >= end {
      assert i <= end <= j;
    }
  }

  lemma TokenMixed(t: SecurityTests, text: Text, start: nat, end: nat, i: nat)
    requires IsToken(t, text, start, end) && start <= i < end
    ensures Mixed(t, text, i) <==>
      (exists j :: start <= j < end && IsLatinLetter(t, text[j].scalar)) && exists j :: start <= j < end && Confusable(t, text[j].scalar).Some?
  {
    hide SameToken, IsToken, IsLatinLetter, Confusable;
    TokenBound(t, text, start, end);
    forall j: nat | j < |text| ensures SameToken(t, text, i, j) <==> start <= j < end {
      TokenMembers(t, text, start, end, i, j);
    }
    if x :| start <= x < end && IsLatinLetter(t, text[x].scalar) {
      assert SameToken(t, text, i, x);
    }
    if x :| start <= x < end && Confusable(t, text[x].scalar).Some? {
      assert SameToken(t, text, i, x);
    }
  }

  lemma TokenBound(t: SecurityTests, text: Text, start: nat, end: nat)
    requires IsToken(t, text, start, end)
    ensures end <= |text|
  {
  }

  lemma NotMixedOutside(t: SecurityTests, text: Text, i: nat)
    requires i < |text| && !IsTokenComponent(t, text[i].scalar)
    ensures !Mixed(t, text, i)
  {
  }

  /** `map_mixed_script_tokens`: one token at a time. */
  method MapMixedScriptTokens(t: SecurityTests, text: Text) returns (r: Text)
    ensures IsMixedMapping(t, text, r)
  {
    hide Mixed, MapScalar, IsLatinLetter, Confusable, IsTokenComponent;
    r := text;
    var start := 0;
    while start < |text|
      invariant start <= |text| == |r|
      invariant start > 0 && start < |text| ==>
        !IsTokenComponent(t, text[start - 1].scalar) || !IsTokenComponent(t, text[start].scalar)
      invariant forall i :: 0 <= i < start ==> r[i] == if Mixed(t, text, i) then MapScalar(t, text[i]) else text[i]
      invariant forall i :: start <= i < |text| ==> r[i] == text[i]
    {
      if !IsTokenComponent(t, text[start].scalar) {
        NotMixedOutside(t, text, start);
        start := start + 1;
      } else {
        var end := TokenEnd(t, text, start);
        var mixed := HasMixture(t, text, start, end);
        forall i | start <= i < end ensures Mixed(t, text, i) == mixed {
          TokenMixed(t, text, start, end, i);
        }
        if mixed {
          r := MapRange(t, r, start, end);
        }
        start := end;
      }
    }
  }

  method TokenEnd(t: SecurityTests, text: Text, start: nat) returns (end: nat)
    requires start < |text| && IsTokenComponent(t, text[start].scalar)
    requires start > 0 ==> !IsTokenComponent(t, text[start - 1].scalar)
    ensures IsToken(t, text, start, end)
  {
    end := start + 1;
    while end < |text| && IsTokenComponent(t, text[end].scalar)
      invariant start < end <= |text| && forall k :: start <= k < end ==> IsTokenComponent(t, text[k].scalar)
    {
      end := end + 1;
    }
  }

  method HasMixture(t: SecurityTests, text: Text, start: nat, end: nat) returns (mixed: bool)
    requires start <= end <= |text|
    ensures mixed <==>
      (exists j :: start <= j < end && IsLatinLetter(t, text[j].scalar)) && exists j :: start <= j < end && Confusable(t, text[j].scalar).Some?
  {
    mixed := (exists j :: start <= j < end && IsLatinLetter(t, text[j].scalar))
      && exists j :: start <= j < end && Confusable(t, text[j].scalar).Some?;
  }

  method MapRange(t: SecurityTests, text: Text, start: nat, end: nat) returns (r: Text)
    requires start <= end <= |text|
    ensures |r| == |text|
    ensures forall i :: 0 <= i < |text| ==> r[i] == if start <= i < end then MapScalar(t, text[i]) else text[i]
  {
    r := text;
    for k := start to end
      invariant |r| == |text|
      invariant forall i :: 0 <= i < |text| ==> r[i] == if start <= i < k then MapScalar(t, text[i]) else text[i]
    {
      r := r[k := MapScalar(t, text[k])];
    }
  }

  /** The letters of the table and the ASCII letters they become are token characters. */
  ghost predicate LettersAreTokens(t: SecurityTests) {
    forall c :: Confusable(t, c).Some? || 'a' <= c <= 'z' ==> IsTokenComponent(t, c)
  }

  lemma ShapesAreLetters(t: SecurityTests, c: char)
    requires Confusable(t, c).Some?
    ensures 'a' <= Confusable(t, c).value <= 'z' && Confusable(t, Confusable(t, c).value) == None
  {
  }

  lemma MappingKeepsTokens(t: SecurityTests, text: Text, r: Text, i: nat)
    requires LettersAreTokens(t) && IsMixedMapping(t, text, r) && i < |text|
    ensures IsTokenComponent(t, r[i].scalar) == IsTokenComponent(t, text[i].scalar)
  {
    hide Mixed, IsTokenComponent, Confusable;
    if Mixed(t, text, i) && Confusable(t, text[i].scalar).Some? {
      ShapesAreLetters(t, text[i].scalar);
    }
  }

  lemma TokensKept(t: SecurityTests, text: Text, r: Text, i: nat, j: nat)
    requires LettersAreTokens(t) && IsMixedMapping(t, text, r) && i < |text| && j < |text|
    ensures SameToken(t, r, i, j) == SameToken(t, text, i, j)
  {
    hide Mixed, IsTokenComponent, LettersAreTokens, IsMixedMapping;
    assert |r| == |text| by { MappedLength(t, text, r); }
    forall k: nat | k < |text| ensures IsTokenComponent(t, r[k].scalar) == IsTokenComponent(t, text[k].scalar) {
      MappingKeepsTokens(t, text, r, k);
    }
  }

  lemma MappedLength(t: SecurityTests, text: Text, r: Text)
    requires IsMixedMapping(t, text, r)
    ensures |r| == |text|
  {
  }

  lemma TokensShareMixture(t: SecurityTests, text: Text, i: nat, j: nat)
    requires i < |text| && j < |text| && SameToken(t, text, i, j) && Mixed(t, text, i)
    ensures Mixed(t, text, j)
  {
    var a :| 0 <= a < |text| && SameToken(t, text, i, a) && IsLatinLetter(t, text[a].scalar);
    var b :| 0 <= b < |text| && SameToken(t, text, i, b) && Confusable(t, text[b].scalar).Some?;
    hide IsTokenComponent, IsLatinLetter, Confusable;
    TokenTransitive(t, text, i, j, a);
    TokenTransitive(t, text, i, j, b);
  }

  lemma TokenTransitive(t: SecurityTests, text: Text, i: nat, j: nat, a: nat)
    requires i < |text| && j < |text| && a < |text| && SameToken(t, text, i, j) && SameToken(t, text, i, a)
    ensures SameToken(t, text, j, a)
  {
    hide IsTokenComponent;
  }

  /** No scalar of a mapped text still stands in a mixed token with a confusable letter of its own. */
  lemma NothingLeftToMap(t: SecurityTests, text: Text, r: Text, i: nat)
    requires LettersAreTokens(t) && IsMixedMapping(t, text, r) && i < |text| && |r| == |text|
    ensures !Mixed(t, r, i)
  {
    hide IsTokenComponent, LettersAreTokens, IsLatinLetter, Confusable, SameToken;
    if Mixed(t, r, i) {
      var b :| 0 <= b < |r| && SameToken(t, r, i, b) && Confusable(t, r[b].scalar).Some?;
      var a :| 0 <= a < |r| && SameToken(t, r, i, a) && IsLatinLetter(t, r[a].scalar);
      TokensKept(t, text, r, i, b);
      TokensKept(t, text, r, i, a);
      if Mixed(t, text, b) {
        StillConfusable(t, text[b]);
        assert false;
      } else {
        assert r[b] == text[b];
        SameTokenBack(t, text, i, b);
        TokenTransitive(t, text, i, b, a);
        SameTokenBack(t, text, b, a);
        SameTokenSelf(t, text, b, a);
        if Mixed(t, text, a) {
          TokensShareMixture(t, text, a, b);
        }
        assert false;
      }
    }
  }

  lemma SameTokenBack(t: SecurityTests, text: Text, i: nat, j: nat)
    requires i < |text| && j < |text| && SameToken(t, text, i, j)
    ensures SameToken(t, text, j, i)
  {
  }

  lemma SameTokenSelf(t: SecurityTests, text: Text, i: nat, j: nat)
    requires i < |text| && j < |text| && SameToken(t, text, i, j)
    ensures SameToken(t, text, i, i)
  {
  }

  lemma StillConfusable(t: SecurityTests, m: Mapped)
    ensures Confusable(t, MapScalar(t, m).scalar) == None
  {
    if Confusable(t, m.scalar).Some? {
      ShapesAreLetters(t, m.scalar);
    }
  }

  /** Mapping a mapped text changes nothing. */
  lemma MixedMappingIdempotent(t: SecurityTests, text: Text, r: Text, again: Text)
    requires LettersAreTokens(t) && IsMixedMapping(t, text, r) && IsMixedMapping(t, r, again)
    ensures again == r
  {
    hide Mixed, LettersAreTokens;
    forall i | 0 <= i < |r| ensures again[i] == r[i] {
      NothingLeftToMap(t, text, r, i);
    }
  }
}
