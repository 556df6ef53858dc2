/**
 * The pre-hash byte stream of `profile_fingerprint_with_version`. It carries
 * no element counts and no separators, yet on validated rules it is uniquely
 * decodable: each part is told from what may follow it by its leading bytes.
 */
module RuleEncoding {
  import opened ByteEncoding

  datatype PatternCode = PatternCode(code: Byte, text: seq<Byte>)

  datatype ActionCode = ActionCode(code: Byte, duration: nat, replacement: seq<Byte>)

  datatype RuleCode = RuleCode(
    name: seq<Byte>, description: seq<Byte>, reason: seq<Byte>,
    surfaces: seq<Byte>, patterns: seq<PatternCode>, actions: seq<ActionCode>)

  function PatternBytes(p: PatternCode): seq<Byte> { [p.code] + Field(p.text) }

  function ActionBytes(a: ActionCode): seq<Byte> { [a.code] + U64(a.duration) + Field(a.replacement) }

  function PatternsBytes(ps: seq<PatternCode>): seq<Byte> {
    if ps == [] then [] else PatternBytes(ps[0]) + PatternsBytes(ps[1..])
  }

  function ActionsBytes(xs: seq<ActionCode>): seq<Byte> {
    if xs == [] then [] else ActionBytes(xs[0]) + ActionsBytes(xs[1..])
  }

  function RuleBytes(r: RuleCode): seq<Byte> {
    Field(r.name) + (Field(r.description) + (Field(r.reason)
    + (r.surfaces + (PatternsBytes(r.patterns) + ActionsBytes(r.actions)))))
  }

  function RulesBytes(rules: seq<RuleCode>): seq<Byte> {
    if rules == [] then [] else RuleBytes(rules[0]) + RulesBytes(rules[1..])
  }

  // ---- What validation guarantees ----------------------------------------------

  /** Non-empty, free of NUL, and with a type code below every duration-bearing action code. */
  ghost predicate GoodPattern(p: PatternCode) {
    p.code < 5 && |p.text| > 0 && Small(|p.text|) && forall i :: 0 <= i < |p.text| ==> p.text[i] != 0
  }

  ghost predicate GoodPatterns(ps: seq<PatternCode>) {
    forall i :: 0 <= i < |ps| ==> GoodPattern(ps[i])
  }

  ghost predicate GoodAction(a: ActionCode) {
    a.code < 13 && Small(a.duration) && Small(|a.replacement|) && (a.code < 5 ==> a.duration == 0)
  }

  ghost predicate Ascending(s: seq<Byte>) {
    forall i, j :: 0 <= i < j < |s| ==> s[i] < s[j]
  }

  ghost predicate GoodActions(xs: seq<ActionCode>) {
    && (forall i :: 0 <= i < |xs| ==> GoodAction(xs[i]))
    && (forall i, j :: 0 <= i < j < |xs| ==> xs[i].code < xs[j].code)
  }

  ghost predicate GoodRule(r: RuleCode) {
    && Small(|r.name|) && Small(|r.description|) && Small(|r.reason|)
    && r.surfaces != [] && Ascending(r.surfaces)
    && r.patterns != [] && GoodPatterns(r.patterns)
    && r.actions != [] && GoodActions(r.actions)
  }

  // ---- Telling the parts apart ----------------------------------------------------

  /** What may follow the patterns: an action, whose duration bytes are zero when its code could be a pattern type. */
  ghost predicate ActionStart(u: seq<Byte>) {
    |u| >= 9 && u[1] == 0 && (u[0] < 5 ==> u[1..9] == U64(0))
  }

  /** What may follow the actions: the end, or a rule whose name length starts with a zero byte. */
  ghost predicate RuleStart(x: seq<Byte>) { x == [] || x[0] == 0 }

  lemma ActionsStart(xs: seq<ActionCode>, x: seq<Byte>)
    requires xs != [] && GoodActions(xs)
    ensures ActionStart(ActionsBytes(xs) + x)
  {
    var a, u := xs[0], ActionsBytes(xs) + x;
    assert GoodAction(a);
    hide U64, Small, Field;
    assert u[0] == a.code && u[1..9] == U64(a.duration);
    U64Small(a.duration, a.duration);
    assert u[1] == u[1..9][0];
  }

  /** A pattern's length is positive, so its bytes are not an action's zero duration. */
  lemma PatternOrAction(p: PatternCode, v: seq<Byte>, u: seq<Byte>)
    requires GoodPattern(p) && ActionStart(u)
    ensures PatternBytes(p) + v != u
  {
    hide U64, Small;
    if PatternBytes(p) + v == u {
      assert u[0] == p.code && u[1..9] == U64(|p.text|);
      SmallZero();
      U64Small(|p.text|, 0);
    }
  }

  lemma SmallZero()
    ensures Small(0)
  {
  }

  lemma PatternCancel(p: PatternCode, q: PatternCode, x: seq<Byte>, y: seq<Byte>)
    requires GoodPattern(p) && GoodPattern(q) && PatternBytes(p) + x == PatternBytes(q) + y
    ensures p == q && x == y
  {
    hide Field, Small;
    var all := PatternBytes(p) + x;
    assert all[0] == p.code && all[1..] == Field(p.text) + x;
    assert all == PatternBytes(q) + y;
    assert all[0] == q.code && all[1..] == Field(q.text) + y;
    FieldCancel(p.text, q.text, x, y);
  }

  lemma Regroup(a: seq<Byte>, b: seq<Byte>, c: seq<Byte>)
    ensures (a + b) + c == a + (b + c)
  {
  }

  lemma PatternsSplit(ps: seq<PatternCode>, u: seq<Byte>)
    requires ps != []
    ensures PatternsBytes(ps) + u == [ps[0].code] + (Field(ps[0].text) + (PatternsBytes(ps[1..]) + u))
    ensures PatternsBytes(ps) + u == PatternBytes(ps[0]) + (PatternsBytes(ps[1..]) + u)
  {
    hide Field;
    Regroup(PatternBytes(ps[0]), PatternsBytes(ps[1..]), u);
    Regroup([ps[0].code], Field(ps[0].text), PatternsBytes(ps[1..]) + u);
  }

  lemma GoodPatternsTail(ps: seq<PatternCode>)
    requires GoodPatterns(ps) && ps != []
    ensures GoodPattern(ps[0]) && GoodPatterns(ps[1..])
  {
  }

  lemma PatternsNone(u: seq<Byte>)
    ensures PatternsBytes([]) + u == u
  {
  }

  lemma {:induction false} PatternsCancel(ps: seq<PatternCode>, qs: seq<PatternCode>, u: seq<Byte>, v: seq<Byte>)
    requires GoodPatterns(ps) && GoodPatterns(qs)
    requires ActionStart(u) && ActionStart(v) && PatternsBytes(ps) + u == PatternsBytes(qs) + v
    ensures ps == qs && u == v
    decreases |ps|
  {
    hide ActionStart, GoodPattern, GoodPatterns, PatternBytes, PatternsBytes;
    PatternsNone(u);
    PatternsNone(v);
    if ps != [] {
      GoodPatternsTail(ps);
      PatternsSplit(ps, u);
    }
    if qs != [] {
      GoodPatternsTail(qs);
      PatternsSplit(qs, v);
    }
    if ps == [] && qs != [] {
      PatternOrAction(qs[0], PatternsBytes(qs[1..]) + v, u);
    } else if qs == [] && ps != [] {
      PatternOrAction(ps[0], PatternsBytes(ps[1..]) + u, v);
    } else if ps != [] {
      PatternCancel(ps[0], qs[0], PatternsBytes(ps[1..]) + u, PatternsBytes(qs[1..]) + v);
      PatternsCancel(ps[1..], qs[1..], u, v);
      assert ps == [ps[0]] + ps[1..] && qs == [qs[0]] + qs[1..];
    }
  }

  lemma ActionCancel(a: ActionCode, b: ActionCode, x: seq<Byte>, y: seq<Byte>)
    requires GoodAction(a) && GoodAction(b) && ActionBytes(a) + x == ActionBytes(b) + y
    ensures a == b && x == y
  {
    hide Field, Small, U64;
    var all := ActionBytes(a) + x;
    assert all == ActionBytes(b) + y;
    assert all[0] == a.code && all[1..9] == U64(a.duration) && all[9..] == Field(a.replacement) + x;
    assert all[0] == b.code && all[1..9] == U64(b.duration) && all[9..] == Field(b.replacement) + y;
    U64Small(a.duration, b.duration);
    FieldCancel(a.replacement, b.replacement, x, y);
  }

  ghost predicate PositiveCodes(xs: seq<ActionCode>) {
    forall i :: 0 <= i < |xs| ==> xs[i].code > 0
  }

  lemma ActionOrRule(xs: seq<ActionCode>, x: seq<Byte>, y: seq<Byte>)
    requires xs != [] && PositiveCodes(xs) && RuleStart(y)
    ensures ActionsBytes(xs) + x != y
  {
    assert xs[0].code > 0;
    assert (ActionsBytes(xs) + x)[0] == xs[0].code;
  }

  lemma ActionsSplit(xs: seq<ActionCode>, x: seq<Byte>)
    requires xs != []
    ensures ActionsBytes(xs) + x == ActionBytes(xs[0]) + (ActionsBytes(xs[1..]) + x)
  {
    hide ActionBytes;
  }

  lemma ActionsNone(x: seq<Byte>)
    ensures ActionsBytes([]) + x == x
  {
  }

  /** Actions after the first have positive codes, so a zero byte ends the list. */
  lemma {:induction false} ActionsCancel(xs: seq<ActionCode>, ys: seq<ActionCode>, x: seq<Byte>, y: seq<Byte>, first: bool)
    requires GoodActions(xs) && GoodActions(ys) && RuleStart(x) && RuleStart(y)
    requires if first then xs != [] && ys != [] else PositiveCodes(xs) && PositiveCodes(ys)
    requires ActionsBytes(xs) + x == ActionsBytes(ys) + y
    ensures xs == ys && x == y
    decreases |xs|
  {
    hide GoodActions, RuleStart, PositiveCodes, ActionsBytes, ActionBytes;
    ActionsNone(x);
    ActionsNone(y);
    if xs == [] && ys == [] {
    } else if xs == [] {
      ActionOrRule(ys, y, x);
    } else if ys == [] {
      ActionOrRule(xs, x, y);
    } else {
      ActionsSplit(xs, x);
      ActionsSplit(ys, y);
      GoodTail(xs);
      GoodTail(ys);
      ActionCancel(xs[0], ys[0], ActionsBytes(xs[1..]) + x, ActionsBytes(ys[1..]) + y);
      ActionsCancel(xs[1..], ys[1..], x, y, false);
      assert xs == [xs[0]] + xs[1..] && ys == [ys[0]] + ys[1..];
    }
  }

  lemma GoodTail(xs: seq<ActionCode>)
    requires GoodActions(xs) && xs != []
    ensures GoodAction(xs[0]) && GoodActions(xs[1..]) && PositiveCodes(xs[1..])
  {
    forall i | 0 <= i < |xs[1..]| ensures GoodAction(xs[1..][i]) && xs[1..][i].code > 0 {
      assert xs[1..][i] == xs[i + 1] && xs[0].code < xs[i + 1].code;
    }
    forall i, j | 0 <= i < j < |xs[1..]| ensures xs[1..][i].code < xs[1..][j].code {
      assert xs[1..][i] == xs[i + 1] && xs[1..][j] == xs[j + 1];
    }
  }

  // ---- Surfaces against patterns ---------------------------------------------------

  /** A zero second byte: true of every pattern and of every action. */
  ghost predicate SecondZero(z: seq<Byte>) { |z| >= 2 && z[1] == 0 }

  lemma PatternsSecondZero(ps: seq<PatternCode>, u: seq<Byte>)
    requires GoodPatterns(ps) && ActionStart(u)
    ensures SecondZero(PatternsBytes(ps) + u)
  {
    PatternsNone(u);
    if ps != [] {
      GoodPatternsTail(ps);
      GoodSmall(ps[0]);
      PatternsSplit(ps, u);
      FieldStartsWithZero(ps[0].text);
      hide GoodPattern, GoodPatterns, ActionStart, Field, PatternsBytes, PatternBytes, Small;
      var f := Field(ps[0].text) + (PatternsBytes(ps[1..]) + u);
      assert ([ps[0].code] + f)[1] == Field(ps[0].text)[0];
    }
  }

  lemma GoodSmall(p: PatternCode)
    requires GoodPattern(p)
    ensures Small(|p.text|) && |p.text| > 0 && p.code < 5
    ensures forall i :: 0 <= i < |p.text| ==> p.text[i] != 0
  {
  }

  lemma {:induction false} BigEndianTail(n: nat, k: nat)
    ensures BigEndian(n, k + 1)[1..] == BigEndian(n, k)
  {
    if k > 0 {
      BigEndianTail(n / 256, k - 1);
      assert BigEndian(n, k + 1)[1..] == BigEndian(n / 256, k)[1..] + [n % 256];
    }
  }

  /** Reading a length one byte late reads 256 times the length plus the next byte. */
  lemma LengthShift(len: nat, t: Byte, other: nat)
    requires Small(len) && Small(other) && U64(len)[1..] + [t] == U64(other)
    ensures other == 256 * len + t
  {
    BigEndianTail(len, 7);
    assert BigEndian(256 * len + t, 8) == BigEndian(len, 7) + [t];
    assert Pow256(8) == 256 * Pow256(7);
    BigEndianInjective(256 * len + t, other, 8);
  }

  /**
   * Taking the type byte of pattern `p` for a surface makes the other reading
   * take its next bytes for a pattern of type 0 whose text holds a NUL.
   */
  lemma LateReading(p: PatternCode, z: seq<Byte>, q: PatternCode, w: seq<Byte>)
    requires GoodPattern(p) && SecondZero(z) && Small(|q.text|)
    requires Field(p.text) + z == PatternBytes(q) + w
    ensures |p.text| < |q.text| && q.text[|p.text|] == 0
  {
    GoodSmall(p);
    FieldParts(p.text, z);
    FieldParts(q.text, w);
    hide GoodPattern, Small, U64, Field;
    var all, n := Field(p.text) + z, |p.text|;
    var tail := all[1..];
    assert tail == Field(q.text) + w by {
      Regroup([q.code], Field(q.text), w);
    }
    assert all[8] == all[8..8 + n][0] == p.text[0];
    assert tail[..8] == all[..8][1..] + [all[8]];
    LengthShift(n, p.text[0], |q.text|);
    assert q.text[n] == tail[8..8 + |q.text|][n] == all[8 + n..][1];
  }

  lemma FieldParts(x: seq<Byte>, y: seq<Byte>)
    ensures (Field(x) + y)[..8] == U64(|x|)
    ensures (Field(x) + y)[8..8 + |x|] == x && (Field(x) + y)[8 + |x|..] == y
  {
    hide U64;
  }

  lemma SurfaceNotPattern(p: PatternCode, z: seq<Byte>, q: PatternCode, w: seq<Byte>)
    requires GoodPattern(p) && GoodPattern(q) && SecondZero(z)
    ensures Field(p.text) + z != PatternBytes(q) + w
  {
    GoodSmall(q);
    hide GoodPattern, Field, PatternBytes, Small, SecondZero;
    if Field(p.text) + z == PatternBytes(q) + w {
      LateReading(p, z, q, w);
    }
  }

  lemma AscendingTail(s: seq<Byte>)
    requires Ascending(s) && s != []
    ensures Ascending(s[1..]) && forall i :: 0 <= i < |s[1..]| ==> s[1..][i] > 0
  {
    forall i, j | 0 <= i < j < |s[1..]| ensures s[1..][i] < s[1..][j] {
      assert s[1..][i] == s[i + 1] && s[1..][j] == s[j + 1];
    }
    forall i | 0 <= i < |s[1..]| ensures s[1..][i] > 0 {
      assert s[0] < s[i + 1];
    }
  }

  /** One reading cannot have a surface where the other has its first pattern. */
  lemma SurfacesEnd(ps: seq<PatternCode>, u: seq<Byte>, t: seq<Byte>, qs: seq<PatternCode>, v: seq<Byte>)
    requires ps != [] && qs != [] && t != []
    requires GoodPatterns(ps) && GoodPatterns(qs)
    requires ActionStart(u) && ActionStart(v) && Ascending(t)
    ensures PatternsBytes(ps) + u != t + (PatternsBytes(qs) + v)
  {
    GoodPatternsTail(ps);
    GoodPatternsTail(qs);
    PatternsSecondZero(ps[1..], u);
    AscendingTail(t);
    PatternsSplit(ps, u);
    PatternsSplit(qs, v);
    GoodSmall(ps[0]);
    FieldStartsWithZero(ps[0].text);
    if PatternsBytes(ps) + u == t + (PatternsBytes(qs) + v) {
      hide GoodPattern, GoodPatterns, ActionStart, Ascending, Field, SecondZero, PatternsBytes, PatternBytes, Small;
      var z, w := PatternsBytes(ps[1..]) + u, PatternsBytes(qs[1..]) + v;
      var right := t + (PatternBytes(qs[0]) + w);
      assert right[1..] == Field(ps[0].text) + z;
      if |t| == 1 {
        assert right[1..] == PatternBytes(qs[0]) + w;
        SurfaceNotPattern(ps[0], z, qs[0], w);
      }
      SecondSurface(t, PatternBytes(qs[0]) + w);
    }
  }

  lemma SecondSurface(t: seq<Byte>, rest: seq<Byte>)
    ensures |t| > 1 ==> (t + rest)[1..][0] == t[1..][0]
  {
  }

  lemma NoSurfaces(x: seq<Byte>)
    ensures [] + x == x
  {
  }

  lemma {:induction false} SurfacesCancel(s: seq<Byte>, t: seq<Byte>, ps: seq<PatternCode>, qs: seq<PatternCode>, u: seq<Byte>, v: seq<Byte>)
    requires Ascending(s) && Ascending(t)
    requires ps != [] && qs != [] && GoodPatterns(ps) && GoodPatterns(qs)
    requires ActionStart(u) && ActionStart(v)
    requires s + (PatternsBytes(ps) + u) == t + (PatternsBytes(qs) + v)
    requires s == [] <==> t == []
    ensures s == t && ps == qs && u == v
    decreases |s|
  {
    hide Ascending, GoodPatterns, ActionStart, PatternsBytes;
    var a, b := PatternsBytes(ps) + u, PatternsBytes(qs) + v;
    if s == [] {
      NoSurfaces(a);
      NoSurfaces(b);
      PatternsCancel(ps, qs, u, v);
    } else {
      AscendingTail(s);
      AscendingTail(t);
      assert s == [s[0]] + s[1..] && t == [t[0]] + t[1..];
      assert (s + a)[0] == s[0] && (t + b)[0] == t[0];
      assert (s + a)[1..] == s[1..] + a && (t + b)[1..] == t[1..] + b;
      NoSurfaces(a);
      NoSurfaces(b);
      if s[1..] == [] && t[1..] != [] {
        SurfacesEnd(ps, u, t[1..], qs, v);
      } else if t[1..] == [] && s[1..] != [] {
        SurfacesEnd(qs, v, s[1..], ps, u);
      } else {
        SurfacesCancel(s[1..], t[1..], ps, qs, u, v);
      }
    }
  }

  // ---- Whole rules -------------------------------------------------------------------

  lemma RuleCancel(a: RuleCode, b: RuleCode, x: seq<Byte>, y: seq<Byte>)
    requires GoodRule(a) && GoodRule(b) && RuleStart(x) && RuleStart(y)
    requires RuleBytes(a) + x == RuleBytes(b) + y
    ensures a == b && x == y
  {
    var ua, ub := ActionsBytes(a.actions) + x, ActionsBytes(b.actions) + y;
    ActionsStart(a.actions, x);
    ActionsStart(b.actions, y);
    hide GoodPatterns, GoodActions, Ascending, Field, ActionStart, Small, PatternsBytes, ActionsBytes, RuleBytes, RuleStart;
    var sa, sb := a.surfaces + (PatternsBytes(a.patterns) + ua), b.surfaces + (PatternsBytes(b.patterns) + ub);
    RuleBytesSplit(a, x);
    RuleBytesSplit(b, y);
    FieldCancel(a.name, b.name, Field(a.description) + (Field(a.reason) + sa), Field(b.description) + (Field(b.reason) + sb));
    FieldCancel(a.description, b.description, Field(a.reason) + sa, Field(b.reason) + sb);
    FieldCancel(a.reason, b.reason, sa, sb);
    SurfacesCancel(a.surfaces, b.surfaces, a.patterns, b.patterns, ua, ub);
    ActionsCancel(a.actions, b.actions, x, y, true);
  }

  lemma RuleBytesSplit(a: RuleCode, x: seq<Byte>)
    ensures RuleBytes(a) + x == Field(a.name) + (Field(a.description) + (Field(a.reason)
      + (a.surfaces + (PatternsBytes(a.patterns) + (ActionsBytes(a.actions) + x)))))
  {
    hide Field, PatternsBytes, ActionsBytes;
    var u := ActionsBytes(a.actions);
    assert (PatternsBytes(a.patterns) + u) + x == PatternsBytes(a.patterns) + (u + x);
    var p := PatternsBytes(a.patterns) + u;
    assert (a.surfaces + p) + x == a.surfaces + (p + x);
    var s := a.surfaces + p;
    assert (Field(a.reason) + s) + x == Field(a.reason) + (s + x);
    var r := Field(a.reason) + s;
    assert (Field(a.description) + r) + x == Field(a.description) + (r + x);
    var d := Field(a.description) + r;
    assert (Field(a.name) + d) + x == Field(a.name) + (d + x);
  }

  lemma RulesStart(rules: seq<RuleCode>)
    requires forall i :: 0 <= i < |rules| ==> GoodRule(rules[i])
    ensures RuleStart(RulesBytes(rules))
  {
    if rules != [] {
      assert GoodRule(rules[0]);
      FieldStartsWithZero(rules[0].name);
      assert RulesBytes(rules)[0] == Field(rules[0].name)[0];
    }
  }

  /** The byte stream of a list of validated rules determines the list. */
  lemma {:induction false} RulesDecodable(a: seq<RuleCode>, b: seq<RuleCode>)
    requires forall i :: 0 <= i < |a| ==> GoodRule(a[i])
    requires forall i :: 0 <= i < |b| ==> GoodRule(b[i])
    requires RulesBytes(a) == RulesBytes(b)
    ensures a == b
    decreases |a|
  {
    hide GoodRule, RuleBytes;
    if a != [] {
      RuleNotEmpty(a[0]);
    }
    if b != [] {
      RuleNotEmpty(b[0]);
    }
    if a != [] && b != [] {
      RulesStart(a[1..]);
      RulesStart(b[1..]);
      RuleCancel(a[0], b[0], RulesBytes(a[1..]), RulesBytes(b[1..]));
      RulesDecodable(a[1..], b[1..]);
      assert a == [a[0]] + a[1..] && b == [b[0]] + b[1..];
    }
  }

  lemma RuleNotEmpty(r: RuleCode)
    ensures |RuleBytes(r)| > 0
  {
  }
}
