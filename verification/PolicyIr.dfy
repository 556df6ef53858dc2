/**
 * policy/ir.rs: evaluation of a rule's condition tree. It is total, computes
 * the boolean reading of the tree without short-circuits, and leaves a trace
 * with every nested condition once, after its children, under its own path.
 */
module PolicyIr {
  import opened Wrappers

  /** JSON numbers keep their integer or floating form, which equality tells apart. */
  datatype Number = Int(i: int) | Float(r: real)

  datatype Json =
    | Null | Bool(b: bool) | Num(n: Number) | Str(s: string) | Array(items: seq<Json>) | Object(fields: map<string, Json>)

  type Features = map<string, Option<Json>>

  datatype ValueRef = FromAction(path: string) | FromFeature(name: string, path: string) | Literal(value: Json)

  datatype Comparison = Greater | GreaterOrEqual | Less | LessOrEqual

  datatype Condition =
    | Constant(value: bool)
    | All(conditions: seq<Condition>)
    | Any(conditions: seq<Condition>)
    | Not(condition: Condition)
    | Exists(operand: ValueRef)
    | Eq(left: ValueRef, right: ValueRef)
    | NotEq(left: ValueRef, right: ValueRef)
    | Compare(operator: Comparison, left: ValueRef, right: ValueRef)
    | Contains(container: ValueRef, operand: ValueRef)

  datatype ConditionTrace = ConditionTrace(path: string, result: bool)

  // ---- Values ---------------------------------------------------------------------------------

  function TrimSlashes(path: string): string {
    if path != "" && path[0] == '/' then TrimSlashes(path[1..]) else path
  }

  /** The non-empty parts between dots and slashes. */
  function Parts(path: string): seq<string> {
    PartsAfter(path, "")
  }

  function PartsAfter(path: string, current: string): seq<string>
    decreases |path|
  {
    if path == "" then (if current == "" then [] else [current])
    else if path[0] == '.' || path[0] == '/' then (if current == "" then [] else [current]) + PartsAfter(path[1..], "")
    else PartsAfter(path[1..], current + [path[0]])
  }

  /** `parse::<usize>`: decimal digits after an optional plus sign. */
  function ParseIndex(part: string): Option<nat> {
    var digits := if part != "" && part[0] == '+' then part[1..] else part;
    if digits == "" then None else DigitsValue(digits)
  }

  function DigitsValue(digits: string): Option<nat> {
    if digits == "" then Some(0)
    else
      var last := digits[|digits| - 1];
      match DigitsValue(digits[..|digits| - 1])
      case None => None
      case Some(n) => if '0' <= last <= '9' then Some(10 * n + (last as nat - '0' as nat)) else None
  }

  function Descend(value: Json, parts: seq<string>): Option<Json>
    decreases |parts|
  {
    if parts == [] then Some(value)
    else
      match value
      case Object(fields) => if parts[0] in fields then Descend(fields[parts[0]], parts[1..]) else None
      case Array(items) =>
        (match ParseIndex(parts[0])
         case Some(i) => if i < |items| then Descend(items[i], parts[1..]) else None
         case None => None)
      case _ => None
  }

  function JsonPath(value: Json, path: string): Option<Json> {
    if path == "" then Some(value) else Descend(value, Parts(TrimSlashes(path)))
  }

  function Resolve(v: ValueRef, action: Json, features: Features): Option<Json> {
    match v
    case Literal(value) => Some(value)
    case FromAction(path) => JsonPath(action, path)
    case FromFeature(name, path) =>
      if name in features && features[name].Some? then JsonPath(features[name].value, path) else None
  }

  function AsNumber(v: Option<Json>): Option<real> {
    match v
    case Some(Num(Int(i))) => Some(i as real)
    case Some(Num(Float(r))) => Some(r)
    case _ => None
  }

  predicate Compares(operator: Comparison, a: real, b: real) {
    match operator
    case Greater => a > b
    case GreaterOrEqual => a >= b
    case Less => a < b
    case LessOrEqual => a <= b
  }

  predicate Occurs(needle: string, haystack: string) {
    exists i :: 0 <= i <= |haystack| && needle <= haystack[i..]
  }

  predicate ContainsValue(container: Option<Json>, needle: Option<Json>) {
    match (container, needle)
    case (Some(Str(h)), Some(Str(n))) => Occurs(n, h)
    case (Some(Array(items)), Some(n)) => n in items
    case _ => false
  }

  // ---- What a condition means -------------------------------------------------------------------

  ghost predicate Holds(c: Condition, action: Json, features: Features) {
    match c
    case Constant(value) => value
    case All(cs) => forall i :: 0 <= i < |cs| ==> Holds(cs[i], action, features)
    case Any(cs) => exists i :: 0 <= i < |cs| && Holds(cs[i], action, features)
    case Not(d) => !Holds(d, action, features)
    case Exists(v) => Resolve(v, action, features).Some?
    case Eq(l, r) => Resolve(l, action, features) == Resolve(r, action, features)
    case NotEq(l, r) => Resolve(l, action, features) != Resolve(r, action, features)
    case Compare(op, l, r) =>
      var x, y := AsNumber(Resolve(l, action, features)), AsNumber(Resolve(r, action, features));
      x.Some? && y.Some? && Compares(op, x.value, y.value)
    case Contains(h, v) => ContainsValue(Resolve(h, action, features), Resolve(v, action, features))
  }

  function Decimal(n: nat): string {
    if n < 10 then [DigitChar(n)] else Decimal(n / 10) + [DigitChar(n % 10)]
  }

  function DigitChar(n: nat): char
    requires n < 10
  {
    ('0' as nat + n) as char
  }

  function ChildPath(c: Condition, path: string, i: nat): string {
    if c.All? then path + ".all[" + Decimal(i) + "]" else if c.Any? then path + ".any[" + Decimal(i) + "]" else path + ".not"
  }

  function Children(c: Condition): (r: seq<Condition>)
    ensures forall i :: 0 <= i < |r| ==> r[i] < c
  {
    match c
    case All(cs) => cs
    case Any(cs) => cs
    case Not(d) => [d]
    case _ => []
  }

  /** The traces of the first `n` children, in order. */
  ghost function ChildTraces(c: Condition, n: nat, action: Json, features: Features, path: string): seq<ConditionTrace>
    requires n <= |Children(c)|
    decreases c, 0, n
  {
    if n == 0 then []
    else ChildTraces(c, n - 1, action, features, path) + TraceOf(Children(c)[n - 1], action, features, ChildPath(c, path, n - 1))
  }

  /** Post-order: a condition follows its children. */
  ghost function TraceOf(c: Condition, action: Json, features: Features, path: string): seq<ConditionTrace>
    decreases c, 1
  {
    ChildTraces(c, |Children(c)|, action, features, path) + [ConditionTrace(path, Holds(c, action, features))]
  }

  lemma AllHolds(c: Condition, action: Json, features: Features)
    requires c.All?
    ensures Holds(c, action, features) == forall i :: 0 <= i < |c.conditions| ==> Holds(c.conditions[i], action, features)
  {
  }

  lemma AnyHolds(c: Condition, action: Json, features: Features)
    requires c.Any?
    ensures Holds(c, action, features) == exists i :: 0 <= i < |c.conditions| && Holds(c.conditions[i], action, features)
  {
  }

  lemma NoTraces(c: Condition, action: Json, features: Features, path: string)
    ensures ChildTraces(c, 0, action, features, path) == []
  {
  }

  lemma ChildTracesNext(c: Condition, n: nat, action: Json, features: Features, path: string)
    requires n < |Children(c)|
    ensures ChildTraces(c, n + 1, action, features, path)
      == ChildTraces(c, n, action, features, path) + TraceOf(Children(c)[n], action, features, ChildPath(c, path, n))
  {
    hide TraceOf;
  }

  /** A conjunction: every child is evaluated, whatever the earlier ones gave. */
  method EvaluateAll(c: Condition, action: Json, features: Features, trace: seq<ConditionTrace>, path: string)
    returns (result: bool, out: seq<ConditionTrace>)
    requires c.All?
    ensures result == Holds(c, action, features) && out == trace + ChildTraces(c, |Children(c)|, action, features, path)
    decreases c, 0
  {
    hide Decimal, ChildTraces, TraceOf, Holds;
    AllHolds(c, action, features);
    NoTraces(c, action, features, path);
    result, out := true, trace;
    for index := 0 to |c.conditions|
      invariant result == forall i :: 0 <= i < index ==> Holds(c.conditions[i], action, features)
      invariant out == trace + ChildTraces(c, index, action, features, path)
    {
      ChildTracesNext(c, index, action, features, path);
      var one;
      one, out := EvaluateCondition(c.conditions[index], action, features, out, path + ".all[" + Decimal(index) + "]");
      result := result && one;
    }
  }

  method EvaluateAny(c: Condition, action: Json, features: Features, trace: seq<ConditionTrace>, path: string)
    returns (result: bool, out: seq<ConditionTrace>)
    requires c.Any?
    ensures result == Holds(c, action, features) && out == trace + ChildTraces(c, |Children(c)|, action, features, path)
    decreases c, 0
  {
    hide Decimal, ChildTraces, TraceOf, Holds;
    AnyHolds(c, action, features);
    NoTraces(c, action, features, path);
    result, out := false, trace;
    for index := 0 to |c.conditions|
      invariant result == exists i :: 0 <= i < index && Holds(c.conditions[i], action, features)
      invariant out == trace + ChildTraces(c, index, action, features, path)
    {
      ChildTracesNext(c, index, action, features, path);
      var one;
      one, out := EvaluateCondition(c.conditions[index], action, features, out, path + ".any[" + Decimal(index) + "]");
      result := result || one;
    }
  }

  lemma OneChild(c: Condition, action: Json, features: Features, path: string)
    requires c.Not?
    ensures ChildTraces(c, |Children(c)|, action, features, path) == TraceOf(c.condition, action, features, path + ".not")
  {
    hide TraceOf;
    assert ChildTraces(c, 0, action, features, path) == [];
  }

  /** `evaluate_condition`: both answers at once, and never an error. */
  method EvaluateCondition(c: Condition, action: Json, features: Features, trace: seq<ConditionTrace>, path: string)
    returns (result: bool, out: seq<ConditionTrace>)
    ensures result == Holds(c, action, features) && out == trace + TraceOf(c, action, features, path)
    decreases c, 1
  {
    hide Resolve, ContainsValue, AsNumber, Compares, ChildTraces, TraceOf;
    out := trace;
    match c {
      case All(_) => result, out := EvaluateAll(c, action, features, trace, path);
      case Any(_) => result, out := EvaluateAny(c, action, features, trace, path);
      case Not(d) =>
        result, out := EvaluateCondition(d, action, features, out, path + ".not");
        result := !result;
        OneChild(c, action, features, path);
      case Constant(value) => result := value;
      case Exists(v) => result := Resolve(v, action, features).Some?;
      case Eq(l, r) => result := Resolve(l, action, features) == Resolve(r, action, features);
      case NotEq(l, r) => result := Resolve(l, action, features) != Resolve(r, action, features);
      case Compare(op, l, r) =>
        var x, y := AsNumber(Resolve(l, action, features)), AsNumber(Resolve(r, action, features));
        result := x.Some? && y.Some? && Compares(op, x.value, y.value);
      case Contains(h, v) => result := ContainsValue(Resolve(h, action, features), Resolve(v, action, features));
    }
    TraceLast(c, action, features, path);
    out := out + [ConditionTrace(path, result)];
  }

  lemma TraceLast(c: Condition, action: Json, features: Features, path: string)
    ensures TraceOf(c, action, features, path)
      == ChildTraces(c, |Children(c)|, action, features, path) + [ConditionTrace(path, Holds(c, action, features))]
    ensures Children(c) == [] ==> ChildTraces(c, |Children(c)|, action, features, path) == []
  {
  }

  datatype IrRule = IrRule(id: string, when: Condition, effects: seq<string>)

  datatype RuleEvaluation = RuleEvaluation(ruleId: string, effects: seq<string>, conditions: seq<ConditionTrace>)

  /** A program's evaluation: one entry per rule, in order, with its effects exactly when its condition holds. */
  method EvaluateProgram(rules: seq<IrRule>, action: Json, features: Features) returns (out: seq<RuleEvaluation>)
    ensures |out| == |rules|
    ensures forall i :: 0 <= i < |rules| ==> out[i] == RuleEvaluation(
      rules[i].id, if Holds(rules[i].when, action, features) then rules[i].effects else [],
      TraceOf(rules[i].when, action, features, rules[i].id))
  {
    hide Holds, TraceOf;
    out := [];
    for n := 0 to |rules|
      invariant |out| == n
      invariant forall i :: 0 <= i < n ==> out[i] == RuleEvaluation(
        rules[i].id, if Holds(rules[i].when, action, features) then rules[i].effects else [],
        TraceOf(rules[i].when, action, features, rules[i].id))
    {
      var holds, trace := EvaluateCondition(rules[n].when, action, features, [], rules[n].id);
      assert [] + TraceOf(rules[n].when, action, features, rules[n].id) == TraceOf(rules[n].when, action, features, rules[n].id);
      out := out + [RuleEvaluation(rules[n].id, if holds then rules[n].effects else [], trace)];
    }
  }

  // ---- Every condition once ---------------------------------------------------------------------

  function Size(c: Condition): nat
    decreases c, 1
  {
    1 + SizeOf(c, |Children(c)|)
  }

  function SizeOf(c: Condition, n: nat): nat
    requires n <= |Children(c)|
    decreases c, 0, n
  {
    if n == 0 then 0 else SizeOf(c, n - 1) + Size(Children(c)[n - 1])
  }

  /** The trace has as many entries as the tree has conditions. */
  lemma {:induction false} TraceLength(c: Condition, action: Json, features: Features, path: string)
    ensures |TraceOf(c, action, features, path)| == Size(c)
    decreases c, 1
  {
    ChildTracesLength(c, |Children(c)|, action, features, path);
  }

  lemma {:induction false} ChildTracesLength(c: Condition, n: nat, action: Json, features: Features, path: string)
    requires n <= |Children(c)|
    ensures |ChildTraces(c, n, action, features, path)| == SizeOf(c, n)
    decreases c, 0, n
  {
    if n > 0 {
      ChildTracesLength(c, n - 1, action, features, path);
      TraceLength(Children(c)[n - 1], action, features, ChildPath(c, path, n - 1));
    }
  }

  lemma {:induction false} DecimalDigits(n: nat)
    ensures Decimal(n) != "" && forall i :: 0 <= i < |Decimal(n)| ==> '0' <= Decimal(n)[i] <= '9'
  {
    if n >= 10 {
      DecimalDigits(n / 10);
    }
  }

  lemma {:induction false} DecimalInjective(a: nat, b: nat)
    requires Decimal(a) == Decimal(b)
    ensures a == b
  {
    var p, q := Decimal(a), Decimal(b);
    if a >= 10 { DecimalDigits(a / 10); }
    if b >= 10 { DecimalDigits(b / 10); }
    assert p[|p| - 1] == DigitChar(a % 10) && q[|q| - 1] == DigitChar(b % 10);
    if a >= 10 && b >= 10 {
      assert p[..|p| - 1] == Decimal(a / 10) && q[..|q| - 1] == Decimal(b / 10);
      DecimalInjective(a / 10, b / 10);
    }
  }

  /** Numbers followed by a bracket are never prefixes of each other. */
  lemma BracketPrefix(a: nat, b: nat, x: string, y: string)
    requires Decimal(a) + "]" + x == Decimal(b) + "]" + y
    ensures a == b
  {
    DecimalDigits(a);
    DecimalDigits(b);
    hide Decimal;
    var p, q := Decimal(a), Decimal(b);
    var all := p + "]" + x;
    assert all[|p|] == ']' && all[|q|] == ']';
    forall i | 0 <= i < |p| ensures '0' <= all[i] <= '9' {
      assert all[i] == p[i];
    }
    forall i | 0 <= i < |q| ensures '0' <= all[i] <= '9' {
      assert all[i] == q[i];
    }
    assert |p| == |q|;
    assert p == all[..|p|] && q == all[..|q|];
    DecimalInjective(a, b);
  }

  /** Two children's paths are never prefixes of one path, unless they are the same child's. */
  lemma ChildPathsApart(c: Condition, path: string, i: nat, j: nat, x: string, y: string)
    requires i < |Children(c)| && j < |Children(c)| && ChildPath(c, path, i) + x == ChildPath(c, path, j) + y
    ensures i == j
  {
    hide Decimal;
    if c.All? || c.Any? {
      var lead := path + (if c.All? then ".all[" else ".any[");
      IndexedPath(c, path, i, x);
      IndexedPath(c, path, j, y);
      hide ChildPath;
      SuffixesAgree(lead, Decimal(i) + "]" + x, Decimal(j) + "]" + y);
      BracketPrefix(i, j, x, y);
    }
  }

  lemma IndexedPath(c: Condition, path: string, i: nat, x: string)
    requires (c.All? || c.Any?) && i < |Children(c)|
    ensures ChildPath(c, path, i) + x == path + (if c.All? then ".all[" else ".any[") + (Decimal(i) + "]" + x)
  {
    hide Decimal;
    Regroup(path + (if c.All? then ".all[" else ".any["), Decimal(i), "]", x);
  }

  lemma Regroup(a: string, b: string, c: string, d: string)
    ensures a + b + c + d == a + (b + c + d)
  {
    hide *;
    var l, r := a + b + c + d, a + (b + c + d);
    assert |l| == |r|;
    forall k | 0 <= k < |l| ensures l[k] == r[k] {
    }
  }

  lemma SuffixesAgree(lead: string, p: string, q: string)
    requires lead + p == lead + q
    ensures p == q
  {
    assert (lead + p)[|lead|..] == p && (lead + q)[|lead|..] == q;
  }

  ghost predicate Below(t: seq<ConditionTrace>, path: string) {
    forall k :: 0 <= k < |t| ==> path <= t[k].path
  }

  /** All entries of a condition's trace carry paths at or below its own. */
  lemma {:induction false} TracePaths(c: Condition, action: Json, features: Features, path: string)
    ensures Below(TraceOf(c, action, features, path), path)
    decreases c, 1
  {
    hide BelowChild;
    var n := |Children(c)|;
    ChildTracePaths(c, n, action, features, path);
    assert forall k :: 0 <= k < |ChildTraces(c, n, action, features, path)| ==>
      BelowChild(c, n, path, ChildTraces(c, n, action, features, path)[k].path);
    BelowAll(c, n, path, ChildTraces(c, n, action, features, path));
  }

  lemma BelowAll(c: Condition, n: nat, path: string, t: seq<ConditionTrace>)
    requires forall k :: 0 <= k < |t| ==> BelowChild(c, n, path, t[k].path)
    ensures Below(t, path) && forall k :: 0 <= k < |t| ==> t[k].path != path
  {
    hide BelowChild;
    forall k | 0 <= k < |t| ensures path <= t[k].path && t[k].path != path {
      ChildIsBelow(c, n, path, t[k].path);
    }
  }

  /** The path of an entry among the first `n` children. */
  ghost predicate BelowChild(c: Condition, n: nat, path: string, entry: string) {
    path < entry && exists i: nat :: i < n && ChildPath(c, path, i) <= entry
  }

  lemma ChildIsBelow(c: Condition, n: nat, path: string, entry: string)
    requires BelowChild(c, n, path, entry)
    ensures path <= entry && path != entry
  {
  }

  lemma EarlierChild(c: Condition, n: nat, path: string, entry: string)
    requires n > 0 && BelowChild(c, n - 1, path, entry)
    ensures BelowChild(c, n, path, entry)
  {
    hide ChildPath;
  }

  lemma LastChild(c: Condition, n: nat, path: string, entry: string)
    requires n > 0 && ChildPath(c, path, n - 1) <= entry
    ensures BelowChild(c, n, path, entry)
  {
    assert path < ChildPath(c, path, n - 1);
  }

  lemma {:induction false} ChildTracePaths(c: Condition, n: nat, action: Json, features: Features, path: string)
    requires n <= |Children(c)|
    ensures var t := ChildTraces(c, n, action, features, path); forall k :: 0 <= k < |t| ==> BelowChild(c, n, path, t[k].path)
    decreases c, 0, n
  {
    hide TraceOf, Decimal, ChildTraces, ChildPath, BelowChild;
    if n > 0 {
      ChildTracePaths(c, n - 1, action, features, path);
      var child := ChildPath(c, path, n - 1);
      TracePaths(Children(c)[n - 1], action, features, child);
      ChildTracesNext(c, n - 1, action, features, path);
      var before := ChildTraces(c, n - 1, action, features, path);
      var last := TraceOf(Children(c)[n - 1], action, features, child);
      forall k | 0 <= k < |before| ensures BelowChild(c, n, path, before[k].path) {
        EarlierChild(c, n, path, before[k].path);
      }
      forall k | 0 <= k < |last| ensures BelowChild(c, n, path, last[k].path) {
        LastChild(c, n, path, last[k].path);
      }
    } else {
      NoTraces(c, action, features, path);
    }
  }

  ghost predicate DistinctPaths(t: seq<ConditionTrace>) {
    forall k, l :: 0 <= k < l < |t| ==> t[k].path != t[l].path
  }

  /** No two entries share a path, so every nested condition is recorded exactly once. */
  lemma {:induction false} TracePathsDistinct(c: Condition, action: Json, features: Features, path: string)
    ensures DistinctPaths(TraceOf(c, action, features, path))
    decreases c, 1
  {
    hide ChildTraces, BelowChild;
    ChildPathsDistinct(c, |Children(c)|, action, features, path);
    ChildTracePaths(c, |Children(c)|, action, features, path);
    BelowAll(c, |Children(c)|, path, ChildTraces(c, |Children(c)|, action, features, path));
  }

  lemma {:induction false} ChildPathsDistinct(c: Condition, n: nat, action: Json, features: Features, path: string)
    requires n <= |Children(c)|
    ensures DistinctPaths(ChildTraces(c, n, action, features, path))
    decreases c, 0, n
  {
    hide TraceOf, ChildPath, ChildTraces, BelowChild;
    if n > 0 {
      ChildPathsDistinct(c, n - 1, action, features, path);
      var child := ChildPath(c, path, n - 1);
      TracePathsDistinct(Children(c)[n - 1], action, features, child);
      ChildTracePaths(c, n - 1, action, features, path);
      TracePaths(Children(c)[n - 1], action, features, child);
      ChildTracesNext(c, n - 1, action, features, path);
      var before := ChildTraces(c, n - 1, action, features, path);
      var last := TraceOf(Children(c)[n - 1], action, features, child);
      forall k, l | 0 <= k < |before| && 0 <= l < |last| ensures before[k].path != last[l].path {
        SiblingsApart(c, n - 1, path, before[k].path, last[l].path);
      }
    } else {
      NoTraces(c, action, features, path);
    }
  }

  lemma SiblingsApart(c: Condition, n: nat, path: string, earlier: string, later: string)
    requires n < |Children(c)| && BelowChild(c, n, path, earlier) && ChildPath(c, path, n) <= later
    ensures earlier != later
  {
    hide ChildPath;
    var i: nat :| i < n && ChildPath(c, path, i) <= earlier;
    var p, q := ChildPath(c, path, i), ChildPath(c, path, n);
    assert p + earlier[|p|..] == earlier && q + later[|q|..] == later;
    if earlier == later {
      ChildPathsApart(c, path, i, n, earlier[|p|..], later[|q|..]);
    }
  }

  // ---- Declared features --------------------------------------------------------------------------

  predicate RefDeclared(v: ValueRef, declared: set<string>) { v.FromFeature? ==> v.name in declared }

  /** Every feature the tree reads is declared. */
  predicate Declared(c: Condition, declared: set<string>) {
    match c
    case Constant(_) => true
    case All(cs) => forall i :: 0 <= i < |cs| ==> Declared(cs[i], declared)
    case Any(cs) => forall i :: 0 <= i < |cs| ==> Declared(cs[i], declared)
    case Not(d) => Declared(d, declared)
    case Exists(v) => RefDeclared(v, declared)
    case Eq(l, r) => RefDeclared(l, declared) && RefDeclared(r, declared)
    case NotEq(l, r) => RefDeclared(l, declared) && RefDeclared(r, declared)
    case Compare(_, l, r) => RefDeclared(l, declared) && RefDeclared(r, declared)
    case Contains(h, v) => RefDeclared(h, declared) && RefDeclared(v, declared)
  }

  method ValidateValueRef(v: ValueRef, declared: set<string>, diagnostics: seq<string>) returns (out: seq<string>)
    ensures diagnostics <= out && (out == diagnostics <==> RefDeclared(v, declared))
  {
    out := diagnostics;
    if v.FromFeature? && v.name !in declared {
      out := out + [v.name];
    }
  }

  method ValidatePair(l: ValueRef, r: ValueRef, declared: set<string>, diagnostics: seq<string>) returns (out: seq<string>)
    ensures diagnostics <= out && (out == diagnostics <==> RefDeclared(l, declared) && RefDeclared(r, declared))
  {
    out := ValidateValueRef(l, declared, diagnostics);
    out := ValidateValueRef(r, declared, out);
  }

  method ValidateEach(cs: seq<Condition>, declared: set<string>, diagnostics: seq<string>, ghost parent: Condition) returns (out: seq<string>)
    requires forall i :: 0 <= i < |cs| ==> cs[i] < parent
    ensures diagnostics <= out && (out == diagnostics <==> forall i :: 0 <= i < |cs| ==> Declared(cs[i], declared))
    decreases parent, 0
  {
    out := diagnostics;
    for index := 0 to |cs|
      invariant diagnostics <= out && (out == diagnostics <==> forall i :: 0 <= i < index ==> Declared(cs[i], declared))
    {
      out := ValidateCondition(cs[index], declared, out);
    }
  }

  /** `validate_condition` reports nothing exactly when every feature read is declared. */
  method ValidateCondition(c: Condition, declared: set<string>, diagnostics: seq<string>) returns (out: seq<string>)
    ensures diagnostics <= out && (out == diagnostics <==> Declared(c, declared))
    decreases c, 1
  {
    hide RefDeclared;
    match c {
      case All(cs) => out := ValidateEach(cs, declared, diagnostics, c);
      case Any(cs) => out := ValidateEach(cs, declared, diagnostics, c);
      case Not(d) => out := ValidateCondition(d, declared, diagnostics);
      case Exists(v) => out := ValidateValueRef(v, declared, diagnostics);
      case Eq(l, r) => out := ValidatePair(l, r, declared, diagnostics);
      case NotEq(l, r) => out := ValidatePair(l, r, declared, diagnostics);
      case Compare(_, l, r) => out := ValidatePair(l, r, declared, diagnostics);
      case Contains(h, v) => out := ValidatePair(h, v, declared, diagnostics);
      case Constant(_) => out := diagnostics;
    }
  }

  /** The snapshots give the declared features the same values. */
  ghost predicate AgreeOn(f: Features, g: Features, declared: set<string>) {
    forall n :: n in declared ==> (n in f <==> n in g) && (n in f ==> f[n] == g[n])
  }

  lemma ResolveAgrees(v: ValueRef, action: Json, f: Features, g: Features, declared: set<string>)
    requires AgreeOn(f, g, declared) && RefDeclared(v, declared)
    ensures Resolve(v, action, f) == Resolve(v, action, g)
  {
  }

  lemma {:induction false} HoldsAgrees(c: Condition, action: Json, f: Features, g: Features, declared: set<string>)
    requires AgreeOn(f, g, declared) && Declared(c, declared)
    ensures Holds(c, action, f) == Holds(c, action, g)
  {
    hide AgreeOn, RefDeclared, Resolve;
    match c
    case Constant(_) =>
    case All(cs) =>
      forall i | 0 <= i < |cs| ensures Holds(cs[i], action, f) == Holds(cs[i], action, g) {
        HoldsAgrees(cs[i], action, f, g, declared);
      }
    case Any(cs) =>
      forall i | 0 <= i < |cs| ensures Holds(cs[i], action, f) == Holds(cs[i], action, g) {
        HoldsAgrees(cs[i], action, f, g, declared);
      }
    case Not(d) => HoldsAgrees(d, action, f, g, declared);
    case Exists(v) => ResolveAgrees(v, action, f, g, declared);
    case Eq(l, r) => ResolveAgrees(l, action, f, g, declared); ResolveAgrees(r, action, f, g, declared);
    case NotEq(l, r) => ResolveAgrees(l, action, f, g, declared); ResolveAgrees(r, action, f, g, declared);
    case Compare(_, l, r) => ResolveAgrees(l, action, f, g, declared); ResolveAgrees(r, action, f, g, declared);
    case Contains(h, v) => ResolveAgrees(h, action, f, g, declared); ResolveAgrees(v, action, f, g, declared);
  }

  lemma DeclaredChild(c: Condition, declared: set<string>, i: nat)
    requires Declared(c, declared) && i < |Children(c)|
    ensures Declared(Children(c)[i], declared)
  {
  }

  /** A validated program reads nothing but its declared features: result and trace are the same on any snapshots that agree there. */
  lemma {:induction false} OnlyDeclaredFeaturesMatter(c: Condition, action: Json, f: Features, g: Features, declared: set<string>, path: string)
    requires AgreeOn(f, g, declared) && Declared(c, declared)
    ensures TraceOf(c, action, f, path) == TraceOf(c, action, g, path)
    decreases c, 1
  {
    HoldsAgrees(c, action, f, g, declared);
    ChildTracesAgree(c, |Children(c)|, action, f, g, declared, path);
  }

  lemma {:induction false} ChildTracesAgree(c: Condition, n: nat, action: Json, f: Features, g: Features, declared: set<string>, path: string)
    requires AgreeOn(f, g, declared) && Declared(c, declared) && n <= |Children(c)|
    ensures ChildTraces(c, n, action, f, path) == ChildTraces(c, n, action, g, path)
    decreases c, 0, n
  {
    hide AgreeOn, Holds;
    if n > 0 {
      ChildTracesAgree(c, n - 1, action, f, g, declared, path);
      DeclaredChild(c, declared, n - 1);
      OnlyDeclaredFeaturesMatter(Children(c)[n - 1], action, f, g, declared, ChildPath(c, path, n - 1));
    }
  }
}
