/** Equal fingerprints are exactly equal behaviour. */
module FingerprintTheorem {
  import opened Wrappers
  import opened Sorting
  import opened PolicyModel
  import opened TextTables
  import opened ByteEncoding
  import opened RuleEncoding
  import opened Fingerprint

  // ---- Validated rules encode to decodable codes --------------------------------

  lemma PatternCodesGood(t: Tables, r: PolicyRule)
    requires ValidRule(t, r)
    ensures GoodPatterns(RuleCodeOf(t, r).patterns) && RuleCodeOf(t, r).patterns != []
  {
    PatternOrder(t);
    SortCorrect(r.patterns, ByPattern(t));
    var sorted := Sort(r.patterns, ByPattern(t));
    var codes := RuleCodeOf(t, r).patterns;
    hide TotalPreorder, Sorted, Small, Utf8;
    forall i | 0 <= i < |codes| ensures GoodPattern(codes[i]) {
      assert sorted[i] in r.patterns;
      Utf8NonEmpty(t.normalize(sorted[i].pattern));
    }
  }

  lemma Utf8NonEmpty(s: string)
    ensures s != "" ==> Utf8(s) != []
  {
  }

  lemma ActionCodesGood(t: Tables, r: PolicyRule)
    requires ValidRule(t, r)
    ensures GoodActions(RuleCodeOf(t, r).actions) && RuleCodeOf(t, r).actions != []
  {
    ActionOrder();
    SortCorrect(r.actions, ActionLeq);
    DistinctTypes(r.actions);
    var sorted, codes := Sort(r.actions, ActionLeq), RuleCodeOf(t, r).actions;
    SortedTypes(r.actions, sorted);
    hide TotalPreorder, Sorted, TypesUnique, RuleCodeOf, NoRepeats, Sort;
    assert codes == MapSeq(ActionCodeOf, MapSeq(ActionKey, sorted)) by {
      ActionsOfCode(t, r);
    }
    forall i | 0 <= i < |codes|
      ensures codes[i].code == ActionTypeCode(sorted[i].actionType) && GoodAction(codes[i])
    {
      assert sorted[i] in r.actions;
      ActionGood(sorted[i]);
    }
  }

  lemma ActionsOfCode(t: Tables, r: PolicyRule)
    ensures RuleCodeOf(t, r).actions == MapSeq(ActionCodeOf, MapSeq(ActionKey, Sort(r.actions, ActionLeq)))
  {
  }

  lemma ActionGood(a: PolicyAction)
    requires ValidAction(a)
    ensures GoodAction(ActionCodeOf(ActionKey(a)))
  {
  }

  /** No two actions of the list share a type: each type occurs at most once in the multiset. */
  ghost predicate TypesUnique(actions: multiset<PolicyAction>) {
    forall a, b :: a in actions && b in actions && a.actionType == b.actionType ==> a == b && actions[a] == 1
  }

  lemma DistinctTypes(actions: seq<PolicyAction>)
    requires forall i, j :: 0 <= i < j < |actions| ==> actions[i].actionType != actions[j].actionType
    ensures TypesUnique(multiset(actions))
  {
    forall a, b | a in multiset(actions) && b in multiset(actions) && a.actionType == b.actionType
      ensures a == b && multiset(actions)[a] == 1
    {
      CountOnce(actions, a);
    }
  }

  lemma SortedTypes(actions: seq<PolicyAction>, sorted: seq<PolicyAction>)
    requires TypesUnique(multiset(actions)) && multiset(sorted) == multiset(actions) && Sorted(sorted, ActionLeq)
    ensures forall i, j :: 0 <= i < j < |sorted| ==>
      ActionTypeCode(sorted[i].actionType) < ActionTypeCode(sorted[j].actionType)
  {
    forall i, j | 0 <= i < j < |sorted|
      ensures ActionTypeCode(sorted[i].actionType) < ActionTypeCode(sorted[j].actionType)
    {
      assert ActionLeq(sorted[i], sorted[j]);
      if sorted[i].actionType == sorted[j].actionType {
        assert sorted[i] in multiset(actions) && sorted[j] in multiset(actions);
        TwiceCounted(sorted, i, j);
      }
    }
  }

  lemma TwiceCounted<T>(s: seq<T>, i: nat, j: nat)
    requires i < j < |s| && s[i] == s[j]
    ensures multiset(s)[s[i]] >= 2
  {
    var left, right := s[..j], s[j..];
    assert s == left + right && left[i] == s[i] && right[0] == s[i];
    assert multiset(s) == multiset(left) + multiset(right);
    assert s[i] in multiset(left) && s[i] in multiset(right);
  }

  lemma RuleCodeGood(t: Tables, r: PolicyRule)
    requires ValidRule(t, r)
    ensures GoodRule(RuleCodeOf(t, r))
  {
    PatternCodesGood(t, r);
    ActionCodesGood(t, r);
    SurfaceCodesAscend(0, r.surfaces);
    var s :| s in r.surfaces;
    SurfaceCodesMember(0, r.surfaces, s);
    hide GoodPatterns, GoodActions, Small, Ascending, SurfaceCodes;
  }

  // ---- Code and behaviour determine each other -------------------------------------

  lemma {:induction false} PatternCodesInjective(a: seq<(PatternType, string)>, b: seq<(PatternType, string)>)
    requires MapSeq(PatternCodeOf, a) == MapSeq(PatternCodeOf, b)
    ensures a == b
  {
    assert |MapSeq(PatternCodeOf, a)| == |a| && |MapSeq(PatternCodeOf, b)| == |b|;
    forall i | 0 <= i < |a| ensures a[i] == b[i] {
      assert MapSeq(PatternCodeOf, a)[i] == PatternCodeOf(a[i]) && MapSeq(PatternCodeOf, b)[i] == PatternCodeOf(b[i]);
      Utf8Injective(a[i].1, b[i].1);
    }
  }

  lemma {:induction false} ActionCodesInjective(a: seq<(ActionType, nat, string)>, b: seq<(ActionType, nat, string)>)
    requires MapSeq(ActionCodeOf, a) == MapSeq(ActionCodeOf, b)
    ensures a == b
  {
    assert |MapSeq(ActionCodeOf, a)| == |a| && |MapSeq(ActionCodeOf, b)| == |b|;
    forall i | 0 <= i < |a| ensures a[i] == b[i] {
      assert MapSeq(ActionCodeOf, a)[i] == ActionCodeOf(a[i]) && MapSeq(ActionCodeOf, b)[i] == ActionCodeOf(b[i]);
      Utf8Injective(a[i].2, b[i].2);
    }
  }

  lemma MapElements<A(!new), B>(f: A -> B, s: seq<A>, leq: (A, A) -> bool, x: B)
    requires TotalPreorder(leq)
    ensures x in MapSeq(f, Sort(s, leq)) <==> exists a :: a in s && f(a) == x
    ensures x in MapSeq(f, s) <==> exists a :: a in s && f(a) == x
  {
    SortCorrect(s, leq);
    hide TotalPreorder, Sorted;
    InImage(f, s, x);
    InImage(f, Sort(s, leq), x);
  }

  lemma InImage<A(!new), B>(f: A -> B, s: seq<A>, x: B)
    ensures x in MapSeq(f, s) <==> exists a :: a in s && f(a) == x
  {
    var m := MapSeq(f, s);
    if x in m {
      var i :| 0 <= i < |m| && m[i] == x;
      assert s[i] in s && f(s[i]) == x;
    }
    if a :| a in s && f(a) == x {
      var i :| 0 <= i < |s| && s[i] == a;
      assert m[i] == x;
    }
  }

  lemma CodeDeterminesBehaviour(t: Tables, a: PolicyRule, b: PolicyRule)
    requires RuleCodeOf(t, a) == RuleCodeOf(t, b)
    ensures BehaviourOf(t, a) == BehaviourOf(t, b)
  {
    Utf8Injective(a.name, b.name);
    Utf8Injective(a.description, b.description);
    Utf8Injective(OrEmpty(a.customReason), OrEmpty(b.customReason));
    PatternOrder(t);
    ActionOrder();
    hide TotalPreorder, Utf8, Sort;
    forall s ensures s in a.surfaces <==> s in b.surfaces {
      SurfaceCodesMember(0, a.surfaces, s);
      SurfaceCodesMember(0, b.surfaces, s);
    }
    assert a.surfaces == b.surfaces;
    PatternCodesInjective(MapSeq(KeyOf(t), Sort(a.patterns, ByPattern(t))), MapSeq(KeyOf(t), Sort(b.patterns, ByPattern(t))));
    ActionCodesInjective(MapSeq(ActionKey, Sort(a.actions, ActionLeq)), MapSeq(ActionKey, Sort(b.actions, ActionLeq)));
    forall k ensures k in BehaviourOf(t, a).patterns <==> k in BehaviourOf(t, b).patterns {
      MapElements(KeyOf(t), a.patterns, ByPattern(t), k);
      MapElements(KeyOf(t), b.patterns, ByPattern(t), k);
      PatternKeys(t, a, k);
      PatternKeys(t, b, k);
    }
    forall k ensures k in BehaviourOf(t, a).actions <==> k in BehaviourOf(t, b).actions {
      MapElements(ActionKey, a.actions, ActionLeq, k);
      MapElements(ActionKey, b.actions, ActionLeq, k);
    }
  }

  lemma PatternKeys(t: Tables, r: PolicyRule, k: (PatternType, string))
    ensures k in BehaviourOf(t, r).patterns <==> exists p :: p in r.patterns && KeyOf(t)(p) == k
  {
    if k in BehaviourOf(t, r).patterns {
      var p :| p in r.patterns && PatternKey(t, p) == k;
      assert KeyOf(t)(p) == k;
    }
    if p :| p in r.patterns && KeyOf(t)(p) == k {
      assert PatternKey(t, p) == k;
    }
  }

  lemma PatternTies(t: Tables, patterns: seq<RulePattern>)
    ensures NoTies(MapSeq(KeyOf(t), patterns), PatternKeyLeq)
  {
    forall x, y | PatternKeyLeq(x, y) && PatternKeyLeq(y, x) ensures x == y {
      StringLeqTotal(x.1, y.1);
    }
  }

  lemma ActionTies(actions: seq<PolicyAction>)
    requires forall i, j :: 0 <= i < j < |actions| ==> actions[i].actionType != actions[j].actionType
    ensures NoTies(MapSeq(ActionKey, actions), ActionKeyLeq) && NoRepeats(MapSeq(ActionKey, actions))
  {
    var keys := MapSeq(ActionKey, actions);
    forall i, j | 0 <= i < j < |keys| ensures keys[i].0 != keys[j].0 {
      assert keys[i] == ActionKey(actions[i]) && keys[j] == ActionKey(actions[j]);
    }
    forall x, y | x in keys && y in keys && ActionKeyLeq(x, y) && ActionKeyLeq(y, x) ensures x == y {
      var i :| 0 <= i < |keys| && keys[i] == x;
      var j :| 0 <= j < |keys| && keys[j] == y;
      assert x.0 == y.0;
      assert i == j;
    }
  }

  lemma BehaviourDeterminesPatterns(t: Tables, a: PolicyRule, b: PolicyRule)
    requires ValidRule(t, a) && ValidRule(t, b) && BehaviourOf(t, a).patterns == BehaviourOf(t, b).patterns
    ensures RuleCodeOf(t, a).patterns == RuleCodeOf(t, b).patterns
  {
    PatternOrder(t);
    PatternTies(t, a.patterns);
    hide TotalPreorder, NoTies;
    forall k ensures k in MapSeq(KeyOf(t), a.patterns) <==> k in MapSeq(KeyOf(t), b.patterns) {
      InImage(KeyOf(t), a.patterns, k);
      InImage(KeyOf(t), b.patterns, k);
      PatternKeys(t, a, k);
      PatternKeys(t, b, k);
    }
    SortedImages(a.patterns, b.patterns, ByPattern(t), KeyOf(t), PatternKeyLeq);
  }

  lemma BehaviourDeterminesActions(t: Tables, a: PolicyRule, b: PolicyRule)
    requires ValidRule(t, a) && ValidRule(t, b) && BehaviourOf(t, a).actions == BehaviourOf(t, b).actions
    ensures RuleCodeOf(t, a).actions == RuleCodeOf(t, b).actions
  {
    ActionOrder();
    ActionTies(a.actions);
    ActionTies(b.actions);
    hide TotalPreorder, NoTies, NoRepeats;
    forall k ensures k in MapSeq(ActionKey, a.actions) <==> k in MapSeq(ActionKey, b.actions) {
      InImage(ActionKey, a.actions, k);
      InImage(ActionKey, b.actions, k);
      assert k in BehaviourOf(t, a).actions <==> exists x :: x in a.actions && ActionKey(x) == k;
      assert k in BehaviourOf(t, b).actions <==> exists x :: x in b.actions && ActionKey(x) == k;
    }
    SortedImages(a.actions, b.actions, ActionLeq, ActionKey, ActionKeyLeq);
  }

  lemma BehaviourDeterminesCode(t: Tables, a: PolicyRule, b: PolicyRule)
    requires ValidRule(t, a) && ValidRule(t, b) && BehaviourOf(t, a) == BehaviourOf(t, b)
    ensures RuleCodeOf(t, a) == RuleCodeOf(t, b)
  {
    BehaviourDeterminesPatterns(t, a, b);
    BehaviourDeterminesActions(t, a, b);
  }

  // ---- Whole policies -----------------------------------------------------------------

  ghost function BehaviourBy(t: Tables): PolicyRule -> Behaviour { (r: PolicyRule) => BehaviourOf(t, r) }

  predicate BehaviourNameLeq(a: Behaviour, b: Behaviour) { StringLeq(a.name, b.name) }

  ghost predicate DistinctNames(rules: seq<PolicyRule>) {
    forall i, j :: 0 <= i < j < |rules| ==> rules[i].name != rules[j].name
  }

  lemma {:induction false} EnabledDistinct(rules: seq<PolicyRule>)
    requires DistinctNames(rules)
    ensures DistinctNames(Enabled(rules))
  {
    if rules != [] {
      var rest := Enabled(rules[1..]);
      EnabledDistinct(rules[1..]);
      forall i | 0 <= i < |rest| ensures rest[i].name != rules[0].name {
        assert rest[i] in rules[1..];
      }
      assert rules[0].enabled ==> Enabled(rules) == [rules[0]] + rest;
      assert !rules[0].enabled ==> Enabled(rules) == rest;
    }
  }

  lemma NamesDistinguish(t: Tables, rules: seq<PolicyRule>)
    requires DistinctNames(rules)
    ensures NoRepeats(MapSeq(BehaviourBy(t), rules)) && NoTies(MapSeq(BehaviourBy(t), rules), BehaviourNameLeq)
  {
    var m := MapSeq(BehaviourBy(t), rules);
    forall i | 0 <= i < |m| ensures m[i].name == rules[i].name {
      assert m[i] == BehaviourOf(t, rules[i]);
    }
    forall x, y | x in m && y in m && BehaviourNameLeq(x, y) && BehaviourNameLeq(y, x) ensures x == y {
      StringLeqTotal(x.name, y.name);
      var i :| 0 <= i < |m| && m[i] == x;
      var j :| 0 <= j < |m| && m[j] == y;
      assert i == j;
    }
  }

  lemma BehaviourInImage(t: Tables, policy: ContentPolicy, b: Behaviour)
    ensures b in PolicyBehaviour(t, policy) <==> b in MapSeq(BehaviourBy(t), Enabled(policy.rules))
  {
    InImage(BehaviourBy(t), Enabled(policy.rules), b);
    if b in PolicyBehaviour(t, policy) {
      var r :| r in policy.rules && r.enabled && BehaviourOf(t, r) == b;
      assert r in Enabled(policy.rules) && BehaviourBy(t)(r) == b;
    }
  }

  /** The sorted enabled rules of a policy. */
  function Ordered(policy: ContentPolicy): seq<PolicyRule> { Sort(Enabled(policy.rules), RuleNameLeq) }

  lemma OrderedElements(policy: ContentPolicy)
    ensures forall r :: r in Ordered(policy) <==> r in policy.rules && r.enabled
  {
    RuleNameOrder();
    SortCorrect(Enabled(policy.rules), RuleNameLeq);
  }

  lemma SameBehaviourSameOrder(t: Tables, p: ContentPolicy, q: ContentPolicy)
    requires ValidPolicy(t, p) && ValidPolicy(t, q) && PolicyBehaviour(t, p) == PolicyBehaviour(t, q)
    ensures MapSeq(BehaviourBy(t), Ordered(p)) == MapSeq(BehaviourBy(t), Ordered(q))
  {
    EnabledDistinct(p.rules);
    EnabledDistinct(q.rules);
    NamesDistinguish(t, Enabled(p.rules));
    NamesDistinguish(t, Enabled(q.rules));
    RuleNameOrder();
    hide TotalPreorder, NoTies, NoRepeats, DistinctNames, ValidRule, PolicyBehaviour, Enabled;
    forall b ensures b in MapSeq(BehaviourBy(t), Enabled(p.rules)) <==> b in MapSeq(BehaviourBy(t), Enabled(q.rules)) {
      BehaviourInImage(t, p, b);
      BehaviourInImage(t, q, b);
    }
    SortedImages(Enabled(p.rules), Enabled(q.rules), RuleNameLeq, BehaviourBy(t), BehaviourNameLeq);
  }

  lemma SameBehaviourSameFingerprint(t: Tables, p: ContentPolicy, q: ContentPolicy)
    requires ValidPolicy(t, p) && ValidPolicy(t, q) && PolicyBehaviour(t, p) == PolicyBehaviour(t, q)
    ensures ProfileFingerprint(t, p) == ProfileFingerprint(t, q)
  {
    SameBehaviourSameOrder(t, p, q);
    OrderedElements(p);
    OrderedElements(q);
    hide ValidRule, RuleCodeOf, BehaviourOf, PolicyBehaviour;
    var a, b := Ordered(p), Ordered(q);
    assert |MapSeq(BehaviourBy(t), a)| == |a| && |MapSeq(BehaviourBy(t), b)| == |b|;
    forall i | 0 <= i < |a| ensures RuleCodeOf(t, a[i]) == RuleCodeOf(t, b[i]) {
      assert MapSeq(BehaviourBy(t), a)[i] == BehaviourOf(t, a[i]) && MapSeq(BehaviourBy(t), b)[i] == BehaviourOf(t, b[i]);
      assert a[i] in a && b[i] in b;
      BehaviourDeterminesCode(t, a[i], b[i]);
    }
    assert MapSeq(CodeOf(t), a) == MapSeq(CodeOf(t), b);
  }

  lemma SameFingerprintSameCodes(t: Tables, p: ContentPolicy, q: ContentPolicy)
    requires ValidPolicy(t, p) && ValidPolicy(t, q)
    requires ProfileFingerprint(t, p) == ProfileFingerprint(t, q)
    ensures MapSeq(CodeOf(t), Ordered(p)) == MapSeq(CodeOf(t), Ordered(q))
  {
    OrderedElements(p);
    OrderedElements(q);
    hide ValidRule, RuleCodeOf, GoodRule, Field, Utf8, RulesBytes;
    var a, b, head := MapSeq(CodeOf(t), Ordered(p)), MapSeq(CodeOf(t), Ordered(q)), Field(Utf8(SECURITY_VERSION));
    assert RulesBytes(a) == (head + RulesBytes(a))[|head|..] == (head + RulesBytes(b))[|head|..] == RulesBytes(b);
    forall i | 0 <= i < |a| ensures GoodRule(a[i]) {
      assert Ordered(p)[i] in Ordered(p);
      RuleCodeGood(t, Ordered(p)[i]);
    }
    forall i | 0 <= i < |b| ensures GoodRule(b[i]) {
      assert Ordered(q)[i] in Ordered(q);
      RuleCodeGood(t, Ordered(q)[i]);
    }
    RulesDecodable(a, b);
  }

  /** Rules at the same place of the two sorted lists behave the same. */
  lemma FingerprintPairsRules(t: Tables, p: ContentPolicy, q: ContentPolicy)
    requires ValidPolicy(t, p) && ValidPolicy(t, q)
    requires ProfileFingerprint(t, p) == ProfileFingerprint(t, q)
    ensures |Ordered(p)| == |Ordered(q)|
    ensures forall i :: 0 <= i < |Ordered(p)| ==> BehaviourOf(t, Ordered(p)[i]) == BehaviourOf(t, Ordered(q)[i])
  {
    SameFingerprintSameCodes(t, p, q);
    hide ValidPolicy, BehaviourOf, RuleCodeOf, Ordered, ProfileFingerprint;
    var a, b := Ordered(p), Ordered(q);
    assert |MapSeq(CodeOf(t), a)| == |a| && |MapSeq(CodeOf(t), b)| == |b|;
    forall i | 0 <= i < |a| ensures BehaviourOf(t, a[i]) == BehaviourOf(t, b[i]) {
      assert MapSeq(CodeOf(t), a)[i] == RuleCodeOf(t, a[i]) && MapSeq(CodeOf(t), b)[i] == RuleCodeOf(t, b[i]);
      CodeDeterminesBehaviour(t, a[i], b[i]);
    }
  }

  lemma SubsetOfBehaviour(t: Tables, p: ContentPolicy, q: ContentPolicy, b: Behaviour)
    requires |Ordered(p)| <= |Ordered(q)|
    requires forall i :: 0 <= i < |Ordered(p)| ==> BehaviourOf(t, Ordered(p)[i]) == BehaviourOf(t, Ordered(q)[i])
    requires b in PolicyBehaviour(t, p)
    ensures b in PolicyBehaviour(t, q)
  {
    OrderedElements(p);
    OrderedElements(q);
    hide BehaviourOf, Ordered;
    var r :| r in p.rules && r.enabled && BehaviourOf(t, r) == b;
    var i :| 0 <= i < |Ordered(p)| && Ordered(p)[i] == r;
    assert Ordered(q)[i] in Ordered(q);
  }

  /** The fingerprint is a complete invariant of what the enabled rules do. */
  lemma FingerprintIffBehaviour(t: Tables, p: ContentPolicy, q: ContentPolicy)
    requires ValidPolicy(t, p) && ValidPolicy(t, q)
    ensures ProfileFingerprint(t, p) == ProfileFingerprint(t, q) <==> PolicyBehaviour(t, p) == PolicyBehaviour(t, q)
  {
    hide ValidPolicy, BehaviourOf, ProfileFingerprint, Ordered;
    if PolicyBehaviour(t, p) == PolicyBehaviour(t, q) {
      SameBehaviourSameFingerprint(t, p, q);
    }
    if ProfileFingerprint(t, p) == ProfileFingerprint(t, q) {
      FingerprintPairsRules(t, p, q);
      forall b ensures b in PolicyBehaviour(t, p) <==> b in PolicyBehaviour(t, q) {
        if b in PolicyBehaviour(t, p) {
          SubsetOfBehaviour(t, p, q, b);
        }
        if b in PolicyBehaviour(t, q) {
          SubsetOfBehaviour(t, q, p, b);
        }
      }
    }
  }
}
