/**
 * What a composition of layers is, layer by layer: blocked by all that block,
 * stripped or suppressed if any asks, censored where any censors, and each name
 * replaced by the first layer that replaces it.
 */
module CompositionMeaning {
  import opened Wrappers
  import opened Sorting
  import opened Spans
  import opened PolicyModel
  import opened Resolver
  import opened Layers

  // ---- Names ---------------------------------------------------------------------------------------

  /** The value is that of the first layer which replaces the name. */
  ghost predicate FirstLayer(layers: seq<DeliveryEffects>, s: Surface, v: NameReplacement) {
    exists i :: 0 <= i < |layers| && s in layers[i].nameReplacements && layers[i].nameReplacements[s] == v
      && forall j :: 0 <= j < i ==> s !in layers[j].nameReplacements
  }

  lemma FirstEarlier(layers: seq<DeliveryEffects>, s: Surface, v: NameReplacement)
    requires layers != [] && FirstLayer(layers[..|layers| - 1], s, v)
    ensures FirstLayer(layers, s, v)
  {
    var front := layers[..|layers| - 1];
    assert forall i :: 0 <= i < |front| ==> front[i] == layers[i];
  }

  lemma FirstLast(layers: seq<DeliveryEffects>, s: Surface)
    requires layers != [] && s in layers[|layers| - 1].nameReplacements
    requires forall j :: 0 <= j < |layers| - 1 ==> s !in layers[j].nameReplacements
    ensures FirstLayer(layers, s, layers[|layers| - 1].nameReplacements[s])
  {
  }

  lemma {:induction false} LayeredNames(layers: seq<DeliveryEffects>, s: Surface)
    ensures var names := Layered(layers).nameReplacements;
      && (s in names <==> exists i :: 0 <= i < |layers| && s in layers[i].nameReplacements)
      && (s in names ==> FirstLayer(layers, s, names[s]))
  {
    hide JoinSpans, FirstLayer;
    if layers != [] {
      var n := |layers| - 1;
      var front := layers[..n];
      LayeredNames(front, s);
      assert forall i :: 0 <= i < n ==> front[i] == layers[i];
      var before := Layered(front).nameReplacements;
      if s in before {
        FirstEarlier(layers, s, before[s]);
      } else if s in layers[n].nameReplacements {
        FirstLast(layers, s);
      }
    }
  }

  /** A name is replaced exactly when some layer replaces it, by the first layer that does. */
  lemma ComposedNames(layers: seq<DeliveryEffects>, s: Surface)
    ensures var names := Composed(layers).nameReplacements;
      && (s in names <==> exists i :: 0 <= i < |layers| && s in layers[i].nameReplacements)
      && (s in names ==> FirstLayer(layers, s, names[s]))
  {
    hide Layered, Sort, Finish;
    LayeredNames(layers, s);
  }

  // ---- Flags and blockers ----------------------------------------------------------------------------

  lemma {:induction false} LayeredFlags(layers: seq<DeliveryEffects>, a: Attribution)
    ensures var d := Layered(layers);
      && (d.stripLinks <==> exists i :: 0 <= i < |layers| && layers[i].stripLinks)
      && (d.suppressLinks <==> exists i :: 0 <= i < |layers| && layers[i].suppressLinks)
      && (a in d.blockedBy <==> exists i :: 0 <= i < |layers| && a in layers[i].blockedBy)
  {
    hide JoinSpans;
    if layers != [] {
      var n := |layers| - 1;
      LayeredFlags(layers[..n], a);
      assert forall i :: 0 <= i < n ==> layers[..n][i] == layers[i];
    }
  }

  /** Links are stripped or suppressed exactly when some layer asks for it; the blockers are those of all layers. */
  lemma ComposedFlags(layers: seq<DeliveryEffects>, a: Attribution)
    ensures var d := Composed(layers);
      && (d.stripLinks <==> exists i :: 0 <= i < |layers| && layers[i].stripLinks)
      && (d.suppressLinks <==> exists i :: 0 <= i < |layers| && layers[i].suppressLinks)
      && (a in d.blockedBy <==> exists i :: 0 <= i < |layers| && a in layers[i].blockedBy)
  {
    hide Layered, Finish;
    LayeredFlags(layers, a);
    SortCorrect(Layered(layers).blockedBy, LayerLeq);
    hide Sort;
  }

  ghost function BlockerCount(layers: seq<DeliveryEffects>): nat {
    if layers == [] then 0 else BlockerCount(layers[..|layers| - 1]) + |layers[|layers| - 1].blockedBy|
  }

  /** No blocker is listed more often than the layers list it together. */
  lemma {:induction false} BlockersCounted(layers: seq<DeliveryEffects>)
    ensures |Layered(layers).blockedBy| == |Composed(layers).blockedBy| == BlockerCount(layers)
  {
    hide JoinSpans, Finish, Sort;
    LayerLeqOrder();
    SortCorrect(Layered(layers).blockedBy, LayerLeq);
    hide LayerLeq, TotalPreorder;
    if layers != [] {
      BlockersCounted(layers[..|layers| - 1]);
    }
  }

  ghost function Level(a: Attribution): nat { match a.scope.authority case Global => 0 case Hub => 1 case Server => 2 }

  /** Blockers are listed GLOBAL first, then HUB, then SERVER; within one authority by policy, then by rule. */
  lemma BlockersInOrder(layers: seq<DeliveryEffects>, i: nat, j: nat)
    requires i < j < |Composed(layers).blockedBy|
    ensures var x, y := Composed(layers).blockedBy[i], Composed(layers).blockedBy[j];
      || Level(x) < Level(y)
      || (Level(x) == Level(y) && (x.policyId < y.policyId || (x.policyId == y.policyId && x.ruleId <= y.ruleId)))
  {
    hide Layered, Finish;
    LayerLeqOrder();
    SortCorrect(Layered(layers).blockedBy, LayerLeq);
    hide Sort, TotalPreorder;
    assert LayerLeq(Composed(layers).blockedBy[i], Composed(layers).blockedBy[j]);
  }

  // ---- Censoring ---------------------------------------------------------------------------------------

  lemma {:induction false} LayeredCensors(layers: seq<DeliveryEffects>, s: Surface, b: nat)
    ensures Covers(SpansAt(Layered(layers).censorSpans, s), b) <==> exists i :: 0 <= i < |layers| && Covers(SpansAt(layers[i].censorSpans, s), b)
  {
    hide Covers, SpansAt, JoinSpans;
    if layers == [] {
      NothingCovered(s, b);
    } else {
      var n := |layers| - 1;
      LayeredCensors(layers[..n], s, b);
      assert forall i :: 0 <= i < n ==> layers[..n][i] == layers[i];
      JoinSpansAt(Layered(layers[..n]).censorSpans, layers[n].censorSpans, s);
      CoversConcat(SpansAt(Layered(layers[..n]).censorSpans, s), SpansAt(layers[n].censorSpans, s), b);
    }
  }

  lemma NothingCovered(s: Surface, b: nat)
    ensures !Covers(SpansAt(NO_EFFECTS.censorSpans, s), b)
  {
  }

  lemma {:induction false} LayeredNonEmpty(layers: seq<DeliveryEffects>, s: Surface)
    requires forall i :: 0 <= i < |layers| ==> NonEmpty(SpansAt(layers[i].censorSpans, s))
    ensures NonEmpty(SpansAt(Layered(layers).censorSpans, s))
  {
    hide JoinSpans;
    if layers != [] {
      var n := |layers| - 1;
      assert forall i :: 0 <= i < n ==> layers[..n][i] == layers[i];
      LayeredNonEmpty(layers[..n], s);
      JoinSpansAt(Layered(layers[..n]).censorSpans, layers[n].censorSpans, s);
    }
  }

  /** A blocked composition censors nothing; an unblocked one, merged, exactly the bytes that some layer censors. */
  lemma ComposedCensors(layers: seq<DeliveryEffects>, s: Surface)
    requires forall i :: 0 <= i < |layers| ==> NonEmpty(SpansAt(layers[i].censorSpans, s))
    ensures var d := Composed(layers);
      && (d.blockedBy != [] ==> d.censorSpans == map[])
      && (d.blockedBy == [] ==>
            && Canonical(SpansAt(d.censorSpans, s))
            && forall b :: Covers(SpansAt(d.censorSpans, s), b) <==> exists i :: 0 <= i < |layers| && Covers(SpansAt(layers[i].censorSpans, s), b))
  {
    hide Layered, Covers, Canonical, NonEmpty, MergedSpans, SpansAt, Finish, Sort;
    var raw, d := Layered(layers), Composed(layers);
    LayeredNonEmpty(layers, s);
    if d.blockedBy != [] {
      FinishBlocked(d.blockedBy, raw.censorSpans);
    } else {
      FinishAt(d.blockedBy, raw.censorSpans, s);
      MergedCanonical(SpansAt(raw.censorSpans, s));
      forall b ensures Covers(SpansAt(d.censorSpans, s), b) <==> exists i :: 0 <= i < |layers| && Covers(SpansAt(layers[i].censorSpans, s), b) {
        LayeredCensors(layers, s, b);
      }
    }
  }
}
