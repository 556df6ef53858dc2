/** delivery.rs: `materialize_variant` and the variant fingerprint. */
module Delivery {
  import opened Wrappers
  import opened Spans
  import opened PolicyModel
  import opened Resolver
  import opened Layers
  import opened ByteEncoding
  import opened Censoring
  import opened StripThenCensor
  import opened Stripping
  import StripCorrectness

  datatype DeliveryVariant = DeliveryVariant(
    messageContent: string, displayName: string, username: string, serverName: string, hubName: string,
    suppressLinks: bool, fingerprint: seq<Byte>)

  // ---- The fingerprint ---------------------------------------------------------

  /** The bytes hashed for a variant; SHA-256 is taken to be injective on them. */
  function VariantBytes(message: string, display: string, user: string, server: string, hub: string, suppress: bool): seq<Byte> {
    Field(Utf8(message)) + (Field(Utf8(display)) + (Field(Utf8(user)) + (Field(Utf8(server)) + (Field(Utf8(hub)) +
      [if suppress then 1 else 0]))))
  }

  ghost predicate SmallText(s: string) { Small(|Utf8(s)|) }

  /** Every text of the variant has a length a process can hold. */
  ghost predicate SmallVariant(v: DeliveryVariant) {
    && SmallText(v.messageContent) && SmallText(v.displayName) && SmallText(v.username)
    && SmallText(v.serverName) && SmallText(v.hubName)
  }

  function FingerprintOf(v: DeliveryVariant): seq<Byte> {
    VariantBytes(v.messageContent, v.displayName, v.username, v.serverName, v.hubName, v.suppressLinks)
  }

  lemma FieldText(a: string, b: string, x: seq<Byte>, y: seq<Byte>)
    requires SmallText(a) && SmallText(b) && Field(Utf8(a)) + x == Field(Utf8(b)) + y
    ensures a == b && x == y
  {
    hide Field, Utf8, Small;
    FieldCancel(Utf8(a), Utf8(b), x, y);
    Utf8Injective(a, b);
  }

  /** Variants that share a fingerprint present the same texts, so one of them can stand for all. */
  lemma FingerprintIdentifiesVariant(v: DeliveryVariant, w: DeliveryVariant)
    requires v.fingerprint == FingerprintOf(v) && w.fingerprint == FingerprintOf(w)
    requires SmallVariant(v) && SmallVariant(w) && v.fingerprint == w.fingerprint
    ensures v == w
  {
    hide Field, Utf8, SmallText;
    var v5, w5 := [if v.suppressLinks then 1 else 0], [if w.suppressLinks then 1 else 0];
    var v4, w4 := Field(Utf8(v.hubName)) + v5, Field(Utf8(w.hubName)) + w5;
    var v3, w3 := Field(Utf8(v.serverName)) + v4, Field(Utf8(w.serverName)) + w4;
    var v2, w2 := Field(Utf8(v.username)) + v3, Field(Utf8(w.username)) + w3;
    var v1, w1 := Field(Utf8(v.displayName)) + v2, Field(Utf8(w.displayName)) + w2;
    FieldText(v.messageContent, w.messageContent, v1, w1);
    FieldText(v.displayName, w.displayName, v2, w2);
    FieldText(v.username, w.username, v3, w3);
    FieldText(v.serverName, w.serverName, v4, w4);
    FieldText(v.hubName, w.hubName, v5, w5);
    assert v5[0] == w5[0];
  }

  // ---- Materialization -----------------------------------------------------------

  /** What a name becomes: its replacement, else its text with the censor spans masked. */
  ghost function RenderedName(p: Presentation, e: DeliveryEffects, s: Surface): Result<string, TransformationError> {
    if s in e.nameReplacements then Ok(e.nameReplacements[s].replacement)
    else if SpansAt(e.censorSpans, s) == [] then Ok(SurfaceText(p, s))
    else Censored(SurfaceText(p, s), SpansAt(e.censorSpans, s))
  }

  ghost function RenderedMessage(p: Presentation, e: DeliveryEffects): Result<string, TransformationError> {
    Transformed(p.messageContent,
                SpansAt(e.censorSpans, MessageContent) + (if e.stripLinks then p.urlSpans else []), e.stripLinks, p.urlSpans)
  }

  function Variant(m: string, d: string, u: string, s: string, h: string, suppress: bool): DeliveryVariant {
    DeliveryVariant(m, d, u, s, h, suppress, VariantBytes(m, d, u, s, h, suppress))
  }

  /** The variant of a presentation under some effects, or the first transformation error. */
  ghost function Materialized(p: Presentation, e: DeliveryEffects): Result<DeliveryVariant, TransformationError> {
    match RenderedMessage(p, e) case Err(x) => Err(x) case Ok(m) =>
    match RenderedName(p, e, DisplayName) case Err(x) => Err(x) case Ok(d) =>
    match RenderedName(p, e, Username) case Err(x) => Err(x) case Ok(u) =>
    match RenderedName(p, e, ServerName) case Err(x) => Err(x) case Ok(s) =>
    match RenderedName(p, e, HubName) case Err(x) => Err(x) case Ok(h) =>
      Ok(Variant(m, d, u, s, h, e.suppressLinks))
  }

  method TransformedName(p: Presentation, e: DeliveryEffects, s: Surface) returns (r: Result<string, TransformationError>)
    requires IsName(s)
    ensures r == RenderedName(p, e, s)
  {
    if s in e.nameReplacements {
      return Ok(e.nameReplacements[s].replacement);
    }
    var spans := SpansAt(e.censorSpans, s);
    if spans == [] {
      return Ok(SurfaceText(p, s));
    }
    r := CensorSpans(SurfaceText(p, s), spans);
  }

  method MaterializeVariant(p: Presentation, e: DeliveryEffects) returns (r: Result<DeliveryVariant, TransformationError>)
    ensures r == Materialized(p, e)
  {
    var spans := SpansAt(e.censorSpans, MessageContent);
    if e.stripLinks {
      spans := spans + p.urlSpans;
    } else {
      assert spans == spans + [];
    }
    var message := TransformOrReuse(p.messageContent, spans, e.stripLinks, p.urlSpans);
    if message.Err? { return Err(message.error); }
    var display := TransformedName(p, e, DisplayName);
    if display.Err? { return Err(display.error); }
    var user := TransformedName(p, e, Username);
    if user.Err? { return Err(user.error); }
    var server := TransformedName(p, e, ServerName);
    if server.Err? { return Err(server.error); }
    var hub := TransformedName(p, e, HubName);
    if hub.Err? { return Err(hub.error); }
    r := Ok(Variant(message.value, display.value, user.value, server.value, hub.value, e.suppressLinks));
  }

  /** The effects look the same to a recipient: attribution is not part of a variant. */
  ghost predicate SameRendering(e: DeliveryEffects, f: DeliveryEffects) {
    && e.censorSpans == f.censorSpans && e.stripLinks == f.stripLinks && e.suppressLinks == f.suppressLinks
    && e.nameReplacements.Keys == f.nameReplacements.Keys
    && forall s :: s in e.nameReplacements ==> e.nameReplacements[s].replacement == f.nameReplacements[s].replacement
  }

  lemma SameRenderingSameVariant(p: Presentation, e: DeliveryEffects, f: DeliveryEffects)
    requires SameRendering(e, f)
    ensures Materialized(p, e) == Materialized(p, f)
  {
    hide Transformed, Censored, VariantBytes;
    assert RenderedMessage(p, e) == RenderedMessage(p, f);
    assert forall s :: RenderedName(p, e, s) == RenderedName(p, f, s);
  }

  lemma MaterializedFingerprint(p: Presentation, e: DeliveryEffects)
    requires Materialized(p, e).Ok?
    ensures Materialized(p, e).value.fingerprint == FingerprintOf(Materialized(p, e).value)
  {
  }

  /** Without effects every text is the canonical one. */
  lemma NoEffectsNoChange(p: Presentation)
    ensures Materialized(p, NO_EFFECTS)
      == Ok(Variant(p.messageContent, p.displayName, p.username, p.serverName, p.hubName, false))
  {
    hide VariantBytes;
    var none: seq<ByteSpan> := [];
    assert none + none == none;
  }

  /**
   * A variant exists exactly when every span that is applied lies on scalar
   * boundaries of its text: the censor spans of the message and of every name
   * that is not replaced, and the URLs when links are stripped.
   */
  ghost predicate SpansFit(p: Presentation, e: DeliveryEffects) {
    && (e.stripLinks ==> AllValid(p.messageContent, p.urlSpans))
    && AllValid(p.messageContent, SpansAt(e.censorSpans, MessageContent))
    && forall s :: IsName(s) && s !in e.nameReplacements ==> AllValid(SurfaceText(p, s), SpansAt(e.censorSpans, s))
  }

  /** The censor spans of every surface are merged, as composition leaves them. */
  ghost predicate MergedCensors(e: DeliveryEffects) {
    forall s :: Canonical(SpansAt(e.censorSpans, s))
  }

  lemma CensoredIff(text: string, spans: seq<ByteSpan>)
    requires Canonical(spans)
    ensures Censored(text, spans).Ok? <==> AllValid(text, spans)
  {
    MergedFixed(spans);
  }

  lemma NameRenders(p: Presentation, e: DeliveryEffects, s: Surface)
    requires MergedCensors(e)
    ensures RenderedName(p, e, s).Ok? <==> s in e.nameReplacements || AllValid(SurfaceText(p, s), SpansAt(e.censorSpans, s))
  {
    hide Canonical, Censored;
    CensoredIff(SurfaceText(p, s), SpansAt(e.censorSpans, s));
  }

  lemma MessageRenders(p: Presentation, e: DeliveryEffects)
    requires MergedCensors(e)
    ensures RenderedMessage(p, e).Ok? <==>
      (e.stripLinks ==> AllValid(p.messageContent, p.urlSpans)) && AllValid(p.messageContent, SpansAt(e.censorSpans, MessageContent))
  {
    var spans := SpansAt(e.censorSpans, MessageContent);
    CensoredIff(p.messageContent, spans);
    hide Canonical, Censored, ValidSpan, Surviving, StripCensor, ValidateSpans;
    if e.stripLinks {
      StripCorrectness.StripSucceedsIff(p.messageContent, spans + p.urlSpans, p.urlSpans);
      ValidConcat(p.messageContent, spans, p.urlSpans);
    } else {
      assert spans + [] == spans;
    }
  }

  lemma ValidConcat(text: string, a: seq<ByteSpan>, b: seq<ByteSpan>)
    ensures AllValid(text, a + b) <==> AllValid(text, a) && AllValid(text, b)
  {
    hide ValidSpan;
    var c := a + b;
    assert forall i :: 0 <= i < |a| ==> c[i] == a[i];
    assert forall i :: 0 <= i < |b| ==> c[|a| + i] == b[i];
  }

  lemma MaterializesIffSpansFit(p: Presentation, e: DeliveryEffects)
    requires MergedCensors(e)
    ensures Materialized(p, e).Ok? <==> SpansFit(p, e)
  {
    hide MergedCensors, AllValid, RenderedName, RenderedMessage, VariantBytes;
    MessageRenders(p, e);
    NameRenders(p, e, DisplayName);
    NameRenders(p, e, Username);
    NameRenders(p, e, ServerName);
    NameRenders(p, e, HubName);
  }
}
