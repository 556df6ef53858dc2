# Verified model of the native content policy

A Dafny model of the content-policy pipeline under `src/content_policy`, with
the two lease protocols beside it (`src/command.rs` and the outbox relay of
`src/eventbus.rs`), the rule-IR evaluator and the effect merge of `src/policy`.

What is modelled and proved, from the message inwards:

* **Normalization.** NFKC with provenance is the standard's canonical ordering
  and composition; separators, byte tiling and source spans; the security view
  with its masked links, contextual passes and mixed-script mapping.
* **Patterns and matching.** Parsing, the compiled matcher with shared patterns
  and two views, and the two-pass evaluation against a declarative reading.
* **Delivery.** Span merging, censoring, link stripping with remapped
  coordinates, layer composition, and variants with their fingerprints.
* **Fan-out.** The profile fingerprint identifies behaviour exactly, and
  grouping destinations by it refines deciding every destination alone.
* **Protocols.** The versioned snapshot store under reordered and repeated
  updates, command leases, outbox relays in any interleaving, and the bounded
  cooldown registry.

The modules named after what they explain and `Meaning` state results in the
terms of the rules, texts and rows themselves, without the functions that the
methods are specified by; `DecisionMeaning.DeliveryMeans` puts them together.

## Conventions

* A text is a sequence of Unicode scalars; a byte offset is the total UTF-8
  width before a scalar. Matcher positions are scalar indices, which
  `NormalizedViews.MatcherPositionsAreBytes` ties to byte ranges.
* SHA-256 is taken to be injective: a digest is the bytes that are hashed.
  A map keyed by digests is visited in an arbitrary order.
* Unicode tables, ICU properties and the combined normalizations are
  parameters; the properties used of them are the hypotheses `StartersStay`,
  `LettersAreTokens`, `Padding`, `AnalyzedFrom` and `WorldOk`. On ASCII they are
  written out in `AsciiText`.
* `ValidPolicy` states what the fingerprint needs, and `Validation` derives it
  from what validation accepts. A normal form without NUL bytes is a further
  hypothesis: validation does not exclude NUL, but the database text columns
  cannot hold it. `Small` bounds lengths and durations at 256^7.
* `StoreCompiled`, `IdsIdentify` and `ProfilesAgree` are the hypotheses of the
  fan-out. The first two hold of every store the runtime reaches
  (`RuntimeStore.RuntimeStoreHolds`). The third does not follow from the code:
  policies with one fingerprint must reach the same texts in the security view.
* `AnalyzedFrom` says of a message's views and links what
  `NormalizedViews.NewNormalizedText`, `MaskedLinks.SecurityMapped` and
  `UrlScanner.ExtractedLinksStrip` ensure.

## Findings

* Grouping by fingerprint can decide a server's message by another server's
  policy. The fingerprint hashes normal forms
  (`src/content_policy/compiler.rs:344-355`), the security view is matched by
  the authored text: `test` and `test!` share a fingerprint, but only the first
  is matched in `te-st` (`FanOutWitness.GroupedDecisionsDiffer`), and the order
  of the destinations decides for both (`FanOutWitness.OrderDecides`). Two rules
  are hit at the same spans exactly under `SecurityAgreement.HitAlikeIff`, and
  trigger alike exactly under `TriggerAgreement.TriggersAlikeIff` and
  `TriggerAgreement.TriggersAlikePlainIff`.
* A policy published as version 0 would never be stored
  (`Snapshots.VersionZeroNeverLoads`). Only a caller of the store itself could
  publish one: the database schema demands a positive version.
* Of a replacement and a removal with one version the removal wins in either
  order (`Snapshots.RunEndsAt`); two replacements with one version make the
  outcome depend on order (`Snapshots.OrderInsensitiveIff`).
* Reconciliation's synthetic removal version makes a recreated policy stale
  until its version passes it (`Service.RecreatedTooEarly`).
* Stripping a link can make two censored runs touch, after which they are
  censored as one (`StripWitness.TouchingRunsDiffer`); exactly when this shows
  or hides another scalar is `StripExactness.StripThenCensorIff`. A policy that
  does it is `StripPolicy.PolicyDeliversOther`.
* A pattern that is a lone star reverses its slice bounds and panics instead of
  being rejected (`PatternSyntax.LoneStarPanics`).
* A command whose lease expired but was not superseded can still be completed
  (`Commands.CurrentLeaseCompletes`).
* Merged effects with a repeated id can report a weaker decision than one of
  them asks for (`EffectMerge.RepeatedIdHidesDecision`), exactly when
  `EffectMerge.GreatestIff` says.

## Model

| member | source | states |
|---|---|---|
| `Fingerprint.HashPolicy` | src/content_policy/compiler.rs:316-368 | The hashing loop feeds exactly the version field and then the rules in name order; the digest stands for these bytes |
| `Fingerprint.HashRule` | src/content_policy/compiler.rs:333-366 | One rule feeds three length-prefixed texts, its surface bytes ascending, its patterns and its actions in their sorted orders |
| `RuleEncoding.RulesDecodable` | src/content_policy/compiler.rs:316-373 | The encoding has no counts and no separators, yet equal bytes come from equal lists of well-formed rules |
| `ByteEncoding.FieldCancel` | src/content_policy/compiler.rs:370-373 | Length-prefixed fields split unambiguously whatever follows them |
| `FingerprintTheorem.FingerprintIffBehaviour` | src/content_policy/compiler.rs:316-373 | Two validated policies share a fingerprint exactly when their enabled rules behave alike: ids, authors, authored spelling with one normal form, list orders and an absent as against an empty reason are left out of it, and nothing else is |
| `FingerprintTheorem.FingerprintPairsRules` | src/content_policy/compiler.rs:316-373 | Equal fingerprints pair the enabled rules of two policies, in name order, with equal behaviour |
| `PatternSharing.InsertPattern` | src/content_policy/matcher.rs:375-394 | A pattern text and type is stored once and gathers every target, losing none |
| `PatternSharing.Compile` | src/content_policy/matcher.rs:141-203 | The compiled patterns target exactly the definitions, by normal form in the canonical view and by security text of eligible non-phrases in the auxiliary one |
| `Matcher.MatchView` | src/content_policy/matcher.rs:263-320 | One report entry per rule: a rule triggers exactly when an occurrence of one of its patterns lies on its boundaries, has a source span and is not excluded; details are exactly those occurrences |
| `Matcher.RecordTargets` | src/content_policy/matcher.rs:295-316 | Every target of a candidate is recorded, each rule under one entry |
| `PatternSharing.MergeReports` | src/content_policy/matcher.rs:409-444 | Merging the two views keeps every trigger and every reported pattern, type and span, and keeps rules unique |
| `PatternSharing.MatchNormalizedWithSecurity` | src/content_policy/matcher.rs:230-249 | A rule triggers exactly when one of its definitions is hit in the canonical view, or is eligible and hit in the security view outside the excluded ranges; with and without details the same rules trigger |
| `Compiler.CompileWithDetails` | src/content_policy/compiler.rs:58-110 | Compiling fails exactly when an enabled rule with a surface has a pattern that normalizes to nothing; otherwise it yields, per surface with rules, a matcher of exactly those rules' patterns and the set of rules that keep details |
| `Compiler.ValidCompiles` | src/content_policy/compiler.rs:58-110 | A validated policy always compiles |
| `Compiler.DefinitionsOnElements` | src/content_policy/compiler.rs:78-87 | A surface's definitions are exactly the patterns of the enabled rules on that surface |
| `TwoPass.MatchSurface` | src/content_policy/compiler.rs:129-168 | The cheap pass reports exactly the rules hit, and the detailed pass, when run, shows exactly their hits |
| `TwoPass.EvaluateNormalized` | src/content_policy/compiler.rs:118-218 | The two-pass evaluation returns exactly the declarative result - every rule hit somewhere, by rule id, its surfaces in order, each with the ordered distinct spans and pattern ids when the rule keeps details - and never meets an unknown rule |
| `TwoPass.ProductionErasesDiagnostic` | src/content_policy/compiler.rs:42-110 | A production snapshot reports what the diagnostic one reports, with spans and pattern ids erased exactly for rules without CENSOR_MATCH or LOG |
| `MatchMeaning.AdmissibleMeans` | src/content_policy/matcher.rs:446-470 | An occurrence counts exactly when the text stands there with no word scalar before it (exact word, phrase, prefix) and none after it (exact word, phrase, suffix), and no excluded range contains all its source spans; in the security view an underscore is no word scalar |
| `MatchMeaning.EventMeans` | src/content_policy/matcher.rs:263-320 | A recorded match is a target of a pattern whose text so stands there, with its type and the smallest span around its source spans |
| `MatchMeaning.LiteralMeans` | src/content_policy/matcher.rs:396-407 | The literal of the security view is the authored text without the stars its type is written with |
| `MatchMeaning.SeenMeans` | src/content_policy/compiler.rs:118-168 | A pattern is reported on a surface where its normal form stands in the canonical view, or its eligible literal in the security view; excluded ranges count on message content alone |
| `MatchMeaning.TriggeredMeans` | src/content_policy/compiler.rs:118-218 | A rule triggers exactly when one of its patterns is so seen on a surface it watches |
| `MatchMeaning.EvaluatedMeans` | src/content_policy/compiler.rs:118-218 | Evaluation gives one entry for every rule seen somewhere, by rule id, and no other; an entry names policy, version, scope and rule, and lists the surfaces where the rule is seen, each with exactly the spans and pattern ids seen there if the rule censors or logs |
| `Remapping.RemapsEach` | src/content_policy/compiler.rs:223-251 | Remapping succeeds when every rule name is known, and re-attributes entry by entry |
| `Remapping.Twin` | src/content_policy/compiler.rs:220-222 | Under one fingerprint every enabled rule has a rule of the same name in the other snapshot with the same behaviour and reach in the security view |
| `Remapping.SameSpansOn` | src/content_policy/matcher.rs:230-249 | Rules with the same normal forms and types, which reach the same texts and types in the security view, are hit at the same source spans on every input |
| `Remapping.RemapIsEvaluation` | src/content_policy/compiler.rs:220-251 | Remapping a representative's result never fails within a group and, in rule order, is what evaluating the member's own policy gives, up to pattern ids |
| `SecurityAgreement.HitAlikeIff` | src/content_policy/matcher.rs:180-249 | Rules that the fingerprint cannot tell apart are hit at the same spans on every pair of views exactly when, for each security text, their types cover the same types: Contains covers all, Prefix and Suffix cover ExactWord |
| `SecurityAgreement.AgreeOnSecurityIff` | src/content_policy/compiler.rs:344-355 | The hypothesis of the fan-out is exact for hits: policies agree on security if and only if all rules their fingerprint identifies are hit at the same spans on every pair of views |
| `TriggerAgreement.TriggersAlikeIff` | src/content_policy/matcher.rs:180-320 | It is exact for triggering too, on which decisions without spans rest, where ranges may be excluded as in message content: such rules trigger on the same inputs if and only if they reach alike |
| `TriggerAgreement.TriggersAlikePlainIff` | src/content_policy/matcher.rs:180-320 | Where nothing is excluded the condition is weaker: they trigger alike if and only if every text that one reaches contains a hit of the other, on its boundaries |
| `FanOutWitness.GroupedDecisionsDiffer` | src/content_policy/compiler.rs:344-355 | It can fail: two accepted policies with one fingerprint, one pattern authored test and the other test!, and the message te-st, which alone is blocked by the first server only; through a representative, whichever of the two it is decides for both |
| `FanOutWitness.OrderDecides` | src/content_policy/engine.rs:220-311 | The fan-out run over these two servers refuses both when listed in one order and serves both in the other |
| `FanOutWitness.CompileBoth` | src/content_policy/compiler.rs:58-110 | Both policies of that example compile, for any text functions that spell as stated |
| `FanOutWitness.AsciiSpells` | src/content_policy/normalization.rs:252-293 | The text functions do so on ASCII, where the model's own passes compute them: test! normalizes to test and is not eligible for the security view, while test is |
| `FanOutWitness.MessageIsAnalyzed` | src/content_policy/normalization.rs:132-160 | The two views of that example are what the whole canonical and security passes make of te-st: NFKC, folding, spacing; visible text, NFKC, folding, ignored characters, the two context passes and mixed-script mapping |
| `AsciiText.NormalizeIsNormal` | src/content_policy/normalization.rs:252-254 | The ASCII normalization is the normal form of the pipeline, for every text |
| `AsciiText.ViewsAreComputed` | src/content_policy/normalization.rs:294-370 | So are the two ASCII views, for every text |
| `Spans.MergeSpans` | src/content_policy/resolver.rs:285-298 | The merging loop computes the merged form of its input |
| `Spans.MergedCanonical` | src/content_policy/delivery.rs:249-262 | Merging non-empty spans gives sorted, strictly separated spans that cover the same bytes |
| `Spans.CanonicalUnique` | src/content_policy/resolver.rs:285-298 | Only one sorted, strictly separated list of spans covers a given set of bytes |
| `Spans.MergedByCoverage` | src/content_policy/resolver.rs:285-298 | Lists that cover the same bytes merge to the same list |
| `Resolver.ResolveScope` | src/content_policy/resolver.rs:104-173 | Resolving a layer yields the rules by id and what their actions contribute in that order |
| `Resolver.StrongestSideEffects` | src/content_policy/resolver.rs:219-249 | The loop collects LOG requests per rule and a strongest request per punishment family, and lists them in order |
| `Resolver.StrongestElements` | src/content_policy/resolver.rs:219-249 | The requests passed on are exactly the first LOG request of every rule that has one and the strongest request of each punishment family, by family and then rule id |
| `Resolver.LogsOncePerRule` | src/content_policy/resolver.rs:222-231 | A rule is logged once, by its first LOG request, exactly when it requests it |
| `Resolver.WinnerIsMaximum` | src/content_policy/resolver.rs:251-283 | The request kept for a family is strongest by action, then duration, then lowest rule id among equal durations |
| `SideEffectMeaning.RequestMeans` | src/content_policy/resolver.rs:147-151 | The requests of a layer are those of its matched rules' LOG and punishment actions, with their durations and attributions |
| `SideEffectMeaning.SideEffectsMean` | src/content_policy/resolver.rs:219-283 | Passed on are one LOG per logging rule, of the lobby punishments a BLACKLIST if there is one, else a LOBBY_BAN, else a LOBBY_WARN, and likewise HUB_BAN, HUB_MUTE, HUB_WARN: of that type the longest one asked for, of the lowest rule id; nothing else is requested |
| `Layers.ResolvedFlags` | src/content_policy/resolver.rs:104-163 | A layer blocks, strips or suppresses exactly when a matched rule has that action, whatever the rule order |
| `Layers.ResolvedBlockers` | src/content_policy/resolver.rs:104-117 | A layer is blocked by exactly the matched rules with BLOCK |
| `Layers.ResolvedCensors` | src/content_policy/resolver.rs:118-127 | The censor spans of a surface are exactly those reported by matched rules with CENSOR_MATCH |
| `Layers.ResolvedNames` | src/content_policy/resolver.rs:129-145 | A name is replaced exactly when a matched rule with REPLACE_NAME touches it, and below GLOBAL always by the safe name |
| `LayerMeaning.MatchedInOrder` | src/content_policy/resolver.rs:104-110 | The matched rules are listed by rule id, none lost or invented |
| `LayerMeaning.BlockersMean` | src/content_policy/resolver.rs:111-117 | A layer is blocked by exactly the attributions of its rules with BLOCK, by rule id |
| `LayerMeaning.ReplacementMeans` | src/content_policy/resolver.rs:129-145 | A name is replaced by the replacing rule of least id matched on it: by its own text in GLOBAL, by InterChat User elsewhere or without one |
| `LayerMeaning.CensorsMean` | src/content_policy/resolver.rs:118-173 | An unblocked layer censors, merged, exactly the bytes its rules with CENSOR_MATCH report, a blocked one none |
| `Rendering.ResolvingIgnoresIds` | src/content_policy/resolver.rs:104-173 | Resolving does not depend on pattern ids or on the order of matched rules beyond their ids |
| `Layers.ComposeDelivery` | src/content_policy/resolver.rs:179-217 | Composition accumulates blocks, spans, flags and the first layer's names, then sorts by authority and merges |
| `Layers.ComposeInStages` | src/content_policy/resolver.rs:179-217 | Composing the higher layers first and then a lower one equals composing all of them at once |
| `Layers.LayerOnlyTightens` | src/content_policy/resolver.rs:175-217 | A further layer never unblocks, never drops stripping or suppression, never shrinks the censor coverage of an unblocked result, and never overrides a higher layer's replacement |
| `CompositionMeaning.ComposedNames` | src/content_policy/resolver.rs:194-200 | A name is replaced exactly when some layer replaces it, and then as the first such layer does |
| `CompositionMeaning.ComposedFlags` | src/content_policy/resolver.rs:179-193 | Stripping, suppression and every blocker are in the composition exactly when they are in some layer |
| `CompositionMeaning.BlockersInOrder` | src/content_policy/resolver.rs:202-208 | Blockers are ordered GLOBAL, HUB, SERVER, then by policy and rule id |
| `CompositionMeaning.ComposedCensors` | src/content_policy/resolver.rs:179-217 | A blocked composition censors nothing, an unblocked one, merged, exactly the bytes that some layer censors |
| `Censoring.ValidateSpans` | src/content_policy/delivery.rs:231-247 | No error exactly when every span is non-empty, inside the text and on character boundaries |
| `Censoring.CensorSpans` | src/content_policy/delivery.rs:201-229 | Byte-level censoring equals masking by scalar position: a run keeps its first and last scalar and hides the middle, short runs are hidden whole, other text is copied |
| `StripThenCensor.RemoveSpansAndRemapCensors` | src/content_policy/delivery.rs:161-199 | Removal cuts exactly the merged spans, and each censor span outside them moves back by the bytes removed before it, without underflow |
| `StripThenCensor.TransformOrReuse` | src/content_policy/delivery.rs:128-159 | The transformation's result or error for any spans whatever |
| `StripCorrectness.RemappedSpanSelectsSameText` | src/content_policy/delivery.rs:176-198 | A censor span that overlaps no link remaps to a valid span of the stripped text that selects the same scalars |
| `Stripping.MergeRemapCommute` | src/content_policy/delivery.rs:161-213 | Merging then remapping equals remapping then merging exactly when removal makes no two runs newly touch |
| `StripCorrectness.StripSucceedsIff` | src/content_policy/delivery.rs:138-157 | Stripping succeeds exactly when all link and censor spans are valid; the final censoring never fails |
| `StripCorrectness.StripThenCensorCorrect` | src/content_policy/delivery.rs:128-213 | When no two kept runs newly touch, stripping then censoring is the censored original with the links deleted |
| `StripExactness.StripThenCensorIff` | src/content_policy/delivery.rs:128-213 | The two are equal if and only if every scalar whose masking changes, where a link was the whole gap between two runs, is # already: the ends of a run of three or more at which it is joined, and the outer scalars of one or two at which a joined run of three or more begins or ends |
| `StripExactness.JoiningHarmlessIff` | src/content_policy/delivery.rs:200-229 | Masking joined runs as one equals masking them apart exactly when all those changes are harmless |
| `StripExactness.ShortJoinsHarmless` | src/content_policy/delivery.rs:215-229 | Joining two single scalars is always harmless |
| `StripWitness.TouchingRunsDiffer` | src/content_policy/delivery.rs:145-157 | A message with an extracted link on which they differ: the joined run shows a scalar that the censored message hides |
| `StripWitness.LinkIsExtracted` | src/content_policy/analysis.rs:265-293 | Extraction finds exactly that link in that message |
| `StripPolicy.RuleReports` | src/content_policy/compiler.rs:118-218 | One rule with two patterns reports exactly the two censored runs of that message |
| `StripPolicy.ViewIsComputed` | src/content_policy/normalization.rs:530-557 | The canonical view it matches is the spaced NFKC of the message, in which the stroke joins the character before it |
| `StripPolicy.PolicyDeliversOther` | src/content_policy/delivery.rs:57-80 | A policy with that rule, which censors and strips, delivers something else than the censored message with its link deleted |
| `Delivery.MaterializeVariant` | src/content_policy/delivery.rs:57-126 | The message is transformed, each name replaced or censored, in that order of errors |
| `Delivery.MaterializesIffSpansFit` | src/content_policy/delivery.rs:57-126 | A variant exists exactly when the applied spans fit: the message's censors, its links when stripped, and the censors of every name that is not replaced |
| `Delivery.NoEffectsNoChange` | src/content_policy/delivery.rs:57-126 | Without effects every text is delivered as it is |
| `DeliveryMeaning.CensoredMeans` | src/content_policy/delivery.rs:201-229 | Censoring shows # for exactly the covered scalars that are not an end of a covered stretch of three or more, and all else unchanged |
| `DeliveryMeaning.NameMeans` | src/content_policy/delivery.rs:102-126 | A replaced name is shown as its replacement, one without spans as it is, any other masked by its spans |
| `DeliveryMeaning.StrippedMeans` | src/content_policy/delivery.rs:128-213 | A stripped message shows the scalars outside the links in order, masked by the runs that share no byte with a link |
| `DeliveryMeaning.VariantMeans` | src/content_policy/delivery.rs:57-100 | Every field of a variant so shows its own text, and link suppression is that of the effects |
| `Fitting.EvaluatedFits` | src/content_policy/compiler.rs:118-218 | Every span reported on an analyzed message is a valid span of its surface's text: inside it, non-empty and on character boundaries |
| `Fitting.ResolvedFits` | src/content_policy/resolver.rs:104-173 | So are the merged censor spans of a layer |
| `Fitting.ComposedFits` | src/content_policy/resolver.rs:179-217 | And those of composed layers |
| `Fitting.FittingMaterializes` | src/content_policy/delivery.rs:57-126 | Effects that fit an analyzed message always have a variant: no transformation error |
| `Delivery.FingerprintIdentifiesVariant` | src/content_policy/delivery.rs:268-287 | Variants with one fingerprint present the same texts |
| `Delivery.SameRenderingSameVariant` | src/content_policy/delivery.rs:57-126 | A variant depends on the effects' spans, flags and replacement texts, never on attribution |
| `Rendering.LayersRenderAlike` | src/content_policy/resolver.rs:104-173 | Two non-GLOBAL layers whose matched rules mirror each other up to ids render the same |
| `Rendering.GroupRendersAlike` | src/content_policy/engine.rs:256-270 | All members of a profile group block together and render alike over any shared effects |
| `Engine.MemberDecides` | src/content_policy/engine.rs:271-299 | A member decided through its group's representative is decided exactly as it would be alone |
| `Engine.EvaluateServerDestinations` | src/content_policy/engine.rs:220-311 | The loop returns what deciding every destination through the first member of its profile group gives, each decision once, by target index, with exactly the variants they need, or the error of one. Where policies with one fingerprint agree this refines deciding every destination alone, and an analyzed message never fails |
| `Engine.GroupedIsAlone` | src/content_policy/engine.rs:271-299 | Under that agreement the decision through the representative is each destination's own, in any list |
| `Engine.AnalyzedNeverFails` | src/content_policy/engine.rs:256-299 | No destination of an analyzed message meets a transformation error |
| `Engine.DistinctTargetsExact` | src/content_policy/engine.rs:309-310 | With distinct target indices the returned list is exactly the sorted list of the alone decisions |
| `Engine.VariantKeysExact` | src/content_policy/engine.rs:252-270 | The variants' keys are exactly the fingerprints that unblocked decisions refer to |
| `Engine.LookedUpVariantIsOwn` | src/content_policy/engine.rs:266-270 | Looking up a decision's fingerprint finds the very variant its destination would get alone |
| `Engine.AloneRefersToItsVariant` | src/content_policy/engine.rs:283-298 | A decision refers to a variant exactly when it is not blocked |
| `DecisionMeaning.DecisionMeans` | src/content_policy/engine.rs:271-306 | The decision of a server with a policy names that policy and its version; its matched rule ids are, ascending, exactly those of the enabled rules with a pattern seen on a surface they watch, and its blockers exactly those of them that have BLOCK, each named with policy, version, scope, rule and reason |
| `DecisionMeaning.UndecidedMeans` | src/content_policy/engine.rs:244-260 | A server without a policy gets the shared variant, with no policy, rule or blocker |
| `DecisionMeaning.ReturnedInOrder` | src/content_policy/engine.rs:309-310 | As many decisions are returned as destinations, by target index, and they are exactly those of the destinations |
| `DecisionMeaning.DeliveryMeans` | src/content_policy/engine.rs:256-306 | From rules to texts: a server below GLOBAL gets no variant exactly when a matching rule of its policy has BLOCK; otherwise each name is what the shared layers make it, else InterChat User where a rule with REPLACE_NAME is seen on it, else masked where the shared layers or its own rules with CENSOR_MATCH censor it, and the message is masked likewise, after stripping if a layer or a matching rule asks for it |
| `Plans.EvaluateHub` | src/content_policy/engine.rs:157-218 | GLOBAL and then HUB blocks are terminal for every destination with their attributions and no variants; otherwise the server stage runs over both layers and the feedback counts the blocked destinations; an analyzed message never fails |
| `Plans.EvaluateCallForDestinations` | src/content_policy/engine.rs:124-155 | The same for calls with GLOBAL alone; the representative variant is the one with the least digest |
| `Plans.HubComposesThreeLayers` | src/content_policy/engine.rs:204-206 | The staged composition of a hub delivery is GLOBAL, HUB and SERVER composed at once |
| `Plans.HubDestination` | src/content_policy/engine.rs:204-206 | In a delivering hub plan a destination is blocked exactly when its own server blocks, and otherwise rendered under all three layers |
| `PlanMeaning.AllowedMeans` | src/content_policy/engine.rs:313-330 | Exactly the side effects that the cooldown allows pass, each where and as often as it was requested |
| `PlanMeaning.ReasonMeans` | src/content_policy/engine.rs:185-189 | The reason told to the sender is that of the first blocker that has one |
| `PlanMeaning.FeedbackMeans` | src/content_policy/engine.rs:203-217 | The sender hears of server filters exactly when some destination is blocked, and how many are |
| `PlanMeaning.HubMeans` | src/content_policy/engine.rs:157-218 | A GLOBAL or HUB block refuses every destination in the order asked, with its blockers and nothing else, and tells the sender which of the two it was; otherwise the destinations get their own decisions; which side effects pass in each case |
| `PlanMeaning.CallMeans` | src/content_policy/engine.rs:124-155 | The same for calls |
| `Snapshots.PolicySnapshotStore.Replace` | src/content_policy/snapshot.rs:85-106 | An older version is stale, the same version is unchanged or stale, a newer one is stored with its version |
| `Snapshots.PolicySnapshotStore.Remove` | src/content_policy/snapshot.rs:110-123 | A removal at or above the retained version unloads and retains its version as a tombstone |
| `Snapshots.PolicySnapshotStore.Load` | src/content_policy/snapshot.rs:63-71 | A loaded snapshot belongs to its scope and carries the retained version |
| `Snapshots.ApplyAll` | src/content_policy/snapshot.rs:85-123 | Updates of different scopes never interfere: each slot holds the run of its own updates |
| `Snapshots.AppliedKeeps` | src/content_policy/snapshot.rs:85-123 | The retained version never decreases, equals the loaded one, and an update reports a change exactly when it changes the slot |
| `Snapshots.ReportMeans` | src/content_policy/snapshot.rs:85-123 | An update is stale exactly when it is older than what is retained or another definition of the same version, unchanged exactly when it says what already holds, and takes effect otherwise |
| `Snapshots.RunEndsAt` | src/content_policy/snapshot.rs:85-123 | A run ends at the maximum version: removed if any removal has it, else with its first replacement; a version of zero never loads |
| `Snapshots.OrderInsensitiveIff` | src/content_policy/snapshot.rs:85-123 | All orders and repetitions of a set of updates end alike exactly when the maximum version is nothing, has a removal, or denotes one replacement |
| `Snapshots.OneOperationPerVersion` | src/content_policy/snapshot.rs:85-123 | One operation per version is enough for that |
| `Snapshots.StaleNeverReturns` | src/content_policy/snapshot.rs:108-123 | However many updates follow, one older than the retained version never takes effect |
| `Snapshots.VersionZeroNeverLoads` | src/content_policy/snapshot.rs:89-100 | A snapshot of version 0 is never stored: the store starts at version 0 and takes only newer ones |
| `Service.ContentPolicyRuntime.Bootstrap` | src/content_policy/service.rs:56-68 | Nothing is published unless everything loads and compiles; then each scope holds the run of what was published for it |
| `Service.ContentPolicyRuntime.ReloadScope` | src/content_policy/service.rs:70-93 | One invalidation applies exactly one update, or none with an error |
| `Service.ReloadMeans` | src/content_policy/service.rs:70-93 | That update concerns the scope at the version read, or at the announced one if nothing was, and installs the compiled policy exactly when an enabled one was read |
| `Service.ReloadFails` | src/content_policy/service.rs:70-93 | A reload fails exactly as loading does, on a definition older than announced, or as the compilation of an enabled one does |
| `Service.ContentPolicyRuntime.Reconcile` | src/content_policy/service.rs:97-123 | Publishes everything or nothing, then unloads every loaded scope that no definition has |
| `Service.ReconcileConverges` | src/content_policy/service.rs:97-123 | After reconciliation a scope with a newer definition holds exactly that definition, loaded if enabled; a scope without one is unloaded |
| `Service.RecreatedTooEarly` | src/content_policy/service.rs:113-121 | The synthetic version of such a removal outlives it: a policy created again stays unloaded exactly while its version is at most the removed one plus one |
| `RuntimeStore.PublishingLoads` | src/content_policy/service.rs:56-123 | Bootstrap and the publishing half of reconciliation keep every loaded snapshot the compilation of an accepted definition of its own scope |
| `RuntimeStore.SweepingLoads` | src/content_policy/service.rs:113-121 | So does the removal of absent scopes |
| `RuntimeStore.ReloadingLoads` | src/content_policy/service.rs:70-93 | And a reload, whatever the source returned |
| `RuntimeStore.EveryRunLoads` | src/content_policy/service.rs:56-123 | After any sequence of bootstraps, reloads and reconciliations every loaded snapshot is the compilation of an accepted and classified definition read for its own scope |
| `RuntimeStore.CompileOne` | src/content_policy/service.rs:136-143 | One definition is validated, reclassified by what its patterns parse as and compiled; it fails exactly when it is not accepted or has an empty pattern |
| `RuntimeStore.RuntimeStoreHolds` | src/content_policy/engine.rs:220-251 | Hence the engine's hypotheses about its store hold after every run: compiled from the server's own definition, classified and valid, and identified by policy id |
| `Commands.CommandRepository.Claim` | src/command.rs:80-209 | Granted on a pending row, to the lease's own claimant and after the lease if a retry is safe; busy, with its expiry, under another's live lease; recovery and completion told apart by status; a missing or corrupt command changes nothing |
| `Commands.ClaimWrites` | src/command.rs:80-209 | A claim leases a pending row, or one after its lease that is safe to retry, for the seconds asked within 5 and 300; one after its lease that is not goes to recovery; any other row stays as it is |
| `Commands.CommandRepository.Complete` | src/command.rs:211-309 | Completion checks status, token, then version; it writes the row and one result event together or nothing; a completed row without a stored result is a database error |
| `Commands.CompletionMeans` | src/command.rs:211-309 | Each refusal of a completion happens exactly under its own condition: stored outcome missing or different, recovery, wrong lease, wrong version |
| `Commands.StepKeepsSound` | src/command.rs:80-309 | Every claim and completion keeps the lease invariant |
| `Commands.RunSound` | src/command.rs:80-309 | In every run: one result event with the stored outcome exactly when completed, a claimed row is held under its latest lease at the version its claimant was told, lease intervals of 5 to 300 seconds never overlap, and a command that must not be retried is granted once |
| `Commands.RunMonotone` | src/command.rs:80-309 | Versions only rise and equal versions mean equal rows; completed and recovery rows and outcomes never change; events and leases only append |
| `Commands.OnlyLatestLeaseCompletes` | src/command.rs:244-283 | A row is completed first only by its latest lease, at that lease's version, and such a request always completes it |
| `Commands.SupersededLeaseFails` | src/command.rs:247-251 | A superseded lease changes nothing |
| `Commands.CurrentLeaseCompletes` | src/command.rs:244-309 | The current claimant can complete with what it was told, even after expiry |
| `Commands.RepeatedCompletion` | src/command.rs:227-243 | Later completions change nothing and are answered with the stored outcome exactly when they report the same result |
| `Commands.LeasesDisjoint` | src/command.rs:169-194 | No two leases of a command are live at one time |
| `Commands.NotRetriedTwice` | src/command.rs:321-341 | A command that is not safe to retry is granted at most once and goes to recovery when its lease expires |
| `Commands.ClaimIsIdempotent` | src/command.rs:141-149 | Claiming again under a live lease of one's own returns it and writes nothing |
| `Outbox.OutboxTable.ClaimBatch` | src/eventbus.rs:449-468 | At most 25 eligible unlocked rows are leased for five minutes, oldest first, and no other row changes |
| `Outbox.OutboxTable.RelayBatch` | src/eventbus.rs:449-508 | A relay running alone leaves each claimed row published, or due again after its backoff if its send failed |
| `Outbox.BackoffDoublesThenCaps` | src/eventbus.rs:501-503 | The backoff starts at 1 second, doubles, and is 60 from the sixth failure on |
| `Outbox.RunSound` | src/eventbus.rs:449-508 | For any interleaving of relays: a claimed row has an open errand of its lease holder, and a relay within its lease still holds its row |
| `Outbox.PublishedForGood` | src/eventbus.rs:495-498 | A published row never changes again |
| `Outbox.PublishedOnlyByHolder` | src/eventbus.rs:493-498 | A row becomes published exactly when the holder of its current lease marks it after a successful send |
| `Outbox.SupersededMarksNothing` | src/eventbus.rs:495-503 | A superseded lease cannot alter a row |
| `Outbox.MarkInTimeTakesEffect` | src/eventbus.rs:495-503 | Marking before the lease runs out always takes effect |
| `Outbox.UnpublishedBecomesClaimable` | src/eventbus.rs:451-459 | Every unpublished row is claimable once its lease or backoff has run out, within five minutes of its last change |
| `Outbox.NotTakenEarly` | src/eventbus.rs:451-459 | In any run a row that waits, a failed one for its backoff, is not taken before its time, and a published one never |
| `Outbox.LeaseExcludes` | src/eventbus.rs:451-468 | No relay takes a row before its lease runs out, unless its holder has marked it |
| `Outbox.MarkedMeans` | src/eventbus.rs:495-503 | A mark ends the lease and counts one attempt; a failed one waits 1, 2, 4, 8, 16, 32 and from then on 60 seconds |
| `Outbox.OldEnoughIsTaken` | src/eventbus.rs:451-459 | An eligible row among the 25 oldest is taken by the next claim that finds it unlocked |
| `Cooldown.SideEffectCooldown.AllowAt` | src/content_policy/cooldown.rs:135-173 | Delivery actions always pass; another is refused exactly while its key is recorded and unexpired, otherwise recorded, at the cost of one earliest entry if the registry is full; the bound is never exceeded |
| `Cooldown.SideEffectCooldown.PruneExpired` | src/content_policy/cooldown.rs:197-211 | Exactly the expired entries go, and their number is returned |
| `Cooldown.SideEffectCooldown.EvictEarliest` | src/content_policy/cooldown.rs:213-223 | One entry that expires first goes |
| `Cooldown.EarlyRepeatNeedsManyOthers` | src/content_policy/cooldown.rs:135-173 | With strictly increasing times, a key allowed again before its duration has passed had at least max_entries distinct other keys recorded in between |
| `Cooldown.AllowedAfterDuration` | src/content_policy/cooldown.rs:135-173 | Once the duration has passed the key is always allowed again |
| `CanonicalOrder.CanonicalOrderMapped` | src/content_policy/normalization.rs:638-647 | The in-place pass reaches, by exchanges of reorderable pairs only, a text with none left |
| `CanonicalOrder.CanonicalOrderUnique` | src/content_policy/normalization.rs:638-647 | There is only one such text: the canonical ordering of section 3.11 of The Unicode Standard |
| `CanonicalOrder.OrderedMeans` | src/content_policy/normalization.rs:638-647 | A text has no reorderable pair exactly when between starters the marks' combining classes never fall |
| `CanonicalOrder.ErasingCommutesWithOrdering` | src/content_policy/normalization.rs:638-647 | Spans ride along: the scalars' order does not depend on them, and none is lost or invented |
| `CanonicalCompose.CanonicalComposeMapped` | src/content_policy/normalization.rs:649-678 | The single pass with a cursor computes the Canonical Composition Algorithm (D115 and D117), each output with the hull of the spans of exactly the scalars it consumed |
| `CanonicalCompose.CompositionPartitions` | src/content_policy/normalization.rs:649-678 | Every decomposed scalar is consumed by exactly one output scalar, which is the successive composition of what it consumed, in order |
| `CanonicalCompose.MappedNfkc` | src/content_policy/normalization.rs:530-557 | The result is the composed canonical ordering of the decomposition, with provenance |
| `CanonicalCompose.ErasingCommutesWithNfkc` | src/content_policy/normalization.rs:530-557 | The composed text depends on the source scalars alone, not on their spans |
| `NormalizedViews.FromMapped` | src/content_policy/normalization.rs:132-160 | Byte spans tile the text, and each run of separators between two kept scalars is one space with the run's hull |
| `NormalizedViews.SpacedText` | src/content_policy/normalization.rs:132-160 | No leading, trailing or doubled space; without spaces the text is exactly the kept scalars |
| `ViewMeaning.SpacedMeans` | src/content_policy/normalization.rs:132-160 | Between two kept scalars in a row stands exactly one space if a separator lies between them, attributed to the smallest span around those separators, and else nothing |
| `ViewMeaning.SpacedEnds` | src/content_policy/normalization.rs:132-160 | Separators before the first kept scalar and after the last leave nothing |
| `NormalizedViews.OriginalSpan` | src/content_policy/normalization.rs:687-711 | The early-exit loop gives the hull over all intersecting entries, and none for an invalid range |
| `ViewMeaning.OriginalMeans` | src/content_policy/normalization.rs:687-711 | A range stands for the smallest source span around the entries it shares a byte with, and for none if there are none |
| `NormalizedViews.SpanIsWithinOriginal` | src/content_policy/normalization.rs:713-732 | True exactly when some entry intersects and all that do lie inside |
| `NormalizedViews.MatcherPositionsAreBytes` | src/content_policy/normalization.rs:176-186 | The matcher's scalar positions mean the same source spans and exclusions as byte ranges |
| `NormalizedViews.SourceSpanMonotone` | src/content_policy/normalization.rs:687-711 | A larger range maps to a larger source span |
| `NormalizedViews.HullContains` | src/content_policy/normalization.rs:680-685 | A hull contains every span it covers, and begins and ends where two of them do |
| `NormalizedViews.NewNormalizedText` | src/content_policy/normalization.rs:71-76 | The canonical view of any text is tiled, single-spaced, and every scalar of it attributed to a non-empty stretch of that text on character boundaries |
| `SecurityView.NeighboringCharacter` | src/content_policy/normalization.rs:372-388 | The nearest scalar in a direction that is not skipped |
| `SecurityView.ApplyFilter` | src/content_policy/normalization.rs:328-367 | A scalar goes exactly when it is droppable and its nearest unskipped neighbours on both sides qualify |
| `SecurityView.SeparatorRunAllOrNothing` | src/content_policy/normalization.rs:347-367 | A separator run goes as a whole, exactly when letters or marks stand on both sides |
| `SecurityView.FilterIdempotent` | src/content_policy/normalization.rs:328-367 | The ignorable pass and the separator pass each settle in one application |
| `SecurityView.FilterKeepsOrder` | src/content_policy/normalization.rs:328-367 | What stays is a subsequence of the text, spans included, whatever the order of the spans |
| `ViewMeaning.FilteredMeans` | src/content_policy/normalization.rs:328-388 | A pass leaves, in order, exactly the scalars that do not go: those it may drop whose nearest scalars on both sides, past those it skips, ask for it |
| `SecurityView.MapMixedScriptTokens` | src/content_policy/normalization.rs:390-420 | Confusable letters are replaced exactly in tokens that also have a Latin letter |
| `MarkupMeaning.MappingMeans` | src/content_policy/normalization.rs:390-458 | In a mixed token every Greek or Cyrillic letter that looks like a Latin one becomes it; nothing else changes, and no span does |
| `SecurityView.MixedMappingIdempotent` | src/content_policy/normalization.rs:390-420 | Mapping a mapped text changes nothing |
| `MaskedLinks.MaskedLinkAt` | src/content_policy/normalization.rs:581-626 | Finds the masked link that starts at a position if there is one: first unescaped bracket, balanced parentheses, no line break, http destination |
| `MaskedLinks.LinkUnique` | src/content_policy/normalization.rs:581-626 | A position starts at most one masked link |
| `MaskedLinks.VisibleSource` | src/content_policy/normalization.rs:562-579 | Labels stand for masked links and everything else is kept |
| `MaskedLinks.VisibleKeepsOrder` | src/content_policy/normalization.rs:559-579 | The visible scalars keep their spans and their order |
| `MarkupMeaning.VisibleMeans` | src/content_policy/normalization.rs:562-579 | Visible are exactly the scalars of the masked links' labels and those of no masked link, the links being taken from the left, apart from each other |
| `MarkupMeaning.EscapedMeans` | src/content_policy/normalization.rs:628-636 | A scalar is escaped exactly when an odd number of backslashes stands before it |
| `MarkupMeaning.DestinationMeans` | src/content_policy/normalization.rs:613-626 | A destination counts exactly when http:// or https://, in any case, leads it after any angle brackets |
| `MarkupMeaning.NotIgnoredMeans` | src/content_policy/normalization.rs:313-328 | Exactly the scalars that are not ignored go on to the passes, in order |
| `MaskedLinks.SecurityMapped` | src/content_policy/normalization.rs:313-370 | The security view is the three passes over the folded NFKC of the visible text, every scalar attributed to a non-empty stretch of the input on character boundaries |
| `PatternSyntax.MatchedTextIsParsedText` | src/content_policy/validation.rs:64-130 | For every accepted pattern the whole authored text, wildcards, quotes and padding included, normalizes to the parsed literal's normal form, given that those scalars are inert |
| `PatternSyntax.PaddingVanishes` | src/content_policy/normalization.rs:132-160 | Inert separators around a text leave its normal form unchanged |
| `PatternSyntax.NormalFormUnique` | src/content_policy/normalization.rs:252-254 | Normalizing a pattern is a function of its scalars: their spans do not matter |
| `Validation.AcceptedIsValid` | src/content_policy/validation.rs:269-585 | A policy that validation accepts, with normal forms that can be stored, is valid as the fingerprint and the compiler need it: distinct ids and names, non-empty lists, distinct pattern keys and action types, durations only where needed |
| `Validation.ClassifiedIsValid` | src/content_policy/validation.rs:144-162 | A policy accepted with its classification unchecked is accepted and valid once classified |
| `Validation.DefaultLimitsSmall` | src/content_policy/model.rs:231-245 | The default limits are far below the bound that the length prefixes need |
| `PatternSyntax.LoneStarPanics` | src/content_policy/validation.rs:105-109 | Parsing breaks down exactly on a lone star, whose slice bounds are reversed |
| `PatternMeaning.ParsingMeans` | src/content_policy/validation.rs:64-130 | Between the white space at its ends a pattern is read as a quoted phrase of two words or more, or as a body without stars, white space or special syntax whose leading and trailing star give its type, normalized; and which error any other text gets |
| `UrlScanner.ScanFindsDomain` | src/content_policy/analysis.rs:380-422 | A scan finds an end exactly when a domain of at least two labels, the last one of at least two letters, starts there and nothing extends it at that end |
| `UrlScanner.ParseDomainAt` | src/content_policy/analysis.rs:380-422 | The label loop computes that scan without reading out of range |
| `UrlScanner.CandidateIsOk` | src/content_policy/analysis.rs:295-378 | A candidate is non-empty and on character boundaries, and its domain of the grammar and its matchable text lie inside it |
| `LinkMeaning.SchemeLinkMeans` | src/content_policy/analysis.rs:295-335 | A link with a scheme: the token without closing punctuation, if all of its authority but a port is a domain |
| `LinkMeaning.BareLinkMeans` | src/content_policy/analysis.rs:337-358 | One without: the token without closing punctuation around a leading domain that only a path, query, fragment or closing punctuation follows |
| `LinkMeaning.LinkMeans` | src/content_policy/analysis.rs:276-283 | A byte starts the link with a scheme that stands there, or, if none does, the one without |
| `LinkMeaning.DomainSpanMeans` | src/content_policy/analysis.rs:360-378 | A leading www. in any case is attributed but not matched exactly when a dot follows it in the domain |
| `LinkMeaning.MayStartMeans` | src/content_policy/analysis.rs:471-475 | A link may start exactly where no letter, digit, underscore, hyphen, at sign or dot ends |
| `UrlScanner.ExtractUrls` | src/content_policy/analysis.rs:265-293 | The links are ordered and disjoint, each is what starts where it starts, and every possible link start lies inside one of them |
| `UrlScanner.ExtractedLinksStrip` | src/content_policy/analysis.rs:265-293 | Extracted links are valid spans, so stripping them fails only on an invalid censor span |
| `PolicyIr.EvaluateCondition` | src/policy/ir.rs:288-364 | Evaluation is total, gives the boolean reading of the tree, and appends its post-order trace |
| `PolicyIr.EvaluateProgram` | src/policy/ir.rs:196-230 | Each rule yields its effects exactly when its condition holds |
| `PolicyIr.TraceLength` | src/policy/ir.rs:288-364 | The trace has one entry per nested condition |
| `PolicyIr.TracePathsDistinct` | src/policy/ir.rs:288-364 | No two entries share a path |
| `PolicyIr.ValidateCondition` | src/policy/ir.rs:243-286 | Validation reports nothing exactly when every feature read is declared |
| `PolicyIr.OnlyDeclaredFeaturesMatter` | src/policy/ir.rs:243-379 | A validated condition's result and trace depend only on declared features |
| `ConditionMeaning.PathMeans` | src/policy/ir.rs:381-396 | A path leads where its longest pieces without dots and slashes lead one after the other |
| `ConditionMeaning.IndexMeans` | src/policy/ir.rs:390-393 | Exactly decimal digits, with or without a plus sign, are an index |
| `ConditionMeaning.ContainsMeans` | src/policy/ir.rs:346-357 | A text contains the texts that stand in it, an array its items, nothing else anything |
| `EffectMerge.MergeEffects` | src/policy/merge.rs:13-74 | Accepted are the first effects with their ids that do not decide or have the winner's id, in order; the others are rejected with their reason and what superseded them; the reason codes are those of the accepted |
| `EffectMerge.WinnerMeans` | src/policy/merge.rs:14-34 | The winner is the last of the decision effects that none beats by decision, then by lower precedence, then by lower priority |
| `EffectMerge.AcceptedOrRejected` | src/policy/merge.rs:44-66 | Accepted and rejected effects are together a permutation of the input |
| `EffectMerge.AcceptedDistinct` | src/policy/merge.rs:44-66 | Accepted ids are distinct |
| `EffectMerge.GreatestIff` | src/policy/merge.rs:36-40 | The reported decision is the greatest one if and only if the first effect with the winning effect's id decides as the winner does, an absent decision counting as ALLOW |
| `EffectMerge.DistinctIdsGreatest` | src/policy/merge.rs:36-40 | Distinct ids are enough for that; when nothing decides the report is ALLOW |
| `EffectMerge.RepeatedIdHidesDecision` | src/policy/merge.rs:36-40 | With a repeated id an earlier, weaker effect can hide the greatest decision: a concrete input |

## Left out

- gRPC handlers, authorization, configuration, TLS, telemetry, health, the CLI
  simulator and benches: enum mapping and plumbing.
- SQL, Kafka and protobuf: rows are records, a transaction or statement is one
  atomic step under one clock, and a send is a recorded success or failure.
- Aho-Corasick internals: replaced by all overlapping occurrences.
- `is_security_pattern_eligible` and its script data: an abstract predicate of
  the matcher's tables, written out for ASCII only.
- `NormalizedText::from_original_spans` (the URL_DOMAIN surface), and the email
  and dotted-initial scanners, which only widen the excluded ranges.
- The loops of `collect_validation`: `Validation.Accepted` states when they find
  no error; error-message order has no hard invariant.
- `evaluate_call` and the grouping helpers of delivery.rs: wrappers over what
  is modelled.
- Torn reads across the server lookups of one evaluation: the store is fixed
  for a call. Interleavings inside `reconcile`: it is one step.
- The Luau worker and sandbox: a foreign runtime.
- Plans.EvaluateHub: cooldown answers are a function of the request, because
  one evaluation asks about each request once.
- Plans.EvaluateCallForDestinations: cooldown answers, likewise; the order of
  two digests is a parameter, because SHA-256 leaves it unspecified.
- Compiler.CompileWithDetails: rule ids and names are taken to be distinct, as
  validation checks; the source keeps the last of several rules with one id.
- PolicyIr.EvaluateCondition: numbers compare over the reals, because rounding
  of large integers to floating point is not the point of a rule.
- Snapshots.PolicySnapshotStore.LoadedScopes: returns a set, because no caller
  depends on the order in which the source sorts the scopes.
- EffectMerge.MergeEffects: reason codes are a set; the source lists it sorted.
