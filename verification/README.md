# Proofs about netbox-operator

A Dafny 4.11 model of the parts of netbox-operator that compute something: the scripts under `hack/`
that turn the NetBox source into a schema and an IR, the naming of inline children and the texts
with byte limits under `api/v1alpha1/`, the flattening of declared children in
`internal/reconciler/`, and the two documentation tools. `dafny verify dfyconfig.toml` checks all of it.

What each file holds, by what it is about:

- **Fixed points and walks over the NetBox classes.** `ScopeDemotion` is the loop that shrinks a set
  of kinds until no required reference leaves it. `BaseGraph`, `BaseWalk`, `ColumnMerge` and
  `SchemaPipeline` are `hack/extract-netbox-schema.py`: which classes are models, the depth-first walk
  with one shared set, the merge that extends lists other entries still inherit from, and the whole
  run. `FilterLookups` holds the per-path searches of `hack/build-netbox-ir.py`, `FilterOverrides`
  when a subclass's filter wins over its base's, `Graphs` what walks and reachability are.
- **Queries.** `RegisteredParams` and `ParamSplit` decide which query parameters exist,
  `Conditions` and `NaturalKeys` turn uniqueness constraints into queries that must not silently
  widen, `KeyQuestions` asks what such a query means.
- **Choice lists.** `ChoiceSplices` is the reversed in-place insertion, on lists that may be shared,
  `ChoiceOrder` which sets one pass over all of them expands fully.
- **Names, paths and limits.** `Utf8`, `Slugs`, `ChildNames`, `InlineTree`, `TranslationPolicy`,
  `DeviceChildren`, `DeviceNames` and `EventNotes`.
- **Numbers and links.** `RangeClaims` is the end address of a range; `PosixPaths`, `DocsLinks`,
  `DocsEscapes` and `DocsIndex` are the site hook and the three checks that must agree with it.

How the model is built:

- A class is keyed by the pair (app, name) where the script spells `app.Name`; neither half holds a
  dot. Bases are bare names, filters, fields and constraints are already parsed, and the file walk,
  regular expressions and stderr output stay outside.
- Where a script iterates over a set or a dict and the order could matter, the method takes the
  elements in an arbitrary order, so what is proved holds for every order.
- A dict or list that is updated in place is a field that the methods reassign. Two names for one
  list (`e['values'] = out[b]['values']`) are modelled by naming the owner of the list.
- SHA-256 is any function from a text to three bytes, the part of the sum that survives, written out
  as six hexadecimal characters. Where distinct digests matter, that is a stated hypothesis about
  the two texts at hand.
- Texts are sequences of bytes or, in `Slugs`, of anything that has a number, so that one
  specification reads bytes and code points alike.

Where the code and its comments or docstrings part:

- `filterset_chain` is said to let a subclass override its base. On a diamond it does not
  (`DiamondLosesOverride`); `OverrideIffNotOvertaken` says exactly when it does.
- Splices are deferred so that a set "may be declared later in the file". A later set that splices
  something in itself is read too early (`LaterSourceIsMissedIff`, `ThreeSetChain`);
  `FullyExpandedIff` says which sets come out whole.
- A namesake from another app counts as seen, the entry's own name included, and its columns are
  lost (`NamesakeHidesTheColumn`, `ColumnsCanBeLostIff`).
- `_rewrite` is said to rewrite what escapes `docs/` and to refuse what leaves the repository. It
  judges by the climb: the bare climbs `..` and `../..` do neither (`BareClimbsSlipThrough`), and a
  link that climbs out and comes back by name is taken to have left (`ComingBackIsNotSeen`).
  `RewriteOutcomes` lists every case, `LeftAloneIffInDocs` and `RefusedIffOutside` say which differ.
- The digest of a cut name is presented as what keeps long siblings apart. It does not keep one apart
  from a short sibling named after it (`PlainNameMeetsCutName`); `ClashIff` lists every way to clash.
- The owned-by path is said to tell two inline entries apart. An interface may be named like another
  one's address path (`PathsDistinctIffNotForged`).
- The end address is rendered with the start's mask. For a start written as an IPv4-mapped IPv6
  address the width changes and the mask does not (`EndAddressKeepsWidthIff`).
- A key is called unusable so that its query cannot widen, but being usable does not make it ask what
  the constraint says. A filter may answer for more than its column, as the tree filters do
  (`TreeFilterKeyWidens`), `null_pins` reads a negated or an alternative condition as if it were a
  conjunction (`NegatedPinStaysUsable`), the `empty` of a char filter is not about SQL NULL
  (`CharPinAsksAnotherQuestion`), and an expression that is not understood is left out
  (`LostExpressionMatchesEverything`). `UsableKeyAsksTheConstraintIff` says exactly when it does.

## Model

| member | source | states |
|---|---|---|
| ScopeDemotion.BuildEdges | hack/classify-scope.py:50-63 | one edge for each relation to another, non-neutral kind, in field order, required when the column is NOT NULL without default and no M2M |
| ScopeDemotion.EdgesAreColumns | hack/classify-scope.py:50-63 | the edges of a kind, required and optional ones, in terms of column type, nullability, default, name and target |
| ScopeDemotion.FindDrops | hack/classify-scope.py:67-70 | the scan finds exactly the kinds with a required edge out of the set, each with its first such edge, in any visiting order |
| ScopeDemotion.Demote | hack/classify-scope.py:65-76 | the loop ends with the greatest subset of the seed closed under required references; a kind is reported in round r exactly when its shortest chain of required references out of the seed has length r, with the first edge leaving that round's set; the rounds are minimal |
| ScopeDemotion.DemotedIffColumnLeaves | hack/classify-scope.py:50-76 | a kind goes in a round exactly when one of its foreign keys or one-to-one columns that is NOT NULL without default points to a kind no longer in the set; nullable, defaulted and many-to-many columns never demote |
| ScopeDemotion.StableOnColumns | hack/classify-scope.py:50-76 | what is closed under required references is what no such column points out of |
| ScopeDemotion.SurvivesUnlessEscape | hack/classify-scope.py:65-76 | a kind survives r rounds exactly when no required chain of length at most r leads out of the seed |
| ScopeDemotion.ClosedSurvives | hack/classify-scope.py:65-76 | every closed subset of the seed survives every round |
| BaseGraph.LookupAll | hack/extract-netbox-schema.py:212-223 | a base means the own app's class of that name, else the only class of that name |
| BaseGraph.BuildByName | hack/extract-netbox-schema.py:241-251 | the fallback table holds each name once seen, and its class unless more than one app declares it |
| BaseGraph.LookupIsResolve | hack/extract-netbox-schema.py:278 | the lookup after the deletion answers as the lookup before it, over what is left |
| BaseGraph.AmbiguousMeans | hack/extract-netbox-schema.py:279-282 | a base is warned about exactly when several apps declare it and its own does not |
| BaseGraph.FindModels | hack/extract-netbox-schema.py:225-231 | the growing fixed point is exactly the classes with a base chain to a class declaring a column |
| BaseGraph.ResolutionExtends | hack/extract-netbox-schema.py:232-251 | deleting non-models never redirects a base that resolved to a survivor |
| BaseGraph.ChainSurvives | hack/extract-netbox-schema.py:225-233 | a chain to a declaring class consists of survivors and is still a chain after the deletion |
| BaseWalk.Walk | hack/extract-netbox-schema.py:272-286 | the recursion over one shared, mutated set terminates on any base graph and yields what the walk specification says; every ambiguous base of the class is recorded, and only ambiguous ones |
| BaseWalk.VisitNames | hack/extract-netbox-schema.py:272-286 | no name is yielded twice, none that was seen, and the set grows by exactly the names yielded |
| BaseWalk.AncestorsNamedOnce | hack/extract-netbox-schema.py:283-296 | the ancestors of an entry have distinct names, none its own, and are all reachable |
| BaseWalk.AncestorsExact | hack/extract-netbox-schema.py:272-286 | the ancestors are exactly what the entry reaches, itself aside, if and only if no two classes it reaches share a bare name |
| BaseWalk.AncestorsAreFirstMeetings | hack/extract-netbox-schema.py:235-286 | for distinct names the ancestors are, in order, the first meetings of the full left-to-right depth-first listing |
| ColumnMerge.InheritFrom | hack/extract-netbox-schema.py:297-306 | the inner loop over one ancestor's columns updates `have`, the gained and the shadowed columns as specified |
| ColumnMerge.MergeEntry | hack/extract-netbox-schema.py:294-308 | one entry is extended in place to its final list and note, no other entry changes |
| ColumnMerge.MergeAll | hack/extract-netbox-schema.py:288-308 | whatever order entries are processed in, every entry ends with a list that is a function of the declarations alone, and exactly the ambiguous bases are recorded |
| ColumnMerge.MergedAreFirstOffers | hack/extract-netbox-schema.py:294-306 | gained columns are the first offers of names not held, in the order offered; shadowed ones are the offers losing to the entry or to a different class |
| ColumnMerge.FinalColumnsMean | hack/extract-netbox-schema.py:235-240 | own columns stay first and unchanged; each further name comes once, and as the copy of the first class of the walk that declares it |
| ColumnMerge.NoColumnsIff | hack/extract-netbox-schema.py:291-308 | whatever the classes declare, an entry ends without a column if and only if neither it nor any class of its walk declares one |
| ColumnMerge.ColumnsCanBeLostIff | hack/extract-netbox-schema.py:225-308 | some declarations under which every class survives the deletion leave an entry without a column, if and only if it and every class of its walk reach a class the walk leaves out |
| ColumnMerge.DistinctNamesLoseNothing | hack/extract-netbox-schema.py:225-308 | a survivor that reaches no two classes of one bare name ends with a column |
| ColumnMerge.NamesakeHidesTheColumn | hack/extract-netbox-schema.py:225-308 | `a.V(P)`, `b.P(V)`, `b.V`: all are models, b.V alone declares a column, and a.V ends with none |
| SchemaPipeline.QualifyFields | hack/extract-netbox-schema.py:263-268 | a bare relation target is qualified as a base of that name would be, or flagged |
| SchemaPipeline.ResolveSelf | hack/extract-netbox-schema.py:314-319 | in every entry `self` becomes the key of that entry, inherited columns included, and nothing else about a column changes |
| SchemaPipeline.Extract | hack/extract-netbox-schema.py:202-319 | the whole run keeps exactly the models; every column of an entry is one that the entry or a class of its walk declares, tagged with that class, its bare target read from where it is declared and `self` from where it stands; an entry ends empty exactly when nothing of its walk declares any, which distinct names rule out |
| SchemaPipeline.SchemaIsDeclared | hack/extract-netbox-schema.py:252-319 | each final column has the name and attributes of a declared one, its target qualified for the declaring app, unresolved, kept, or the entry itself for `self` |
| Graphs.PreorderExact | hack/build-netbox-ir.py:96-105 | the per-path search lists exactly the reachable classes, on cyclic graphs too |
| FilterLookups.LookupMapFor | hack/build-netbox-ir.py:107-115 | the map of the first arm that names any class reachable from the filter class, none when no arm does |
| FilterLookups.ChainExact | hack/build-netbox-ir.py:136-145 | the chain lists exactly the filtersets of the table that are reachable |
| FilterOverrides.OverrideIffNotOvertaken | hack/build-netbox-ir.py:136-161 | for any table: every declaration of a subclass wins over its bases' if and only if no class comes back to itself through another and, following the last base that leads to the subclass, no still later base leads to a class above it |
| FilterOverrides.EveryOverrideIffBasesInOrder | hack/build-netbox-ir.py:136-161 | subclasses win in a filterset and in all it is made from, if and only if there is no such cycle and each of them lists its bases so that none brings back a class above one that an earlier base was the last to bring |
| FilterOverrides.OneWayUpOverrides | hack/build-netbox-ir.py:136-161 | where no class is reached along two ways, loops of a class to itself aside, every subclass overrides its bases |
| FilterOverrides.OverrideIffBasesFirst | hack/build-netbox-ir.py:136-145 | the same, read off the chain that is merged |
| FilterOverrides.DiamondLosesOverride | hack/build-netbox-ir.py:136-161 | on A(B, C), B(D), C(D) the declaration of D wins over the one of B |
| RegisteredParams.MergeDeclared | hack/build-netbox-ir.py:157-161 | the declaration in force is that of the last filterset of the chain that declares the parameter |
| RegisteredParams.Pipeline.Sources | hack/build-netbox-ir.py:157-194 | a parameter comes from the chain or else from the filterset's own Meta.fields; an unparsed Meta.fields is noted, a parsed one adds exactly the notes on its names |
| RegisteredParams.Pipeline.AddMetaFields | hack/build-netbox-ir.py:178-194 | declared filters win, each further name is recorded with the filter class of its column, and the notes are exactly those of the undeclared names, once each, in order |
| RegisteredParams.Pipeline.FilterClassFor | hack/build-netbox-ir.py:125-194 | the filter class of the column a name means, with a note when there is no such column or no class known for it |
| RegisteredParams.MetaNotesMean | hack/build-netbox-ir.py:178-194 | a note is made exactly for the undeclared names that mean no column or a column of unknown filter class |
| RegisteredParams.NotesAre | hack/build-netbox-ir.py:125-190 | what a name is noted for: no such column, or a column type without a filter class |
| RegisteredParams.MakeFilter | hack/build-netbox-ir.py:196-220 | the entry keeps the filter's class, column, method and lookup; the suffixes are none for a method, a non-standard lookup or an undispatched class, unknown for an unknown class, else the selected map, whose name is recorded |
| RegisteredParams.Pipeline.RegisteredFilters | hack/build-netbox-ir.py:147-222 | the registry holds exactly the parameters with a source, each with its class, column, method, lookup and suffixes |
| RegisteredParams.DeclaredParamIs | hack/build-netbox-ir.py:157-220 | a parameter has the class, method, field name and lookup of the last filterset of the chain that declares it, its own name and "exact" by default; with a method or a non-standard lookup none of its suffixes is accepted, else exactly those of the first arm its class reaches |
| RegisteredParams.MetaParamIs | hack/build-netbox-ir.py:178-220 | a parameter of Meta.fields alone reads the column of its name exactly, without a method, and takes the suffixes of its column's filter class |
| RegisteredParams.ColumnTypeMeans | hack/build-netbox-ir.py:181-185 | a name means its own column, the implicit `id`, or the relation in front of `_id` |
| RegisteredParams.FirstKnownMeans | hack/build-netbox-ir.py:125-134 | the filter class of a column is that of the nearest class either table knows, NetBox's own first |
| RegisteredParams.ColumnsMean | hack/build-netbox-ir.py:155 | of columns with one name the last one counts |
| RegisteredParams.ParamHasSource | hack/build-netbox-ir.py:157-194 | a parameter is registered exactly when a reachable filterset declares it or the own Meta.fields names it |
| RegisteredParams.AcceptedIffRegistered | hack/build-netbox-ir.py:147-237 | end to end, a query parameter is accepted exactly when it is a parameter of the filterset, or one with a suffix its filter class selects, with that suffix's ORM lookup |
| ParamSplit.SplitRoundTrip | hack/build-netbox-ir.py:233 | splitting `head__suffix` at the last double underscore gives both back if and only if the suffix holds none and does not begin with an underscore |
| ParamSplit.RegisteredIsMaterialised | hack/build-netbox-ir.py:224-237 | composing on demand accepts exactly the fully materialised set, with the same ORM lookup |
| ParamSplit.RefusedIsNowhere | hack/build-netbox-ir.py:224-237 | a parameter is refused exactly when it is in no part of the materialised set |
| ParamSplit.ComposesAsMaterialisedIff | hack/build-netbox-ir.py:224-237 | for any table: composing accepts the materialised set, lookups included, if and only if each of its pairs splits back to a pair with the same lookup or loses to a parameter of that name, and an unnamed parameter adds nothing |
| ParamSplit.UncleanSuffixIsMissed | hack/build-netbox-ir.py:233-237 | a suffix that begins with an underscore is in the table and is refused |
| NaturalKeys.KeyColumns | hack/build-netbox-ir.py:274-296 | the columns of a constraint, case-folding ones with `ie`, and nothing noted exactly when every part was understood |
| NaturalKeys.ColumnsCoverIffUnderstood | hack/build-netbox-ir.py:274-296 | the columns of a constraint stand for all its parts if and only if each was understood |
| Conditions.NullPins | hack/build-netbox-ir.py:258-272 | the pins are the `__isnull=True` keywords in the order the walk meets them, everything else is returned apart |
| Conditions.WalkMeetsEveryKeyword | hack/build-netbox-ir.py:262-271 | the walk meets every keyword of the condition as often as it is written |
| Conditions.LevelByLevel | hack/build-netbox-ir.py:262-271 | breadth first: what is in the queue is met before any child of it |
| Conditions.WalkOrder | hack/build-netbox-ir.py:262-271 | neighbouring calls are met left to right, a nested one after its shallower neighbour |
| Conditions.PinIffSaysNull | hack/build-netbox-ir.py:258-272 | a keyword is a pin if and only if it says, of every row, that one column is NULL; `isnull=False` and any other keyword are none |
| NaturalKeys.ResolvedParamIsRegistered | hack/build-netbox-ir.py:298-317 | a resolved parameter is registered and spells its column, none means neither spelling is registered, and a relation prefers `_id` |
| NaturalKeys.StripUnderscoresMeans | hack/build-netbox-ir.py:306 | all leading underscores of a column go, and nothing else |
| NaturalKeys.SpelledWithIdMeans | hack/build-netbox-ir.py:308-311 | foreign keys, one-to-one, tree and many-to-many columns are the ones spelled with `_id` first |
| NaturalKeys.NaturalKey | hack/build-netbox-ir.py:348-392 | one entry a column and one a pin, in order, with every reason against using the key, in order |
| NaturalKeys.UsableIff | hack/build-netbox-ir.py:348-392 | a key is usable exactly when every column and pin resolved and each keyword of the condition says that some column is NULL |
| NaturalKeys.NotTrueStopsTheKey | hack/build-netbox-ir.py:262-271 | one keyword not given True leaves no usable key |
| NaturalKeys.NullFieldsMean | hack/build-netbox-ir.py:358-382 | the null fields are those of the pins the condition writes, wherever it writes them |
| NaturalKeys.NaturalKeysOf | hack/build-netbox-ir.py:319-393 | one key a constraint in order, constraints before unique_together, a note for each unreadable source |
| NaturalKeys.CallsMean | hack/build-netbox-ir.py:319-346 | the constraints in order come first, then a plain one for each group of columns |
| NaturalKeys.UsableKeyNeverWidens | hack/build-netbox-ir.py:55-61 | a usable key sends one registered parameter a column and a pin, so a server that ignores unregistered ones answers the whole question |
| NaturalKeys.WidensIffUnregistered | hack/build-netbox-ir.py:55-61 | the two answers agree on all rows if and only if every parameter sent is registered |
| NaturalKeys.UsableKeyCoversIffUnderstood | hack/build-netbox-ir.py:286-295 | a usable key sends a term for every part of its constraint if and only if each part was understood, else fewer |
| NaturalKeys.LostExpressionMatchesEverything | hack/build-netbox-ir.py:286-288 | the key of one expression that was not understood is usable, sends nothing and matches every row |
| KeyQuestions.UsableKeyAsksTheConstraintIff | hack/build-netbox-ir.py:147-393 | of every row a usable key asks what its constraint says, `Lower` and `Upper` folding case, if and only if each part was understood, each field's filter is an exact or folding one on its own column with no method, each null field's asks whether its own column is NULL, and the condition takes only the rows where all pinned columns are null |
| KeyQuestions.UsableNullFieldsAreTheCondition | hack/build-netbox-ir.py:358-388 | for Q calls joined by & the pins sent hold of exactly the rows the condition holds of, if and only if each null field's filter asks whether its own column is NULL |
| KeyQuestions.FlagIsHalfOfIt | hack/build-netbox-ir.py:377-384 | `means_sql_null` looks at the suffix alone: besides it the filter behind must have no method and read the pin's column, and a hand-declared parameter never carries it |
| KeyQuestions.KeyOnAAsksIff | hack/build-netbox-ir.py:298-393 | whatever filter stands behind `a`, the key on it is usable, and asks its constraint if and only if that is an exact filter on the column without a method whose `empty` is SQL NULL |
| KeyQuestions.FoldedKeyAsks | hack/build-netbox-ir.py:242-357 | `Lower(a)` over a filter with `ie` sends `a__ie` and asks its constraint |
| KeyQuestions.TreeFilterKeyWidens | hack/build-netbox-ir.py:298-357 | the (location, name) of a rack is understood, has no pin and a usable key, which a rack in a location below answers too |
| KeyQuestions.CharPinAsksAnotherQuestion | hack/build-netbox-ir.py:377-384 | the `empty` of a char filter gives a usable key that misses the rows whose column is null |
| NaturalKeys.OperatorsDoNotShow | hack/build-netbox-ir.py:258-272 | ~Q gives the key of Q and Q\|P the key of Q&P; Q and ~Q never both mean their pins |
| KeyQuestions.NegatedPinStaysUsable | hack/build-netbox-ir.py:258-272 | the key of a negated pin is usable and finds rows its constraint is not about |
| Conditions.MeansItsPinsIff | hack/build-netbox-ir.py:258-272 | for every condition of pins, ~ and \| included: the pins are what it says if and only if, of the rows that differ in the pinned columns alone, it takes the one where all are null and no other |
| Conditions.NegationFreeMeansItsPinsIff | hack/build-netbox-ir.py:258-272 | without ~ it is enough that the condition fails whenever a single pinned column is set |
| Conditions.ConjunctionMeansItsPins | hack/build-netbox-ir.py:258-272 | Q calls joined by & alone always mean their pins |
| Conditions.NegationAndAlternativesAreMisread | hack/build-netbox-ir.py:258-272 | ~Q and Q\|Q give the pins of the plain forms although they mean something else |
| ChoiceSplices.Collect | hack/extract-netbox-api-schema.py:224-247 | members in order, groups flattened, and for each starred source the number of members before it |
| ChoiceSplices.MembersAreWhatIsWritten | hack/extract-netbox-api-schema.py:224-247 | a display lists its members and the members of its groups in the order written, nothing for a starred or unparsed element |
| ChoiceSplices.ChoicePass.SpliceInto | hack/extract-netbox-api-schema.py:268-273 | the reversed loop inserts what each source holds at that moment into the shared list |
| ChoiceSplices.ChoicePass.TakeTurn | hack/extract-netbox-api-schema.py:255-273 | one set inherits its first non-empty base's list by reference, then splices |
| ChoiceSplices.ReversedInsertionExpands | hack/extract-netbox-api-schema.py:268-272 | inserting the recorded splices in reverse equals the left-to-right expansion, adjacent and empty ones included |
| ChoiceSplices.ExpansionIsWhatIsWritten | hack/extract-netbox-api-schema.py:268-273 | expanded it lists the same, with what each starred source holds in its place |
| ChoiceSplices.TurnExpands | hack/extract-netbox-api-schema.py:268-273 | in place, a set that does not read its own list ends its turn fully expanded |
| ChoiceOrder.PassAgrees | hack/extract-netbox-api-schema.py:255-274 | at every point of the pass, which sets hold anything and whose list each holds follows from the declarations and their order |
| ChoiceOrder.UnchangedIffSettled | hack/extract-netbox-api-schema.py:255-274 | what a source holds changes after a turn if and only if the owner of its list has a turn to come that reads a set which holds something by then |
| ChoiceOrder.FullyExpandedIff | hack/extract-netbox-api-schema.py:255-274 | for every listed set, self-splicing ones included: the pass leaves the full expansion over the final lists if and only if no source has such a turn to come, decided on the declarations and their order |
| ChoiceOrder.SettledSourcesExpandFully | hack/extract-netbox-api-schema.py:255-274 | sources whose owner had its turn or reads nothing are enough, inheriting and unresolved ones included |
| ChoiceOrder.LaterSourceIsMissedIff | hack/extract-netbox-api-schema.py:226-231 | what a set whose turn is still to come holds changes afterwards if and only if that turn reads a set which holds something by then |
| ChoiceOrder.ThreeSetChain | hack/extract-netbox-api-schema.py:226-273 | A splices B, B splices C, in that order: A misses the member of C |
| Utf8.EncodeReadsBack | api/v1alpha1/events.go:177-194 | the encoding of section 3 of RFC 3629 is read back |
| Utf8.EncodeShape | api/v1alpha1/events.go:188-191 | an encoded code point has one start byte, and is ASCII whole or not at all |
| Utf8.RunesOfEncoding | api/v1alpha1/inline_children.go:183-189 | Go's reading of bytes as runes gives back every encoded text |
| Utf8.LongRuneIsAnEncoding | api/v1alpha1/inline_children.go:183-189 | a rune read from more than one byte is encoded by just these bytes; any other byte from 0x80 on is read as U+FFFD |
| Slugs.Slugify | api/v1alpha1/inline_children.go:190-214 | the one-pass loop with its trim is: lowercase, split at every other character, drop empties, join with dashes |
| Slugs.SlugOfBytesIsSlugOfRunes | api/v1alpha1/inline_children.go:183-189 | the byte-wise pass equals the rune-wise one on every byte sequence, ill-formed UTF-8 included |
| Slugs.SlugOfBytesIsSlugOfCodePoints | api/v1alpha1/inline_children.go:183-189 | the byte-wise pass over UTF-8 equals the pass over the code points |
| Slugs.WordsOfJoin | api/v1alpha1/inline_children.go:183-214 | splitting a joined slug gives its words back |
| Slugs.FixedPointIffWellFormed | api/v1alpha1/inline_children.go:183-214 | every slug is well formed, and a text is its own slug if and only if it is |
| Slugs.SlugIdempotent | api/v1alpha1/inline_children.go:190-214 | slugging twice is slugging once |
| Slugs.SlugKeepsLettersAndDigits | api/v1alpha1/inline_children.go:190-214 | a slug keeps every ASCII letter and digit of its text, in order and in lower case, and adds none |
| Slugs.CaseIsLost | api/v1alpha1/inline_children.go:190-214 | texts that differ in the case of ASCII letters alone have one slug |
| Slugs.SlugOfJoined | api/v1alpha1/inline_children.go:147 | slugging two dash-joined texts is dash-joining their non-empty slugs |
| Slugs.EmptySlugIff | api/v1alpha1/inline_children.go:190-214 | a slug is empty exactly when the text holds no ASCII letter or digit |
| ChildNames.ChildName | api/v1alpha1/inline_children.go:135-159 | the method computes the specified name on both branches |
| ChildNames.ChildNameLegalIff | api/v1alpha1/inline_children.go:104-159 | the name is a legal label, at most 253 bytes and a fixed point of slugging, if and only if some part has a letter or digit; else it is empty |
| ChildNames.CutNameShape | api/v1alpha1/inline_children.go:104-158 | a cut name is the first 246 characters less a final dash, a dash, and six characters that read back to the sum of the uncut slug |
| ChildNames.HexReadsBack | api/v1alpha1/inline_children.go:155-158 | the digest characters of a text read back to the first three bytes of the sum of all of it |
| ChildNames.SameHexIff | api/v1alpha1/inline_children.go:155-158 | two texts have one digest if and only if their sums begin alike |
| ChildNames.NamesAgreeIff | api/v1alpha1/inline_children.go:147-158 | two slugs come to one name if and only if they are the same, or one fits and is what the other is cut to, or both are cut to one front and one digest |
| ChildNames.PlainChildNameIsSluggedParts | api/v1alpha1/inline_children.go:135-150 | a name that fits is the dash-join of its parts' own slugs |
| ChildNames.ChildPath | api/v1alpha1/inline_children.go:171-181 | the builder writes the specified path |
| ChildNames.ChildPathReadsBack | api/v1alpha1/inline_children.go:161-181 | a path reads back to its (field, key) list when no field holds `[` and no key `]` |
| InlineTree.Materialisation.Desire | internal/reconciler/children.go:269-286 | the recursion appends every declared child with the path and name of its segments, parents before children |
| InlineTree.Materialisation.Collision | internal/reconciler/children.go:323-340 | reports nothing exactly when no two children share kind and name, else the earliest clash with the first holder |
| TranslationPolicy.InlineChildren | api/v1alpha1/ipam_vlantranslationpolicy_inline.go:92-105 | one set with one entry a rule, keyed by the VID in base 10 |
| TranslationPolicy.DecimalReadsBack | api/v1alpha1/ipam_vlantranslationpolicy_inline.go:113-115 | a decimal key reads back to its VID |
| TranslationPolicy.RuleNamesDiffer | api/v1alpha1/ipam_vlantranslationpolicy_inline.go:92-115 | different VIDs give different names, plain, cut or one of each, if different cut slugs have different digests |
| TranslationPolicy.PlainNamesAgreeIffSameMagnitude | api/v1alpha1/ipam_vlantranslationpolicy_inline.go:107-115 | for any integers, names that fit agree if and only if the VIDs agree in magnitude |
| TranslationPolicy.Materialise | internal/reconciler/children.go:269-340 | a valid policy materialises one child a rule, with that rule's VIDs and description, this policy, and the path and name of its local VID, and reports no collision |
| DeviceChildren.InlineChildren | api/v1alpha1/dcim_device_inline.go:304-316 | the two-level tree, one entry an interface in order |
| DeviceChildren.Addresses | api/v1alpha1/dcim_device_inline.go:360-379 | an address set under the `ip` token, and no set at all for no addresses |
| DeviceChildren.FlatDevice | internal/reconciler/children.go:269-286 | flattened, a device is each interface followed by its addresses, in order, each with its path and the child its entry declares |
| DeviceChildren.PathsDistinctIffNotForged | api/v1alpha1/dcim_device_inline.go:304-379 | the owned-by paths of a device are pairwise distinct if and only if no interface is named like another one's address path; no `]` in the names is enough |
| DeviceNames.ForgedDeviceAdmittedIff | api/v1alpha1/dcim_device_inline.go:93-103 | an interface named like another one's address path passes the limits of the API server if and only if both keys leave room within 64 characters |
| DeviceNames.InterfaceNamesCollideIff | api/v1alpha1/dcim_device_inline.go:416-426 | interface names collide if and only if the keys have one slug, or one name is what the other is cut to, or both are cut to one front and one digest |
| DeviceNames.AddressSlugsAgreeIff | api/v1alpha1/dcim_device_inline.go:354-379 | the slugs of two address children agree if and only if their interfaces' slugs and their addresses' slugs do |
| DeviceNames.TwoAddressesClash | api/v1alpha1/dcim_device_inline.go:245-268 | `2001:db8::1/64` and `2001:db8:1::/64` are admitted on one interface and derive one name |
| DeviceNames.ClashIff | api/v1alpha1/dcim_device_inline.go:304-426 | two children of an admitted device come to one name if and only if two interfaces or two addresses of one interface slug alike, or one child is named what another is cut to, or two are cut to one front and one digest |
| DeviceNames.FittingNamesClashIff | api/v1alpha1/inline_children.go:135-159 | names that all fit clash only for alike slugs; with different digests for different cut slugs the second way is the only other one |
| DeviceNames.PlainNameMeetsCutName | api/v1alpha1/inline_children.go:152-158 | whatever the digest function, two admitted interfaces with unlike slugs, one of them cut, derive one name |
| DeviceNames.ReferencesAreRight | api/v1alpha1/dcim_device_inline.go:318-426 | every address child refers to the wanted interface child it is nested under; lag, parent and bridge are missing exactly for an empty key and otherwise name the wanted child of that key |
| DeviceNames.Materialise | internal/reconciler/children.go:269-340 | an admitted device gives one child a key, all references right, with distinct paths exactly when nothing is forged, and a clash is reported exactly in those three cases, the earliest one |
| EventNotes.MarkerIs | api/v1alpha1/events.go:170-181 | the marker is " [truncated]", the limit 1024 bytes |
| EventNotes.EventNote | api/v1alpha1/events.go:183-194 | never over 1024 bytes, short notes unchanged, long ones cut at the last start byte that leaves room for the marker |
| EventNotes.StepBackToBoundary | api/v1alpha1/events.go:188-191 | in UTF-8 the step back ends after the longest prefix of whole code points and goes back at most three bytes |
| EventNotes.LongNoteKeepsWholeCodePoints | api/v1alpha1/events.go:177-194 | a long note is the longest whole prefix that fits, plus the marker, and still UTF-8 |
| RangeClaims.EndAddressOf | api/v1alpha1/ipam_iprangeclaim.go:231-257 | the byte arithmetic with its bit-length test computes the promised address |
| RangeClaims.EndAddressIs | api/v1alpha1/ipam_iprangeclaim.go:226-257 | numerically start + size - 1 with the start's mask, missing exactly for size < 1 or overflow of the width |
| RangeClaims.EndAddressIsTheOne | api/v1alpha1/ipam_iprangeclaim.go:226-257 | the end is the one address of that width, mask and number |
| RangeClaims.FillThenValue | api/v1alpha1/ipam_iprangeclaim.go:244-251 | filling fixed-width bytes and reading them back is the identity on what fits |
| RangeClaims.BitLenBound | api/v1alpha1/ipam_iprangeclaim.go:247 | a bit length within n means a value below 2 to the n |
| RangeClaims.EndAddressKeepsWidthIff | api/v1alpha1/ipam_iprangeclaim.go:241-256 | the end keeps the start's width if and only if the start is not IPv4-mapped |
| RangeClaims.MappedIsANumber | api/v1alpha1/ipam_iprangeclaim.go:241 | the mapped addresses are the sixteen-byte numbers from 0xffff * 2^32 up to 2^48 |
| RangeClaims.EndKeepsWidthUnlessInBlock | api/v1alpha1/ipam_iprangeclaim.go:241-256 | the width is kept if and only if the start is four bytes or a number outside that block |
| RangeClaims.MappedStartLosesItsWidth | api/v1alpha1/ipam_iprangeclaim.go:241-256 | one address from `::ffff:10.0.0.1/96` ends at `10.0.0.1/96` |
| RangeClaims.AdjacentRangesComposeIff | api/v1alpha1/ipam_iprangeclaim.go:231-257 | end(a + b) is the end of the b addresses right after the first a, overflow included, if and only if those do not begin in the mapped block |
| RangeClaims.CompositionBreaksAtMappedBlock | api/v1alpha1/ipam_iprangeclaim.go:231-257 | two addresses from just below `::ffff:0:0` end there, but one and then one more ends at `0.0.0.0` |
| RangeClaims.Claim.SetAllocated | api/v1alpha1/ipam_iprangeclaim.go:207-224 | all three status fields, and the recorded size is end - start + 1 |
| PosixPaths.RelativeFold | hack/mkdocs_hooks.py:38 | a normalised relative path is so many climbs, then plain names |
| PosixPaths.AbsoluteFold | hack/check-docs-links.py:128-130 | from an absolute directory the same path climbs as far and names the same |
| DocsLinks.RewriteOutcomes | hack/mkdocs_hooks.py:31-45 | every outcome of the hook by how far a link climbs out of docs/ and what it names there |
| DocsEscapes.LeftAloneIffInDocs | hack/mkdocs_hooks.py:31-45 | being left alone agrees with the file lying in docs/ on disk, if and only if the link is no bare climb to the root and does not climb out and come back by name |
| DocsEscapes.RefusedIffOutside | hack/mkdocs_hooks.py:31-45 | being refused agrees with the file lying outside the repository, if and only if the link is no bare climb just above it and does not leave it and come back by name |
| DocsEscapes.LinkLies | hack/check-docs-links.py:127-130 | the file lies in docs/ (in the repository) exactly when the names that follow the climb begin with what it left behind |
| DocsEscapes.ComingBackIsNotSeen | hack/mkdocs_hooks.py:38-45 | `../docs/b` becomes a URL although its file is in docs/, `../../r/x` is refused although its file is in the repository r |
| DocsLinks.RewriteIsIdempotent | hack/mkdocs_hooks.py:31-45 | rewriting a rewritten link changes nothing |
| DocsLinks.SkippedIff | hack/mkdocs_hooks.py:33-37 | left unseen are links with a scheme, fragments, absolute paths, mail addresses and nothing |
| DocsLinks.FragmentRidesAlong | hack/mkdocs_hooks.py:31-45 | a link to `path#frag` becomes what the link to `path` becomes with the fragment after it, unless the fragment holds `://` |
| DocsLinks.SourceTargetIs | hack/check-docs-links.py:127-130 | the file on disk a relative link resolves to |
| DocsLinks.HookAndCheckersAgree | hack/check-docs-links.py:127-222 | a link one level out to a named file becomes a URL from which the site check recovers the very file the source check resolved |
| DocsLinks.BareClimbsSlipThrough | hack/mkdocs_hooks.py:38-45 | `..` stays as it is, `../..` becomes a URL, `../../x` is refused |
| DocsIndex.CheckIndex | hack/check-docs-links.py:160-173 | orphans are exactly the pages not reachable from the index; a reachable page that cannot be read stops the run |

## Left out

- The rest of the reconcile engine (applying, pruning, drift, claim allocation, resolvers): a separate model of a Kubernetes and a NetBox server would be needed.
- Parsing: Python ASTs, `ast.unparse`, regular expressions, JSON, base-class spellings such as `models.Model[...]`, `netip` text, Markdown and HTML scanning. Models start from what these return.
- `norm` and the report text of `hack/classify-scope.py`, the `digest` and `endpoints` scripts, constant prescans, `sql_required`: short look-ups or text output.
- The exit on a class or choice set declared twice: it ends the run before anything modelled here.
- `registered_filters`' list of dynamic parameters (`attr_`, `cf_`), the source and declared-by tags of a filter and the texts that say why it has no suffixes: copied through, nothing decided by them.
- Conditions.NullPins: keywords nested inside a Q call's values or positional arguments are not modelled.
- KeyQuestions.UsableKeyAsksTheConstraintIff: a row is known by the parts on which it agrees with the values looked for, its null and its empty-string columns, and the further parameters and condition keywords it meets; a filter class that answers otherwise than its column and lookup say, without a method, is not modelled, and a column path through a relation counts as one column.
- ParamSplit.RegisteredIsMaterialised: the sufficient condition for whole tables that NetBox's maps meet; the exact one is ComposesAsMaterialisedIff.
- ChoiceSplices.TurnExpands: a set that splices in its own list, under its name or an inheriting one, has no closed form; FullyExpandedIff says when it still equals its expansion.
- Choice values are opaque; labels, colours and evaluation of constant expressions are not modelled.
- TranslationPolicy.RuleNamesDiffer: local VIDs are within 1 to 4094, which the API server enforces on the field.
- The remaining interface and address columns of an inline entry are copied fields and are not carried.
- Generated CRD declarations, printer columns, list types and event-action tables: data without behaviour.
