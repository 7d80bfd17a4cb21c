# Verified core of TestLab

TestLab runs compiled test packages against a system under test and records what happened.
This project models the parts of it in which a mistake would go unnoticed, in Dafny, and
proves what each of them promises:

* **Masking of secrets** (`SecretPattern`, `TextMasking`, `CutMasking`, `Masking`, `ValuePlaces`,
  `CleanMasking`, `SecretTable`, `SecretLeaves`, `SecretRegistry`, `ExplicitHistory`). Secrets are
  inserted into a trie and the trie is compiled into an expression of literals, sequences, ordered
  alternatives and optional parts, run by a backtracking matcher. The compiled expression is proved to
  find the longest secret at every position of every text, as the plain alternation it may be replaced
  by does. The scan, the search for secrets cut short by a truncation and the walk over values are
  proved to leave no secret behind, exactly for which secrets they do, and to change nothing else. The
  registry of secrets is a class; it is proved to file exactly the texts that stand in a value, its
  lazily compiled form to be the one of the plain sets, and what it masks as explicit is told from the
  history of its calls.
* **API documents** (`ApiGraph`, `Pointers`, `RefWalk`, `RefPaths`, `RefPointers`, `RefKeys`,
  `RefOrder`, `RefChains`, `Freezing`, `LiteralCycles`, `DocumentCache`). A document is a finite map
  from node to container, so that sharing and cycles are there. The two explicit-stack loops are
  proved equal to recursive definitions. Which references the walk finds is told from the keys that
  lead to them, and in which order; the pointers it writes are proved to lead back, chains of
  references are judged exactly, freezing ends exactly on documents without a way back, and it is
  proved exactly when the cache gives something else than loading afresh would.
* **Protocols of a run** (`Callbacks`, `CallbackWaits`, `Selections`, `Jobs`). Classes whose methods
  follow a transition function, invariants of every history of those transitions, and what a wait
  ends with.
* **Records of a run** (`Trace`, `Transcript`, `ConsoleHold`). Event ids, the line splitter behind
  the transcript, and the console lines that threads hold back while a window is up.
* **Packages** (`PackageDigest`, `PackageChanges`, `Checkpoints`). Sealing and refusing a package,
  the changes a seal finds, and the plan of checkpoints as a walk over steps with addresses.

`Sequences` holds facts about slices that the proofs take as single steps, `Wrappers` the optional
value.

The regular expression engine, hashing, YAML, percent-decoding and the spellings of a secret are
parameters. What a theorem needs of them is one of its `requires` clauses: for instance that a
manifest that was read loads back as it was dumped, or that hashing tells two contents apart.

Where the code does not do what its documentation or its callers may expect, the project keeps the
code's behaviour and says when it differs: exactly, but where "Left out" names what keeps a secret from
being shown or two packages from being told apart.

* `MasksCleanlyExactly`, `MasksOnceExactly`, `RegistryMasksCleanlyExactly`: secrets are masked out of
  every text, and masking again changes nothing, exactly when none of them starts or ends with `*` or
  has `***` in it. It holds of every set, and after every history of the registry, in which a secret
  that does holds no truncation marker and is the only one in the text that shows it.
  `StarredSecretShows` is such a set, all spellings of its secret included, and the text; in
  `MarkCanSpellASecret` the scan for one secret spells another.
* `MaskedAsExplicitExactly`: over every history of calls, a value is masked as explicit exactly when
  it was remembered as explicit and not pushed out by 4096 others since, or an open run pinned it so.
  `PinCanOutliveExplicit` is the sequence of calls in which a value declared secret, pinned again
  without saying so and followed by 4096 others is no longer masked as explicit, whatever spellings
  the others have but that value.
* `PointerFindsExactly`: the pointer written for keys finds their value in every document exactly
  when decoding and splitting it gives these keys again; `PercentKeyIsLost` is `a%2Fb`, read as `a/b`.
* `AcceptedNeverFreezesExactly`: the walk does not look below literal keys and freezing does, so an
  accepted document can hold a way back. Freezing it never ends exactly then, and every way back
  goes through a literal key. `SampleIsAcceptedButNeverFreezes` is such a document.
* `CachedDiffersExactly`: the document cache is asked for a path and bytes, not for the media type.
  A load differs from one without the cache exactly when the file is there since a call that checked
  it to something else, which then read it as another type (`MediaTypeIsNotAsked`).
* `JsonableAgainExactly`: writing twice is writing once exactly when no model dumps to nothing;
  `ModelOfNothingIsDropped` is a field where one does.
* `IdsEqualExactly`: the parts of an event's id are told apart by slashes only, and one of them may
  have a slash; `SlashReadsAsTwo` gives a scope of one name the id of a scope of two.
* `TakenCallIsLostExactly`: in every history a call told that it was taken is in no future, buffer or
  list in the end exactly when a later event dropped it: another early call for its key, its run
  forgotten or everything cleared while it was buffered, or its turn on the loop coming after its
  future was done. `EarlyCallIsOverwritten` and `CallsFromElsewhereCanBeLost` are the two ways
  between calls alone.
* `EarlyCallIsLateCall`: a call before its listener and one after it come to the same exactly when
  the listener there is not stale or, where there is none, no earlier call is buffered.
* `StepKeepsInStepExactly`, `InterruptedPauseStaysClosed`: a paused job that is started, completed,
  failed or set waiting, or created again, leaves gate and status out of step.
* `LandsInAWindowExactly`: whether a record waits and writing it are two steps. A record lands in
  another thread's window exactly when that window opened after the record was let through and is
  still up; `ARecordCanLandInAWindow` is the shortest such run.
* `StrippedAsOneExactly`: writes are cleaned as one exactly when no escape sequence lies across any;
  `SplitColourStays` is a colour code in two writes.
* `ChangedPackageVerifiesExactly`: names and digests are hashed without separators. A package that
  verifies, changed in any way, verifies exactly when nothing changed, unless a longer name takes the
  place of a shorter one together with the digest before it: with all of it, as in
  `LongNameReadsAsTwo`, or with its last bytes, two digests being alike in all but these, as in
  `OverlappingDigestsReadAlike`.
* `InboundLacksViaExactly`: inbound calls are documented as direct where a step says nothing else, but
  a test's mark passes its missing `via` on, so that checkpoint, and no other inbound one, has none.

`dafny verify dfyconfig.toml` checks the project.

## Model

| member | source | states |
|---|---|---|
| SecretPattern.InsertAdds | src/tractusx_testlab/logging/_secret_pattern.py:98-112 | After inserting a secret the trie holds exactly the words it held and that one |
| SecretPattern.TrieOf | src/tractusx_testlab/logging/_secret_pattern.py:98-112 | The trie built from the secrets holds exactly those secrets |
| SecretPattern.WordsSplit | src/tractusx_testlab/logging/_secret_pattern.py:115-131 | The words below a node are those through its children, longest first, and last the node itself |
| SecretPattern.SkipKeepsWords | src/tractusx_testlab/logging/_secret_pattern.py:115-131 | Compressing a chain of single children into one literal matches the same words |
| SecretPattern.Branches | src/tractusx_testlab/logging/_secret_pattern.py:115-131 | The expression compiled from a node tries exactly the words below it, the longest first, and is given up exactly where groups would nest too deep |
| SecretPattern.SortedLongestFirst | src/tractusx_testlab/logging/_secret_pattern.py:98-112 | The secrets in the order they are tried: each once, no shorter one before a longer one |
| SecretPattern.AnyOf | src/tractusx_testlab/logging/_secret_pattern.py:98-112 | The plain alternation that stands in for the trie recognises the same secrets in the same order |
| SecretPattern.PatternFor | src/tractusx_testlab/logging/_secret_pattern.py:98-112 | No pattern exactly without secrets; otherwise the pattern recognises the secrets, whichever of the two forms the parser takes |
| SecretPattern.HeldAreRecognised | src/tractusx_testlab/logging/_secret_pattern.py:98-131 | An expression that matches a trie holding the secrets recognises the secrets |
| SecretPattern.LiteralsEnds | src/tractusx_testlab/logging/_secret_pattern.py:98-112 | Trying the secrets longest first gives, at every text, the lengths of all secrets it starts with, longest first |
| SecretPattern.MatchIsLongestSecret | src/tractusx_testlab/logging/_secret_pattern.py:98-131 | What the matcher reports at a position is the length of the longest secret there, and nothing exactly where no secret starts |
| TextMasking.SubstituteMasksSecrets | src/tractusx_testlab/logging/masking.py:262-265 | Substituting with the compiled pattern takes out exactly the secrets met from the left, the longest at each position, and is the reference scan |
| TextMasking.ScannedExactly | src/tractusx_testlab/logging/masking.py:262-265 | The scan gives one text and no other: the text cut each time at the first position where a secret starts and at the longest one there, every one of these replaced by the marker and all else kept |
| TextMasking.SecretsMaskedCovers | src/tractusx_testlab/logging/masking.py:262-265 | Scanning replaces non-empty stretches by the marker and changes nothing else |
| TextMasking.SecretsMaskedIsFree | src/tractusx_testlab/logging/masking.py:262-265 | After the scan no secret occurs anywhere: the scan leaves none and the marker completes none |
| TextMasking.CoveredStaysFree | src/tractusx_testlab/logging/masking.py:262-265 | Masking more of a text that holds no secret does not make one |
| TextMasking.FreeStays | src/tractusx_testlab/logging/masking.py:262-265 | A text without secrets is left as it is |
| TextMasking.ScannedCleanExactly | src/tractusx_testlab/logging/masking.py:262-265 | The scan takes one secret out of every text exactly when it neither starts nor ends with the marker's character nor has the marker in it |
| TextMasking.OthersAbsent | src/tractusx_testlab/logging/masking.py:262-265 | In a text in which one secret of a set occurs and no other, scanning for all is scanning for that one |
| TextMasking.MarkSpells | src/tractusx_testlab/logging/masking.py:262-265 | Where one secret is the marker and some text, masking another one in front of that text spells it, whatever else is registered but does not occur there |
| TextMasking.MarkCanSpellASecret | src/tractusx_testlab/logging/masking.py:262-265 | Two secrets, registered with all their spellings, and a text whose scanned form spells the second |
| CutMasking.CutPrefixes | src/tractusx_testlab/logging/_secret_pattern.py:134-140 | The index lists, by their first eight characters, exactly the secrets longer than that |
| CutMasking.TailByIndex | src/tractusx_testlab/logging/_secret_pattern.py:143-166 | Asking the index about a tail is asking whether it is a prefix of any secret long enough to be cut |
| CutMasking.MaskTail | src/tractusx_testlab/logging/_secret_pattern.py:143-166 | The bounded search with its early end replaces the longest tail of at least eight characters that continues as a secret, and keeps all before it; without one the stretch is kept |
| CutMasking.MaskCutPrefix | src/tractusx_testlab/logging/_secret_pattern.py:143-166 | Cut at its truncation markers, the text has each stretch before one masked so, the markers and the last stretch kept |
| CutMasking.CutLengthExactly | src/tractusx_testlab/logging/_secret_pattern.py:143-166 | What is measured at the front of a text is the one truncation marker there: dots, digits and words |
| CutMasking.CutsMaskedExactly | src/tractusx_testlab/logging/_secret_pattern.py:143-166 | The reference masks a text in that way and in no other |
| CutMasking.NoCutSecretLeft | src/tractusx_testlab/logging/_secret_pattern.py:143-166 | In the masked text no stretch before a truncation marker ends in eight or more characters a secret continues from |
| CutMasking.NothingToCut | src/tractusx_testlab/logging/_secret_pattern.py:143-166 | With no secret long enough, or no head of a truncation marker, the text is left as it is |
| CutMasking.CutsMaskedCovers | src/tractusx_testlab/logging/_secret_pattern.py:143-166 | Masking cut secrets replaces stretches by the marker and changes nothing else |
| CutMasking.FirstCutStays | src/tractusx_testlab/logging/_secret_pattern.py:143-166 | Masking neither makes, stretches nor removes a truncation marker |
| CutMasking.CutsMaskedAgain | src/tractusx_testlab/logging/_secret_pattern.py:143-166 | Masking cut secrets again changes nothing |
| Masking.MaskText | src/tractusx_testlab/logging/masking.py:262-265 | With a compiled form, a text is masked as the plain sets of secrets say |
| Masking.TextMaskedExactly | src/tractusx_testlab/logging/masking.py:262-265 | A masked text is the scanned text with what a truncation left of secrets masked, told without the scan or the search |
| Masking.KeyedExactly | src/tractusx_testlab/logging/masking.py:271-272 | A dictionary built from entries holds exactly those whose key no later one has |
| Masking.MaskValue | src/tractusx_testlab/logging/masking.py:262-276 | The walk over texts, numbers, lists, tuples and dictionaries, keys included, masks as the plain sets say |
| Masking.MaskEntries | src/tractusx_testlab/logging/masking.py:262-276 | The items of a dictionary masked in their order, keys and values |
| Masking.TextMaskedIsFree | src/tractusx_testlab/logging/masking.py:262-265 | Scan and cut search together leave no secret in a text |
| Masking.MaskedIsClean | src/tractusx_testlab/logging/masking.py:236-276 | No string of a masked value, key or value at any depth, holds a secret |
| Masking.MaskedAgain | src/tractusx_testlab/logging/masking.py:236-276 | Masking a masked value changes nothing |
| Masking.CleanStaysClean | src/tractusx_testlab/logging/masking.py:251-259 | Masking with further secrets does not bring back what the registered ones removed |
| Masking.NothingMasked | src/tractusx_testlab/logging/masking.py:245-248 | With nothing registered a value is its own masked form, which is why it may be returned at once |
| ValuePlaces.MaskedInPlace | src/tractusx_testlab/logging/masking.py:262-276 | Each place of a masked value, told by items and masked keys, holds exactly the masked form of what the value has there; of keys masked alike the last prevails |
| ValuePlaces.MaskedLeaf | src/tractusx_testlab/logging/masking.py:262-276 | A text is masked as texts are, a number whose print is an explicit secret is replaced whole, sets, models and the rest stay as they are |
| CleanMasking.MasksCleanlyExactly | src/tractusx_testlab/logging/masking.py:262-265 | Scan and cut search together: secrets each of which is shown alone are gone from every masked text exactly when none can hold a part of a marker |
| CleanMasking.MasksOnceExactly | src/tractusx_testlab/logging/masking.py:236-265 | For such secrets longer than the marker, masking every text twice is masking it once exactly then |
| CleanMasking.RegistryMasksCleanlyExactly | src/tractusx_testlab/logging/masking.py:210-265 | After every history of calls, with whatever spellings, the registry masks cleanly and once for all exactly when none of its secrets, shown alone, can hold a part of a marker |
| CleanMasking.StarredSecretShows | src/tractusx_testlab/logging/masking.py:262-265 | A secret with all its spellings, and a text in which it is still there once it is masked |
| CleanMasking.MaskingMakesNoCut | src/tractusx_testlab/logging/masking.py:262-265 | Masking stretches of a text without truncation markers makes none |
| SecretTable.PinnedToSpec | src/tractusx_testlab/logging/masking.py:148-151 | Pinning adds exactly that value, and explicit is said once for good |
| SecretTable.RememberedStaysUnique | src/tractusx_testlab/logging/masking.py:203-207 | Remembering keeps the bound and one entry per value, and puts the value last with explicit kept |
| SecretTable.NewerGrows | src/tractusx_testlab/logging/masking.py:203-207 | Another value remembered joins those newer than a given one, which is dropped exactly when the bound is full of newer ones |
| SecretTable.NewerAreTheTrail | src/tractusx_testlab/logging/masking.py:203-207 | After a run of remembered values, the entries newer than one are exactly those values |
| SecretTable.ForgottenExactlyAfterMaxOthers | src/tractusx_testlab/logging/masking.py:203-207 | A remembered value is still there exactly while fewer than 4096 distinct others were remembered since, and its explicit flag with it |
| SecretTable.AllListedExactly | src/tractusx_testlab/logging/masking.py:203-207 | All values remembered one after another are still there in the end exactly when they are no more than 4096, whatever the table held before |
| SecretTable.ExplicitExactly | src/tractusx_testlab/logging/masking.py:203-207 | After any trail a value is explicit exactly when someone said so and it was not pushed out since, however often it came again |
| SecretRegistry.EveryRunIsSound | src/tractusx_testlab/logging/masking.py:120-207 | In every history the table stays within its bound, each value listed once and long enough, and no open run declares more than its allowance |
| SecretRegistry.OpenRunKeepsItsPins | src/tractusx_testlab/logging/masking.py:120-165 | While a run is open, what it pinned stays masked and explicit whatever else is called |
| SecretRegistry.LeafAddedEffect | src/tractusx_testlab/logging/masking.py:139-155 | A value is turned away, at a full allowance and with nothing changed, or filed in every spelling and counted once |
| SecretRegistry.PinnedOrWithheld | src/tractusx_testlab/logging/masking.py:120-155 | Every value registered for a run is pinned in every spelling or handed back as withheld |
| SecretLeaves.LeavesExactly | src/tractusx_testlab/logging/masking.py:179-191 | What is taken from a value is exactly the texts that stand in it, at any depth, and the numbers where they are meant; nothing that stands in a key |
| SecretRegistry.RegisteringTakes | src/tractusx_testlab/logging/masking.py:120-155 | Every text of a value that is long enough is filed in every spelling, numbers only when explicit, and nothing else: for a run it is pinned, or handed back at a full allowance; for no run all is listed exactly when it is no more than 4096 spellings |
| SecretRegistry.ReleasedFollowsTheTrail | src/tractusx_testlab/logging/masking.py:120-165 | Over any history the table of released values is what was remembered, one after another |
| SecretRegistry.ReleasedValueIsForgottenExactlyThen | src/tractusx_testlab/logging/masking.py:158-165 | In any history a released value is lost exactly when 4096 distinct others were remembered after it |
| ExplicitHistory.ReleasedIsTheTrail | src/tractusx_testlab/logging/masking.py:120-207 | Over every history, forgetting everything included, the released table is the trail of what was remembered |
| ExplicitHistory.ExplicitPinsExactly | src/tractusx_testlab/logging/masking.py:120-165 | Over every history a run pins a value as explicit exactly when some call of it did and the run did not end since |
| ExplicitHistory.MaskedAsExplicitExactly | src/tractusx_testlab/logging/masking.py:217-221 | Over every history a value is masked as explicit exactly when it was remembered so and not pushed out since, or an open run pinned it so |
| ExplicitHistory.PinCanOutliveExplicit | src/tractusx_testlab/logging/masking.py:148-153 | For every spelling function and any 4096 other values of which it is no spelling, a sequence of calls after which a value declared secret is masked, but no longer as explicit |
| SecretRegistry.Gather | src/tractusx_testlab/logging/masking.py:217-221 | The merged table holds exactly the released and pinned values, explicit where any of them says so |
| SecretRegistry.Compile | src/tractusx_testlab/logging/masking.py:222-232 | No compiled form exactly without values; otherwise pattern, numbers, index and longest length are those of the values |
| SecretRegistry.Store.Remember | src/tractusx_testlab/logging/masking.py:203-207 | The loop that drops the oldest entries leaves the table the specification says |
| SecretRegistry.Store.Register | src/tractusx_testlab/logging/masking.py:120-155 | Registering files exactly the texts that stand in the value and are long enough, as above, returns those turned away, and keeps the cache honest |
| SecretRegistry.Store.AddLeaf | src/tractusx_testlab/logging/masking.py:143-153 | One leaf counted and filed, or turned away |
| SecretRegistry.Store.ReleaseRun | src/tractusx_testlab/logging/masking.py:158-165 | Closing a run moves its pins, in order, to the released values and forgets them and its count; other runs keep theirs |
| SecretRegistry.Store.ForgetAll | src/tractusx_testlab/logging/masking.py:168-176 | Nothing is registered and nothing compiled afterwards |
| SecretRegistry.Store.Current | src/tractusx_testlab/logging/masking.py:210-233 | In every reachable state the lazily rebuilt form is the one of the values registered now |
| SecretRegistry.Store.Mask | src/tractusx_testlab/logging/masking.py:236-248 | Masking through the cache is masking with the plain sets of the registry |
| Pointers.EscapeRoundTrip | src/tractusx_testlab/openapi/ref_walk.py:253-255 | Unescaping an escaped key gives the key, and an escaped key has no slash in it |
| Pointers.SplitPointer | src/tractusx_testlab/openapi/ref_walk.py:234-255 | Splitting a pointer gives the escaped keys it was written from |
| Pointers.DecimalRoundTrip | src/tractusx_testlab/openapi/ref_walk.py:234-255 | A list index reads back as the number it was printed from |
| RefWalk.References | src/tractusx_testlab/openapi/ref_walk.py:141-183 | The stack loop ends on every graph and equals the recursive walk: same references, same refusal at the same place; at every turn `inside` is the path to the top of the stack. Which references these are say the rows of `RefKeys`, in which order those of `RefOrder` |
| RefWalk.Push | src/tractusx_testlab/openapi/ref_walk.py:171-183 | The children pushed are those walked, first on top, without literals |
| RefWalk.PathEntered | src/tractusx_testlab/openapi/ref_walk.py:141-183 | Entering a container keeps every entry of the stack below the containers entered, and `inside` exactly those |
| RefWalk.PushedAreWalked | src/tractusx_testlab/openapi/ref_walk.py:141-183 | Popping pushed children one by one walks them in their order |
| RefWalk.ListsEachOnce | src/tractusx_testlab/openapi/ref_walk.py:141-183 | `inside` holds the containers on the path and no other, each once |
| RefPaths.ContainsItselfExactly | src/tractusx_testlab/openapi/ref_walk.py:141-183 | Within the limits a document is refused as containing itself exactly when some route comes back to a container it is in; mere sharing is not refused |
| RefPaths.WalkEndsExactly | src/tractusx_testlab/openapi/ref_walk.py:141-183 | The walk gets to its end exactly when no route comes back, none ends at a container 128 steps down or deeper, and no more than a million values are come to |
| RefPaths.FindsExactlyTheReferences | src/tractusx_testlab/openapi/ref_walk.py:141-183 | A walk that ends found exactly the references some route leads to |
| RefKeys.ReferencesExactly | src/tractusx_testlab/openapi/ref_walk.py:141-206 | A walk that ends found a reference at the pointer of given keys exactly when these lead to a mapping with a text under `$ref`, this mapping is not keyed by names, and no key on the way is a keyword that holds a sample; of name maps in a row every other one is itself a name |
| RefKeys.NamedReferenceIsFound | src/tractusx_testlab/openapi/ref_walk.py:186-194 | Under a keyword that maps names a reference is found whatever its name, and the map of names is none itself |
| RefKeys.NothingInASample | src/tractusx_testlab/openapi/ref_walk.py:197-206 | Under a key that holds a sample no reference is found at all |
| RefOrder.ReferencesInOrder | src/tractusx_testlab/openapi/ref_walk.py:141-183 | References are found in document order, a mapping before what is inside it, entries and items as they stand, and none twice |
| RefPointers.Resolve | src/tractusx_testlab/openapi/ref_walk.py:234-250 | Following the tokens of a pointer one by one finds what descending by its unescaped keys finds |
| RefPointers.PointerRoundTrip | src/tractusx_testlab/openapi/ref_walk.py:171-183 | The pointer written on a route finds the very value at the end of the route |
| RefPointers.YieldedPointerFindsItsReference | src/tractusx_testlab/openapi/ref_walk.py:171-183 | Every pointer yielded, without a percent sign, finds a mapping that holds the reference yielded with it |
| RefPointers.PointerFindsExactly | src/tractusx_testlab/openapi/ref_walk.py:234-255 | In every document the pointer written for keys finds the value they lead to exactly when decoding and splitting it gives these keys again |
| RefPointers.ChainLeadsExactly | src/tractusx_testlab/openapi/ref_walk.py:234-250 | In a document that is one chain of mappings only its own keys lead to its end |
| RefPointers.PercentKeyIsLost | src/tractusx_testlab/openapi/ref_walk.py:234-250 | A key that decodes to two is followed along both, and its value is not found |
| RefChains.Problem | src/tractusx_testlab/openapi/ref_walk.py:208-231 | The loop over a chain ends after at most 32 links with the verdict of the recursive definition |
| RefChains.VerdictExactly | src/tractusx_testlab/openapi/ref_walk.py:208-231 | Every verdict from the chain alone: outside or missing at once, sound where it stops within the limit, circular with exactly the chain that comes back, too long where it overruns the limit |
| RefChains.HopExactly | src/tractusx_testlab/openapi/ref_walk.py:208-231 | A reference goes on to another exactly where it resolves to a mapping that has a text under `$ref`, which is that other |
| RefChains.ReportedNothingLeadsToValues | src/tractusx_testlab/openapi/ref_walk.py:105-125 | With nothing wrong, a reference whose links all sit in walked objects leads to a value that is no reference |
| RefChains.ReferenceProblems | src/tractusx_testlab/openapi/ref_walk.py:105-125 | The report with one verdict per target is the report judging every reference afresh, cut after 20 |
| RefChains.ReportTellsExactly | src/tractusx_testlab/openapi/ref_walk.py:105-125 | The report tells of each unsound reference, in the order of the walk, where it is, what it names and what is wrong with it: the first 20, and how many more there are |
| RefChains.NothingReportedExactly | src/tractusx_testlab/openapi/ref_walk.py:105-125 | Nothing is reported exactly when the walk gets to its end and every reference it found is sound |
| Freezing.StepKeepsInv | src/tractusx_testlab/openapi/readonly.py:163-192 | Every step of the loop, on any graph, builds a container once and in front of all that use it |
| Freezing.RankedExactly | src/tractusx_testlab/openapi/readonly.py:163-192 | No path from the root comes back to a container it has been at exactly when the containers can be ranked, each above its children |
| Freezing.HaltsExactlyOnAcyclic | src/tractusx_testlab/openapi/readonly.py:163-192 | The loop comes to an end exactly when no container of the document leads back to itself |
| Freezing.Freeze | src/tractusx_testlab/openapi/readonly.py:163-192 | On a document without a way back, exactly its containers are frozen, one frozen container each, and the result is the frozen root |
| Freezing.FrozenUnfoldsAlike | src/tractusx_testlab/openapi/readonly.py:163-213 | Written out as a tree, the frozen document is the document |
| Freezing.FrozenDocumentUnfoldsAlike | src/tractusx_testlab/openapi/readonly.py:163-213 | What freezing gives for a document without a way back is, written out from its root, that document |
| LiteralCycles.AcceptedNeverFreezesExactly | src/tractusx_testlab/openapi/document.py:153-218 | Freezing a document that passed every check never ends exactly where some container leads back to itself, and every such way back goes through a literal key |
| LiteralCycles.NoVersionProblemsExactly | src/tractusx_testlab/openapi/document.py:185-218 | Nothing is wrong with version and sections exactly when there is no `swagger`, a supported `openapi` text, an `info` with its two texts, and of the sections this version knows at least one, all of them mappings |
| LiteralCycles.TakenOrLeft | src/tractusx_testlab/openapi/ref_walk.py:141-183 | A path through a document is one the walk takes to its end, or it leaves the walk under a literal key |
| LiteralCycles.EntryLeadingBackNeverFreezes | src/tractusx_testlab/openapi/document.py:170-182 | A document with an entry of the root from which containers lead back to the root is never done freezing |
| LiteralCycles.SampleIsAcceptedButNeverFreezes | src/tractusx_testlab/openapi/document.py:153-218 | A document with version, info and paths whose example is itself passes every check and is never done freezing |
| DocumentCache.TrimmedSpec | src/tractusx_testlab/openapi/document.py:120-129 | As many of the newest documents are kept as fit both bounds, and always the newest |
| DocumentCache.LoadKeepsBounds | src/tractusx_testlab/openapi/document.py:102-129 | After every load at most 16 documents and 16 MiB are held and the document just loaded is the newest |
| DocumentCache.LeastRecentlyUsedFirst | src/tractusx_testlab/openapi/document.py:102-129 | In every history the cached documents stand in the order in which they were last asked for |
| DocumentCache.HistoryIsFaithful | src/tractusx_testlab/openapi/document.py:102-129 | In every history each cached document is what checking bytes of its digest gave |
| DocumentCache.CachedLoadIsUncached | src/tractusx_testlab/openapi/document.py:102-117 | Where each path is read as one media type and no other file read at this path has the digest of this one, a load gives what loading without a cache would |
| DocumentCache.MediaTypeIsNotAsked | src/tractusx_testlab/openapi/document.py:102-117 | Right after a load the same file asked for as another type gives the same document |
| DocumentCache.HeldSince | src/tractusx_testlab/openapi/document.py:102-129 | In every history a document that is held was put there by a call since which it was held, and is what that call read |
| DocumentCache.CachedDiffersExactly | src/tractusx_testlab/openapi/document.py:102-117 | In every history a load differs from one without the cache exactly when the file is held since a call that checked it to something else |
| DocumentCache.OnlyAnotherTypeDiffers | src/tractusx_testlab/openapi/document.py:102-117 | Where the digest tells the two files apart, that call read the same file as another media type |
| DocumentCache.Cache.Load | src/tractusx_testlab/openapi/document.py:102-117 | One load changes cache and byte counter as the specification says and returns its result |
| DocumentCache.Cache.Remember | src/tractusx_testlab/openapi/document.py:120-129 | A document already there is left alone; otherwise the loop that drops the oldest leaves the trimmed table, and the counter is its sum |
| Callbacks.EveryHistoryIsValid | src/tractusx_testlab/server/callbacks.py:58-300 | In every history no key is both listened for and buffered, and a future once completed never changes |
| Callbacks.EarlyCallIsLateCall | src/tractusx_testlab/server/callbacks.py:58-80 | A call buffered and then registered for comes to the state of registering and then being called, exactly when it is in time |
| Callbacks.TakenIsKept | src/tractusx_testlab/server/callbacks.py:119-168 | A call told that it was taken is in a future, buffered, or handed to the loop |
| Callbacks.StepLosesExactly | src/tractusx_testlab/server/callbacks.py:58-300 | One step loses a result that was kept exactly where it overwrites, forgets or clears it in the buffer, or sets it on a future that is done |
| Callbacks.TakenCallIsLostExactly | src/tractusx_testlab/server/callbacks.py:58-300 | In every history a call that was taken, and does not come again, is nowhere in the end exactly when a later event dropped it |
| Callbacks.OnTheLoopOnlyTheBufferLoses | src/tractusx_testlab/server/callbacks.py:119-168 | With every call on the loop, only a buffered call is ever dropped |
| Callbacks.EarlyCallIsOverwritten | src/tractusx_testlab/server/callbacks.py:163-168 | Two early calls for one key, both told they were taken: the listener gets the second, the first is nowhere |
| Callbacks.CallsFromElsewhereCanBeLost | src/tractusx_testlab/server/callbacks.py:148-168 | Two calls handed over by other threads, both reported as taken: the second is lost |
| Callbacks.EndingWaitDropsTheListener | src/tractusx_testlab/server/callbacks.py:92-117 | A wait that ends, in time or not, drops its own listener and leaves no future pending |
| Callbacks.ForgettingARunIsItsOwn | src/tractusx_testlab/server/callbacks.py:244-258 | Forgetting a run drops everything of it, cancels its waits and leaves other runs alone |
| Callbacks.ClearingEndsEverything | src/tractusx_testlab/server/callbacks.py:260-268 | Shutting down ends every open wait, forgets every call and changes no future that is done |
| CallbackWaits.RefusalReachesItsListener | src/tractusx_testlab/server/callbacks.py:184-225 | A refusal completes the open listener of its key or is scheduled for it, and changes nothing else; without one nothing changes |
| CallbackWaits.RefusalEndsTheWait | src/tractusx_testlab/server/callbacks.py:184-225 | Whatever follows a refusal on the loop, each wait on the listener it ended returns exactly this refusal |
| CallbackWaits.HandedOverRefusalIsSet | src/tractusx_testlab/server/callbacks.py:184-225 | A refusal from another thread is set once the loop has run what was on its list before, exactly if the future is still open then |
| CallbackWaits.ScheduledIsRun | src/tractusx_testlab/server/callbacks.py:148-161 | In every history the loop comes to each callback in its turn and completes its future, and no other, exactly if it is open |
| CallbackWaits.WaitEndsWithIt | src/tractusx_testlab/server/callbacks.py:92-117 | Once a future is completed with a result, whatever follows, a wait on it ends with that result, in time or not |
| CallbackWaits.ForgettingOnlyCancels | src/tractusx_testlab/server/callbacks.py:244-258 | Forgetting a run asks the loop to cancel listeners of that run and nothing else |
| CallbackWaits.RefusalsAreCounted | src/tractusx_testlab/server/callbacks.py:170-182 | In every history the count of a key is the number of its calls turned away since its run was forgotten or everything cleared |
| Callbacks.CallbackManager.Register | src/tractusx_testlab/server/callbacks.py:58-80 | A listener is opened with the buffered call, if there is one, where none was or the one there was refused or cancelled; any other is kept and nothing changes |
| Callbacks.CallbackManager.Resolve | src/tractusx_testlab/server/callbacks.py:119-168 | A call is taken exactly when nothing listens or the listener is open; taken, it completes that listener, is the last on the loop's list or is buffered, and otherwise nothing changes |
| Callbacks.CallbackManager.Reject | src/tractusx_testlab/server/callbacks.py:184-225 | A refusal ends a wait exactly when a listener is open: on the loop it completes that listener with this very refusal, from elsewhere it is put last on the loop's list; otherwise nothing changes and nothing is buffered |
| Callbacks.CallbackManager.BeginWait | src/tractusx_testlab/server/callbacks.py:92-105 | A wait begins, on the listener of its key, exactly where there is one |
| Callbacks.CallbackManager.EndWait | src/tractusx_testlab/server/callbacks.py:105-117 | A wait ends with what completed its future, a result of its own key, or cancelled where nothing did |
| Callbacks.CallbackManager.ForgetRun | src/tractusx_testlab/server/callbacks.py:244-258 | Every listener of the run is dropped and its future's cancellation scheduled |
| Callbacks.CallbackManager.Clear | src/tractusx_testlab/server/callbacks.py:260-268 | Every pending future is cancelled and every table emptied |
| Selections.EveryHistoryIsValid | src/tractusx_testlab/player/selections.py:63-108 | In every history an answer is one of its own question's options and a completed answer never changes |
| Selections.SupersededIsNeverAnswered | src/tractusx_testlab/player/selections.py:63-108 | A question asked over or closed stays withdrawn whatever comes later |
| Selections.OneQuestionAtATime | src/tractusx_testlab/player/selections.py:63-72 | In every history a job waits for at most one answer |
| Selections.AnsweredExactly | src/tractusx_testlab/player/selections.py:63-102 | The question just asked is answered exactly by an offered value told for its own step or for none, and otherwise nothing changes |
| Selections.SelectionBoard.Ask | src/tractusx_testlab/player/selections.py:63-72 | Asking withdraws the job's open question and opens this one |
| Selections.SelectionBoard.Tell | src/tractusx_testlab/player/selections.py:79-102 | An answer is refused, for the reasons the code checks, in that order, or completes the open question |
| Selections.SelectionBoard.Close | src/tractusx_testlab/player/selections.py:104-108 | The open question is withdrawn and nothing else changes |
| Jobs.StepKeepsInStepExactly | src/tractusx_testlab/player/jobs.py:57-189 | A step keeps gate, pause request and status in step exactly when it does not interrupt a pause |
| Jobs.OrderlyStaysInStep | src/tractusx_testlab/player/jobs.py:57-189 | In every orderly history the request is set exactly when the gate is closed, and a paused job's gate is closed |
| Jobs.InStepThroughoutExactly | src/tractusx_testlab/player/jobs.py:57-189 | Gate, request and status are in step at every moment of a history exactly when no event of it interrupts a pause |
| Jobs.ResumeUndoesPause | src/tractusx_testlab/player/jobs.py:131-176 | Pausing closes the gate and resuming undoes it, for every job there is |
| Jobs.CancelAlwaysFreesTheRun | src/tractusx_testlab/player/jobs.py:178-189 | In every orderly history cancelling leaves the gate open and no pause requested |
| Jobs.InterruptedPauseStaysClosed | src/tractusx_testlab/player/jobs.py:101-189 | A job paused, started again and cancelled has a closed gate |
| Jobs.JobManager.Create | src/tractusx_testlab/player/jobs.py:57-79 | The job is queued behind an open gate, a request left by a job of the same id stays, and no other job is touched |
| Jobs.JobManager.Pause | src/tractusx_testlab/player/jobs.py:167-176 | A running job is paused with its gate closed and its request set; any other is refused with nothing changed; everything that was in step stays so |
| Jobs.JobManager.Resume | src/tractusx_testlab/player/jobs.py:131-143 | A paused job runs with its gate open and no request, a waiting one runs with both as they were, any other is left as it is; what was in step stays so |
| Jobs.JobManager.Cancel | src/tractusx_testlab/player/jobs.py:178-189 | A job that ended is left as it is; any other is cancelled with no question open, and behind an open gate where all was in step |
| Trace.JsonableAgainExactly | src/tractusx_testlab/logging/trace.py:231-247 | Writing a written value changes nothing exactly when no model in it dumps to nothing |
| Trace.ModelOfNothingIsDropped | src/tractusx_testlab/logging/trace.py:231-247 | A field holding a model that dumps to nothing is null when it is written once, and gone when it is written twice |
| ValuePlaces.WrittenInPlace | src/tractusx_testlab/logging/trace.py:231-247 | Each place of the written form holds exactly what the value has there, models taken as what they dump and null fields left out |
| ValuePlaces.NoModelIsWritten | src/tractusx_testlab/logging/trace.py:231-247 | No model and no moment is left in the written form, tuples and sets aside |
| Trace.EventDataAgain | src/tractusx_testlab/logging/trace.py:86-94 | Event data taken from event data is the same data |
| Trace.MaskedStaysWritten | src/tractusx_testlab/logging/trace.py:86-94 | Masking a written value leaves it written |
| Trace.MarkedStays | src/tractusx_testlab/logging/trace.py:200-212 | Numbering an occurrence keeps the data written and masked |
| Trace.SmallOccurrencesAreNoSecret | src/tractusx_testlab/logging/trace.py:200-212 | Numbers below 1000 are too short to be masked as a secret |
| Trace.OneIsUnused | src/tractusx_testlab/logging/trace.py:200-212 | Where the digest tells apart the first two more occurrences than ids issued, one of them has an unused id |
| Trace.IdsEqualExactly | src/tractusx_testlab/logging/trace.py:119-133 | Two events of a test kit have one id exactly when scope, type and digest, each cut at its slashes, give the same pieces in a row |
| Trace.IdsTellEventsApart | src/tractusx_testlab/logging/trace.py:119-133 | Where no part has a slash in it, exactly when scope, type and digest are the same |
| Trace.SlashReadsAsTwo | src/tractusx_testlab/logging/trace.py:119-133 | A scope of one name with a slash gives the id of a scope of two |
| Trace.ExecutionTrace.FirstNew | src/tractusx_testlab/logging/trace.py:200-212 | The search ends where some occurrence is unused, at the first one, which is no later than two beyond the ids issued where the digest tells that many apart |
| Trace.ExecutionTrace.Emit | src/tractusx_testlab/logging/trace.py:182-222 | Sequence numbers run from 1 without gaps, ids are pairwise distinct, a later occurrence is the data with its number and nothing else changed, and an envelope's data gives its id back, to the writer and to a reader without secrets |
| Trace.DataGivesItsId | src/tractusx_testlab/logging/trace.py:97-133 | The id recomputed from the written data with the writer's own rules is the id issued |
| Trace.ReaderGetsItsId | src/tractusx_testlab/logging/trace.py:97-133 | The id computed from the written data by a reader who has no secrets registered is the id issued, whatever the writer masked |
| Transcript.LastStateIsTheTail | src/tractusx_testlab/logging/transcript.py:108-125 | A line is reduced to what follows its last carriage return |
| Transcript.LinesJoined | src/tractusx_testlab/logging/transcript.py:108-125 | Lines of a text followed by another are the lines of the first, then those of what it left open with the second |
| Transcript.OneTranscript | src/tractusx_testlab/logging/transcript.py:99-136 | A text has one transcript: cut at feeds, its lines, each what follows the last carriage return of the text's line, a last line that is not empty ended |
| Transcript.PlainTextStays | src/tractusx_testlab/logging/transcript.py:99-136 | A text of ended lines without carriage returns, blank lines included, is its own transcript |
| Transcript.EscapeLengthExactly | src/tractusx_testlab/logging/transcript.py:63 | What is measured at the front of a text is the one escape sequence there: parameters and a letter, or a system command and its end |
| Transcript.NothingStripped | src/tractusx_testlab/logging/transcript.py:63 | A text in which no escape sequence starts is kept |
| Transcript.FirstSequenceGoes | src/tractusx_testlab/logging/transcript.py:63 | The first escape sequence of a text is taken out, and cleaning goes on behind it |
| Transcript.Tee.ToFile | src/tractusx_testlab/logging/transcript.py:99-125 | After any write the file holds the state of each complete line of all text so far, blank ones included, each ended, and what follows the last feed is pending |
| Transcript.Tee.Close | src/tractusx_testlab/logging/transcript.py:131-136 | Closing ends a last partial line that is not empty, and the file is the transcript of the whole text |
| Transcript.Record | src/tractusx_testlab/logging/transcript.py:99-136 | However the text is chunked, the file is the one transcript of the cleaned chunks put together, line by line |
| Transcript.StrippedInTwoExactly | src/tractusx_testlab/logging/transcript.py:63 | Cleaning two writes is cleaning them as one exactly when no escape sequence lies across them |
| Transcript.StrippedAsOneExactly | src/tractusx_testlab/logging/transcript.py:63 | However many writes there are, cleaning each is cleaning them as one exactly when no escape sequence lies across any of them |
| Transcript.SplitColourStays | src/tractusx_testlab/logging/transcript.py:63 | A colour code written at once is cleaned away; in two writes both parts of it stay |
| Transcript.ChunksDoNotMatter | src/tractusx_testlab/logging/transcript.py:99-136 | Two ways of writing one text, neither cutting an escape sequence, leave the same transcript |
| ConsoleHold.WindowHold.Open | src/tractusx_testlab/logging/structured.py:104-108 | From then on the records of every other thread wait, and none that waited is touched |
| ConsoleHold.WindowHold.Close | src/tractusx_testlab/logging/structured.py:111-116 | Records are released or still held, none lost; only the outermost window releases, and then no thread waits |
| ConsoleHold.WindowHold.Keeps | src/tractusx_testlab/logging/structured.py:120-126 | A record is kept, last of those held, exactly while a window of another thread is up; otherwise nothing changes |
| ConsoleHold.EveryInterleavingKeepsInv | src/tractusx_testlab/logging/structured.py:104-126 | In every interleaving each logged record is written once, held, being flushed or on its way; held ones keep their order |
| ConsoleHold.NothingStaysHeld | src/tractusx_testlab/logging/structured.py:104-118 | With no window up or closing, everything ever held was written, in the order it was held |
| ConsoleHold.PassedWasLetThrough | src/tractusx_testlab/logging/structured.py:120-126 | In every interleaving a record on its way was let through by its own log call, with no window of another thread up then |
| ConsoleHold.LandsInAWindowExactly | src/tractusx_testlab/logging/structured.py:120-170 | In every interleaving a record written now lands in another thread's window exactly when that window opened after the record was let through and is still up |
| ConsoleHold.FlushesOutsideWindows | src/tractusx_testlab/logging/structured.py:117-118 | A released record is written and not held again, and no window opens before all are |
| ConsoleHold.ARecordCanLandInAWindow | src/tractusx_testlab/logging/structured.py:167-170 | The interleaving in which a record is written inside another thread's window |
| PackageDigest.SortedSpec | src/tractusx_testlab/compiler/package_digest.py:68 | Sorting lists every name once |
| PackageDigest.SortedInOrder | src/tractusx_testlab/compiler/package_digest.py:68 | The names are listed in the order of their characters |
| PackageDigest.Sort | src/tractusx_testlab/compiler/package_digest.py:68 | The names in the order of their characters |
| PackageDigest.Compute | src/tractusx_testlab/compiler/package_digest.py:56-73 | The checksum covers the blanked manifest, then every other name in order with the digest of its contents |
| PackageDigest.Seal | src/tractusx_testlab/compiler/package_digest.py:94-115 | Sealing records the checksum that is due, or refuses a package without a readable manifest |
| PackageDigest.Verify | src/tractusx_testlab/compiler/package_digest.py:118-150 | Verifying succeeds exactly when the checksum recorded is the one due, and names what is wrong otherwise: where the two differ, both of them |
| PackageDigest.SealedVerifies | src/tractusx_testlab/compiler/package_digest.py:94-150 | Whatever the package, once sealed it verifies |
| PackageDigest.SealedAgain | src/tractusx_testlab/compiler/package_digest.py:94-115 | Sealing a sealed package changes nothing |
| PackageDigest.OnlyTheChecksumChanges | src/tractusx_testlab/compiler/package_digest.py:76-115 | Sealing changes no other entry, and nothing in the manifest but the checksum |
| PackageDigest.VerifiesExactlyWhenSealed | src/tractusx_testlab/compiler/package_digest.py:94-150 | A package verifies exactly when what it records reads as what sealing would record, and where that is a text, exactly when sealing would leave its manifest as it reads |
| PackageChanges.ChecksumsEqualExactly | src/tractusx_testlab/compiler/package_digest.py:56-73 | Two packages have one checksum exactly when what is hashed for them is the same |
| PackageChanges.StreamsEqualExactly | src/tractusx_testlab/compiler/package_digest.py:56-73 | Where names take the same room, what is hashed is the same exactly when every name and content digest is |
| PackageChanges.ChangedContentsVerifyExactly | src/tractusx_testlab/compiler/package_digest.py:118-150 | A verifying package changed under the same names and manifest verifies exactly when nothing changed |
| PackageChanges.ChangedManifestVerifiesExactly | src/tractusx_testlab/compiler/package_digest.py:76-150 | With another manifest that records the same checksum, a package verifies exactly when nothing in it but the checksum is other than it was |
| PackageChanges.LongerNameSwallows | src/tractusx_testlab/compiler/package_digest.py:56-73 | What is hashed being the same and the last names of different widths, the longer one takes in the whole digest before the other, or its last bytes, two digests being alike in all but these |
| PackageChanges.StreamsEqualUnlessSwallowed | src/tractusx_testlab/compiler/package_digest.py:56-73 | Where no name does that, what is hashed is the same exactly when names and digests are, one by one |
| PackageChanges.ChangedPackageVerifiesExactly | src/tractusx_testlab/compiler/package_digest.py:118-150 | A verifying package changed in any way under the same manifest, names and number of entries included, verifies exactly when nothing changed, unless a name takes in a digest so |
| PackageChanges.RenamedEntryIsRefused | src/tractusx_testlab/compiler/package_digest.py:56-73 | A renamed entry is refused where the new name takes another length, wherever it comes in the order; where names keep their room; and where no name takes in a digest so |
| PackageChanges.LongNameReadsAsTwo | src/tractusx_testlab/compiler/package_digest.py:56-73 | A name that reads like a name, a digest and a name gives one entry the checksum of two |
| PackageChanges.OverlappingDigestsReadAlike | src/tractusx_testlab/compiler/package_digest.py:56-73 | Two digests alike in all but a few bytes, and names longer and shorter by these, give two pairs of entries one checksum |
| Checkpoints.PlanFindsExactly | src/tractusx_testlab/authoring/_checkpoints.py:132-165 | A test's plan holds exactly the checkpoints its paths lead to; each leads back to its step and is conditional or repeated exactly when an edge on its path is |
| Checkpoints.PlannedExactly | src/tractusx_testlab/authoring/_checkpoints.py:108-165 | A step is planned exactly when a path leads to it, the test does not switch it off, and its type declares a checkpoint or the test marks it: as declared, asking unless outbound, or else as marked, outbound by default and without `via` inside |
| Checkpoints.PlanIsInRunOrder | src/tractusx_testlab/authoring/_checkpoints.py:132-165 | The plan is in run order, depth first, and no two checkpoints share a path |
| Checkpoints.WalkSound | src/tractusx_testlab/authoring/_checkpoints.py:138-165 | What the walk yields below a step is what its path leads to |
| Checkpoints.WalkComplete | src/tractusx_testlab/authoring/_checkpoints.py:138-165 | Every checkpoint a path leads to is yielded |
| Checkpoints.WalkOrdered | src/tractusx_testlab/authoring/_checkpoints.py:138-165 | A step comes before those it carries, by key as declared and then by position |
| Checkpoints.PlanIsSplit | src/tractusx_testlab/authoring/_checkpoints.py:76-105 | For every skip set the full plan is split in two, in order: of the tests that run and of all the others, none left out |
| Checkpoints.InboundLacksViaExactly | src/tractusx_testlab/authoring/_checkpoints.py:108-129 | A step is an inbound checkpoint without `via` exactly when its type declares none and the test marks it inbound with nothing else |

## Left out

- The trie and the index of cut prefixes are values, not dictionaries filled in place: aliasing between their parts is not modelled.
- The expression engine is a matcher over ordered alternatives on unescaped literals; `re.escape` and the engine's own limits are not modelled beyond the nesting bound and the parser's refusal.
- Digits of truncation markers and list indices are the ASCII digits; Python accepts others, and `int()` refuses some that `str.isdigit` accepts.
- SecretPattern.PatternFor: the secrets come as a set; the order of an iterable of secrets is not modelled.
- CleanMasking.MasksCleanlyExactly: both directions are for sets in which every secret that can hold a part of a marker is shown alone; where another secret always occurs with it, that one may keep it from being shown, and where it holds a truncation marker, the cut search may mask what the scan does not. For those sets `SecretsMaskedIsFree` and `TextMaskedIsFree` have the sufficient condition.
- CleanMasking.MasksOnceExactly: for the same sets, of secrets longer than the marker, as all registered ones are; `OneMasksOnceExactly` is for one secret of any length, and `MaskedAgain` has the sufficient condition for all sets.
- Masking.MaskedIsClean: sets, models and moments inside a value are not looked into, as in the code; the theorem asks that they hold no secret.
- Python's equality of `1`, `True` and `1.0` as dictionary keys is not modelled, and the marker is taken to be `***`.
- Locks of the registry and of the document cache: their methods are modelled one at a time, and the unlocked look at the stale flag is not.
- SecretRegistry.Store.Register: the encodings of a value (`forms_of`) are a parameter that gives candidate spellings.
- Percent-decoding, YAML and JSON parsing, hashing and UTF-8 are parameters.
- DocumentCache.Cache.Load: resolving paths and reading files are a parameter; what checking bytes gives is one function of bytes and media type.
- LiteralCycles.Accepted: parsing is left out, so a document is its graph; keys are texts, one scalar stands for null, and what the patch number counts as digits is a parameter.
- Freezing.Freeze: asks that no container leads back to itself, where the loop would not end; the classes of frozen containers are not modelled.
- Callbacks.EveryHistoryIsValid: one event loop; closed loops, headers and times of a call are not modelled, and forgetting a run cancels in any order.
- Jobs.OrderlyStaysInStep: timestamps, event logs, holds and listings of jobs are not modelled.
- Trace.ExecutionTrace.Emit: writing and closing the file, time stamps and the context of an event are not modelled; that some occurrence is unused is asked, where the search would not end otherwise.
- Transcript.Tee.ToFile: what reaches it is masked already; writing to the terminal beside the file is not modelled.
- ConsoleHold.EveryInterleavingKeepsInv: writing a released record is one step, and a handler that raises is not modelled.
- PackageDigest.Seal: every exception about a manifest that is no mapping is one outcome, and names that cannot be encoded are not modelled.
- PackageChanges.StreamsEqualUnlessSwallowed: where a name does take in a digest, or the bytes in which two digests differ, whether two packages hash alike depends on all their other names and digests; `LongNameReadsAsTwo` and `OverlappingDigestsReadAlike` are packages that do.
- Checkpoints.PlanFindsExactly: labels, descriptions, names and timeouts of an entry are not modelled; a carried step that does not validate is an element that is no step.
- The command line, windows and result boxes, settings, infrastructure bindings, encryption and signing, the SDK services, the HTTP client and the compiler's validation are not part of this model.
