# Verified model of sim-stream-host

A Dafny 4.11 model of the stateful parts of the sim-stream-host repository, with
proofs of what they promise. `dafny verify dfyconfig.toml` checks all of it.

## What is modelled

- **Halo glance pipeline** (`FrameBudget`, `Scheduler`, `Convergence`, `LuaRender`,
  `HaloSamples`, `HaloProvider`, `HaloRuns`). A scheduler remembers the cells
  committed on a remote display, diffs them against a glance card, sorts the
  changes and sends, first-fit, those that fit a byte budget. A printer turns cells
  into Lua lines and a session keeps the packets sent. The end-to-end results:
  executing all bytes sent so far on a blank screen shows exactly what the
  scheduler believes; a complete diff means the card is readable region by region;
  and a session that keeps attempting one scene, whatever else happens in between,
  ends up showing all of it that fits the budget.
- **Bounded content store** (`ContentStore`, `StoreRuns`). A map, an age-ordered
  key queue and a saturating byte counter refine one list of frames with
  shortest-prefix eviction and retention filtering.
- **Process ring** (`ProcessRing`, `RingRuns`). A wrapped array refines a bounded
  FIFO with close, cancel and saturating counters.
- **Effect session** (`DeviceEffects`, `EffectRuns`). Registered effects with
  authorization, invocation bounds, keyed deduplication and numbered receipts.
- **Candidate regex** (`CandidateRegex`). Escaping, joining and anchoring a list of
  names, against a parser and a search semantics for the regex subset used.

`Wrappers`, `Machine`, `Decimal`, `Strings`, `Sequences`, `Ordered` and `FirstFit`
hold shared definitions and the list theory behind one tick and repeated ticks.

Objects the source updates in place are classes whose methods are proved equal to a
step function on values (`ScheduleStep`, `InsertStep`, `SweepStep`, `InvokeStep`,
`InvokeFrame`, `PollStep`, `Fifo.Push` and so on); the properties of single steps and
whole runs are lemmas about those functions.

### Readings of the source

- A Rust `char` and a Dafny `char` are both Unicode scalar values. Lua frames are
  strings; every printed character is ASCII, so characters are bytes.
- A store key is an integer, standing for its place in the order of symbols. A scene
  is either unreadable or a plain glance card. Device identity symbols the source
  imports are constants of the model.
- `$` and `^` are the ends of the text, a bare dot is any one character, and a pattern
  matches when it matches somewhere in the text. `(?!)` never matches. The reader has
  its own list of syntax characters; repetitions and classes are outside its subset.
- Sequence numbers and invocation counts are unbounded; `usize` is 64 bits wide.

### Where the code says something else than its description

- The region-overflow message says 65535 glyph cells; the code accepts 65536, one
  for each 16-bit index (`InsertText`).
- A "keyed" effect is described as deduplicated by its key. `HaloSession` never
  deduplicates (`KeyedInvokeSendsTwice`, `ReceiptsNeverRepeat`). `FakeEffectSession`
  does, but checks the invocation bound first, so the retry of a recorded key is
  refused once the bound is used up (`RetryAfterLastInvocationFails`, exact condition
  in `RetryReturnsReceiptExactly`), and a key reused for another effect answers with
  the first effect's receipt (`KeyReuseReturnsOtherReceipt`,
  `ReceiptNamesRequestExactly`).
- Retention is described as removing frames older than their window. Ages saturate at
  64 bits, so a frame whose due age does not fit is kept for ever
  (`SaturatedAgeNeverExpires`, exact condition in `OverdueExpiresExactly`).
- At a bound of exactly `usize::MAX` the eviction guard is never true and the byte
  counter can stick below the stored sum (`LargestBoundLosesCount`, exact condition
  in `InsertKeepsAccountsExactly`).

## Model

| member | source | states |
|---|---|---|
| LuaRender.EncodeLuaCells | crates/sim-lib-stream-halo/src/lua_render.rs:111-121 | the byte loop produces the concatenation of the cells' lines, in order |
| LuaRender.PrimitiveLength | crates/sim-lib-stream-halo/src/lua_render.rs:91-107 | every cell encodes to 26..43 bytes, so the 32-bit byte length is exact |
| LuaRender.PrimitiveIsAscii | crates/sim-lib-stream-halo/src/lua_render.rs:96-107 | every printed character is ASCII |
| LuaRender.FrameLength | crates/sim-lib-stream-halo/src/lua_render.rs:91-121 | an encoded frame is exactly as long as its cells' byte lengths add up to |
| LuaRender.ParseLineInvertsPrimitive | crates/sim-lib-stream-halo/src/lua_render.rs:96-107 | one printed line followed by any text reads back as its region, index and glyph or nil, leaving that text |
| LuaRender.ParseFrameThen | crates/sim-lib-stream-halo/src/lua_render.rs:111-121 | a printed frame before any text, readable or not, contributes exactly its updates |
| LuaRender.ParseInvertsEncode | crates/sim-lib-stream-halo/src/lua_render.rs:96-121 | the parser inverts the printer on every list of cells |
| LuaRender.FrameIsUniquelyDecodable | crates/sim-lib-stream-halo/src/lua_render.rs:96-121 | equal frames come from equal updates in equal order |
| Decimal.DigitsAreCanonical | crates/sim-lib-stream-halo/src/lua_render.rs:97-106 | no number is printed with leading zeros |
| Decimal.TakeNatInvertsDigits | crates/sim-lib-stream-halo/src/lua_render.rs:97-106 | decimal indexes and code points read back whatever non-digit text follows |
| FrameBudget.InsertText | crates/sim-lib-stream-halo/src/frame_budget.rs:210-227 | writes one glyph per index over the existing cells, failing iff the text has more than 65536 glyphs |
| FrameBudget.FromGlance | crates/sim-lib-stream-halo/src/frame_budget.rs:72-134 | reading a scene yields the card's state, or the first region without room, or a bad-scene error |
| FrameBudget.TargetFailsExactly | crates/sim-lib-stream-halo/src/frame_budget.rs:72-134 | reading a scene fails iff it is no glance card or a field has more than 65536 glyphs, and names the region of the first such field in card order |
| FrameBudget.CardStateLookup | crates/sim-lib-stream-halo/src/frame_budget.rs:72-134 | a card's state holds, region by region, the glyphs of the title, metric label and value, action label, urgency and warrant marker the card has and nothing else; everything has warrant priority under bypass, urgency cells rank by the four named tokens, the rest is normal |
| Scheduler.CellRankIsLexicographic | crates/sim-lib-stream-halo/src/frame_budget.rs:175 | the sort key orders warrant before urgent before normal cells, then regions from the title to the warrant marker, then indexes |
| Scheduler.ChangesCharacterized | crates/sim-lib-stream-halo/src/frame_budget.rs:174-175 | the sorted change list is exactly the set of addresses whose glyph or priority differs, each once, in that named order; a write carries the wanted glyph and priority, a clear the priority of the cell it removes |
| Scheduler.SortedChanges | crates/sim-lib-stream-halo/src/frame_budget.rs:229-255 | enumerating, diffing and sorting the keys computes that change list |
| Scheduler.ApplyCellsLookup | crates/sim-lib-stream-halo/src/frame_budget.rs:257-273 | applying changes towards a target moves exactly the touched addresses to the target |
| Scheduler.ChangesFitCounter | crates/sim-lib-stream-halo/src/frame_budget.rs:179-183 | no change list can make the 32-bit counter saturate or wrap |
| Scheduler.LuaFrameScheduler.SendFitting | crates/sim-lib-stream-halo/src/frame_budget.rs:177-189 | the loop sends and commits what a first-fit pass sends, with unsaturated bytes |
| Scheduler.LuaFrameScheduler.Schedule | crates/sim-lib-stream-halo/src/frame_budget.rs:167-202 | one call leaves the committed state and returns the answer of the tick specification, errors included |
| Scheduler.DiffGlance | crates/sim-lib-stream-halo/src/frame_budget.rs:206-208 | a one-off diff is one tick from the previous card's state |
| FirstFit.PassConcat | crates/sim-lib-stream-halo/src/frame_budget.rs:180-189 | a cell's fate depends only on the cells ranked before it |
| FirstFit.FirstFitDominates | crates/sim-lib-stream-halo/src/frame_budget.rs:180-189 | first-fit is the lexicographically greatest choice within the budget |
| Convergence.TickIsFirstFit | crates/sim-lib-stream-halo/src/frame_budget.rs:175-189 | sent and deferred are complementary sublists, both in the named schedule order, nothing deferred would still fit, and the choice dominates every affordable one |
| Convergence.FirstChangeSentExactly | crates/sim-lib-stream-halo/src/frame_budget.rs:175-189 | the change scheduled before all others is sent iff it alone fits the budget |
| Convergence.WarrantContentGoesFirst | crates/sim-lib-stream-halo/src/frame_budget.rs:175-189 | when all warrant changes together fit the budget, one tick sends every one of them, whatever else changed |
| Convergence.CarryOver | crates/sim-lib-stream-halo/src/frame_budget.rs:174-189 | after a tick the change list towards the same target is exactly the deferred list |
| Convergence.NoChangesMeansEqual | crates/sim-lib-stream-halo/src/frame_budget.rs:229-255 | the change list is empty iff the committed state is the target |
| Convergence.TickBytesAreExact | crates/sim-lib-stream-halo/src/frame_budget.rs:179-201 | the reported bytes are the encoded frame's length and within the budget |
| Convergence.RefusedUnread | crates/sim-lib-stream-halo/src/frame_budget.rs:168-173 | a zero budget is refused before the scene is read, an unreadable scene before anything is compared; neither changes what is committed |
| Convergence.CannotFitExactly | crates/sim-lib-stream-halo/src/frame_budget.rs:190-196 | a tick is refused iff there are changes and none fits; nothing is committed and the reported size is the smallest, which exceeds the budget |
| Convergence.SmallestIsMember | crates/sim-lib-stream-halo/src/frame_budget.rs:194 | the size reported with a refusal is the minimum over the deferred cells |
| Convergence.TicksArePasses | crates/sim-lib-stream-halo/src/frame_budget.rs:167-202 | n ticks on one target are n first-fit passes over the original change list |
| Convergence.SchedulingConverges | crates/sim-lib-stream-halo/src/frame_budget.rs:167-202 | within as many ticks as cells that fit, exactly the oversize changes remain; then ticks are complete and empty, or refused and change nothing |
| Convergence.AmpleBudgetCompletes | crates/sim-lib-stream-halo/src/frame_budget.rs:167-202 | with 43 bytes or more every target is reached within as many ticks as cells differ |
| Convergence.TickBound | crates/sim-lib-stream-halo/src/frame_budget.rs:180-196 | n unfinished ticks need more than n * (budget + 1 - longest) changed bytes |
| Convergence.SentWithinRank | crates/sim-lib-stream-halo/src/frame_budget.rs:180-189 | a cell that fits is sent no later than its rank among such cells, plus one tick |
| Convergence.TicksConserveChanges | crates/sim-lib-stream-halo/src/frame_budget.rs:174-201 | the ticks together send each originally changed cell at most once, and nothing else |
| HaloSamples.ValidateSamples | crates/sim-lib-stream-halo/src/provider.rs:383-406 | accepts iff all samples are well formed, at most one is a camera pull and every pair of one kind is in order; otherwise names the first fault |
| HaloSamples.KindNamesSort | crates/sim-lib-stream-halo/src/provider.rs:77-86 | each of the five poll kinds selects one sort of sample |
| HaloSamples.OfKindOrdered | crates/sim-lib-stream-halo/src/provider.rs:396-403 | within one kind of an accepted list sequence numbers never decrease |
| HaloSamples.OneCamera | crates/sim-lib-stream-halo/src/provider.rs:388-395 | an accepted list holds at most one sample of the camera kind |
| HaloProvider.HaloProvider.OpenSession | crates/sim-lib-stream-halo/src/provider.rs:200-214 | opens a fresh stopped session iff the route is not a stub, the link opens and its samples are acceptable; each refusal is the right one |
| HaloProvider.HaloSession.Poll | crates/sim-lib-stream-halo/src/provider.rs:313-323 | one poll takes the first sample of the asked kind out of the queue, or answers none, or refuses while stopped |
| HaloProvider.HaloSession.Invoke | crates/sim-lib-stream-halo/src/provider.rs:332-356 | one invocation authorizes, requires a started session, ticks the scheduler and records the packet |
| HaloRuns.MismatchIsUnreachable | crates/sim-lib-stream-halo/src/provider.rs:340-345 | the byte-count mismatch error is never returned |
| HaloRuns.RefusalChangesNothing | crates/sim-lib-stream-halo/src/provider.rs:332-345 | a refused invocation leaves the whole session as it was |
| HaloRuns.DisplayFollowsScheduler | crates/sim-lib-stream-halo/src/provider.rs:303-356 | over every run, executing all bytes sent on a blank screen shows exactly the committed glyphs |
| HaloRuns.PacketsRespectBudget | crates/sim-lib-stream-halo/src/provider.rs:336-350 | over every run, each packet carries its own encoded cells, counted exactly and within budget |
| HaloRuns.CompleteDiffShowsCard | crates/sim-lib-stream-halo/src/provider.rs:332-356 | after any run ending in a complete diff the title, metric, action and urgency each read back in their own region with nothing after them, and the warrant marker is lit iff the card bypasses the budget |
| HaloRuns.CompleteMeansCommitted | crates/sim-lib-stream-halo/src/frame_budget.rs:40-45 | a diff is complete iff the committed state is the target |
| HaloRuns.AttemptsTick | crates/sim-lib-stream-halo/src/provider.rs:303-356 | among any starts, stops, polls and refused invocations, each attempt to send a scene is one tick towards it, and nothing else is |
| HaloRuns.AttemptsConverge | crates/sim-lib-stream-halo/src/provider.rs:303-356 | for every nonzero budget, after as many attempts as changes that fit, the bytes sent show the committed state and exactly the oversize changes are missing |
| HaloRuns.AmpleAttemptsShowCard | crates/sim-lib-stream-halo/src/provider.rs:303-356 | with 43 bytes or more a tick the card itself is shown after as many attempts as cells differ, whatever happens in between |
| HaloRuns.RepeatedInvokesShowCard | crates/sim-lib-stream-halo/src/provider.rs:332-356 | in particular, n consecutive authorized invocations of a started session are n attempts and show the card |
| HaloRuns.ReceiptsNeverRepeat | crates/sim-lib-stream-halo/src/provider.rs:346-355 | receipt numbers strictly increase along a run, so a repeated key is never answered with the earlier receipt |
| HaloRuns.KeyedInvokeSendsTwice | crates/sim-lib-stream-halo/src/provider.rs:332-356 | exhibits a run in which one key of the keyed frame effect succeeds twice, as receipts 1 and 2, the last diff complete |
| HaloRuns.InvokeAnswersExactly | crates/sim-lib-stream-halo/src/provider.rs:332-356 | over every run, an invocation is a contract fault iff it is not authorized, else not-started iff the last start or stop was no start, else a success iff the scene can be sent, with the effect's own receipt |
| HaloRuns.FrameAuthorizedExactly | src/device.rs:282-343 | the frame effect authorizes exactly the requests that name it, hold its capability, are armed, come within 30 s, carry a key and have at most 65536 bytes |
| HaloRuns.PollAnswersExactly | crates/sim-lib-stream-halo/src/provider.rs:313-323 | over every run, a poll is refused and changes nothing unless the last start or stop was a start; otherwise it answers the next opened sample of the kind, or none once they are used up |
| HaloRuns.StoppedPollsNothing | crates/sim-lib-stream-halo/src/provider.rs:303-330 | from a stop, or the opening, to the next start nothing is polled and the samples stay |
| HaloRuns.PolledThenRemaining | crates/sim-lib-stream-halo/src/provider.rs:313-323 | over every run, samples polled of a kind followed by those left are the opened samples of that kind |
| HaloRuns.PollsAreOrderedPrefixes | crates/sim-lib-stream-halo/src/provider.rs:313-323 | polled samples of a kind are a prefix of the opened ones, in sequence order, with at most one camera sample |
| ContentStore.BoundedContentStore.New | src/store_evict.rs:132-144 | an empty store, or a refusal of a zero bound |
| ContentStore.BoundedContentStore.RemoveExisting | src/store_evict.rs:241-246 | takes one key out of map, queue and counter, or changes nothing when it is not stored |
| ContentStore.BoundedContentStore.EvictOldest | src/store_evict.rs:232-239 | removes the first queued key that is stored, dropping unstored keys before it |
| ContentStore.BoundedContentStore.EvictUntilFits | src/store_evict.rs:161-167 | the eviction loop gives up and reports the prefix the counter asks for |
| ContentStore.BoundedContentStore.Insert | src/store_evict.rs:147-172 | map, queue and counter together step as the ledger does, and the evictions listed are the ledger's |
| ContentStore.BoundedContentStore.SweepRetention | src/store_evict.rs:175-205 | a sweep steps the ledger: survivors keep their order, removals are listed in key order |
| StoreRuns.InsertRefinesSequence | src/store_evict.rs:147-172 | an insertion drops the frame with its key and the shortest sufficient prefix, appends the newcomer, and lists exactly those; an oversize one changes nothing |
| StoreRuns.InsertReports | src/store_evict.rs:154-171 | an accepted insertion reports its own key as replaced iff a frame had it, then the dropped prefix, oldest first, as given up for the size bound |
| StoreRuns.InsertKeepsAccountsExactly | src/store_evict.rs:161-170 | an accepted insertion keeps the counter exact iff the bound is below the largest or the sizes still add up |
| StoreRuns.LargestBoundLosesCount | src/store_evict.rs:161-168 | at the largest bound two frames can be stored whose sizes the counter cannot hold |
| StoreRuns.RunsAreAccounted | src/store_evict.rs:121-246 | over every run below the largest bound the counter is the stored sum within the bound, keys are distinct, and bytes inserted are stored or removed |
| StoreRuns.BreakIsUnreachable | src/store_evict.rs:161-167 | in every run the eviction loop ends by its guard, never by running out of frames |
| StoreRuns.WindowForIsFirst | src/store_evict.rs:185-189 | the window that counts is the first that names the frame's session and receipt |
| StoreRuns.ExpiryThreshold | src/store_evict.rs:185-192 | for every clock, rate and window a covered frame expires iff it is not from the future, its age in ticks times 1000 reaches (retain + 1) * rate, a zero rate counting as one, and that product fits in 64 bits |
| StoreRuns.OverdueExpiresExactly | src/store_evict.rs:190-192 | a covered frame expires at just the clocks at which it is older than its window iff the due product fits in 64 bits or the clock cannot reach it |
| StoreRuns.SaturatedAgeNeverExpires | src/store_evict.rs:263-266 | exhibits a frame far older than its window that the saturated age keeps for ever |
| StoreRuns.SweepKeepsExactly | src/store_evict.rs:175-205 | a sweep keeps a stored frame iff some window covers it and the first that does is still open; the others, and only they, are reported |
| StoreRuns.UncoveredFrameGoes | src/store_evict.rs:184-192 | a frame no window covers is removed and reported by every sweep |
| StoreRuns.SweepReportIsAscending | src/store_evict.rs:181-204 | every removal is reported with retention as its reason, in ascending key order |
| StoreRuns.ElapsedIsMonotone | src/store_evict.rs:263-266 | saturating elapsed time never decreases as the clock advances |
| StoreRuns.SweepsCompose | src/store_evict.rs:175-205 | sweeping at t1 then at a later t2 leaves what one sweep at t2 leaves, in order and in bytes |
| StoreRuns.SweepsRemoveAlike | src/store_evict.rs:175-205 | the removal lists of two sweeps together name the keys one later sweep names, and with distinct keys none is named twice |
| StoreRuns.SweepIsIdempotent | src/store_evict.rs:175-205 | sweeping again at once removes nothing |
| ProcessRing.ProcessSharedRing.WithCapacity | src/ring.rs:61-75 | an empty open ring, or a refusal of zero capacity |
| ProcessRing.ProcessSharedRing.TryPush | src/ring.rs:79-94 | a push steps the FIFO; an unaccepted item comes back and no slot changes |
| ProcessRing.ProcessSharedRing.TryPop | src/ring.rs:97-108 | a pop steps the FIFO across wraparound |
| ProcessRing.ProcessSharedRing.Cancel | src/ring.rs:117-122 | the drain loop ends with the FIFO drained, closed and marked cancelled |
| ProcessRing.OutsideWindowIsEmpty | src/ring.rs:89-103 | a slot is occupied iff it lies in the window |
| RingRuns.RunsAreFifo | src/ring.rs:79-122 | over every run and capacity, items accepted are items removed followed by items buffered, never more than the capacity |
| RingRuns.PushAcceptedExactly | src/ring.rs:79-94 | a push is accepted iff nothing closed the ring before and fewer items than slots are held |
| RingRuns.PushAnswersExactly | src/ring.rs:79-94 | a push answers closed, dropped or accepted by the run alone; one not accepted hands back the very item pushed and leaves the buffer |
| RingRuns.PopReturnsNextAccepted | src/ring.rs:97-108 | a pop answers the oldest accepted item not taken out yet, closed or not, and none iff there is none |
| RingRuns.FlagsTellHistory | src/ring.rs:79-122 | the closed and cancelled flags report whether the run ever closed or cancelled the ring |
| RingRuns.NothingAcceptedAfterClose | src/ring.rs:81-84 | after a close or cancellation every push gets its item back |
| RingRuns.CancelEmpties | src/ring.rs:117-122 | cancellation leaves the ring empty and closed with every remaining item counted as yielded |
| RingRuns.RunsAreCounted | src/ring.rs:79-108 | over every run each counter is the true count clamped to 64 bits, and pushes are accepted, dropped or rejected |
| RingRuns.AcceptedIsYieldedPlusLenExactly | src/ring.rs:89-106 | accepted = yielded + len iff at most 2^64 - 1 items were accepted or the ring is empty |
| RingRuns.PushedIsAccountedExactly | src/ring.rs:80-93 | pushed = accepted + dropped + rejected iff at most 2^64 - 1 pushes were made or all were accepted |
| DeviceEffects.NewRegistry | src/device.rs:351-363 | builds the lookup table iff every descriptor is complete and identities differ; otherwise reports the first fault |
| DeviceEffects.FakeEffectSession.Invoke | src/device.rs:506-542 | one invocation steps the session specification, every error branch included |
| EffectRuns.InvokeSucceedsExactly | src/device.rs:286-323 | over every run of a session with accepted descriptors, an invocation succeeds iff the last start or stop was no stop and some descriptor entitles the request with fewer receipts issued than its bound |
| EffectRuns.AuthorizeNamesFirstFault | src/device.rs:286-323 | a complete descriptor lets through exactly the entitled requests and otherwise names the first demand, in checking order, that is broken |
| EffectRuns.RefusalNamesReason | src/device.rs:506-543 | over every run, a refusal says stopped, not registered, the descriptor's own fault, or bound used up, each exactly when that is so |
| EffectRuns.RunsAreAccounted | src/device.rs:517-540 | over every run the sequence is the sum of counts, counts respect their bounds, and receipts under different keys differ in number |
| EffectRuns.OnlyIssuesLeaveTraces | src/device.rs:506-542 | dropping from a run every invocation that failed or was answered from a recorded receipt leads to the same receipts, numbers and counts |
| EffectRuns.StoppedIsInert | src/device.rs:488-511 | from a stop to the next start every invocation is refused and nothing changes |
| EffectRuns.IssuedAreConsecutive | src/device.rs:531-537 | receipts issued along a run are numbered 1, 2, 3, ... without gaps, each of its effect's registered kind |
| EffectRuns.CountsAreReceiptsIssued | src/device.rs:517-537 | over every run an effect's invocation count is the number of receipts issued for it |
| EffectRuns.KeyedAtMostOnce | src/device.rs:526-540 | across stops and starts, two successes with one key return one receipt and only the first changes anything |
| EffectRuns.RetryReturnsReceiptExactly | src/device.rs:521-530 | in every run, once a key has succeeded, a later entitled invocation with it returns the same receipt iff the named effect has invocations left |
| EffectRuns.RetryAfterLastInvocationFails | src/device.rs:521-530 | with a bound of one the retry of a keyed success is refused |
| EffectRuns.ReceiptNamesRequestExactly | src/device.rs:526-530 | in every run, a later success with a key names the effect it asked for iff the key was issued for that effect |
| EffectRuns.KeyReuseReturnsOtherReceipt | src/device.rs:526-530 | reusing a key for a second effect returns the first effect's receipt |
| CandidateRegex.RegexEscape | src/config_probe.rs:220-232 | the loop puts a backslash before each metacharacter and changes nothing else |
| CandidateRegex.MetaIsSyntax | src/config_probe.rs:225-230 | the characters escaped are exactly those a reader gives a meaning to |
| CandidateRegex.ParseJoined | src/config_probe.rs:206-218 | splitting at unescaped bars and unescaping inverts escaping and joining |
| CandidateRegex.RegexMeansList | src/config_probe.rs:206-232 | for every list of names, empty list and empty name included, the pattern is readable and matches a text iff the text is one of the names |

## Left out

- Reading a glance card, a sample record or a payload out of an expression: the scene and value crates are not part of this model; a request's rendered payload size is a number it carries.
- Error message texts, and the allocation capacity of vectors and of the ring's slots.
- Overflow of the 64-bit receipt sequence and invocation counts, which need more than 2^64 invocations.
- Widths of `usize` other than 64 bits.
- The host callback queue, cassettes and opened host streams: their behaviour lives in a stream crate that is not part of this model.
- LAN placement planning: its envelopes, profiles and bridges come from crates that are not part of this model.
- VITURE and wristbridge sessions, link text checks, bring-up ledgers and import rows: hardware seams and linear validation.
- Catalog, router, registry, provider loading, consent gates and capability tables: lookups in constant maps.
- Provider manifests and reversal or local-stop effects, which no modelled operation executes.
