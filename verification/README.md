# Verified model of the URL shortener

A Dafny 4.11 model of the parts of the service that carry state, interleaving or arithmetic, with proofs about
every input, every run or every reachable state. `dafny verify dfyconfig.toml` checks the whole project.

| module | models |
|---|---|
| `Positional`, `Text`, `Base62` | slugs as base-62 numerals on wrapping 64-bit integers; the buffer reversed in place |
| `Domain`, `Selection`, `Decision` | the entities, the weighted A/B walk, the redirect decision |
| `Sequences`, `Store` | the database as a value: one function per SQL statement, every constraint of the migrations |
| `Rows` | what the statements do to stored rows and what the queries return of them, column by column |
| `Postgres`, `Redis`, `Usecases` | the repositories and usecases as classes over mutable fields, proved against `Store` and the cache functions |
| `Coherence`, `CacheTheorems`, `CacheRaces` | the look-aside cache protocol: three-query reads, asynchronous fills, write-then-delete mutations, in every interleaving |
| `PermanentSlugs` | that protocol together with slug allocation: what it guarantees to slugs that are not temporary |
| `TornReads` | when the three queries of FindBySlug return a link the database held |
| `RateLimit`, `FixedWindow` | what one counter and one restarting deadline amount to over every call sequence, against sliding and fixed windows |
| `Weights`, `Slugs`, `Clicks` | state machines over the same database: split check and insert, slug allocation, save then count |
| `Worker` | the bounded queue, its consumers, cancellation and close |
| `Aggregates`, `Referrer` | the statistics queries; stripping a referrer to its domain |

How the parts fit. `Store` gives each SQL statement a meaning on tables. The methods of `Postgres.Database` are
proved to have that meaning, and the state machines (`Coherence`, `Weights`, `Slugs`, `Clicks`) step by the same
functions, so a theorem about the machines is about the statements the methods issue. In the same way
`Redis.CacheRepository` and the cache protocol share `Lookup`, `LinkTtl`, `Stored`, `NextCount` and `Bumped`. Each
operation of `Usecases`, run by itself, is proved to be a run of the machines: a mutation of the cache protocol
(`Usecases.Solo`), a redirect's miss and fill of the same (`Usecases.Filled`), `Create` of the slug machine
(`Usecases.Allocated`), `CreateABTest` also of the weight protocol, `ProcessClickEvent` of the click accounting.

Conventions. Times are nanoseconds. A Redis key set at time t with time to live d is readable before t + d. The
INCR/EXPIRE pipeline is atomic. `rand.Intn(n)` is `draw % n` for an arbitrary `draw`. bcrypt, URL syntax, the country
of an address, user-agent parsing, Unicode upper-casing, the reading of UUIDs, the clock and fresh identifiers are
parameters. Keys `link:<slug>` and `rl:<key>` live in two maps because their prefixes differ. Nil and empty slices are
the same sequence. In the cache protocol a fill's one-second timeout runs from the moment FindBySlug returned, and its
SET takes effect within the timeout or not at all. The state machines admit every order of steps; a step that the code
takes only after a further check (such as the existence query before inserting a custom slug) is also admitted without
it, which makes the theorems stronger.

Where the code departs from its own documentation, the code is modelled and the exact condition proved:

- A cached link can be stale although every deletion was delivered and none is due
  (`CacheRaces.UnconditionalFreshnessFails`). A cached link has agreed with the database ever since it was read, part
  by part, iff it is no late fill and has no undeleted change (`CacheTheorems.FreshExactly`). It then agrees now; an
  entry that was outdated agrees now only if the change has been undone.
- FindBySlug is no snapshot (`CacheRaces.MixedReadRace`). It returns a link that the database held whenever at most
  one statement changed the link meanwhile (`TornReads.OneChangeIsSnapshot`); for given changes, the moments that held
  it are exactly those that cut the read cleanly (`TornReads.SnapshotExactly`).
- An expiring entry outlives its expiry by ten seconds plus the delay of its SET (`CacheTheorems.ExpiringDeadline`),
  and every delay the fill timeout permits occurs (`CacheRaces.ExpiryOutlived`).
- The limiter is called a sliding window; it counts like an exact one iff the current burst fits the window
  (`RateLimit.CountCoversRecent`) and else refuses more (`RateLimit.SteadyTrafficRefused`), so it is as safe
  (`RateLimit.SlidingWindowSafety`).
- It is also called a fixed window; it counts like one opened by a call iff the current burst spans less than a window
  (`FixedWindow.FixedWindowExactly`), like one aligned with the clock iff the burst lies in one such window
  (`FixedWindow.AlignedWindowExactly`), and otherwise more than either (`FixedWindow.FixedWindowDeparts`).
- Start promises to drain the queue (`internal/worker/analytics_worker.go:69`); it drains it exactly when the queue
  then holds no more events than consumers are waiting (`Worker.ShutdownExact`, `Worker.EventLeftBehind`).
- Weights can sum past one hundred when calls overlap: with at most k in flight, up to 100k (`Weights.WeightBound`)
  and exactly that far (`Weights.OverlapReachesBound`).
- "users can only access their own links" (`internal/usecase/link_usecase.go:127`): deleting a variant or rule checks
  the link named in the call, but deletes by the child's id. It touches no other link iff the child belongs to the
  named one (`Usecases.DeletionStaysHome`, `Usecases.RuleDeletionStaysHome`); `Usecases.ForeignVariantDeleted` is a case
  in which it does not.
- A country code is to have two letters (`internal/usecase/link_usecase.go:317`); what is checked is two bytes
  (`Usecases.TwoBytesExactly`), which "1!" also has (`Usecases.TwoBytesExamples`).
- Decode wraps silently on overflow (`Base62.EncodeDecode`, `Base62.DecodeOverflowExample`).
- The temporary slug no longer fits its VARCHAR(20) column (`Slugs.TemporarySlugFitsColumn`); the machines leave the
  width out, as otherwise no automatic slug could ever be created.
- "set to nil to remove expiry" (`internal/domain/link.go:83`) has no effect: no run of updates clears an expiry
  (`Store.PatchRunKeeps`).
- Expiring links are answered 301, not 302 as `internal/domain/redirect.go:9` says (`Decision.PermanentExactly`).
- StripReferrer is to drop query and fragment; it keeps their marks exactly as `Referrer.QuerySurvivesExactly` says,
  for instance those of https://t.co?s=20 (`Referrer.QuerySurvivesExample`).

## Model

| member | source | states |
|---|---|---|
| Base62.Encode | pkg/base62/base62.go:25-44 | the divide, append and reverse-in-place loops produce the canonical numeral, within the eleven-byte buffer; nothing for negative ids |
| Base62.ReverseInPlace | pkg/base62/base62.go:38-41 | the two-index loop reverses the written part of the buffer and leaves the rest |
| Base62.Decode | pkg/base62/base62.go:54-69 | the wrapping loop returns the value modulo 2^64, or the first foreign character, or the empty-string error |
| Base62.IsValid | pkg/base62/base62.go:74-84 | accepts exactly the strings Decode accepts |
| Base62.SearchFinds | pkg/base62/base62.go:12-13 | searching the alphabet literal inverts indexing it |
| Base62.DecodeEncode | pkg/base62/base62.go:25-69 | every id survives encode then decode, in at most eleven characters, no accumulator leaving int64 |
| Base62.EncodeDecode | pkg/base62/base62.go:46-69 | for every accepted string, encoding the result gives it back iff it is canonical and fits int64; the result is the true value iff it fits |
| Base62.DecodeOverflowExample | pkg/base62/base62.go:59-66 | the numeral of 2^64 decodes to 0 |
| Base62.SlugLength | pkg/base62/base62.go:30-31 | a slug has k characters iff 62^(k-1) <= id < 62^k |
| Base62.NumeralExamples | pkg/base62/base62.go:9-13 | digits come first, then lower case, then upper case |
| Base62.SlugOrder | pkg/base62/base62.go:9-12 | ids are ordered as their slugs are in shortlex order, and distinct ids have distinct slugs |
| Selection.SelectABVariant | internal/usecase/redirect_usecase.go:247-274 | the two loops choose the first variant whose cumulative weight exceeds the pick; the last fallback is unreachable |
| Selection.PositionShare | internal/usecase/redirect_usecase.go:238-246 | over all picks each position is chosen by exactly its weight many |
| Selection.VariantShare | internal/usecase/redirect_usecase.go:238-246 | a variant receives its weight times its multiplicity many picks |
| Selection.SharesIgnoreOrder | internal/usecase/redirect_usecase.go:247-274 | the shares are the same for every order of the list |
| Decision.MatchGeoRule | internal/usecase/redirect_usecase.go:226-236 | the search returns the first rule's destination for a known country |
| Decision.GeoDestinationExact | internal/usecase/redirect_usecase.go:223-236 | it is the destination of the first rule for the country, or empty iff there is none |
| Decision.DecideOn | internal/usecase/redirect_usecase.go:66-131 | the branches of Redirect compute the decision function |
| Decision.DecideExact | internal/usecase/redirect_usecase.go:46-131 | a result is returned iff the link is active, unexpired and unlocked, and it is the prescribed one: geo beats A/B beats default |
| Decision.RefusalExact | internal/usecase/redirect_usecase.go:66-91 | which refusal is returned when; expired and inactive look like missing |
| Decision.PermanentExactly | internal/usecase/redirect_usecase.go:112-123 | 301 iff neither a geo rule nor a variant applies |
| Decision.DecideIgnoresGeoOrder | internal/usecase/redirect_usecase.go:223-236 | if a link has one rule per country, no order of its rules changes a decision |
| Usecases.StoredOneRule | migrations/000004_create_geo_rules.up.sql:14 | the unique constraint gives every stored link at most one rule per country |
| Usecases.TiesNeverDecide | internal/repository/postgres/link_repo.go:325-330 | in every valid database, no order of rules of equal priority changes a decision on a stored link |
| Store.ApplyKeepsValid | migrations/000002_create_links.up.sql:6-18 | every statement, refused or not, keeps every key, unique, foreign-key and check constraint |
| Store.PatchRunIsMerge | internal/repository/postgres/link_repo.go:198-228 | a run of updates is one update by the right-biased merge of its patches |
| Store.LastProvidedWins | internal/repository/postgres/link_repo.go:198-228 | after a run of updates each field holds the last value provided for it, or the stored one |
| Store.PatchRunKeeps | internal/domain/link.go:76-84 | no run of updates clears an expiry or touches identity or click count |
| Sequences.Select | internal/repository/postgres/link_repo.go:300-349 | one pass that puts each row of the link in its place yields the filtered rows in order |
| Sequences.SortByExact | internal/repository/postgres/link_repo.go:300-349 | that result is ordered by its key and holds exactly the filtered rows |
| Rows.VariantsExact | internal/repository/postgres/link_repo.go:300-323 | a link's variants are exactly the rows that name it, oldest first, with distinct ids |
| Rows.RulesExact | internal/repository/postgres/link_repo.go:325-349 | a link's rules are exactly the rows that name it, by rising priority number, with distinct ids |
| Rows.SumIsTotal | internal/repository/postgres/ab_geo_repo.go:99-106 | the sum checked on creation is the total the weighted choice of a redirect uses |
| Rows.FoundIsStored | internal/repository/postgres/link_repo.go:54-100 | the link found under a row's slug has that row's columns, a NULL hash reading as empty, and its own children |
| Rows.StoredDecision | internal/usecase/redirect_usecase.go:57-131 | what a redirect makes of a stored row: hidden unless active and unexpired, then locked unless the password matches the stored hash, then served |
| Rows.DeletedIsRefused | internal/repository/postgres/link_repo.go:264-278 | after a soft delete a redirect from the database refuses the link, which is still found under its slug |
| Rows.DropVariantExact | internal/repository/postgres/ab_geo_repo.go:87-97 | deleting a variant removes its row and clears its id from the clicks, and nothing else |
| Rows.AddRuleExact | internal/repository/postgres/ab_geo_repo.go:118-138 | a rule is a duplicate iff its id is taken or its country on the same link |
| Postgres.Database.Create | internal/repository/postgres/link_repo.go:22-52 | inserts a row under the next id, or reports the taken slug; the id is consumed either way; every constraint is kept |
| Postgres.Database.FindBySlug | internal/repository/postgres/link_repo.go:54-100 | the link of the slug with its variants and rules in order |
| Postgres.Database.FindById | internal/repository/postgres/link_repo.go:102-144 | the same by id |
| Postgres.Database.Update | internal/repository/postgres/link_repo.go:189-247 | only provided fields change; every constraint is kept |
| Postgres.Database.UpdateSlug | internal/repository/postgres/link_repo.go:249-262 | renames unless another row has the slug; every constraint is kept |
| Postgres.Database.Delete | internal/repository/postgres/link_repo.go:264-278 | deactivates, keeping row and slug; every constraint is kept |
| Postgres.Database.IncrementClickCount | internal/repository/postgres/link_repo.go:280-287 | adds one to the counter of an existing row; every constraint is kept |
| Postgres.Database.SlugExists | internal/repository/postgres/link_repo.go:289-296 | whether a row has the slug |
| Postgres.Database.CreateABTest | internal/repository/postgres/ab_geo_repo.go:23-40 | appends a variant within the constraints, and keeps them |
| Postgres.Database.DeleteABTest | internal/repository/postgres/ab_geo_repo.go:87-97 | deletes by variant id and clears references from clicks; a malformed id is a database error; every constraint is kept |
| Postgres.Database.SumWeightsByLink | internal/repository/postgres/ab_geo_repo.go:99-106 | the accumulating pass over the table yields the sum that the weight theorems speak of |
| Postgres.Database.CreateGeoRule | internal/repository/postgres/ab_geo_repo.go:118-138 | appends a rule, or reports the taken country; every constraint is kept |
| Postgres.Database.DeleteGeoRule | internal/repository/postgres/ab_geo_repo.go:186-196 | deletes by rule id; a malformed id is a database error; every constraint is kept |
| Postgres.Database.SaveClickEvent | internal/repository/postgres/analytics_repo.go:19-49 | appends a click that fits its columns and whose link and variant exist; every constraint is kept |
| Redis.DecodedEncoded | internal/repository/redis/cache_repo.go:156-220 | a hit returns the very link that was stored |
| Redis.CachedFor | internal/repository/redis/cache_repo.go:99-125 | a stored link is readable for exactly 24 hours, or until ten seconds after its expiry, and not stored when expired; no other key is touched |
| Redis.FromDomainLink | internal/repository/redis/cache_repo.go:158-188 | the append loops encode every field |
| Redis.ToDomainLink | internal/repository/redis/cache_repo.go:190-220 | the append loops decode every field |
| Redis.CacheRepository.GetLink | internal/repository/redis/cache_repo.go:75-97 | the stored link while its deadline has not passed, else a miss |
| Redis.CacheRepository.SetLink | internal/repository/redis/cache_repo.go:99-125 | stores for a day, or until ten seconds after the expiry, or not at all when expired |
| Redis.CacheRepository.DeleteLink | internal/repository/redis/cache_repo.go:127-133 | removes exactly that key |
| Redis.CacheRepository.IncrRateLimit | internal/repository/redis/cache_repo.go:140-154 | increments the live counter or restarts it, renews its deadline, and reports count and excess |
| Coherence.EveryReadAdmitted | internal/usecase/redirect_usecase.go:186-211 | reads and fills can begin, end and fail at any moment, and a fill can land exactly within a second |
| Coherence.EveryWriteAdmitted | internal/usecase/link_usecase.go:147-205 | every statement has its step, acknowledged or not, and every deletion can be delivered or fail |
| Coherence.WriteLocal | internal/usecase/link_usecase.go:147-205 | a statement changes what redirects depend on for at most one slug, and only by succeeding on that link |
| Coherence.StepKeepsInv | internal/usecase/redirect_usecase.go:186-211 | every step of reads, fills, mutations and failures keeps the protocol invariant |
| CacheTheorems.RunInv | internal/usecase/redirect_usecase.go:186-211 | the invariant holds in every state of every run, whose moments it records |
| CacheTheorems.CurrentExactly | internal/repository/postgres/link_repo.go:54-100 | a link read in three parts has been current ever since iff no statement changed a part after that part was read |
| CacheTheorems.FreshExactly | internal/usecase/redirect_usecase.go:186-211 | in every run a cached link has been current since read iff it is neither a late fill nor has an undeleted change, whose deletion is then due or lost |
| CacheTheorems.FreshInEveryRun | internal/usecase/link_usecase.go:174-183 | a readable entry agrees with the database, or an invalidation is due or lost, or it is a late fill |
| CacheTheorems.CacheTransparent | internal/usecase/redirect_usecase.go:183-211 | without lost or due invalidations and late fills, a cached redirect is the uncached one for every clock, password, country and draw |
| CacheTheorems.BoundedStaleness | internal/repository/redis/cache_repo.go:99-125 | whatever fails, a served link is what FindBySlug returned less than a day and a second ago, or before its expiry, after which no redirect succeeds |
| CacheTheorems.ExpiringDeadline | internal/repository/redis/cache_repo.go:108-120 | in every run an entry outlives its link's expiry by ten seconds plus the delay of its SET, at most the fill timeout |
| PermanentSlugs.NeverLostByRenaming | internal/usecase/link_usecase.go:98-104 | where only temporary slugs are renamed, no other slug loses an invalidation to a renaming |
| PermanentSlugs.JointRenames | internal/usecase/link_usecase.go:98-104 | with create calls as the slug machine admits them, only temporary slugs are renamed |
| PermanentSlugs.ServiceTransparent | internal/usecase/redirect_usecase.go:183-211 | with create calls interleaved with everything else, cache transparency for slugs that are not temporary needs no premise on renamings |
| TornReads.HeldExactly | internal/repository/postgres/link_repo.go:54-100 | a state holds the returned link iff its row, variants and rules are those of the moments at which each was read |
| TornReads.SnapshotExactly | internal/repository/postgres/link_repo.go:54-100 | where nothing changes back, a moment held the returned link iff no change separates it from any of the three queries |
| TornReads.QuietReadIsCurrent | internal/repository/postgres/link_repo.go:54-100 | a read during which the link stands still returns the link of each of its moments |
| TornReads.OneChangeIsSnapshot | internal/repository/postgres/link_repo.go:54-100 | a read during which one statement changes the link returns a link the database held |
| CacheRaces.LateFillRace | internal/usecase/redirect_usecase.go:203-208 | from any state with an uncached, unexpired link, a fill can land after a successful invalidation and serve the old link |
| CacheRaces.UnconditionalFreshnessFails | internal/usecase/redirect_usecase.go:203-208 | a run with every write acknowledged, every deletion delivered and none due that ends with a stale cache |
| CacheRaces.SlowFill | internal/repository/redis/cache_repo.go:99-125 | from any state with an uncached, unexpired link and for every delay within the timeout, an entry stays readable for its time to live and the delay |
| CacheRaces.ExpiryOutlived | internal/repository/redis/cache_repo.go:108-120 | for every delay within the timeout, a run that serves a link ten seconds and the delay, less an instant, past its expiry |
| CacheRaces.MixedReadRace | internal/repository/postgres/link_repo.go:86-97 | with two statements in between, a read returns a link that no state of the run held |
| Usecases.LinkUsecase.Create | internal/usecase/link_usecase.go:51-107 | the exact result in every case; a created link has the custom slug or the numeral of its id; a creation is a run of the slug machine |
| Usecases.LinkUsecase.Update | internal/usecase/link_usecase.go:147-186 | unknown links are not found and foreign ones forbidden; else only the provided columns of the caller's row change, a new password hashed; a protocol run |
| Usecases.LinkUsecase.Delete | internal/usecase/link_usecase.go:188-205 | unknown links are not found and foreign ones forbidden; else the caller's row is deactivated; a protocol run |
| Usecases.LinkUsecase.CreateABTest | internal/usecase/link_usecase.go:224-271 | for the owner and an accepted URL, succeeds iff the weight is 1 to 100 and fits beside the stored variants; others are refused; a Check and InsertChecked of the weight protocol |
| Usecases.LinkUsecase.DeleteABTest | internal/usecase/link_usecase.go:285-301 | for the owner of the named link, deletes by variant id but invalidates the named link's slug; malformed ids included |
| Usecases.LinkUsecase.CreateGeoRule | internal/usecase/link_usecase.go:305-339 | for the owner: two bytes, URL, country free on that link, in this order; others are refused; a protocol run |
| Usecases.LinkUsecase.DeleteGeoRule | internal/usecase/link_usecase.go:353-369 | for the owner of the named link, deletes by rule id but invalidates the named link's slug; malformed ids included |
| Usecases.SoloExact | internal/usecase/link_usecase.go:147-205 | the three protocol steps of a lone mutation apply its statement and delete the key of the named link |
| Usecases.DeletionStaysHome | internal/usecase/link_usecase.go:285-301 | deleting a variant leaves all other links' variants alone iff it belongs to the named link |
| Usecases.RuleDeletionStaysHome | internal/usecase/link_usecase.go:353-369 | the same for rules |
| Usecases.ForeignVariantDeleted | internal/usecase/link_usecase.go:285-301 | a user deletes the variant of a link of another user |
| Usecases.TwoBytesExactly | internal/usecase/link_usecase.go:315-319 | two bytes are two ASCII characters of any kind, or one two-byte character |
| Usecases.TwoBytesExamples | internal/usecase/link_usecase.go:315-319 | two codes that pass and are not two letters |
| Usecases.RedirectUsecase.ResolveLink | internal/usecase/redirect_usecase.go:186-211 | the cached link, else the database's; the fill of a miss is that of the cache protocol |
| Usecases.RedirectUsecase.Redirect | internal/usecase/redirect_usecase.go:57-131 | the decision on the cached link, on a miss what is due to the stored row, and while the cache agrees with the database the database's decision |
| Usecases.RedirectUsecase.UnlockWithPassword | internal/usecase/redirect_usecase.go:133-138 | never applies a geo rule |
| Usecases.AnalyticsUsecase.ProcessClickEvent | internal/usecase/analytics_usecase.go:109-154 | succeeds iff the enriched click fits its columns and its link and variant exist; it then stores the masked address with the country of the raw one, and counts unless that fails |
| RateLimit.CounterIsBurst | internal/repository/redis/cache_repo.go:143-148 | keys do not interfere; a counter is the length of its key's current burst |
| RateLimit.CountExact | internal/repository/redis/cache_repo.go:135-154 | the count is one plus the calls since the last idle gap of a window |
| RateLimit.SlidingWindowSafety | internal/repository/redis/cache_repo.go:135-154 | no half-open window contains more than limit allowed calls on a key |
| RateLimit.CountCoversRecent | internal/repository/redis/cache_repo.go:135-154 | the count is at least that of an exact sliding window, with equality iff the burst fits the window |
| RateLimit.AllowedByExactWindow | internal/repository/redis/cache_repo.go:135-154 | every call allowed in a log is allowed by an exact sliding window over all attempts on its key |
| RateLimit.SteadyTrafficRefused | internal/repository/redis/cache_repo.go:135-137 | traffic within the limit per window that is refused |
| RateLimit.RefusedUntilIdle | internal/repository/redis/cache_repo.go:143-153 | a refused key stays refused until an idle window, after which the count is one |
| RateLimit.RefusedKeyStaysRefused | internal/repository/redis/cache_repo.go:143-153 | the same in every log, whatever happens on other keys |
| FixedWindow.FixedCounterIsWindow | internal/delivery/http/middleware/ratelimit.go:17 | a counter whose deadline only a new key sets holds the calls since its window was opened |
| FixedWindow.FixedWindowExactly | internal/repository/redis/cache_repo.go:135-154 | on every log the limiter counts at least that, with equality iff the burst is one call or spans less than a window |
| FixedWindow.AlignedWindowExactly | internal/repository/redis/cache_repo.go:135-154 | the same against clock windows, with equality iff the burst lies in one of them |
| FixedWindow.FixedWindowDeparts | internal/repository/redis/cache_repo.go:143-148 | three calls half a window apart count three, and one in either fixed window |
| Weights.WeightBound | internal/usecase/link_usecase.go:239-265 | with at most k calls in flight, stored and pending weights never exceed 100k |
| Weights.SerialWeights | internal/usecase/link_usecase.go:244-254 | calls that do not overlap keep the sum within one hundred |
| Weights.CheckExact | internal/usecase/link_usecase.go:239-254 | a weight passes iff it is 1 to 100 and fits beside the link's stored variants |
| Weights.SerialAccepted | internal/usecase/link_usecase.go:239-265 | calls one after the other store every list of variants that fits, up to exactly one hundred |
| Weights.OverlapReachesBound | internal/usecase/link_usecase.go:244-265 | for every k, a run with never more than k calls in flight that reaches exactly 100k |
| Slugs.TemporarySlugFitsColumn | migrations/000002_create_links.up.sql:9 | the temporary slug fits twenty characters iff the clock is below 10^16 |
| Slugs.CustomSlugExact | internal/usecase/link_usecase.go:17-18 | custom slugs are three to twenty letters, digits or hyphens |
| Slugs.TemporarySlugsApart | internal/usecase/link_usecase.go:87-90 | temporary slugs start with tmp- and tell clock readings apart |
| Slugs.StepKeepsInv | internal/usecase/link_usecase.go:74-104 | every step keeps each row's slug of the shape its creation has reached |
| Slugs.SlugsInEveryRun | internal/usecase/link_usecase.go:92-104 | slugs are unique; completed automatic slugs decode to their ids and never contain a hyphen |
| Slugs.PermanentResolves | internal/repository/postgres/link_repo.go:249-278 | a permanent slug resolves to the same id for ever |
| Slugs.NamingRefusedExactly | internal/usecase/link_usecase.go:98-104 | renaming fails iff the numeral was taken as a custom slug |
| Clicks.ClicksAccounted | internal/usecase/analytics_usecase.go:143-153 | stored clicks are counter plus due plus missed increments, in every run |
| Clicks.OtherKeepsCounts | migrations/000005_create_click_events.up.sql:9 | no other statement, not even deleting a variant, changes clicks or counters |
| Worker.Conservation | internal/worker/analytics_worker.go:55-137 | offered is accepted plus dropped; accepted is received then queued, in order; received is succeeded plus failed plus in flight; bounds |
| Worker.DroppedFoundFull | internal/worker/analytics_worker.go:55-66 | in every run a dropped event found the queue full |
| Worker.NothingDropped | internal/worker/analytics_worker.go:55-66 | while the accepted events not yet received stay below the capacity, none is dropped |
| Worker.NoneLeavesEarly | internal/worker/analytics_worker.go:114-137 | before cancellation no consumer returns |
| Worker.AfterCancellation | internal/worker/analytics_worker.go:130-135 | after cancellation a consumer receives and finishes at most one more event |
| Worker.CompletionsBounded | internal/worker/analytics_worker.go:130-135 | after cancellation at most one event per consumer is finished |
| Worker.SomeStepEnabled | internal/worker/analytics_worker.go:92-102 | after close some consumer can always step until all have exited |
| Worker.ClosedRun | internal/worker/analytics_worker.go:92-102 | after close there are at most three steps per consumer, so every consumer exits |
| Worker.ShutdownExact | internal/worker/analytics_worker.go:84-110 | all done signals arrive; exactly the queue beyond the waiting consumers is left |
| Worker.EventLeftBehind | internal/worker/analytics_worker.go:68-69 | a shutdown that leaves an event in the queue |
| Worker.AnalyticsWorker.constructor | internal/worker/analytics_worker.go:31-50 | defaults of buffer and concurrency |
| Worker.AnalyticsWorker.Enqueue | internal/worker/analytics_worker.go:55-66 | puts the event at the back of a queue with room, drops it on a full one, never blocks |
| Worker.AnalyticsWorker.Next | internal/worker/analytics_worker.go:117 | one receive of the consumer loop |
| Worker.AnalyticsWorker.Complete | internal/worker/analytics_worker.go:121-135 | the end of one iteration |
| Worker.AnalyticsWorker.Shutdown | internal/worker/analytics_worker.go:84-93 | cancellation, then close |
| Aggregates.CountedExactly | internal/repository/postgres/analytics_repo.go:51-59 | exactly the clicks of the link between the dates are counted, each as often as stored, and their addresses once |
| Aggregates.BucketExact | internal/repository/postgres/analytics_repo.go:74-78 | a bucket starts at the last full hour or midnight at or before the click |
| Aggregates.SeriesExact | internal/repository/postgres/analytics_repo.go:73-106 | strictly increasing buckets, each with its exact count, summing to the events |
| Aggregates.SeriesSumsToSummary | internal/repository/postgres/analytics_repo.go:51-106 | the buckets of a filter sum to its total |
| Aggregates.HoursRegroupToDays | internal/repository/postgres/analytics_repo.go:74-83 | hourly buckets regroup to exactly the daily series |
| Aggregates.BreakdownAnswers | internal/repository/postgres/analytics_repo.go:156-165 | tallying, ordering and cutting answers the grouped query for every filter, field and limit |
| Aggregates.TiesKeepCounts | internal/repository/postgres/analytics_repo.go:163-165 | any two answers, however they break ties, list the same clicks |
| Aggregates.BreakdownSum | internal/repository/postgres/analytics_repo.go:149-181 | the clicks shown sum to at most the total, with equality iff the labels fit the limit, however ties are broken |
| Aggregates.BreakdownItems | internal/repository/postgres/analytics_repo.go:172-195 | each item carries its share of the shown total |
| Aggregates.PercentagesSumToHundred | internal/repository/postgres/analytics_repo.go:188-193 | the shares of a nonempty breakdown sum to one hundred |
| Aggregates.GetBreakdown | internal/repository/postgres/analytics_repo.go:149-196 | the items are an answer with its shares; none iff no events, else their percentages sum to one hundred; a negative limit is refused |
| Referrer.StripReferrer | pkg/useragent/useragent.go:128-167 | the reassignments cut scheme, path, port and www., and lower the case |
| Referrer.BuildAndStrip | pkg/useragent/useragent.go:118-127 | a URL put together from a plain host is stripped to that host in lower case |
| Referrer.OtherSchemesAreEmpty | pkg/useragent/useragent.go:128-145 | what does not start with an HTTP scheme has no domain |
| Referrer.NoSlash | pkg/useragent/useragent.go:153-156 | no result contains a slash |
| Referrer.QuerySurvivesExactly | pkg/useragent/useragent.go:118-120 | a query or fragment mark survives iff one stands before every slash and every colon, or before a later colon that precedes every slash |
| Referrer.QueryAfterHostSurvives | pkg/useragent/useragent.go:118-120 | a query or fragment without slash or colon directly after a plain host is kept whole |
| Referrer.QuerySurvivesExample | pkg/useragent/useragent.go:118-120 | the domain of https://t.co?s=20 keeps the query |

## Left out

- HTTP handlers, routing, middleware other than the limiter's arithmetic, metrics, logging, configuration, QR codes.
- bcrypt, tokens, QStash publishing and geo-IP lookup: foreign calls, taken as parameters where a decision needs them.
- JSON and driver wire formats; a corrupt cache entry is a miss like any other.
- Database failures inside the sequential usecase methods; the state machines include failed and unacknowledged writes.
- Commands that Redis executes after the client's timeout has expired.
- Ties in ORDER BY created_at are broken by storage order; shares and geo decisions are proved independent of order.
- User accounts: the foreign key from links to users and its cascade.
- Start's five-second drain deadline, which only chooses the log message.
- Worker.AnalyticsWorker.Next: the blocking of a receive on an empty open channel is a disabled step.
- Pagination and the defaults that the usecase gives a filter.
- Usecases.LinkUsecase.Create: leaves out VARCHAR(20), which today would refuse every temporary slug.
- The widths of links.title, links.password_hash, ab_tests.label and click_events.city; a width's silent cut of trailing
  spaces.
- CHAR(2) pads a country code of one character with a space.
- Columns city and user_agent of click_events, which no modelled query reads.
- User-agent keyword tables and IP masking.
- Referrer.StripReferrer: lower-cases ASCII letters only, because Unicode case mapping is a library table.
- Aggregates.PercentagesSumToHundred: percentages are exact reals, not float64.
- Aggregates.GetBreakdown: percentages are exact reals, not float64.
