# RatesAssist verification

A Dafny model of the parts of RatesAssist whose correctness is an argument and not a reading: the tamper-evident audit
log, the CSV writer and importer, polygon overlap, and the stateful protocols of the web tier. Each module follows one
source file or component, in that file's own form: functions where the source computes, methods with loops and classes
with fields where it works step by step, and lemmas about the functions those methods are proved against.

`dafny verify dfyconfig.toml` checks everything.

| modules | what they model |
|---|---|
| `Options`, `Sequences`, `Numbers`, `JsText`, `JsNumber`, `Json`, `NumberReader`, `JsonReader` | JavaScript strings (UTF-16 code units), `String(n)`, the canonical JSON printer, and a reader of RFC 8259 that reads back what they print |
| `AuditRow`, `AuditChain`, `TamperEvidence`, `MissingRows` | row hashes, the chain verifier, and what an accepted log proves of changed, deleted and evicted rows |
| `AuditLog`, `ChainHead`, `StoredAudit` | the two writers: the in-memory store, and the database writer that finds its chain head without an order; and what storing the snapshots as JSON does to the chain |
| `ChainOrder`, `ChainRecovery`, `OrderingShape`, `OrderVerdict` | recovering chain order by following hash links: what comes where, that a chain comes back, and what verifying the result decides |
| `Csv`, `CsvRoundTrip`, `CsvPlain`, `RatingRoll`, `RatingRow` | the CSV scanner, the CSV writer, and the rating-roll import |
| `PolygonClip`, `ClipArea`, `ClipHull`, `ClipRegion`, `ClipWinding`, `OverlapBox`, `ConvexRing`, `SqueezedRing`, `CornerTest` | Sutherland-Hodgman clipping over exact reals, the region it returns, the bounding-box fallback, and exactly when the corner test for a convex parcel is right |
| `RateLimit`, `Respawn` | the fixed-window limiter and the single-flight, limited respawn of the tool adapter, over whole runs |
| `TenementTiles`, `TenementPull` | tiling a bounding box, and the batched, cached, capped pull over the tiles |
| `Base64`, `SessionToken`, `SsoState` | base64url, signed session tokens, and the signed single-sign-on state |
| `Erasure`, `OwnerIndex` | erasing a data subject from two stores, and the single-pass indexes behind the owner guard |

## Modelling choices

- SHA-256 is an arbitrary function from texts to 64 lower-case hex digits, never assumed injective. A result that needs
  it reads "this holds, or these two different texts have one hash", and the two texts are always among those hashed
  for the logs at hand.
- A JavaScript number is its sign, its shortest decimal digits and the place of the point, from which `String(n)` is
  printed as Number::toString of ECMA-262 does; JSON strings are escaped as `JSON.stringify` does (section 7 of
  RFC 8259), lone surrogates included.
- Coordinates are exact reals.
- HMAC, UTF-8, `JSON.parse`, `Date.parse`, the tile service and the database's failures are parameters; what is assumed
  of them is a `requires` of the lemma that needs it.
- Protocols are state machines over their steps. Clocks do not run backwards; nothing else about timing is assumed.

## Where a promise needs a condition

- Re-ordering by hash links can hide a break when two rows share a `rowHash` (`ChainRecovery.DuplicateHashHidesBreak`).
  Short of a collision, some order of the rows verifies exactly when the hashes are distinct, as the unique index on the
  stored row hash demands, and the re-ordered rows verify (`OrderVerdict.OrderingDecides`).
- An audit row is hashed with its snapshots as the program holds them, and an undefined field is hashed as null, but the
  database keeps the snapshots as JSON, without that field. The log read back verifies exactly when no object in a
  snapshot has an undefined field (`StoredAudit.StoredLogVerifies`, `StoredAudit.UndefinedFieldLost`).
- A caller that waits for a spawn gets a dead handle exactly when the child died after it connected and before its
  handle was assigned (`Respawn.AwaiterGetsDeadExactly`, `Respawn.DeadOnArrival`).
- The tile cache is keyed by tile alone, while each fetch asks for at most min(2000, cap) records. A pull with one cap
  leaves another what it would have read exactly when every tile it stored fits both; a smaller cap can starve a larger
  one (`TenementPull.PullAgainReadsSame`, `TenementPull.LargerCapServes`, `TenementPull.SmallerCapStarves`). A larger
  one changes a smaller one's result only through a tile that repeats an id before the cap is reached
  (`TenementPull.LargerTileServes`, `TenementPull.RepeatedIdServesMore`).
- The bounding-box fallback holds everything the exact clip returns exactly when the parcel does not lie on one line,
  and its "no overlap" means no area unless the parcel is a single point (`OverlapBox.FallbackCoversClip`,
  `OverlapBox.NoFallbackNoArea`).
- The corner test for a convex parcel accepts a pentagram, and a simple dart that is closed at its inner corner, since
  it never sees the corner where a closed ring repeats its first vertex (`ConvexRing.PentagramPasses`,
  `CornerTest.DartPasses`). A closed ring that passes it, and meets no other vertex twice, is convex exactly when the
  corner at the closing vertex turns the same way and the ring goes out and comes back once; an open ring exactly when
  it goes out and comes back once. For any ring, repeated neighbours and all, the same two conditions on the ring
  without them say that it is convex and passes its least vertex once (`CornerTest.ClosedRingConvex`,
  `CornerTest.OpenRingConvex`, `CornerTest.ConvexExactly`).
- The limiter admits at most `2 * max - 1` calls in any closed minute, one less than two full windows, and some runs
  reach it. Its keys are unambiguous exactly for callers without a bar in scope and tenant, and, against the comment
  that they never collide, an address spelled like a composite key is one (`RateLimit.KeyAloneAmongPlain`,
  `RateLimit.KeyAloneAmongAll`, `RateLimit.RawAddressMeetsComposite`).
- `toCsv` then `parseCsv` gives the table back exactly when it has two columns, or one whose last cell is not blank, or
  no rows (`CsvRoundTrip.KeepsAll`); otherwise trailing blank rows are lost.
- The comment on `num` says a non-numeric cell of the rating roll reads as NaN. A cell of currency signs and commas alone
  reads as the empty text does, which JavaScript reads as zero (`RatingRow.SymbolsAreNoText`).
- Minting an SSO state throws exactly when the return path holds a character above U+00FF that is not a lone
  surrogate, and a minted state verifies only if the escaped path and the time take up at most 2989 characters: a path
  of 512 characters with many control characters does not, and its state is refused at once
  (`SsoState.ControlPathRefused`).
- The database erasure treats a row as done when its contact fields are tombstones, and does not look at
  `previousOwners`: an already tombstoned row with previous owners keeps them, where the in-memory store would clear
  them (`Erasure.ReachedAreTombstones` says exactly when they are gone).
- The comment on `authoriseErasure` says a platform administrator may still proceed against database rows of an owner
  with an empty footprint. The code targets no tenant then, and the rows stay (`Erasure.UnlistedOwnerKeepsRows`).
- The fourth backoff delay of the respawn table is never reached.
- A bucket of the single-pass indexes equals the linear scan exactly when no element names its key twice; the owner
  guard's decision is the same either way.

## Model

| member | source | states |
|---|---|---|
| NumberReader.ReadsBack | packages/audit-core/src/index.ts:85-90 | What `String(n)` prints is a decimal number of the JSON grammar whose value is n, in each of the four layouts. |
| NumberReader.ShowInjective | packages/audit-core/src/index.ts:85-90 | Two numbers print alike only if they are the same number. |
| JsText.LessIsFirstDifference | packages/audit-core/src/index.ts:98-98 | The order of keys and ids: a text comes before another if, at the first place where they differ, it ends or has the smaller unit. |
| JsonReader.TextReadsBack | packages/audit-core/src/index.ts:85-109 | The canonical text of a value is JSON: reading it gives an equal value, with the keys of every object in ascending order and nothing null-like but null. |
| JsonReader.CanonicalText | packages/audit-core/src/index.ts:85-109 | Canonicalisation is unambiguous: two values have the same text if and only if they agree up to key order and up to reading undefined and non-finite numbers as null, at any nesting and for any strings. |
| Json.StringifyPaired | packages/audit-core/src/index.ts:85-109 | The text never holds a lone surrogate, whatever strings the value holds. |
| AuditRow.CanonicalBody | packages/audit-core/src/index.ts:78-80 | The hashed text of two rows is the same if and only if their thirteen fields are the same, snapshots up to key order. |
| AuditChain.VerifyChain | packages/audit-core/src/index.ts:152-191 | The looping multi-tenant verifier accepts exactly the logs in which each tenant's non-sentinel rows chain from its genesis hash; otherwise it names the least prefix that fails, with two hashes that differ. |
| AuditChain.VerdictSound | packages/audit-core/src/index.ts:152-191 | Intact if and only if accepted; a break at i means the first i rows are accepted and the first i + 1 are not. |
| TamperEvidence.HeadBindsHistory | packages/audit-core/src/index.ts:65-120 | Two accepted logs with the same head hash for a tenant hold the same rows of that tenant, of whatever lengths, or the texts hashed for the two logs hold a collision. |
| TamperEvidence.ChainHashesDistinct | packages/audit-core/src/index.ts:112-120 | Along an accepted chain no hash repeats and none is the genesis hash, or the log holds a collision. |
| TamperEvidence.TamperLocalised | scripts/dr-audit-restore-drill.ts:383-399 | Rewriting any one row's body, to another tenant's even, is reported at exactly that row, with the hashes that differ, unless the body is the same up to key order or its text collides with the old one. |
| MissingRows.DeletionNoticed | scripts/dr-audit-restore-drill.ts:370-373 | Deleting rows anywhere from an accepted log goes unnoticed by the verifier if and only if, for every tenant, what is gone is the end of its chain, or the log holds a collision. |
| MissingRows.HeadPinsRows | scripts/dr-audit-restore-drill.ts:370-373 | If the log left verifies and a tenant's head hash is unchanged, none of the tenant's rows is missing, or the log holds a collision. |
| AuditLog.AuditStore.ReadChainOrdered | packages/adapter-demo/src/audit/inMemoryAuditStore.ts:178-188 | The store returns the newest rows of the tenant among its newest 10000 entries, oldest first. |
| AuditLog.WindowIsNewest | packages/adapter-demo/src/audit/inMemoryAuditStore.ts:178-188 | That is as many of them as were asked for, but at least one, or all if there are no more; always the last ones. |
| MissingRows.EvictionBreaksAtStart | packages/adapter-demo/src/audit/inMemoryAuditStore.ts:33-38 | That window verifies if and only if it is empty or holds all the tenant's rows; otherwise it breaks at its first row against the genesis hash, or the log holds a collision. |
| AuditLog.AuditStore.Append | packages/adapter-demo/src/audit/inMemoryAuditStore.ts:104-135 | Appending writes the row that extends the tenant's chain; the buffer is always the newest 10000 rows of everything written. |
| AuditLog.WrittenIsAccepted | packages/adapter-demo/src/audit/inMemoryAuditStore.ts:104-135 | However tenants interleave, a log written by appending is accepted. |
| AuditLog.VerifierMeetsWriter | packages/audit-core/src/index.ts:152-191 | A log without legacy rows verifies if and only if some sequence of appends writes it. |
| AuditLog.TenantsVerifiedApart | packages/audit-core/src/index.ts:152-191 | An interleaved log is accepted if and only if each tenant's own rows are. |
| AuditLog.SentinelsNeverMatter | packages/audit-core/src/index.ts:152-191 | Deleting the sentinel rows never changes whether a log is accepted. |
| ChainHead.UnreferencedIsHead | packages/db/src/audit.ts:221-239 | A row of the tenant that no other row was chained onto carries the tenant's head hash. |
| ChainHead.HeadIsUnreferenced | packages/db/src/audit.ts:221-239 | As soon as the tenant has a chain its last row is such a row, or the log holds a collision. |
| ChainHead.AuditTable.ReadChainHead | packages/db/src/audit.ts:221-239 | The head query returns an unreferenced row, and returns none only if there is none. |
| ChainHead.AuditTable.Append | packages/db/src/audit.ts:248-310 | Whatever order the table is stored in and wherever the new row lands, the row written is the one that extends the chain, and the log stays accepted, or it holds a collision. |
| StoredAudit.SnapshotSurvives | packages/db/src/audit.ts:270-302 | A snapshot written as JSON and read back has the same hashed text if and only if no object in it, at any depth, has an undefined field. |
| StoredAudit.UndefinedFieldLost | packages/db/src/audit.ts:270-302 | An object with an undefined field is a snapshot whose text changes. |
| StoredAudit.StoredLogVerifies | packages/db/src/audit.ts:256-303 | A log that verified as written verifies as read back from the database if and only if no chained row's snapshots have an undefined field, or its hashed texts hold a collision. |
| ChainOrder.OrderByChainLinkage | packages/audit-core/src/index.ts:239-295 | The map, set and cursor loop computes the ordering the lemmas below are about, and terminates. |
| OrderingShape.OrderedIs | packages/audit-core/src/index.ts:239-295 | The result is the legacy rows ascending by occurredAt and id, the walk from the anchor, and all other rows ascending. The anchor is the genesis hash if a row extends it, else what the earliest head extends; each row of the walk is the first fetched that extends the hash before it, no hash comes twice, and the walk ends only where it must. |
| OrderingShape.SortKeepsTies | packages/audit-core/src/index.ts:198-206 | The tie-break sort is stable. |
| ChainRecovery.OrderingKeepsRows | packages/audit-core/src/index.ts:239-295 | With distinct hashes the result is a permutation of the input. |
| ChainRecovery.OrderingIgnoresFetchOrder | packages/audit-core/src/index.ts:239-295 | If no two rows share a prevHash, every order of the input gives the same result. |
| ChainRecovery.ChainRecovered | packages/audit-core/src/index.ts:239-295 | Any shuffle of a chain, or of a window cut out of one, comes back in chain order, legacy rows first. |
| ChainRecovery.OrderingIsFaithful | packages/audit-core/src/index.ts:239-295 | For rows of one tenant with distinct hashes, none of them the genesis hash, verifying the re-ordered rows succeeds if and only if some permutation of the rows verifies, whatever collides. |
| OrderVerdict.OrderingDecides | packages/audit-core/src/index.ts:152-295 | For any rows of one tenant: some permutation verifies if and only if the row hashes are distinct and the re-ordered rows verify, or the rows' hashed texts hold a collision. |
| ChainRecovery.OrderingIdempotent | packages/audit-core/src/index.ts:239-295 | Ordering an ordered list changes nothing. |
| ChainRecovery.DuplicateHashHidesBreak | packages/audit-core/src/index.ts:256-281 | Without distinct hashes the ordering can drop a forged row, so a set that verifies in no order verifies after it. |
| Csv.ParseCsv | packages/contract/src/csvSchema.ts:128-197 | The character loop returns what the scanner's state machine defines, trailing blank rows removed. |
| Csv.MarkIgnored | packages/contract/src/csvSchema.ts:128-133 | One byte order mark at the start of the text is not part of the table. |
| Csv.SpacesAre | packages/contract/src/csvSchema.ts:253-253 | What `trim` removes, code point by code point. |
| CsvRoundTrip.ToCsv | apps/web/lib/api-helpers.ts:256-285 | The loops over headers, records and cells write the table of the records, every field quoted. |
| CsvRoundTrip.HeadersAreTheKeys | apps/web/lib/api-helpers.ts:256-274 | The header row is the union of the records' keys, each once; later records only append. |
| CsvRoundTrip.NewKeysInOrder | apps/web/lib/api-helpers.ts:256-267 | New keys of a record become headers in the record's own order. |
| CsvRoundTrip.CellsInPlace | apps/web/lib/api-helpers.ts:268-280 | The cell of a record under a header is the text of the record's own value for that key, and empty if it has no such key or the value is undefined or null. |
| CsvRoundTrip.SmallTable | apps/web/lib/api-helpers.ts:268-285 | The bytes of a small table: every field quoted, quotes doubled, commas between, CR LF after each line. |
| CsvRoundTrip.RoundTrip | apps/web/lib/api-helpers.ts:256-285 | Parsing what was written gives the header row and the coerced rows, for cells with any quotes, commas, line ends or byte order marks, if and only if the table has no trailing row the scanner would strip. |
| CsvPlain.ScannerIsSplitting | packages/contract/src/csvSchema.ts:128-197 | On text without quotes the scanner is line splitting (CR, LF and CR LF alike), comma splitting, and trailing-blank stripping. |
| RatingRoll.ParseRatingRollCsv | packages/contract/src/csvSchema.ts:222-301 | Empty text, too few rows, the first missing header, or the rows and errors of the data rows in source order. |
| RatingRoll.ColumnsExactly | packages/contract/src/csvSchema.ts:228-237 | A known header is found in the last column that normalises to it, and an unknown one nowhere. |
| RatingRoll.FirstMissingExactly | packages/contract/src/csvSchema.ts:238-242 | The import stops at the first required header that no column has. |
| RatingRoll.TrimExactly | packages/contract/src/csvSchema.ts:254-271 | Trimming takes white space off both ends, all of it and nothing else. |
| RatingRoll.LandsInPlace | packages/contract/src/csvSchema.ts:249-301 | A row's result stands in its list right after the results of the rows before it. |
| RatingRoll.EveryRowAccounted | packages/contract/src/csvSchema.ts:249-301 | Every data row is blank, accepted or reported, and exactly one of these; the counts add up; error rows are in range and strictly ascend. |
| RatingRow.TextsByName | packages/contract/src/csvSchema.ts:254-286 | Each text field of the candidate is the trimmed cell under the header that names it, an optional one only if that cell is not blank. |
| RatingRow.NumbersByName | packages/contract/src/csvSchema.ts:262-294 | So is each number, read from the cell under its own header. |
| RatingRow.CleanedExactly | packages/contract/src/csvSchema.ts:204-205 | Of a number's text all units count but currency signs, commas and white space. |
| RatingRow.UnspacedExactly | packages/contract/src/csvSchema.ts:269-272 | Of a business number's text all units count but white space. |
| RatingRow.NumReads | packages/contract/src/csvSchema.ts:199-208 | A cell is read by its text without currency signs, commas and white space, wherever they stand, and is NaN when it is blank. |
| RatingRow.SymbolsAreNoText | packages/contract/src/csvSchema.ts:199-208 | A cell of nothing but such characters is NaN only if it is blank; otherwise it is what the host reads the empty text as. |
| RatingRow.ExtraCellsIgnored | packages/contract/src/csvSchema.ts:244-301 | Cells beyond the known columns never change a row's candidate or fate, except that they keep a blank row from being skipped. |
| PolygonClip.IntersectBySides | apps/web/lib/polygonClip.ts:90-99 | The crossing divides the segment in the ratio of its ends' signed distances to the edge, and is missing exactly when those are equal. |
| PolygonClip.IntersectCuts | apps/web/lib/polygonClip.ts:80-99 | A segment with one end inside is cut on the edge's line, between its ends. |
| PolygonClip.CrossingsExist | apps/web/lib/polygonClip.ts:90-99 | `intersect` never returns null on the calls the clipping loop makes. |
| PolygonClip.Wrap | apps/web/lib/polygonClip.ts:153-160 | The next and previous vertices used throughout are the source's modular indices. |
| PolygonClip.ToCcw | apps/web/lib/polygonClip.ts:124-133 | The accumulating loop returns the ring or its reverse by the sign of the shoelace sum. |
| PolygonClip.ShoelaceArea | apps/web/lib/polygonClip.ts:66-75 | The loop returns half the absolute shoelace sum, zero for fewer than three points. |
| PolygonClip.SutherlandHodgmanClip | apps/web/lib/polygonClip.ts:144-173 | The nested loops compute one pass per edge of the counter-clockwise clip ring. |
| PolygonClip.ClipContained | apps/web/lib/polygonClip.ts:144-173 | Every returned vertex is inside every edge of the counter-clockwise clip ring and inside every half-plane that holds the subject. |
| PolygonClip.WhollyInside | apps/web/lib/polygonClip.ts:144-173 | A subject inside every edge is returned as the counter-clockwise subject. |
| ClipArea.PassConservesArea | apps/web/lib/polygonClip.ts:149-171 | For any ring, convex or not, the signed areas of a pass against an edge and of the pass against its reverse add up to the area of the ring. |
| ClipArea.ClipConservesArea | apps/web/lib/polygonClip.ts:144-173 | Over a whole clip, what is kept and what each edge cuts off add up to the subject's area. |
| ClipHull.CcwArea | apps/web/lib/polygonClip.ts:124-133 | Re-orienting a ring makes its signed area the absolute value of what it was. |
| ClipHull.InsideAllIsInHull | apps/web/lib/polygonClip.ts:80-83 | A point inside every edge of a ring that does not lie on one line is in every half-plane that holds the ring; convexity is not needed. |
| ClipHull.ClipInHulls | apps/web/lib/polygonClip.ts:144-173 | Every returned vertex lies in every half-plane that holds the subject, and in every half-plane that holds the clip ring if that does not lie on one line. |
| ClipHull.InnerVertexKept | apps/web/lib/polygonClip.ts:144-173 | A vertex of the subject inside every edge of the clip ring is always returned. |
| ClipHull.LineKeepsAll | apps/web/lib/polygonClip.ts:144-173 | A clip ring on one line keeps every vertex of the subject on that line, however far away. |
| ClipRegion.PassLosesNothing | apps/web/lib/polygonClip.ts:149-171 | A pass loses no point that is inside every edge of the ring and inside the pass's edge, for any ring. |
| ClipRegion.ClipLosesNothing | apps/web/lib/polygonClip.ts:144-173 | A point inside every edge of the subject and of the clip ring, both counter-clockwise, is inside every edge of the result, for any rings. |
| ClipRegion.ClipIsIntersection | apps/web/lib/polygonClip.ts:144-173 | For a convex subject and a result that does not lie on one line, the points inside the result are exactly those inside both rings. |
| ClipWinding.PassKeepsWinding | apps/web/lib/polygonClip.ts:149-171 | For any ring, a pass keeps how often the ring winds round each point strictly inside the pass's edge. |
| ClipWinding.ClipWinds | apps/web/lib/polygonClip.ts:144-173 | For any subject, convex or not, the result winds round a point strictly inside every edge of the clip ring as often as the counter-clockwise subject does, and round a point outside one of them not at all. |
| ClipWinding.ReversedWinds | apps/web/lib/polygonClip.ts:124-133 | Reversing a ring negates how often it winds round a point. |
| ClipWinding.InsideIsWound | apps/web/lib/polygonClip.ts:80-83 | A ring winds at least once round a point strictly inside all its edges. |
| OverlapBox.IsConvex | apps/web/lib/polygonClip.ts:105-121 | True if and only if there are three points, all corners turn one way, and some corner turns. |
| OverlapBox.BoundingBox | apps/web/lib/polygonClip.ts:176-190 | The least box that holds the ring: every side is touched. |
| OverlapBox.OverlapStats | apps/web/lib/polygonClip.ts:201-241 | No overlap for short rings; the clip for a parcel whose corners turn one way, if it has three vertices; otherwise the corners of the intersection of the two bounding boxes; either only if it has area, with the area and its share of the parcel's. |
| OverlapBox.ReportIsShare | apps/web/lib/polygonClip.ts:227-241 | What is reported is the ring, its area, and that area's share of the parcel: positive, and at most 100 percent exactly if the overlap is no larger than the parcel; nothing without area. |
| OverlapBox.CornersEnclose | apps/web/lib/polygonClip.ts:220-226 | The fallback ring encloses exactly the points of the box, counter-clockwise, and the box's area. |
| ConvexRing.OneSweepIsConvex | apps/web/lib/polygonClip.ts:100-121 | A ring whose corners turn one way and that goes out once and comes back once is convex: every vertex is inside every edge of the counter-clockwise ring. |
| ConvexRing.PentagramPasses | apps/web/lib/polygonClip.ts:100-121 | A pentagram passes the corner test and is not convex. |
| CornerTest.DartPasses | apps/web/lib/polygonClip.ts:100-121 | A simple closed ring, a dart, passes the corner test and is not convex. |
| SqueezedRing.SqueezedAlike | apps/web/lib/polygonClip.ts:100-121 | A ring that is not on one line has the points, the edges, the area and the convexity of the ring that writes repeated neighbours, the closing vertex included, once. |
| CornerTest.CornersDecide | apps/web/lib/polygonClip.ts:100-121 | A ring without repeated neighbours that is not on one line is convex and passes its least vertex once if and only if its corners turn one way and it goes out and comes back once. |
| CornerTest.ConvexExactly | apps/web/lib/polygonClip.ts:100-121 | Every ring that is not on one line, closed or not, is convex and passes its least vertex once if and only if the corners of the squeezed ring turn one way and it goes out and comes back once. |
| CornerTest.OpenRingConvex | apps/web/lib/polygonClip.ts:100-121 | A ring that passes the corner test and meets no vertex twice is convex if and only if it goes out and comes back once. |
| CornerTest.ClosedRingConvex | apps/web/lib/polygonClip.ts:100-121 | A closed ring that passes the corner test, and meets no vertex twice but the closing one, is convex if and only if the corners of the ring without its last point turn one way and it goes out and comes back once. |
| OverlapBox.FallbackCoversClip | apps/web/lib/polygonClip.ts:212-231 | For every tenement the fallback box holds every vertex the exact clip would return, if and only if the parcel does not lie on one line. |
| OverlapBox.LineParcelMisses | apps/web/lib/polygonClip.ts:212-231 | For any parcel on one line there is a triangle whose exact clip keeps a corner outside the parcel's box. |
| OverlapBox.NoFallbackNoArea | apps/web/lib/polygonClip.ts:212-231 | When the fallback reports no overlap the exact clip has no area, if and only if the parcel has two different points or the tenement has no area. |
| RateLimit.Limiter.Consume | apps/web/lib/rate-limit.ts:71-81 | A call's outcome is the run's, the buckets stay those of the run, and no other key's bucket changes. |
| RateLimit.AtMostTwoWindows | apps/web/lib/rate-limit.ts:71-81 | In every run with a fixed max, any closed 60-second interval admits at most 2 max - 1 calls for a key. |
| RateLimit.BoundReached | apps/web/lib/rate-limit.ts:71-81 | For every max some run admits exactly that many. |
| RateLimit.RefusedExactlyWhenFull | apps/web/lib/rate-limit.ts:78-80 | A call is refused if and only if its key's window is still open and max calls were admitted since it opened; the reset time is that window's end. |
| RateLimit.KeysIsolated | apps/web/lib/rate-limit.ts:71-81 | A key's outcomes are those of the run with all other keys' calls removed. |
| RateLimit.CompositeKeysDistinct | apps/web/lib/rate-limit.ts:95-117 | For scopes and tenants without a bar, two composite keys are equal if and only if scope, tenant (up to the default) and address are, and none is a process-wide key. |
| RateLimit.PipesConfuseKeys | apps/web/lib/rate-limit.ts:95-103 | With a bar in the tenant, or in the scope, two different callers share a key. |
| RateLimit.KeyAloneAmongPlain | apps/web/lib/rate-limit.ts:95-103 | Among callers without a bar in scope and tenant, a caller's key is its own if and only if it has no bar in scope and tenant either. |
| RateLimit.KeyAloneAmongAll | apps/web/lib/rate-limit.ts:95-103 | Among all callers a key is its caller's own if and only if scope, tenant and address hold no bar. |
| RateLimit.RawAddressMeetsComposite | apps/web/lib/rate-limit.ts:84-103 | An address used as a key by itself is some composite key if and only if it is spelled like one: `c|` and two more bars. |
| Respawn.McpClient.RecordRespawn | apps/web/lib/mcp-client.ts:114-127 | The shifting loop drops the attempts older than the window, and records this one if fewer than three are left. |
| Respawn.McpClient.GetLive | apps/web/lib/mcp-client.ts:158-184 | The object stays in the state of the run with this call added, and the reply is the run's: the live handle, the spawn in flight, a new spawn with its delay, or a refusal. |
| Respawn.CallIsServed | apps/web/lib/mcp-client.ts:158-184 | In any run a call is answered with a handle if and only if that handle was the last to be assigned and has not died, and then nothing changes; otherwise it is given the spawn in flight, and starts one if and only if there is none and fewer than three attempts lie in the last 30 seconds. |
| Respawn.McpClient.MarkDead | apps/web/lib/mcp-client.ts:147-153 | The object stays in the state of the run with this death added: the handle is dead, and is dropped if it is the live one. |
| Respawn.DiesAfterConnect | apps/web/lib/mcp-client.ts:143-153 | Only a handle that a spawn connected earlier in the run can die. |
| Respawn.McpClient.Connect | apps/web/lib/mcp-client.ts:129-156 | The spawn's transport connected: the object stays in the state of the run, and the spawn holds a handle not used before. |
| Respawn.McpClient.Assign | apps/web/lib/mcp-client.ts:174-182 | The spawn's handle becomes the live one and the value of its promise, and the object stays in the state of the run. |
| Respawn.McpClient.Fail | apps/web/lib/mcp-client.ts:174-182 | The spawn's promise is rejected and cleared, and the object stays in the state of the run. |
| Respawn.OneSpawnInFlight | apps/web/lib/mcp-client.ts:129-184 | In every interleaving of callers, spawn steps, failures and deaths at most one spawn is in flight, and the shared promise is that spawn's. |
| Respawn.AttemptsLimited | apps/web/lib/mcp-client.ts:114-127 | Any closed 30-second interval of any run holds at most three attempts. |
| Respawn.RunRemembers | apps/web/lib/mcp-client.ts:114-127 | In every run the history is the sorted tail of all attempts, and any attempt and the third after it are more than 30 seconds apart. |
| Respawn.RefusedExactlyAtLimit | apps/web/lib/mcp-client.ts:114-163 | A caller is refused if and only if nothing is live or in flight and three attempts lie in the last 30 seconds; a refusal leaves the state as it was. |
| Respawn.DelayByRecentAttempts | apps/web/lib/mcp-client.ts:165-175 | The backoff index is in bounds: a spawn waits 0, 1 or 2 seconds by the number of earlier attempts in the last 30 seconds. |
| Respawn.ReadyIsAlive | apps/web/lib/mcp-client.ts:147-160 | A caller answered at once never gets a handle that has died. |
| Respawn.AwaiterGetsDeadExactly | apps/web/lib/mcp-client.ts:143-184 | A caller told to await a spawn waits until that spawn fails, and is rejected, or assigns its handle, and gets that handle; the handle is dead then if and only if it died before it was assigned. |
| Respawn.DeadOnArrival | apps/web/lib/mcp-client.ts:143-184 | There is such a run: a child that dies between connecting and being assigned is handed to its waiting caller dead, and the next caller is not given it. |
| TenementTiles.TileBbox | scripts/dmirs-lga-pull.ts:225-239 | The nested loops push the tiles column by column. |
| TenementTiles.TilesPartition | scripts/dmirs-lga-pull.ts:225-239 | Every point of the half-open box lies in exactly one tile, and every other point in none. |
| TenementTiles.TilesAcceptable | scripts/dmirs-lga-pull.ts:217-239 | No tile is empty, and none exceeds 0.64 square degrees. |
| TenementPull.TileCache.PullTenements | scripts/dmirs-lga-pull.ts:249-369 | Batches, cache, de-duplication and cap together return the first maxTotal distinct-id features of the tiles in tile order, each tile read for the records this cap asks for. The pull fails exactly when a batch it still needs holds an unreachable tile, with everything before the first such tile stored; otherwise it fetches exactly the uncached tiles up to the first batch end at which the cap is reached, once, and stores them. |
| TenementPull.AnswersFirst | scripts/dmirs-lga-pull.ts:312-322 | A fetched tile gives the first of its features, all of them if there are no more than the cap and 2000. |
| TenementPull.StopsAtFirstFull | scripts/dmirs-lga-pull.ts:294-302 | A tile is fetched only in a batch that starts before the cap is reached. |
| TenementPull.TileCache.FetchBatch | scripts/dmirs-lga-pull.ts:304-349 | A failure in a batch surfaces at its first unreachable tile, and the answers before it are stored; without one all answers are returned in order and stored. It is only called with at most eight tiles. |
| TenementPull.TileCache.NextBatch | scripts/dmirs-lga-pull.ts:297-302 | A batch is the next tiles up to the eighth uncached one, and its fetches are exactly the uncached ones among them. |
| TenementPull.BatchBounded | scripts/dmirs-lga-pull.ts:297-302 | No batch takes more than eight uncached tiles. |
| TenementPull.DistinctKeepsFirsts | scripts/dmirs-lga-pull.ts:354-365 | A feature is kept if and only if it is the first with its id. |
| TenementPull.DistinctIdsDiffer | scripts/dmirs-lga-pull.ts:354-365 | No two kept features share an id. |
| TenementPull.CacheInvisible | scripts/dmirs-lga-pull.ts:274-317 | Whatever tiles are cached by pulls with one cap, a pull with another cap reads what it would without a cache if and only if every cached tile fits: both caps ask for the same number of records, or the tile has no more than either. |
| TenementPull.PullAgainReadsSame | scripts/dmirs-lga-pull.ts:274-349 | After a pull that consults the cache, a later pull with any cap reads what it would have read before, if and only if every tile newly stored fits both caps; caps that ask for the same number of records always do. |
| TenementPull.LargerCapServes | scripts/dmirs-lga-pull.ts:312-349 | If no tile lists an id twice, tiles stored by a pull that asks for at least as many records never change another pull's result. |
| TenementPull.LargerTileServes | scripts/dmirs-lga-pull.ts:312-365 | A tile stored for more records leaves a one-tile pull's result as it was if and only if the records the pull asks for hold as many ids as its cap, or all the ids that are stored. |
| TenementPull.RepeatedIdServesMore | scripts/dmirs-lga-pull.ts:354-365 | A tile that lists an id twice and then another, stored for three records, gives a pull of two one feature more. |
| TenementPull.SmallerCapStarves | scripts/dmirs-lga-pull.ts:312-349 | For every two caps of which the first asks for fewer records, there is a tile for which the second pull gets only what the first stored, although the service has more. |
| TenementPull.FailureNeedsUnreachable | scripts/dmirs-lga-pull.ts:325-331 | A pull fails only on an uncached tile the service cannot give. |
| TenementPull.NeededTileFails | scripts/dmirs-lga-pull.ts:325-331 | An unreachable tile before the cap is reached always fails the pull. |
| Base64.B64urlFromBytes | apps/web/lib/auth.ts:74-79 | The loop and the replacements give the url-safe encoding. |
| Base64.BytesFromB64url | apps/web/lib/auth.ts:81-87 | The padding, `atob` and the filling loop give the decoding, or fail. |
| Base64.EncodeAlphabet | apps/web/lib/auth.ts:74-79 | Encoded text has no dot, plus, slash or equals sign, and its length depends on the byte count alone. |
| Base64.DecodeEncode | apps/web/lib/auth.ts:74-87 | Decoding undoes encoding for every byte sequence. |
| Base64.AlphabetExactly | apps/web/lib/auth.ts:74-87 | The alphabet is that of RFC 4648, and decoding gives a unit a value exactly if encoding uses it for that value. |
| Base64.BlanksExactly | apps/web/lib/auth.ts:81-87 | Decoding first drops tabs, line feeds, form feeds, carriage returns and spaces, and nothing else. |
| SessionToken.TokenParts | apps/web/lib/auth.ts:148-167 | A signed token splits into exactly its three parts. |
| SessionToken.SignVerify | apps/web/lib/auth.ts:148-200 | A signed session verifies to itself if it is plausible and unexpired, and to nothing otherwise. |
| SessionToken.AcceptedExactly | apps/web/lib/auth.ts:165-200 | A token is accepted as a session if and only if it has three parts, the last decodes to the code of the first two, the first is a token header, and the middle one decodes to that session, with all its fields and not expired. |
| SessionToken.ForgedIsRefused | apps/web/lib/auth.ts:165-200 | A signed token with another header or payload is refused, or the two signed texts have one code. |
| SsoState.ConstantTimeEq | apps/web/lib/workos.ts:475-482 | The accumulating comparison is equality. |
| SsoState.BitsOf | apps/web/lib/workos.ts:475-482 | The two operators it uses are exclusive and inclusive or, bit by bit. |
| SsoState.SanitizeNext | apps/web/lib/workos.ts:489-497 | The path kept starts with a slash and has at most 512 units. |
| SsoState.SanitizedExactly | apps/web/lib/workos.ts:489-497 | A path is kept if and only if it starts with exactly one slash, has no CR or LF, and at most 512 units; anything else becomes a slash. |
| SsoState.MintThrowsExactly | apps/web/lib/workos.ts:383-386 | Minting fails if and only if the kept path holds a unit above U+00FF that is not a lone surrogate. |
| SsoState.MintVerify | apps/web/lib/workos.ts:411-473 | A minted state verifies to its payload if and only if the escaped path and the decimal time take up at most 2989 units together and it comes back within five minutes, or at most one minute early. |
| SsoState.AcceptedExactly | apps/web/lib/workos.ts:411-473 | A state is accepted as a payload if and only if it has at most 4096 units, what follows its first dot is the encoded code of what precedes it, that decodes to the payload, and the payload is at most five minutes old and one minute ahead. |
| SsoState.ForgedIsRefused | apps/web/lib/workos.ts:411-473 | A minted code under another payload is refused, or the two payloads have one code. |
| SsoState.StateFits | apps/web/lib/workos.ts:440-440 | That bound is exactly the limit of 4096 units on the state. |
| SsoState.OrdinaryPathsFit | apps/web/lib/workos.ts:440-440 | A path without control characters and surrogates always stays within the bound. |
| SsoState.ControlPathRefused | apps/web/lib/workos.ts:440-440 | Some accepted paths give a state that is always refused for its length. |
| Erasure.ErasureService.EraseOwnerData | apps/web/lib/privacy-erasure.ts:234-365 | A refused or held request changes nothing; otherwise both stores and both logs are those of the erasure of all targets, or, when the database fails, of the targets before the first at which it does; the outcome says what changed. |
| Erasure.ErasureService.EraseOwnerRowsInDb | apps/web/lib/privacy-erasure.ts:409-537 | The loop over councils erases tenant by tenant, all of them or exactly those before the first at which the database fails. |
| Erasure.ErasureService.EraseOwnerInproc | packages/adapter-demo/src/inproc.ts:119-160 | The first record of the owner, wherever it stands, has its name, address, e-mail, phone and previous owners erased, every other record is as it was, and it is logged if and only if there was such a record with anything to erase. |
| Erasure.DistinctCodes | apps/web/lib/privacy-erasure.ts:142-159 | The footprint names each council of the owner's properties once. |
| Erasure.FootprintAscends | apps/web/lib/privacy-erasure.ts:142-159 | And in ascending order. |
| Erasure.AuthorisedExactly | apps/web/lib/privacy-erasure.ts:175-219 | Only a platform administrator, or a council administrator for an owner in its own council alone, is authorised; an owner on no visible property is not found for a council administrator, and everything else is forbidden. |
| Erasure.TargetsExactly | apps/web/lib/privacy-erasure.ts:274-277 | A platform administrator's erasure targets the whole footprint, anyone else's only its own council. |
| Erasure.RowsErasedExactly | apps/web/lib/privacy-erasure.ts:409-537 | Row by row: the subject's rows in the named tenants whose contact fields are not erased yet are shredded, every other row is as it was. |
| Erasure.ReachedAreTombstones | apps/web/lib/privacy-erasure.ts:440-449 | Afterwards every row of the subject in those tenants is a tombstone with its linkage kept; its previous owners are gone exactly when the row was not a tombstone already or had none. |
| Erasure.OneEntryPerChangedRow | apps/web/lib/privacy-erasure.ts:451-528 | The entries appended are for exactly the changed rows, one each, and hold only which fields were populated. |
| Erasure.RetryCompletes | apps/web/lib/privacy-erasure.ts:380-537 | However far a failing run got, repeating the request ends with the rows and log of one run that did not fail; after a success it changes and appends nothing. |
| Erasure.OwnersErasedOnce | packages/adapter-demo/src/data/index.ts:397-427 | Erasing in memory again changes nothing. |
| Erasure.CouncilAdminStaysHome | apps/web/lib/privacy-erasure.ts:175-219 | An authorised council administrator's erasure targets its own tenant only and changes no other tenant's row. |
| Erasure.UnlistedOwnerKeepsRows | apps/web/lib/privacy-erasure.ts:171-191 | For an owner on no visible property a platform administrator is authorised, and no database row changes. |
| OwnerIndex.IndexProperties | apps/web/lib/clients.ts:465-490 | One pass builds, for every owner and every rural suburb, the bucket of its properties in list order, and no empty bucket. |
| OwnerIndex.IndexTenements | apps/web/lib/clients.ts:455-465 | One pass builds, for every assessment, the bucket of the tenements that cross it, in list order. |
| OwnerIndex.BucketIsScan | apps/web/lib/clients.ts:455-490 | A bucket of the single pass is the order-preserving filter for its key if and only if no element names the key twice, whatever is indexed. |
| OwnerIndex.TenementBucketIsScan | apps/web/lib/clients.ts:455-465 | An assessment's bucket is the filter of the tenements that cross it if and only if no tenement lists it twice. |
| OwnerIndex.RuralBucketIsScan | apps/web/lib/clients.ts:481-488 | A suburb's bucket is always the filter of its rural properties. |
| OwnerIndex.IndexDecidesAlike | apps/web/lib/tool-tenant-scope.ts:275-322 | The guard decides the same through the index and through its linear fallback, for every property list. |
| OwnerIndex.GuardGrants | apps/web/lib/tool-tenant-scope.ts:275-322 | An ordinary caller is masked out if and only if the owner has no property in its council, and denied or redacted if and only if the owner also has property in another. |
| OwnerIndex.GuardDecides | apps/web/lib/tool-tenant-scope.ts:275-322 | The guard's decision for any caller: forbidden without permission, allowed for an administrator or an input without an owner, and for anyone else as above. |
| OwnerIndex.CouncilExactly | apps/web/lib/api-helpers.ts:379-387 | The council of an assessment number is the two to five capitals before its first hyphen, if it starts that way. |

## Left out

- TenementPull.TileCache.PullTenements: tiles are named by their place in tile order, so two tiles whose rounded coordinates give one cache file are not modelled; the service is taken to return the first records of a fixed list, an answer's retrieval time is not kept, and the fetcher's own cache within one process, also keyed without the record count, is left out.
- RatingRoll.ParseRatingRollCsv: header normalisation and the row schema are parameters, and so are `Number` and upper case in `RatingRow`, so which values the schema accepts is not modelled.
- AuditChain.VerifyChain: the verifier's input is rows with all their fields; reading them from storage is not modelled.
- OverlapBox.OverlapStats: the geodesic area is a parameter.
- CornerTest.ConvexExactly: a convex ring that passes its least vertex more than once, such as a triangle traversed twice, is not told from a ring that is not convex.
- ConvexRing.OneSweepIsConvex: only one direction; `CornerTest.CornersDecide` has both.
- ClipWinding.ClipWinds: nothing is said of points on an edge of the clip ring.
- StoredAudit.StoredLogVerifies: a snapshot that JSON or the database refuses, such as one with a bigint or a NUL character, is not written, and `toJSON` methods are not modelled.
- CsvRoundTrip.ToCsv: a key missing from a record reads as undefined; a header named like a property every object inherits would read that property.
- OverlapBox.BoundingBox: defined for rings with a point, since the fallback runs only on rings of three or more.
- RateLimit.AtMostTwoWindows: one process and one max per key; limits across instances and resets by tests are not modelled.
- Respawn.AttemptsLimited: closing the client on shutdown, which clears the state, is not a step of the runs.
- SessionToken.SignVerify: UTF-8, JSON text and HMAC are parameters; that JSON and UTF-8 give the header and the session back is assumed.
- SsoState.MintVerify: that parsing gives the printed payload back is assumed, and times are within what a Date can hold.
- Erasure.ErasureService.EraseOwnerData: the in-memory erasure cannot fail, request metadata is not part of an audit entry, and the cache invalidation at the end is not modelled.
- Erasure.OneEntryPerChangedRow: an entry is its tenant, actor, owner and projections; that the entries chain is the subject of `ChainHead`.
- Floating-point rounding in clipping and tiling: coordinates are exact reals.
- Concurrent writers of one tenant's chain: the database serialises them with a lock, and the model appends one row at a time.
- Cookies, request routing, roles and permissions tables, pagination and status codes: one branch of one function settles each.
- The recovery engine, the language-model tools and the user interface.
