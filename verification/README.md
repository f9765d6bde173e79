# Verified model of typst-mcp

typst-mcp renders Typst documents for tenants who send data over HTTP and MCP. This project
models the parts of it whose correctness is decided by its own code, and proves what they
promise:

- **Tenant store** (`src/store.rs`; `StoreModel`, `StoreSafety`, `StoreEvictions`, `StoreRecovery`,
  `StoreRuns`, `StoreRemoval`, `StoreRoots`, `Store`, `MapSums`): an in-memory index of rows and counters kept in step with a directory
  tree, under puts, failing puts, second files, deletes, reaping, eviction, restarts, crashes
  and concurrent removers.
- **Signing-key cache** (`src/oidc.rs`; `KeyCache`, `KeyCacheProtocol`): concurrent lookups with a
  short cache lock, a single-flight refresh lock, a negative cache and a failure backoff, as a
  step machine over a monotone clock in which any lookup can be dropped at any point.
- **Typst literals** (`src/typst_value.rs`; `TypstValues`, `TypstReader`, `TypstDates`): the printer
  that is the boundary between caller data and Typst code, with a reader for its output.
- **Generated entrypoint** (`src/templates.rs`; `Entrypoint`, `EntrypointSkeleton`,
  `EntrypointMeaning`, `EntrypointReading`, `EntrypointProblems`): data to arguments to source
  text, the lexer that tells code from string contents, and a reader of the whole file.
- **Source trees** (`src/templates.rs`, `src/bundle.rs`; `Paths`, `FileTrees`, `Bundles`,
  `SourceTrees`, `SourceRoundTrip`, `SourceProblems`, `Assembly`, `AssemblyProblems`): path
  validation, bundles, a template's round trip through its archive, and the assembly of a document
  with overrides and generated files.
- **OAuth broker** (`src/oauth_proxy.rs`; `OAuthBroker`, `OAuthRuns`, `OAuthRefusals`, `Traces`): authorize, callback
  and token with stateless signed blobs, over whole runs of interleaved flows.
- **Calendar** (`src/world.rs`; `Calendar`), **tenant ids** (`src/principal.rs`; `TenantIds`),
  **signed links** (`src/signing.rs`; `Signing`), **bounded streams** and **source maps**
  (`src/templates.rs`; `BoundedStreams`, `SourceMaps`), **preview sizes** (`src/compile.rs`;
  `Binary32`, `Previews`, `PreviewBudgets`): the pixel budget, under any rounding with the
  error of single precision and exactly in binary32.

`Wrappers`, `Words`, `Numerals`, `Texts`, `MapSums`, `FileTrees` and `Traces` hold what several of
them share.

## How to read it

Code that works step by step is a method or a class with the source's fields and loops; its
contract ties the result or the new state to a specification function, and the lemmas are about
that function. Libraries are function-valued parameters (`Codec`, `Library`, `Config`, `mac`,
`rnd`) with a `Lawful` or similar predicate that says all that is assumed of them.

Some promises turned out not to hold as stated. The code is modelled as it is, and the condition
under which the promise holds is proved. It is an exact one, checkable before the call, except
where this says otherwise:

- A payload whose stored name is `meta.json` is overwritten by its own metadata record. Disk and
  index disagree exactly when it is not empty (`MetadataNameBreaksAgreement`), and it reads back
  exactly when it equals the record (`PutThenRead`). No such payload touches the accounts: in
  every run the counters are exact, all ceilings hold and no payload escapes them
  (`EveryRunIsAccounted`). Agreement is lost only at the entry itself and only until the next
  start-up (`EveryRunAgrees`).
- A restart gives the same rows back exactly when disk and index agree, and then everything a
  caller or a quota can see (`RunThenRestart`), but not always the raw per-tenant byte table: a
  tenant left with empty rows only is no longer listed (`RestartRestoresByteTable`,
  `RemovalCanUnlistTenant`).
- A second file keeps its entry's timestamp, so a put can evict the entry it reports. Rows of the
  same second go in any order; a row survives every order, and some order, exactly under the two
  conditions of `SurvivesByChoice`, and so does the entry of a second file
  (`SecondFileEvictsItsOwnEntry`).
- A file put between the two halves of its entry's removal is orphaned (`UploadHalfwayOrphans`,
  `UploadDuringRemovalOrphans`); at every other time a put is safe (`UploadIsSafeExactly`). The counters and ceilings survive
  even that (`AccountsSurviveRemovals`).
- "At most once per interval" holds of finished fetches and of all starts but the dropped ones
  (`FetchesAreRateBounded`, `StartsAreRateBounded`); dropped lookups can start any number
  (`DroppedFetchesAreUnbounded`). An absent id can be reported although the newest key set has it
  (`NegativeCacheOutlivesRotation`): a look does so exactly when the id is still noted
  (`CachedIdReportedAbsent`), and in every run such an answer comes less than 30 seconds after
  the set (`FalseAbsenceIsBrief`).
- An `Ident` spelled `none`, `true` or `false` prints like another value (`LiteralRoundTrip`).
- String literals escape controls, separators, the byte order mark, quotes and backslashes, and
  nothing else (`LiteralShowsExactly`). The comments promise an allowlist that escapes every other
  format character too; a zero-width space and a right-to-left override pass
  (`FormatCharactersPass`).
- Argument names of a manifest are not checked. Caller text stays out of code exactly when the
  names keep quotes in order (`TextStaysOutOfCodeExactly`, `QuotedNameLeaks`). A call reads back as
  the caller's data exactly when the names it gives are identifiers (`CallPassesTheData`), and the
  whole file when its function is one too; the loader checks the function of a wrapper, not the
  one a data template may name (`ReadsExactly`). Two
  requests with the same source pass the same arguments when their names, place by place, are the
  same or hold no colon and space (`SourceDeterminesArguments`): always when they give the same
  fields, and under identifiers for any two (`NamesApart`, `IdentsAreOneNames`). This is
  sufficient only; `SwallowedNameConfuses` shows what such a name can do to requests that give
  different fields.
- `authorize` asks for no resource at all exactly when the client names both ours and a foreign
  one (`AuthorizeResourceExactly`), although a comment says only strangers' resources are dropped.
- An archive member that holds more than it declares is reported as one byte over the limit,
  whatever its size, because no more is read (`MemberProblemExactly`).
- The failure of `BoundedReader` is not sticky (`OverflowIsNotSticky`, `EndMeansWhole`).
- The comment in `src/bundle.rs` that two spellings can normalise to one path does not apply:
  paths are never rewritten (`PathIsKeptOrRefused`).
- Data is mounted as `data.json`, so a template that ships a file of that name can be uploaded
  but never assembled (`AssembledExactly`).
- The separator of `Principal::identity` can occur in an issuer. Two principals share an identity
  exactly when they are the same caller or one is the other shifted at such a NUL
  (`IdentityInjective`), and two issuers can be confused exactly when one begins with the other
  and a NUL (`IdentityCollidesOnNulIssuer`); with the single configured issuer this is harmless.
- Clamping does not make every preview fit its pixel budget. In binary32 it does exactly for the
  budgets that pass `SafeBudget`, a check of the budget alone (`BudgetsFitExactly`): all from 1 to
  4196352, not 4196353 (`EveryBudgetUpTo`), and not 5000000 (`FiveMillionFails`). Under any other
  rounding of the same accuracy budgets up to 4194303 are safe (`PreviewFits`). An unsafe budget
  costs an error message, since the prediction is checked again.
- The year is narrowed to 32 bits, harmlessly exactly on the days `CivilYearNarrowing` names.

## Model

| member | source | states |
|---|---|---|
| Store.Store.Open | src/store.rs:208-221 | opening a root yields what a rebuild of its readable entry directories yields |
| Store.MeasurePayload | src/store.rs:585-600 | the payload size of a directory is the sum over its files without the metadata record, unless it exceeds 64 bits |
| Store.ReadDirectory | src/store.rs:541-555 | a directory becomes a row exactly when its record reads and names it, and it holds nothing but files that can be counted; its size is recounted |
| StoreRoots.KeyAtExactly | src/store.rs:441-446 | the walk of a root finds an entry exactly where the store puts it |
| StoreRoots.KeysSeparate | src/store.rs:524-545 | no two places under the root are taken for the same entry |
| Store.Store.ScanRoot | src/store.rs:518-563 | the walk indexes exactly the complete directories with exact counters, deletes the others, and passes over what belongs to no entry |
| Store.Store.RebuildIndex | src/store.rs:518-567 | rows are the complete directories, cut oldest-first to the ceilings, and the disk holds just those |
| Store.Store.Install | src/store.rs:564-565 | a rebuilt index is cut to the ceilings and published; within them it is published as it is |
| Store.Store.RemoveFromIndex | src/store.rs:602-618 | removal updates rows, both tenant counters and the total as specified |
| Store.Store.EvictLocked | src/store.rs:496-512 | terminates without meeting an empty index, evicts oldest first, restores both ceilings, and does nothing when they hold |
| Store.Store.Oldest | src/store.rs:500-505 | finds a row no newer than any other |
| Store.Store.Admit | src/store.rs:250-276 | the quota decision, with its error cases in order |
| Store.Store.WriteFiles | src/store.rs:278-307 | directory, payload, record; an existing file or a failed write leaves at most an empty directory |
| Store.Store.PutWithId | src/store.rs:241-317 | a put commits whole or reports an error and changes no row; what follows is an eviction |
| Store.Store.Get | src/store.rs:323-343 | a read returns the stored bytes, or bad id, not found or expired, in that order |
| Store.Store.CheckLive | src/store.rs:448-464 | expired and missing rows are told apart |
| Store.Store.Remove | src/store.rs:489-493 | the directory and the row go |
| Store.Store.Delete | src/store.rs:369-374 | exactly a live entry is deleted, and returned |
| Store.Store.Reap | src/store.rs:377-395 | exactly the expired entries go, and they are counted |
| StoreModel.SafeNameStaysInside | src/store.rs:656-666 | a stored name has no separator and no leading dot, and is never empty |
| StoreModel.SafeNameKeeps | src/store.rs:656-666 | exactly a plain name that is not hidden is stored as it is |
| StoreModel.SafeNameDrops | src/store.rs:656-666 | any other character is left out, and changes nothing else |
| StoreModel.IdStaysInside | src/store.rs:631-649 | a valid id is a name of 30 plain characters, and tells its kind |
| StoreModel.MintedIdIsValid | src/store.rs:631-649 | ids are valid as they are minted |
| StoreSafety.WithoutRowExact | src/store.rs:602-618 | removal keeps all counters exact and no subtraction saturates |
| StoreSafety.WithRowExact | src/store.rs:309-314 | insertion keeps all counters exact |
| StoreSafety.EvictionStopsInTime | src/store.rs:496-499 | nothing is evicted once both ceilings hold |
| StoreSafety.EvictionWasNeeded | src/store.rs:496-512 | whatever was evicted, a ceiling was broken |
| StoreSafety.OldestGoesFirst | src/store.rs:496-512 | the strictly oldest row survives exactly when no eviction was needed |
| StoreSafety.NewestRowSurvives | src/store.rs:309-317 | a strictly newest row survives its put exactly when it fits the store alone |
| StoreEvictions.SurvivesByChoice | src/store.rs:496-512 | a row survives every order of rows of one second exactly when it fits with everything no older, and some order exactly when it fits with everything newer |
| StoreEvictions.SecondFileEvictsItsOwnEntry | src/store.rs:288-315 | when a second file's own entry is sure to survive, and when it can, exactly; without a tie the two are one |
| StoreSafety.RestartRestoresIndex | src/store.rs:518-567 | rebuilding gives back rows, totals, counts and per-tenant bytes |
| StoreSafety.RestartRestoresByteTable | src/store.rs:406-413 | the raw byte table comes back exactly when it lists every tenant with a row |
| StoreSafety.RemovalCanUnlistTenant | src/store.rs:605-610 | removing the last row with bytes unlists a tenant that still has rows |
| StoreRuns.NextKeepsAccounts | src/store.rs:241-317 | every operation and every crash keeps exact counters, all four ceilings, and every payload accounted for, whatever it is called |
| StoreRuns.EveryRunIsAccounted | src/store.rs:208-395 | so does every run of operations, failures, restarts and crashes from an empty root |
| StoreRuns.EveryRunAgrees | src/store.rs:208-395 | in every run disk and index agree on each entry, unless a payload that cannot be stored was accepted for it since the last start-up |
| StoreRuns.EveryRunIsGood | src/store.rs:208-395 | so a run without such payloads since then ends with disk and index in full agreement |
| StoreRuns.RunThenRestart | src/store.rs:514-567 | after any run a restart ends in agreement; rows are the same exactly when disk and index agreed, and then nothing changes that a caller or quota can see |
| StoreRecovery.CrashedPutRecovers | src/store.rs:278-307 | a crash anywhere in a put, whatever its payload is called, leaves a disk that starts up consistent and within limits |
| StoreRecovery.CrashedEraseRecovers | src/store.rs:489-493 | so does a crash anywhere in an erasure |
| StoreRecovery.MetadataNameBreaksAgreement | src/store.rs:285-307 | index and disk agree after a put exactly when the payload is not stored as `meta.json` or is empty |
| StoreRecovery.PutThenRead | src/store.rs:323-343 | a put reads back until it expires or is evicted, byte for byte exactly when it is not stored as `meta.json` or equals the record written there |
| StoreRecovery.PutIsAcceptedExactly | src/store.rs:250-285 | a put is accepted exactly when the tenant, with the upload counted in, stays within both its ceilings and the file is new; each refusal has its exact condition |
| StoreRecovery.FaultIsReported | src/store.rs:278-307 | a write error is reported where the put would have been accepted, and changes no row and no file |
| StoreRecovery.PutLivesForItsTtl | src/store.rs:88-94 | an entry is there until its kind's own time after its last put, to the second, for reads and for the reaper |
| StoreRecovery.PutIsRecorded | src/store.rs:288-314 | a first file makes the row; a later one adds its bytes, renews the expiry and changes nothing else |
| StoreRecovery.PutLeavesOtherEntries | src/store.rs:440-446 | a put changes no file of any other entry |
| StoreRecovery.PutLeavesSiblings | src/store.rs:240-285 | nor another file of its own entry |
| StoreRemoval.AccountsSurviveRemovals | src/store.rs:377-395 | with both halves of removal and any uploads interleaved, counters stay exact and all ceilings hold; with no upload halfway through a removal of its key, no payload is without a row |
| StoreRemoval.RemovalIsSafe | src/store.rs:489-493 | with safe uploads complete directories keep exact rows, and disk and index agree when no removal is pending |
| StoreRemoval.UploadIsSafeExactly | src/store.rs:241-317 | an accepted put keeps disk and index in step with pending removals exactly when its key is not between the halves of one, and its payload storable, or it evicts itself |
| StoreRemoval.UploadHalfwayOrphans | src/store.rs:489-493 | a put between the halves is on disk without a row once the removal finishes |
| StoreRemoval.UploadDuringRemovalOrphans | src/store.rs:489-493 | so is a second file of an entry of any good store |
| KeyCache.KeyState.InspectKeyState | src/oidc.rs:373-405 | one inspection: pruning, negative cache, cached key, interval, backoff, in the source's order |
| KeyCache.KeyState.RecordFetch | src/oidc.rs:304-322 | what a finished fetch publishes and answers |
| KeyCacheProtocol.RunKeepsInvariant | src/oidc.rs:284-324 | the invariant of every interleaving |
| KeyCacheProtocol.InspectionIsJustified | src/oidc.rs:373-405 | every answer of an inspection has a recent enough fetch behind it; no answer means a fetch may start |
| KeyCacheProtocol.AnswersAreBoundedlyStale | src/oidc.rs:284-324 | absence is less than 60 s stale, a key is from the newest set under an hour old, an error follows a failure under 5 s old |
| KeyCacheProtocol.RefreshIsSingleFlight | src/oidc.rs:292-304 | one fetch in flight, at most 1024 negative entries, every start accounted for |
| KeyCacheProtocol.FetchesAreRateBounded | src/oidc.rs:28-38 | a window of W seconds holds at most W/5 + 1 finished and W/30 + 1 successful fetches |
| KeyCacheProtocol.CachedKeyNeedsNoLock | src/oidc.rs:284-291 | exactly a fresh cached key that is not negatively cached is answered on the first look, without the refresh lock |
| KeyCacheProtocol.StartsAreRateBounded | src/oidc.rs:291-322 | in any window at most one fetch per five seconds starts, dropped ones aside, and nothing but the dropped ones is left out |
| KeyCacheProtocol.DroppedFetchesAreUnbounded | src/oidc.rs:294-306 | dropped lookups can start any number of fetches |
| KeyCacheProtocol.CachedIdReportedAbsent | src/oidc.rs:373-390 | a look reports an id of the cached set absent exactly when the id is still noted |
| KeyCacheProtocol.NotedIdStartsNoFetch | src/oidc.rs:373-411 | in every run an id noted absent less than 30 s ago is answered absent without a fetch, whatever the cached set holds |
| KeyCacheProtocol.AbsenceIsNoted | src/oidc.rs:304-322 | a finished fetch whose set lacks the id notes it |
| KeyCacheProtocol.FalseAbsenceIsBrief | src/oidc.rs:373-411 | in every run an absence reported of an id that the newest set has comes less than 30 s after that set |
| KeyCacheProtocol.NegativeCacheOutlivesRotation | src/oidc.rs:381-383 | and it can come: a run that reports one |
| TypstValues.WriteString | src/typst_value.rs:129-148 | appends the escaped literal |
| TypstValues.Write | src/typst_value.rs:60-121 | appends the literal of a value, or reports the first value without one |
| TypstValues.WriteItems | src/typst_value.rs:82-90 | the array loop, with its trailing commas |
| TypstValues.WriteFields | src/typst_value.rs:91-108 | the dictionary loop, refusing keys that are no identifiers |
| TypstReader.LiteralRoundTrip | src/typst_value.rs:54-148 | what prints is read back with exactly the text after it left over, as the same value exactly when it holds no reserved word |
| TypstReader.ReadStringLiteral | src/typst_value.rs:124-148 | a string literal reads back before any text |
| TypstReader.LiteralShowsExactly | src/typst_value.rs:124-148 | a literal holds no control, separator or byte order mark; a text is its own literal exactly when it has none of these, no quote and no backslash |
| TypstReader.FormatCharactersPass | src/typst_value.rs:124-146 | other format characters are written as they are |
| TypstReader.PrintingIsInjective | src/typst_value.rs:54-121 | two values print alike exactly when they differ at most in reserved words |
| TypstReader.PrintableExactly | src/typst_value.rs:39-121 | a value prints exactly when every leaf has a literal and every key is an identifier |
| TypstReader.FirstTroubleIsReported | src/typst_value.rs:60-121 | the error names the first thing in the value, depth first, that has no literal |
| TypstDates.DateTextIsParsed | src/typst_value.rs:166-176 | every date in range is accepted, with any zero padding |
| TypstDates.ParsedDateIsExact | src/typst_value.rs:167-176 | what is accepted is exactly three dash-free numbers in range, and always prints |
| Entrypoint.ConvertArg | src/templates.rs:784-841 | conversion by declared type, with the index of the first bad element |
| Entrypoint.CollectArguments | src/templates.rs:766-780 | given, non-null fields in manifest order; the first failure wins |
| Entrypoint.GenerateMain | src/templates.rs:718-759 | the generated source, or the first failure |
| EntrypointSkeleton.CodePositions | src/templates.rs:1130-1151 | the lexer loop keeps what is outside string literals |
| EntrypointSkeleton.LexStringLiteral | src/typst_value.rs:124-148 | a literal met in code leaves no code behind, whatever it holds |
| EntrypointSkeleton.TextNeverChangesTheOutcome | src/templates.rs:784-841 | success and failure do not depend on text contents |
| EntrypointSkeleton.TextStaysOutOfCodeExactly | src/templates.rs:718-759 | data that differ in text only give the same code, exactly when the manifest's names keep quotes in order |
| EntrypointSkeleton.QuoteFreeManifestIsSafe | src/templates.rs:342-359 | names without quotes, such as identifiers, always do |
| EntrypointSkeleton.QuotedNameLeaks | src/templates.rs:164-178 | an accepted manifest whose argument name is a quote does not |
| EntrypointMeaning.CallPassesTheData | src/templates.rs:726-756 | the generated call reads back as exactly the given fields with the caller's values, exactly when their names are identifiers |
| EntrypointMeaning.MeantIsSaid | src/templates.rs:784-841 | only an identifier chosen by the template author can read back as another value |
| EntrypointMeaning.GeneratedExactly | src/templates.rs:718-841 | a source is generated exactly when every field given suits its declared type |
| EntrypointMeaning.SourceDeterminesArguments | src/templates.rs:718-759 | the same arguments give the same source; the same source means the same arguments when the given names, place by place, are the same or hold no colon and space |
| EntrypointMeaning.NamesApart | src/templates.rs:718-759 | which is so for requests giving the same fields under any manifest, and for all requests without such names |
| EntrypointMeaning.SwallowedNameConfuses | src/templates.rs:718-759 | with such a name two different requests can generate the same source |
| EntrypointMeaning.ConversionIsFaithful | src/templates.rs:784-841 | values convert alike exactly when they were alike, up to the spelling of numbers, dates and choices |
| EntrypointReading.EntrypointSaysTheData | src/templates.rs:718-841 | the generated file reads back as an import and a call of the template's function that passes, for each declared field the data gives, a value that stands for that field's JSON |
| EntrypointReading.ReadsExactly | src/templates.rs:718-759 | the file reads back exactly when the function and the names given are identifiers |
| EntrypointProblems.DataProblemExactly | src/templates.rs:718-841 | data is refused exactly for the first field that its type objects to, and why, or else the first choice that is no identifier |
| Paths.NormalisePath | src/bundle.rs:57-85 | validation by length, characters and segments, with the first error |
| Paths.PathIsKeptOrRefused | src/bundle.rs:52-85 | a path is accepted exactly when it is well formed, and then returned unchanged |
| Paths.PathExactly | src/bundle.rs:52-85 | accepted paths are short, of a few plain characters, and every segment is a plain name, so that none leads up or out |
| Paths.PathErrorExactly | src/bundle.rs:57-85 | a path is refused exactly for the first thing that is wrong with it |
| FileTrees.InsertKeepsOrder | src/bundle.rs:193-204 | the ordered map of files: insertion keeps order and replaces only its own path |
| FileTrees.SortOfSorted | src/templates.rs:372-372 | sorting what is in path order changes nothing |
| Bundles.NewBundle | src/bundle.rs:170-215 | the checks of `Bundle::new` in order, and its tree |
| Bundles.BundleExactly | src/bundle.rs:170-215 | accepted exactly when small enough, with valid and different paths and its entrypoint; the tree is then the files in order |
| Bundles.BundleErrorExactly | src/bundle.rs:170-215 | a bundle is refused exactly for the first of its problems in order |
| SourceTrees.SortOut | src/templates.rs:412-434 | the loop that sets metadata aside, refusing metadata that is not text |
| SourceTrees.ReadSourceFiles | src/templates.rs:407-443 | building a template from its files, with every failure |
| SourceTrees.DecodeMembers | src/templates.rs:504-556 | the member loop of an archive: declared and actual sizes, running limits, and failing reads, in order |
| SourceTrees.AcceptedArchiveIsWhole | src/templates.rs:490-559 | no archive that breaks off while it is read becomes a template: an accepted one gave every member in full and within the limits |
| SourceRoundTrip.SourceFilesAreTheUpload | src/templates.rs:445-466 | every uploaded file comes back, and no other, in path order |
| SourceRoundTrip.SourceAcceptedExactly | src/templates.rs:335-443 | an upload becomes a template exactly when its files fit and are well named, its metadata is text, its manifest fits them, and schema and fixture are valid |
| SourceProblems.SourceProblemExactly | src/templates.rs:335-443 | and is refused exactly for the first of its problems, of several files the first by path |
| SourceProblems.MemberProblemExactly | src/templates.rs:504-556 | a member of an archive is refused exactly for the first of its problems |
| SourceProblems.ArchiveProblem | src/templates.rs:490-559 | an archive is refused for its first bad member, else for breaking off, else for its files |
| SourceRoundTrip.GzipIsTransparent | src/templates.rs:490-503 | a gzip file of an archive is read as the archive |
| SourceRoundTrip.ArchiveFits | src/templates.rs:40-40 | framing 64 files fits the allowance above the byte limit |
| SourceRoundTrip.SourceTreeRoundTrip | src/templates.rs:469-559 | a template's archive decodes under the same limit to the same paths and bytes in the same order |
| Assembly.OverrideOne | src/templates.rs:675-690 | one override: reserved, invalid and unknown paths are refused, the named file is replaced in place |
| Assembly.ApplyOverrides | src/templates.rs:673-691 | the override loop, up to its first failure |
| Assembly.OverridesExactly | src/templates.rs:641-644 | overrides are accepted exactly when each names a template file; no path changes and the last override of a file wins |
| Assembly.AssembledExactly | src/templates.rs:645-715 | a request becomes a bundle exactly when overrides are known, every field given suits its type, everything fits and no name is taken twice |
| Assembly.AssembledHoldsExactly | src/templates.rs:672-715 | an assembled bundle holds the template's files with their last overrides, the caller's files, the entrypoint, body and data under their names, and nothing else |
| AssemblyProblems.RequestProblemExactly | src/templates.rs:645-715 | a request is refused exactly for the first of its problems: schema, body, override, data, bundle |
| OAuthBroker.ForwardAuthorize | src/oauth_proxy.rs:303-336 | the rewriting loop of `authorize`, with its flags, and what it appends |
| OAuthBroker.ForwardToken | src/oauth_proxy.rs:449-477 | the rewriting loop of `token` |
| OAuthBroker.AuthorizeForwardsItsOwnCallback | src/oauth_proxy.rs:303-336 | upstream sees one redirect URI, the broker's, one state, the broker's, and other parameters as sent |
| OAuthBroker.AuthorizeResourceExactly | src/oauth_proxy.rs:316-336 | only our resource is asked for, and it is missing exactly when ours and a foreign one were named |
| OAuthBroker.TokenForwardsTheUpstreamCode | src/oauth_proxy.rs:449-477 | an exchanged code goes upstream as the code behind it, with the broker's callback and the client's verifier |
| OAuthBroker.TokenResourceExactly | src/oauth_proxy.rs:463-473 | a token request names our resource exactly when only ours was named |
| OAuthBroker.AuthorizeExactly | src/oauth_proxy.rs:247-301 | which authorize requests are let through, on the parameters as they are sent |
| OAuthBroker.CallbackExactly | src/oauth_proxy.rs:344-372 | which callbacks go on, and what is signed for them |
| OAuthBroker.RefreshExactly | src/oauth_proxy.rs:387-448 | which token requests pass as a refresh |
| OAuthBroker.ExchangeExactly | src/oauth_proxy.rs:387-448 | which pass as an exchange, and of which code |
| OAuthBroker.AuthorizeScopeExactly | src/oauth_proxy.rs:303-336 | the scope sent upstream is the client's, rewritten, or the default |
| OAuthBroker.TokenForwardsTheRest | src/oauth_proxy.rs:449-477 | every other parameter of a token request is sent as it came |
| OAuthRefusals.AuthorizeRefusedExactly | src/oauth_proxy.rs:247-301 | an authorize request is refused exactly for the first reason that applies to it |
| OAuthRefusals.CallbackRefusedExactly | src/oauth_proxy.rs:344-372 | so is a callback |
| OAuthRefusals.TokenRefusedExactly | src/oauth_proxy.rs:387-448 | and a token request |
| OAuthRuns.SealOpens | src/oauth_proxy.rs:102-166 | a sealed payload opens exactly when the key has signed it for that tag |
| OAuthRuns.StateHasOrigin | src/oauth_proxy.rs:116-133 | a state that decodes was minted by an `authorize` of the run, with that content |
| OAuthRuns.CodeHasOrigin | src/oauth_proxy.rs:149-166 | a code that decodes was minted by a `callback` of the run, with that content |
| OAuthRuns.ExchangeIsBound | src/oauth_proxy.rs:387-480 | an exchange sent on carries the code of a callback whose state an `authorize` minted, with the same redirect URI and the verifier's challenge, within 1200 s (section 4.6 of RFC 7636, section 4.1.3 of RFC 6749) |
| OAuthRuns.HonestCallbackSucceeds | src/oauth_proxy.rs:344-385 | an honest callback within ten minutes is accepted and signed |
| OAuthRuns.CallbackSends | src/oauth_proxy.rs:355-384 | what a callback sends the client, parameter by parameter: the broker's code, upstream's error and the remembered state |
| OAuthRuns.ClientStateComesBack | src/oauth_proxy.rs:247-385 | in a run, the client of an accepted `authorize` gets exactly the state it sent, or none, from every callback within ten minutes, with a code or without |
| OAuthRuns.HonestFlowSucceeds | src/oauth_proxy.rs:247-480 | the client that began a flow and holds the verifier gets its code exchanged |
| Calendar.CivilInvertsDayNumber | src/world.rs:178-189 | every day number becomes a real date with that number |
| Calendar.CivilOfDayNumber | src/world.rs:178-189 | every date comes back from its day number |
| Calendar.CivilStepsThroughTheCalendar | src/world.rs:174-189 | day 0 is 1970-01-01 and each next day is the next calendar day |
| Calendar.CivilYearNarrowing | src/world.rs:188-188 | the narrowed year is right exactly on the days whose year fits 32 bits |
| Calendar.UtcTodayIsExact | src/world.rs:167-172 | today's date is right until year 2147483647 ends, exactly |
| Calendar.DayNumberOfNextDay | src/world.rs:174-189 | counting days agrees with the leap-year rule |
| Calendar.DayNumberMonotone | src/world.rs:174-189 | later dates have larger day numbers |
| TenantIds.Emit | src/principal.rs:103-107 | the inner loop emits characters until fewer than five bits are pending or the id is full, keeping the number read so far |
| TenantIds.Derive | src/principal.rs:90-113 | the 16 characters read in base 32 are the first ten digest bytes read in base 256 |
| TenantIds.TenantIdInjective | src/principal.rs:90-113 | ids are equal exactly when those ten bytes are |
| TenantIds.ParseAcceptsDerived | src/principal.rs:120-128 | a derived id is accepted unchanged and is safe in a path and in a signed message |
| TenantIds.IdentityInjective | src/principal.rs:50-61 | identities are equal exactly for the same caller, or for two users one of whom is the other shifted at a NUL of an issuer |
| TenantIds.IdentityInjectiveWithoutNul | src/principal.rs:50-61 | so they are equal exactly for the same caller when issuers have no NUL |
| TenantIds.IdentityInjectiveForOneIssuer | src/principal.rs:54-61 | and always under one issuer |
| TenantIds.IdentityCollidesOnNulIssuer | src/principal.rs:50-61 | users of two issuers can collide exactly when one issuer begins with the other and a NUL |
| Signing.MessageInjective | src/signing.rs:113-119 | messages are equal exactly for the same tenant, id and expiry, even if an id holds the separator |
| Signing.MessagesDisjoint | src/oauth_proxy.rs:102-147 | link, state and code messages under the shared key never coincide |
| Signing.LinkOpensOneDocument | src/signing.rs:75-110 | a signature opens exactly its document and expiry, until it expires |
| Signing.MintedLinkVerifies | src/signing.rs:69-72 | a minted link is accepted until it expires and then reported expired |
| Signing.LinkRefusedExactly | src/signing.rs:75-110 | why a link is refused; an expired one is reported expired whatever its signature says |
| BoundedStreams.BoundedReader.Read | src/templates.rs:50-69 | one read of the bounded reader |
| BoundedStreams.ReaderDeliversAPrefix | src/templates.rs:44-69 | any reads deliver a prefix within the limit, and fail only on a longer stream |
| BoundedStreams.EndMeansWhole | src/templates.rs:54-64 | at its end the reader has delivered all the limit allows and failed once per byte beyond it |
| BoundedStreams.OverflowIsNotSticky | src/templates.rs:54-64 | one byte too many fails once and then reads as the end |
| BoundedStreams.BoundedMessage.WriteStr | src/templates.rs:86-99 | the message is the longest prefix of everything written that fits in whole characters; a write fails exactly when it adds text beyond that |
| BoundedStreams.FittingIsLongest | src/templates.rs:92-98 | a prefix fits exactly when it is no longer than the one kept |
| SourceMaps.SourceMap.Apply | src/templates.rs:124-139 | rewrites the diagnostics of registered files in place |
| SourceMaps.MountBody | src/templates.rs:696-704 | a mounted body is the prelude and the body, registered with the prelude's lines |
| SourceMaps.PreludeIsOneLine | src/templates.rs:700-701 | the prelude is one line to Typst and to Rust, for every entrypoint name |
| SourceMaps.PositionsAreRestored | src/templates.rs:102-111 | every position of a body is reported on the caller's line |
| SourceMaps.PreludeIsLineOne | src/templates.rs:133-137 | a position in the prelude is reported on line one |
| SourceMaps.NeverLineZero | src/templates.rs:133-137 | no mapped line is zero, and other diagnostics are untouched |
| SourceMaps.IdempotentExactly | src/templates.rs:124-139 | mapping twice is mapping once exactly when displayed names are no generated files, or stand for themselves |
| SourceMaps.BodyMapIsIdempotent | src/templates.rs:696-704 | the map of an assembled body is idempotent |
| PreviewBudgets.BudgetsFitExactly | src/compile.rs:309-352 | in binary32 every preview of every page fits exactly for the budgets that pass a check of the budget alone |
| PreviewBudgets.NoPreviewIsTooLarge | src/compile.rs:241-307 | for exactly these budgets no preview of any document is refused as too large |
| PreviewBudgets.EveryBudgetUpTo | src/config.rs:219-219 | a limit on the setting makes every budget below it safe exactly up to 4196352 |
| PreviewBudgets.FiveMillionFails | src/compile.rs:309-352 | a budget of 5000000 does not hold |
| PreviewBudgets.ScaleIsTheRequest | src/compile.rs:319-335 | the scale never exceeds the request, and is the request whenever the longest edge fits at it |
| PreviewBudgets.WholePagesKeepTheirSize | src/compile.rs:337-352 | a page of whole points within the budget is rendered point for point, its width as width |
| Previews.PreviewFits | src/compile.rs:309-352 | under any rounding with the relative error of single precision every preview fits for budgets 1 to 4194303 |
| Previews.ClampedPreviewIsFull | src/compile.rs:319-335 | a clamped preview's longest edge is the budget to the pixel |
| Previews.RenderPreviews | src/compile.rs:241-307 | every requested preview, or the first failure: page, size, encoding |
| Previews.OnlyMissingPagesFail | src/compile.rs:248-285 | with a budget of at most 4194303 only a missing page or the encoder fails, and both edges fit |
| Previews.PixelsAreNear | src/compile.rs:343-352 | each predicted edge is within half a pixel and one rounding of the page's own edge at that scale |
| Previews.PreviewIsPredicted | src/compile.rs:263-304 | a preview is of the page asked for, with the predicted width as width and the predicted height as height |

## Left out

- Limits.Fits: the byte ceilings of the store are taken to leave room for one more payload in 64 bits; beyond that the source's unchecked additions would overflow.
- StoreRemoval.RemovalIsSafe: erasing a directory is one step there, and so is a put; crashes inside an erasure are in `CrashedEraseRecovers`.
- Store.Store.PutWithId: reported write errors and crashes are modelled; a cleanup that itself fails, temporary files, read errors while serving, and a root that cannot be listed are not.
- KeyCacheProtocol.AnswersAreBoundedlyStale: publishing a fetched key set under the cache lock is taken to last at most 30 seconds; the two clock readings in it are separate.
- TypstReader.LiteralRoundTrip: the text of a float is an opaque token in the shape Rust prints.
- TypstDates.ParsedDateIsExact: the number parser is Rust's, restricted to text without a dash.
- Entrypoint.GenerateMain: schema validation of the data comes before it and is not modelled; it can only refuse more.
- EntrypointMeaning.SourceDeterminesArguments: requests that give different fields, one of them under a name with a colon and a space, can still be told apart or not, depending on all names and values together; no exact condition is given for them.
- SourceRoundTrip.SourceTreeRoundTrip: tar is a parameter with a size law and an inverse for what `to_archive` writes, and gzip a parameter without laws; an archive is taken to fit in memory.
- OAuthRuns.ExchangeIsBound: the keyed hash is ideal, through the set of messages the key has signed in the run; encoding a blob is taken not to fail.
- OAuthBroker.ForwardAuthorize: scope rewriting, resource matching and redirect matching are parameters.
- Signing.LinkOpensOneDocument: the truncated keyed hash is taken to be free of collisions.
- TenantIds.Derive: the digest is a parameter.
- BoundedStreams.BoundedReader.Read: how many bytes the inner reader hands over, and whether it fails, are parameters; a failing inner reader loses nothing.
- PreviewBudgets.BudgetsFitExactly: page sizes are finite and the exponent of a float is not bounded, so overflow and the reduced precision of subnormal quotients are not modelled; the renderer is taken to allocate what is predicted.
- Assembly.AssembledExactly: the verdict of the template's schema and the JSON text of the data are parameters.
- HTTP routing, handlers, audit, telemetry, metrics, configuration, API-key parsing and the worker protocol.
- The Typst compiler, fonts, PDF export, process isolation, the session store and redirect-URI parsing.
- SHA-256, HMAC, base64, JSON, TOML, JSON Schema and ULID internals.
