# Retention model of the GHCR version cleanup

This project models the retention core of a GitHub Action that prunes old container
image versions from the GitHub Container Registry (`src/ghcr-cleanup.js`). For each
target package the action:

1. lists the versions;
2. turns each one into a record `{id, name, created_at}`;
3. sorts the records newest first;
4. walks them by zero-based rank `i`.

A version is deleted exactly when `i >= keepLatest` and it was created strictly before
the cutoff, which is `now − daysOld` days. Every other version is kept, with one of two
reasons: it is among the `keepLatest` newest, or it is newer than the cutoff. Each
deletion is isolated, so one failed DELETE never stops the walk. A package whose
listing fails or comes back empty is skipped.

The model uses these types:

- Timestamps are integers (ms since the epoch).
- The clock is the parameter `now`.
- The registry's answers are oracles:
  - the package discovery answer (`Option<seq<string>>`, absent when the request threw);
  - a version lister (`string -> Listing`);
  - the outcome of each DELETE (`(string, int) -> bool`, true when it succeeded).
- The DELETE requests are the one side effect. They go through the `Registry` object,
  whose `Delete` method appends `(package, id)` to its record `sent` and returns the
  outcome for that pair. The walk and the run are proved to say exactly which pairs
  they append.

Modules, one file each:

- `Cutoff` (cutoff.dfy): the cutoff instant.
- `Versions` (versions.dfy): raw listing entries, the typed `Version` record and ingestion.
- `Ordering` (ordering.dfy): the stable newest-first sort. It is characterised as:
  - newest first;
  - a permutation of its input;
  - keeping, at every timestamp, the input order of the versions created then;
  - the only arrangement with these properties.
- `Retention` (retention.dfy): the pure classification `Classify` and its properties.
- `Executor` (executor.dfy): the `Registry` and the imperative walk `Execute`. The walk
  is proved to produce `Report(Classify(..))` and to send the registry exactly the
  DELETEs of the plan.
- `Cleanup` (cleanup.dfy): the run. The cutoff is computed once. Then comes the loop
  over packages, with skip-on-error and early exits.

Notes on what the source does:

- A failure of the package discovery request (line 51) is not caught per package. It
  reaches the outer `catch` (lines 120-121) and fails the whole run: `RunOutcome.Aborted`.
- Equal timestamps keep their listing order. The comparator (lines 86-88) returns 0 for
  equal instants, and `Array.prototype.sort` has been stable since ES2019.
- The creation timestamps are used as given (lines 73, 87, 96), with no validation.
- A larger `keepLatest` never adds a deletion (line 101). A decision that changes always
  becomes a keep-window keep (lines 112-113), and that includes versions that were kept
  as newer than the cutoff before, not only deleted ones (`WiderWindowDeletesLess`).
- The name falls back to `'sem-tag'` also when the first tag is the empty string
  (line 72), because `||` treats `''` as false.

## Model

| member | source | states |
|---|---|---|
| `Cutoff.CutoffDate` | src/ghcr-cleanup.js:7-11 | The cutoff never lies after `now`, and it equals `now` exactly when `daysOld` is 0. |
| `Cutoff.OlderThanCutoff` | src/ghcr-cleanup.js:9 | A creation instant is before the cutoff exactly when the version is more than `daysOld · 24 · 60 · 60 · 1000` ms old at `now`. |
| `Cutoff.CutoffAntitone` | src/ghcr-cleanup.js:9 | More allowed days give an earlier cutoff. The difference is the extra days times 86 400 000 ms. |
| `Versions.ToVersion` | src/ghcr-cleanup.js:70-73 | `id` and `created_at` are copied unchanged. The name is never empty. It is the first tag when that is present and non-empty, and `'sem-tag'` otherwise. |
| `Versions.IngestPublished` | src/ghcr-cleanup.js:72 | A listing entry whose first tag is a version's non-empty name ingests back to that version, whatever tags follow. |
| `Versions.Ingest` | src/ghcr-cleanup.js:70-74 | The listing maps to one record per entry, in listing order, with ids and timestamps preserved. |
| `Ordering.SortPermutes` | src/ghcr-cleanup.js:86-88 | The sorted list is a permutation of the listed versions. |
| `Ordering.SortOrders` | src/ghcr-cleanup.js:86-88 | The sorted list is non-increasing in `created_at` (newest first). |
| `Ordering.SortIsStable` | src/ghcr-cleanup.js:86-88 | At every timestamp, the versions created then appear in their listing order (stable sort, equal instants compare 0). |
| `Ordering.SortIsUnique` | src/ghcr-cleanup.js:86-88 | Any newest-first rearrangement that keeps the listing order of equal timestamps equals the sort's result. |
| `Retention.Classify` | src/ghcr-cleanup.js:94-117 | The walk keeps rank order and one entry per version. Deletion happens exactly when rank ≥ `keepLatest` and `created_at` < cutoff. The keep-window reason is given exactly when rank < `keepLatest`. The newer-than-cutoff reason is given exactly when rank ≥ `keepLatest` and `created_at` ≥ cutoff. |
| `Retention.Partition` | src/ghcr-cleanup.js:101-117 | Deleted and kept versions together are exactly the sorted versions (as multisets), and their counts add up to n. |
| `Retention.KeepWindowSize` | src/ghcr-cleanup.js:101-113 | The number of versions kept for being within the keep window is `min(keepLatest, n)`. |
| `Retention.DeletedAreOldAndOutsideWindow` | src/ghcr-cleanup.js:101 | Every deleted version was created strictly before the cutoff and sits at a rank ≥ `keepLatest`. |
| `Retention.DeletionsAreOldestTail` | src/ghcr-cleanup.js:86-101 | On a newest-first list the deleted versions are exactly a tail of it. They number at most `n − min(keepLatest, n)`, so none of the `keepLatest` newest is deleted. |
| `Retention.WiderWindowDeletesLess` | src/ghcr-cleanup.js:101-113 | A larger `keepLatest` never deletes a version the smaller one kept. Changed decisions become keep-window keeps, and there are no more deletions than before. |
| `Retention.EarlierCutoffDeletesLess` | src/ghcr-cleanup.js:101-115 | An earlier cutoff never deletes a version the later one kept. Changed decisions become newer-than-cutoff keeps, and there are no more deletions than before. |
| `Executor.Execute` | src/ghcr-cleanup.js:94-118 | The loop reports each version with its classified reason or with the DELETE outcome (`Report`). The registry's record of sent DELETEs grows by exactly `(pkg, id)` for each deleted version of the plan, once each, in rank order, and by nothing for kept versions. This does not depend on what earlier DELETEs returned. |
| `Executor.ReportSummary` | src/ghcr-cleanup.js:94-118 | A package report has one line per version: `min(keepLatest, n)` keep-window lines and one success-or-failure line per attempted DELETE. |
| `Executor.FailureIsolation` | src/ghcr-cleanup.js:104-110 | A version's line depends on the deleter only through the DELETE of that version's own id. |
| `Cleanup.Run` | src/ghcr-cleanup.js:33-119 | The run aborts exactly when package discovery is needed and fails, and then the registry receives no DELETE. Otherwise each target package (the configured one, or all discovered ones) gets its `PackageResultOf` result, in order. All packages are judged against the single cutoff computed from `now` and `daysOld`. The registry receives exactly `RunRequests`: each package's planned DELETEs, package after package. |
| `Cleanup.SkippedPackageDeletesNothing` | src/ghcr-cleanup.js:75-83 | A package whose listing fails or is empty is skipped, and no DELETE is sent for it. |
| `Cleanup.ProcessPackage` | src/ghcr-cleanup.js:66-118 | One turn of the package loop yields `PackageResultOf` for the listing. The registry receives exactly `(pkg, id)` for each id of `PackageAttempts`: nothing for a failed or empty listing, and otherwise the deleted versions of the sorted, classified listing, in rank order. |
| `Cleanup.ProcessAll` | src/ghcr-cleanup.js:63-119 | The results are `RunResults`: each target package gets its own result, in order, whatever happened to the packages before it. The registry receives exactly `RunRequests`, package after package. |
| `Cleanup.PackageReport` | src/ghcr-cleanup.js:80-118 | A non-empty listing of n versions is processed with n report lines, `min(keepLatest, n)` of them keep-window keeps. |
| `Cleanup.PackageDeletions` | src/ghcr-cleanup.js:70-110 | The DELETEs of a processed package target the oldest tail of its sorted versions, at most `n − min(keepLatest, n)` of them. Each target is a listed version created strictly before the cutoff. |
| `Ordering.SortNewestFirst` | src/ghcr-cleanup.js:86-88 | The sort keeps every version: the result has as many entries as the listing. |
| `Executor.Registry.Delete` | src/ghcr-cleanup.js:104-110 | One DELETE request: the registry records `(pkg, id)` as sent, and the outcome is the registry's answer for that pair. |
| `Executor.EventOf` | src/ghcr-cleanup.js:101-116 | One version's report line names that version. It is a keep-window line exactly when the decision keeps it for the window, and a newer-than-cutoff line exactly when it keeps it for the cutoff. It is a removal exactly when the decision deletes it and the DELETE succeeds, and a failed removal exactly when the decision deletes it and the DELETE fails. |
| `Executor.Report` | src/ghcr-cleanup.js:94-118 | The walk's report has one line per plan entry, in rank order, each naming that entry's version. A line records a DELETE outcome exactly when the entry's decision is a deletion. |
| `Cleanup.Targets` | src/ghcr-cleanup.js:48-55 | A configured package name is the only target. With no name the targets are the discovered packages, and they are absent when the discovery failed. |
| `Cleanup.PackageResultOf` | src/ghcr-cleanup.js:66-118 | A package's result names it. It is a skip exactly when the listing failed or is empty, and the skip reason is a listing error exactly when the listing failed. A processed package records the listing's size and one report line per listed version. |
| `Cleanup.PackageAttempts` | src/ghcr-cleanup.js:94-110 | A failed listing sends no DELETE. A listed package sends at most one DELETE per listed version. |
| `Cleanup.RunResults` | src/ghcr-cleanup.js:63-119 | The run has one result per target package, and the k-th result names the k-th package. |
| `Cleanup.RunRequests` | src/ghcr-cleanup.js:63-119 | Every DELETE of the run names one of the target packages. |

## Left out

- HTTP plumbing is not modelled: the axios client, the authentication headers and the REST paths (lines 24-31). The GET requests (lines 51, 69) are the oracles described above. The DELETE (line 106) is `Registry.Delete`, which records the package and version id the URL names and takes its outcome from an oracle.
- Action input reading, the `parseInt` of the inputs and their defaults (lines 17-21) are not modelled. `daysOld` and `keepLatest` are `nat` parameters, so negative or `NaN` inputs are outside the model. A missing `token` input makes `core.getInput` throw at line 17, and the outer `catch` fails the run (line 121) before any package is listed; the model has no such path.
- The log and failure messages of `core.info`, `core.warning`, `core.error` and `core.setFailed` are not modelled. They survive only as the `Event` kinds (keep reasons, removed, removal failed), as `SkipReason`, and as `RunOutcome.Aborted`.
- The wall clock `new Date()` is the parameter `now`.
- Timestamps are integers, so the model has no ISO date parsing, no invalid dates (`NaN` in the comparator or in `<`) and no floating-point arithmetic. It also has no limit of the JavaScript date range: in the source a cutoff outside that range (a `daysOld` above about 10^8) is an invalid date, `cutoffDate.toISOString()` throws at line 35, and the run fails before any package is listed; the model simply uses the earlier cutoff.
- The choice between the user and organisation base paths (lines 38-45) only builds URLs, so it is left out.
- `async`/`await` sequencing is left out. The model is sequential, as the awaited calls make the source.
- `versions.sort` reorders the listed array in place and returns that same array. Nothing reads the unsorted order afterwards, so the model sorts a value (`SortNewestFirst`) and does not represent that aliasing.
- Errors thrown by the record mapping itself, for example when the response is not an array, are treated like a failed listing (`ListingFailed`). They sit in the same `try` block.
