# ECR scan reporter — a Dafny model of the scan-eligibility core

ecr-scan-reporter keeps the vulnerability scans of Amazon ECR images fresh and
reports on their results. This project models the part that decides, and
proves properties of it:

- **The duration window** (`get_duration`). A compact expression
  `[Nm][Nw][Nd][Nh]` becomes the cutoff instant: images whose checkpoint is
  older than it are due for a new scan.
- **The image metadata merge** (`update_image_info`, `update_all_images_timestamp`).
  Image dicts are updated in place from describe-images answers. The answers
  are fetched for chunks of 21 images when the scanner listed the images
  itself, and one image at a time otherwise.
- **The checkpoint filter** (`define_images_to_scan`). This is an
  order-sensitive walk over the images with a running timestamp checkpoint.
- **The scan trigger** (`trigger_images_scan`). Images are sent in chunks of
  4. Each image with a digest or a tag gets at most three start-image-scan
  calls, and throttling answers get backoff sleeps of 20, 30 and 40 seconds.
- **The orchestration** of one repository (`scan_repo_images`).
- **ECS discovery** (`transform_image_description`,
  `build_services_images_registries`, `handle_ecs_discovery`). Image URIs
  become a registry → repository → {digests, tags} index, and the index
  becomes one scan job per repository of the caller's own account.
- **Small helpers**: `chunked_iterable`, the repository name filter
  `filter_repos_from_regexp`, and the report decision `parse_scan_report`.

Layout, one module per source file:

| file | module | source |
|---|---|---|
| wrappers.dfy | Wrappers | `Option` and `Result` |
| common.dfy | Common | ecr_scan_reporter/common.py |
| durations.dfy | Durations | `get_duration` in ecr_scan_reporter/images_scanner.py |
| images_scanner.dfy | ImagesScanner | the rest of ecr_scan_reporter/images_scanner.py |
| dicts.dfy | Dicts | Python's insertion-ordered dicts as association lists |
| services_scanner.dfy | ServicesScanner | ecr_scan_reporter/services_scanner.py |
| repos_scanner.dfy | ReposScanner | ecr_scan_reporter/repos_scanner.py |
| ecr_scan_reporter.dfy | EcrScanReporter | ecr_scan_reporter/ecr_scan_reporter.py |

Modelling choices:

- Image dicts are objects of class `Image`, which the source's loops update
  in place. Every other structure is a value: the nested registries dict
  and the thresholds are association lists that keep insertion order.
- Each loop of the source that updates variables or images is a Dafny
  `method` with its invariants. It is proved equal to a specification
  function, and the properties are proved about that function. The one
  exception is the early-return `for` loop of `parse_scan_report`
  (ecr_scan_reporter.py:43-45): it only searches and mutates nothing, so it
  is the recursive function `FirstBreach`.
- Timestamps are integers (seconds).
- `chunked_iterable` with size 0 yields nothing, as `islice(it, 0)` is
  empty; only its concatenation and count lemmas need size ≥ 1.
- Calls to AWS are parameters:
  - `describe` answers a describe-images call for a list of image ids;
  - `respond(i, a)` answers attempt `a` of the start-image-scan call for
    the `i`-th image to scan;
  - `listDefs` and `defImages` stand for the ECS listing calls;
  - `parse` stands for the private-ECR URI pattern;
  - `userMatch` stands for matching a user-given regular expression.
- A sleep is recorded as an event in the trace of the dispatch, next to
  the calls.
- An exception that the source does not catch ends the run: the model
  returns `ok == false` or a `Failure`.

Two behaviours of the code differ from what its own text suggests:

- The warning at images_scanner.py:43-46 announces "Using default of
  7days" for an expression the duration pattern does not take, but that
  fall-back never happens. The pattern has only optional groups, so it
  always matches, and the components that did not match are 0. The cutoff
  is then `now` itself (`UnmatchedGivesNow`).
- `attempts_max = 4` is set at images_scanner.py:203, but an image gets at
  most three start-image-scan calls: `tries` starts at 3 and the loop stops
  when it reaches 0.

## Model

| member | source | states |
|---|---|---|
| Common.ChunkedIterable | ecr_scan_reporter/common.py:17-22 | The generator loop yields exactly `Chunks(items, size)`: slices taken from the front until an empty slice comes back, and nothing at all for size 0. |
| Common.ChunksFlatten | ecr_scan_reporter/common.py:17-22 | For size ≥ 1, concatenating the chunks gives back the input, in order. |
| Common.ChunksShape | ecr_scan_reporter/common.py:19-22 | Every chunk is non-empty and holds at most `size` items; every chunk but the last holds exactly `size`. |
| Common.ChunksCount | ecr_scan_reporter/common.py:19-21 | Empty input yields no chunk and non-empty input at least one. The number of chunks is ceil(n / size), stated without division as n ≤ chunks·size < n + size. |
| Common.ChunkAt | ecr_scan_reporter/common.py:17-22 | Chunk j is the slice of the input that starts at j·size and ends at min(j·size + size, n). |
| Durations.EffectiveExpression | ecr_scan_reporter/images_scanner.py:36-41 | A set environment value replaces the argument, even when it is empty. Otherwise a missing or empty argument is "7d", and any other argument is used as given. |
| Durations.Cutoff | ecr_scan_reporter/images_scanner.py:67 | The months are taken first, by the calendar step. Weeks, days and hours then only move the cutoff back, and it stays at the calendar step exactly when all three are 0. A zero duration gives `now`. |
| Durations.GetDuration | ecr_scan_reporter/images_scanner.py:28-68 | Without an environment value, a missing or empty argument gives seven days before `now`, and any other argument gives the cutoff of its parsed duration. A set environment value gives the cutoff of its own parse instead. With a calendar step that never moves forward, the cutoff is never later than `now`. |
| Durations.MatchDuration | ecr_scan_reporter/images_scanner.py:42-46 | The duration pattern always matches a prefix of the input, possibly the empty one. The match is empty exactly when no group took part, so there is no "no match" case and the warning never fires. |
| Durations.Component | ecr_scan_reporter/images_scanner.py:47-66 | Each component is one digit, in 0..9; a group that did not match contributes 0. |
| Durations.ParseDuration | ecr_scan_reporter/images_scanner.py:47-66 | Months, weeks, days and hours are each in 0..9. |
| Durations.ParseFormat | ecr_scan_reporter/images_scanner.py:47-66 | Every duration with one-digit parts, written as `[Nm][Nw][Nd][Nh]` without its zero parts, is read back exactly. |
| Durations.DefaultIsSevenDays | ecr_scan_reporter/images_scanner.py:36-37 | A missing or empty expression without an environment override is "7d": 7 days, every other component 0. |
| Durations.UnmatchedGivesNow | ecr_scan_reporter/images_scanner.py:42-67 | A non-empty expression that does not start with a digit and a unit letter gives all-zero components, and the cutoff is `now`. |
| Durations.BogusAndTwoDigitsGiveNow | ecr_scan_reporter/images_scanner.py:42-46 | "bogus" and "10d" both give the cutoff `now`, not seven days back. |
| Durations.CutoffMonotone | ecr_scan_reporter/images_scanner.py:67 | More weeks, days or hours move the cutoff further into the past, strictly when one of them grows. |
| Durations.CutoffAntitone | ecr_scan_reporter/images_scanner.py:67 | A duration at least as long in every component, months included, gives a cutoff no later, for any calendar step that goes back in time and further back for more months. |
| ImagesScanner.Image.constructor | ecr_scan_reporter/images_scanner.py:235-236 | A listed image id becomes an image dict with its digest and tag and no timestamps. |
| ImagesScanner.ApplyDetail | ecr_scan_reporter/images_scanner.py:71-87 | Digest and tag never change. An image whose digest is not set or differs from the detail's is left as it is. On a match, the push time becomes the detail's, and so does the vulnerability-source time when the detail has one; otherwise the vulnerability-source time is kept. |
| ImagesScanner.UpdateImageInfo | ecr_scan_reporter/images_scanner.py:71-87 | The image dict after the call is `ApplyDetail` of its state before the call. |
| ImagesScanner.ApplyDetailsKeepsIdentity | ecr_scan_reporter/images_scanner.py:79-87 | After all the details of an answer, digest and tag are unchanged. An image no detail matches by digest is exactly as it was: a tag-only image, one with neither key, or one whose digest is absent from the answer. |
| ImagesScanner.ApplyDetailsLastMatch | ecr_scan_reporter/images_scanner.py:111-113 | The push time comes from the last detail that matches the digest, and so does its vulnerability-source time when that detail has one. |
| ImagesScanner.ApplyDetailsLastVuln | ecr_scan_reporter/images_scanner.py:84-87 | The vulnerability-source time is the one of the last detail that matches the digest and carries one. |
| ImagesScanner.ApplyDetailsNoVuln | ecr_scan_reporter/images_scanner.py:84-87 | When no matching detail carries a vulnerability-source time, the image keeps its own. |
| ImagesScanner.RefreshChunk | ecr_scan_reporter/images_scanner.py:111-113 | Every image of the chunk ends up with every detail of the answer applied in order. |
| ImagesScanner.DescribeChunk | ecr_scan_reporter/images_scanner.py:109-119 | The call for one chunk refreshes exactly the chunk's images from its answer and changes no other image. ImageNotFound leaves the chunk as it was, and any other exception is reported as a failure. |
| ImagesScanner.UpdateAllImagesTimestamp | ecr_scan_reporter/images_scanner.py:90-119 | Image k ends up refreshed by the answer for its own chunk (size 21 or 1), unless an earlier chunk's call raised. The run is ok exactly when no call raised. |
| ImagesScanner.UpdatedInChunk | ecr_scan_reporter/images_scanner.py:107-113 | An image of chunk c is refreshed by chunk c's answer unless an earlier call raised. |
| ImagesScanner.UpdatedAfterFailure | ecr_scan_reporter/images_scanner.py:108-119 | Every image after a chunk whose call raised is left as it was. |
| ImagesScanner.UpdatedKeepsIdentity | ecr_scan_reporter/images_scanner.py:238 | The update never changes an image's digest or tag. |
| ImagesScanner.DefineImagesToScan | ecr_scan_reporter/images_scanner.py:157-181 | Returns the images, in order, whose flag is set by the checkpoint walk against the cutoff of `get_duration`. It changes no image. |
| ImagesScanner.PickMembers | ecr_scan_reporter/images_scanner.py:169-181 | What is returned is exactly the flagged images of the input, and never more images than the input has. |
| ImagesScanner.PickAppend | ecr_scan_reporter/images_scanner.py:169-181 | The selection keeps the input order: the picks of a first part of the list come before the picks of the rest. |
| ImagesScanner.PickAllOrNone | ecr_scan_reporter/images_scanner.py:169-181 | With every image flagged the input comes back whole and in order; with none flagged the result is empty. |
| ImagesScanner.CheckpointIsLastVuln | ecr_scan_reporter/images_scanner.py:172-174 | The checkpoint is the vulnerability-source time of the last image that has one. |
| ImagesScanner.CheckpointIsFirstPushed | ecr_scan_reporter/images_scanner.py:176-177 | When no image has a vulnerability-source time, the checkpoint is the push time of the first image that has one. |
| ImagesScanner.CheckpointNone | ecr_scan_reporter/images_scanner.py:176-180 | There is no checkpoint exactly while no image seen so far has a timestamp, so images before the first timestamped one are never selected. |
| ImagesScanner.CheckpointSticky | ecr_scan_reporter/images_scanner.py:172-177 | Once there is a checkpoint there always is one. |
| ImagesScanner.AllScannedSelectsOwnAge | ecr_scan_reporter/images_scanner.py:172-180 | When every image has a vulnerability-source time, an image is selected exactly when its own time is older than the cutoff. |
| ImagesScanner.SelectionDependsOnOrder | ecr_scan_reporter/images_scanner.py:171-180 | A concrete pair of images is selected differently in the two orders: the walk depends on the order of the list. |
| ImagesScanner.ScanId | ecr_scan_reporter/images_scanner.py:206-210 | The id sent carries exactly the digest and tag keys that are set, with the image's values. |
| ImagesScanner.StartImageScan | ecr_scan_reporter/images_scanner.py:202-228 | The `while tries` loop makes the calls and sleeps of the retry function `ScanAttempts` and ends with its outcome. |
| ImagesScanner.TriggerImage | ecr_scan_reporter/images_scanner.py:199-228 | An image with neither key causes no call; any other image runs the retry loop with the keys that are set. |
| ImagesScanner.DispatchStopsAfterFailure | ecr_scan_reporter/images_scanner.py:196-228 | An uncaught exception is final: later images add no call. |
| ImagesScanner.DispatchStep | ecr_scan_reporter/images_scanner.py:197-228 | The dispatch of one more image is the dispatch so far followed by that image's run. When that run raised, it is the dispatch of the whole list. |
| ImagesScanner.TriggerChunk | ecr_scan_reporter/images_scanner.py:198-228 | The loop over one chunk of 4 extends the dispatch by the chunk's images, or ends the whole dispatch on an uncaught exception. |
| ImagesScanner.TriggerImagesScan | ecr_scan_reporter/images_scanner.py:184-228 | The calls and sleeps, in order, and the outcome are those of `Dispatch` over the images. The chunks of 4 do not change them. |
| ImagesScanner.AttemptsCounts | ecr_scan_reporter/images_scanner.py:202-218 | An image gets between 1 and 3 calls, and at most 90 seconds of sleep. |
| ImagesScanner.AttemptsShape | ecr_scan_reporter/images_scanner.py:211-218 | An image's trace alternates a call and a sleep, and every sleep lasts 20 to 40 seconds. |
| ImagesScanner.ConstantThrottling | ecr_scan_reporter/images_scanner.py:202-218 | Constant throttling gives exactly three calls with sleeps of 20, 30 and 40 seconds, after which the image is given up without an error. |
| ImagesScanner.TerminalAnswers | ecr_scan_reporter/images_scanner.py:211-228 | A started scan, a missing image or an unsupported image type ends that image after one call and lets the dispatch go on; any other exception fails it. |
| ImagesScanner.DispatchAllStarted | ecr_scan_reporter/images_scanner.py:196-215 | Without throttling or errors, there is one call per image that has a digest or a tag, in order. |
| ImagesScanner.DispatchCalls | ecr_scan_reporter/images_scanner.py:197-214 | Every call is for an image of the list that has a digest or a tag, with that image's keys, and there are at most 3·n calls in all for n images. |
| ImagesScanner.ImageRunCalls | ecr_scan_reporter/images_scanner.py:199-228 | One image gets no call exactly when it has neither a digest nor a tag. Otherwise it gets one to three calls, all with its own keys. |
| ImagesScanner.DispatchPerImage | ecr_scan_reporter/images_scanner.py:196-228 | The trace of a dispatch is the runs of the images it reaches, one after the other, in order. Each of those images gets at most three calls, all with its own keys, and none exactly when it has neither key. A dispatch without an uncaught exception reaches every image. |
| ImagesScanner.AttemptsIds | ecr_scan_reporter/images_scanner.py:206-214 | The retry loop only ever asks for its own image. |
| ImagesScanner.NewImages | ecr_scan_reporter/images_scanner.py:235-236 | The listed ids become fresh, distinct image dicts without timestamps. |
| ImagesScanner.ScanRepoImages | ecr_scan_reporter/images_scanner.py:231-248 | A repository run is `ScanRepo`: listed images are described in chunks of 21 and given images one by one. Then come the selection and, unless nothing is due or scanning is off, the dispatch. The caller's given images are left updated in place: each ends as its own one-image describe-images call leaves it (`UpdatedAt` with chunk size 1), whether or not a describe-images call raised. |
| ImagesScanner.ScanRepoCalls | ecr_scan_reporter/images_scanner.py:231-248 | With scanning off there is no call, and a raised describe call ends the run with no call. Otherwise every call is for an image of the repository that is due after the update, with that image's keys, and there are at most 3·n calls in all for n images. The bound per image is `DispatchPerImage` for the selected images. |
| ServicesScanner.StripSeparatorOnce | ecr_scan_reporter/services_scanner.py:74 | Exactly one leading ':' or '@' is removed, even when another follows; a value without one is kept. |
| ServicesScanner.EnterUri | ecr_scan_reporter/services_scanner.py:72-83 | The loop body for one accepted URI is `AddUri`: missing registry and repository entries are created, and the value is appended to the digests or to the tags unless it is already there. |
| ServicesScanner.TransformImageDescription | ecr_scan_reporter/services_scanner.py:60-85 | The registries built URI by URI are `Index`: URIs the pattern rejects are skipped. |
| ServicesScanner.BuildIsIndexFrom | ecr_scan_reporter/services_scanner.py:66-83 | The index is what the accepted URIs make of it. Registries and repositories appear in first-occurrence order. Each bucket's digests and tags are the values of its URIs, deduplicated, in first-occurrence order. |
| ServicesScanner.IndexWellFormed | ecr_scan_reporter/services_scanner.py:76-83 | No registry and no repository appears twice, and no list holds a value twice. Digests all start with "sha" and tags never do. Every repository entry holds at least one value. |
| ServicesScanner.IndexHoldsExactly | ecr_scan_reporter/services_scanner.py:67-83 | The index holds a value under a registry and repository exactly when an accepted URI carries it. Rejected URIs contribute nothing. |
| ServicesScanner.IndexIdempotent | ecr_scan_reporter/services_scanner.py:76-83 | Feeding the URI list twice builds the same index as feeding it once. |
| ServicesScanner.SplitJoin | ecr_scan_reporter/services_scanner.py:91-92 | Splitting on commas loses nothing: no piece holds a comma, and joining the pieces gives the string back. |
| ServicesScanner.Sessions | ecr_scan_reporter/services_scanner.py:91-105 | The roles argument fails exactly when it is truthy and neither a string nor a list. Otherwise there is at least one session. A non-empty list gives one assumed role per element, in order. |
| ServicesScanner.SessionsOfString | ecr_scan_reporter/services_scanner.py:91-92 | A non-empty string gives one assumed role per comma-separated piece, in order. |
| ServicesScanner.OwnSessionOnlyWithoutRoles | ecr_scan_reporter/services_scanner.py:96-99 | The caller's own session is used exactly when no role is given. |
| ServicesScanner.BuildServicesImagesRegistries | ecr_scan_reporter/services_scanner.py:88-107 | The registries index is built from the images of every task definition of every session, or the roles error is returned. |
| ServicesScanner.BucketIdents | ecr_scan_reporter/services_scanner.py:123-128 | A job's image ids are the digests as `imageDigest` ids followed by the tags as `imageTag` ids: |digests| + |tags| of them. |
| ServicesScanner.BucketIdentsDistinct | ecr_scan_reporter/services_scanner.py:123-128 | A bucket without repeated values gives image ids without repetition. |
| ServicesScanner.EmitRegistryJobs | ecr_scan_reporter/services_scanner.py:123-129 | The loop over one registry emits `RepoJobs`, one job per repository. |
| ServicesScanner.RepoJobsShape | ecr_scan_reporter/services_scanner.py:123-129 | There is one job per repository, in order, carrying the repository's name, its image ids and the registry id. |
| ServicesScanner.EmitJobs | ecr_scan_reporter/services_scanner.py:116-129 | The loop over the registries emits `Jobs`, which skips registries of other accounts. |
| ServicesScanner.JobsOfOwnRegistry | ecr_scan_reporter/services_scanner.py:116-129 | With each registry named once, the jobs are exactly those of the caller's own registry, and there are none when the services use no image of it. |
| ServicesScanner.HandleEcsDiscovery | ecr_scan_reporter/services_scanner.py:110-130 | ECS discovery returns `EcsDiscovery`: the registries index, then the jobs of the caller's account. |
| ServicesScanner.DiscoveryJobs | ecr_scan_reporter/services_scanner.py:110-130 | Every repository of the caller's registry gets exactly one job, with `registryId` equal to the caller's account. The job's image ids are the repository's digests then its tags, without repetition. |
| ReposScanner.FilterReposFromRegexp | ecr_scan_reporter/repos_scanner.py:46-70 | The loop returns `Filtered`: the names the filter keeps, in order, or the exception of the first element without a name. |
| ReposScanner.FilteredStopsAtError | ecr_scan_reporter/repos_scanner.py:59-67 | An exception ends the loop: later elements do not matter. |
| ReposScanner.FilteredErrors | ecr_scan_reporter/repos_scanner.py:59-67 | The filter fails exactly when some element is a dict without `repositoryName` (KeyError) or is neither a dict nor a string (TypeError). It fails with the exception of the first such element. |
| ReposScanner.SelectedMembers | ecr_scan_reporter/repos_scanner.py:68-69 | A name is kept exactly when it is among the names and satisfies the filter, so the result is never longer than the input. |
| ReposScanner.FilteredIsSelection | ecr_scan_reporter/repos_scanner.py:59-70 | When every element has a name, the result is the filter's selection of the element names, in input order. |
| ReposScanner.DefaultKeepsAll | ecr_scan_reporter/repos_scanner.py:55-58 | A missing, empty or non-string filter falls back to `^.*$`, which keeps every newline-free name, in order. |
| EcrScanReporter.FirstBreach | ecr_scan_reporter/ecr_scan_reporter.py:43-45 | The early-return search finds the first threshold whose level is among the findings with a count at least the threshold, and finds none exactly when no threshold is reached. |
| EcrScanReporter.ParseScanReport | ecr_scan_reporter/ecr_scan_reporter.py:24-46 | A missing or "COMPLETE" status gives nothing, and so do missing or empty counts. Otherwise the counts come back unchanged exactly when some threshold is reached. |
| EcrScanReporter.DefaultThresholdsTrigger | ecr_scan_reporter/ecr_scan_reporter.py:43-45 | With the default all-zero thresholds, a report that is not COMPLETE and whose counts hold CRITICAL, HIGH, MEDIUM or LOW is returned. |
| EcrScanReporter.OtherLevelsNeverTrigger | ecr_scan_reporter/ecr_scan_reporter.py:43-44 | Counts only at levels without a threshold (INFORMATIONAL, UNDEFINED, …) never make a report. |
| EcrScanReporter.ThresholdOrderIrrelevant | ecr_scan_reporter/ecr_scan_reporter.py:43-46 | Only which thresholds there are matters, not their order. |
| EcrScanReporter.MoreFindingsStillTrigger | ecr_scan_reporter/ecr_scan_reporter.py:43-45 | Raising a count never withdraws a report. |
| EcrScanReporter.CompleteScanNotReported | tests/test_findings.py:28-33 | The finished scan with 10 CRITICAL and 9 MEDIUM findings is not reported. |

## Left out

- AWS calls and their pagination are not modelled; only their results are, as parameters. This covers `list_all_images`, `list_ecr_repos`, `list_all_task_definitions`, `list_container_definitions_images`, the STS calls (assume role, caller identity), `job_dispatcher` and the SNS publish.
- `time.sleep` does not wait: each sleep is recorded as an event in the dispatch trace.
- `print` and `warnings.warn` are side channels with no effect on results, so they are not modelled.
- The environment is a parameter. `get_duration`'s variable lookup is the argument `env`, the value of the variable when it is set. The choice between `env_key` and `ECR_IMAGES_DURATION_DELTA` is not modelled.
- `import_thresholds` is not modelled. It reads the environment: an unset variable gives the integer default, but a set one gives a string, which could not be compared with an integer count. Thresholds are integers.
- The module-level clock `NOW` is the parameter `now`.
- Calendar and time-zone arithmetic are abstract. The month step of `relativedelta` is the function parameter `monthsBack`, and `utc.localize` is omitted because every timestamp is an integer in one time base.
- Weeks, days and hours are fixed numbers of seconds, so daylight saving is not modelled.
- Regular expressions are not interpreted beyond what the model needs:
  - `\d` matches only '0'..'9' (Python's `\d` also matches other Unicode digits);
  - the private-ECR URI pattern is the abstract `parse`, because its definition lives in another library;
  - a user-given filter pattern is the abstract `userMatch`, and errors from compiling it are not modelled.
- Timestamps that are present but are not `datetime` objects are not modelled: the `isinstance` checks in `define_images_to_scan` are taken to succeed.
- `ImagesScanner.UpdateAllImagesTimestamp` requires the same image dict never to occur twice in the list (`Distinct`). An aliased dict would be updated twice, and that is not modelled.
- A scan event without a "detail" key (KeyError) is not modelled: `ParseScanReport` takes the detail object itself.
- A describe-images detail without `imagePushedAt` is not modelled: `Detail.imagePushedAt` is always present, so the KeyError that `detail["imagePushedAt"]` raises at images_scanner.py:83 is dropped.
- In the repository filter, a `repositoryName` value that is not a string is not modelled.
- Handlers, the command line and packaging (lambda_functions.py, cli.py, setup.py) are not part of this model.
