# Google image scraper: retrieval bookkeeping, in Dafny

`scrape.py` searches an image-search page in a browser, clicks each result
thumbnail, follows the full-resolution preview's `src`, downloads the bytes and
stores them as `<output_dir>/<query with spaces as underscores>/<sha1 hex>.jpg`.
This project models the parts of that script that decide what happens, with the
browser, the network, the image codec and the filesystem reduced to the
outcomes they produce:

- `Retrieval.FetchImages` is `fetch_images`: it computes the folder name and
  runs `Retrieval.RetrieveInto`, the `while` loop over passes. Inside it,
  `Retrieval.RunPass` is the `for` loop over the slice
  `thumbnails[results_start:num_thumbs]` of the current snapshot, updating
  `image_count`. `RetrieveInto` keeps `results_start`, moves it to
  `image_count` after each pass, and hands it to `RunPass`. The browser is a sequence of snapshots.
  Snapshot `p` lists, for each thumbnail the grid held when pass `p` queried it,
  a `Probe`. A probe records whether scrolling works, what the click, the wait
  and the `src` read give, what the HTTP GET returns, and whether decoding and
  writing succeed. The method returns the trace of visits (pass, index,
  outcome). Its contract says the trace is a run (`IsRun`, defined visit by
  visit), which `Retrieval.RunIsTrace` and `Retrieval.TraceIsRun` show to be
  the same as these three properties together:
  - every visit has the outcome its probe dictates (`Faithful`);
  - a pass begins at the count reached so far and steps one index at a time to
    the end of its snapshot (`Contiguous`, `Follows`, `Settled`);
  - no thumbnail is attempted once the count reached `max` (`BelowTarget`).

  Besides the run, the contract says that `image_count` is the number of
  persisted visits and that the files saved are their paths in order.

  Runs are deterministic: two runs over the same snapshots agree wherever both
  are defined (`Retrieval.RunsAgree`). A run is finished (`Finished`) when its
  count reached `max` or every snapshot's pass is over. Each way the method can
  end gives a finished run: `NotStarted` has no visits and `max <= 0`,
  `TargetReached` has count `max`, and `SnapshotsExhausted` has every pass
  settled. Two finished runs over the same snapshots are equal
  (`Retrieval.FinishedRunUnique`), so the contract pins down the whole trace.
- `Retrieval.Attempt` is the body of the inner loop: scroll, click and wait,
  the `'http' in src` test, `get_image_contents`, `persist_image`.
- `ImageSink` is `persist_image` and its naming rule. SHA-1 is a parameter
  (`Digest`), so a file's name depends on the raw payload only.
- `InlinePayload` is `deocde_b64_image`: where decoding starts. The base64
  decoder is a parameter. Nothing in the script calls this helper.
- `Text` holds the Python operations these use: `find`, `in`,
  `str.replace`, `os.path.join` on POSIX, `hexdigest` and ASCII encoding.

Quirks of the code that the model keeps:

- After a pass that did not reach the target, `results_start` becomes
  `image_count`, not `num_thumbs`. A pass that saved fewer images than it
  attempted is therefore followed by one that starts inside the range already
  covered (`Retrieval.CursorRevisits`). A thumbnail saved again writes the
  same file (same bytes, same name) but is counted again. So `image_count`
  reaching `max` does not mean `max` distinct files exist
  (`Retrieval.CountedTwice`).
- The cursor is not bounded by the snapshot length. When it is past the end,
  the Python slice is empty and the pass attempts nothing.
- When `Image.open` fails, `persist_image` does not return False. Its handler
  reads the unbound `file_path` and raises, and the outer handler of the loop
  catches that. The model gives this case its own result (`ImageSink.Raised`),
  which the loop treats like any other exception: a skip with no
  `image_count >= max` test. Because only a persisted image raises the count,
  the test never fires after a skip anyway.
- `os.path.join` returns its second argument when that argument starts with
  `/`. So a query that starts with `/` names the absolute folder it spells,
  which need not lie under `path` (`Retrieval.FolderNameShape`). A query with `..` segments is joined as
  text: the folder string begins with `path`, then a `/` when `path` is
  non-empty and does not end with one. On disk, though, a leading `..`
  segment takes the folder to the parent of `path`, so the folder can be a
  directory outside `path` (`Retrieval.ParentSegmentKept`).

## Model

| member | source | states |
|---|---|---|
| `Retrieval.FetchImages` | scrape.py:35-90 | The folder is the query's folder under `path`, and the loop runs into it, as stated for `Retrieval.RetrieveInto`. With `max <= 0` nothing is attempted. Otherwise the run stops at once when the count reaches `max`, and `image_count` never exceeds it. The count is the number of persisted visits and the saved paths are theirs, in order. The visits form a run, so (by `Retrieval.RunIsTrace`) every visit has its probe's outcome. Each pass starts at the cursor and runs in index order to the end of its snapshot. When the snapshots run out, `results_start == image_count < max`. |
| `Retrieval.RetrieveInto` | scrape.py:44-90 | The same contract as `Retrieval.FetchImages`, for a folder given: the count starts at 0, every visit follows the run definition, and the loop ends in exactly one of three ways. It ends with no visits when `max <= 0`. It ends with the count equal to `max` and a persisted last visit when the target is reached. Otherwise every pass is over and `results_start == image_count < max`. |
| `Retrieval.RunWithinMax` | scrape.py:49-84 | A run with at least one visit has `max >= 1`, and its count never exceeds `max`. |
| `Retrieval.RunIsTrace` | scrape.py:45-87 | In a run, every visit has its probe's outcome, each visit continues its pass at the next index or opens a later pass at the cursor once the earlier passes are over, and no thumbnail is attempted once the count reached `max`. |
| `Retrieval.TraceIsRun` | scrape.py:45-87 | Conversely, any trace with those three properties is a run, so the visit-by-visit definition and the three properties say the same thing. |
| `Retrieval.RunPrefix` | scrape.py:44-87 | Every prefix of a run is itself a run: the loop could have stopped after any visit. |
| `Retrieval.NextVisitUnique` | scrape.py:49-87 | Two runs that agree up to their last visit agree on that visit too: after a given history the next thumbnail and its outcome are fixed. |
| `Retrieval.RunsAgree` | scrape.py:44-90 | Of two runs over the same snapshots, the shorter is a prefix of the longer, so the loop's trace is determined by the snapshots. |
| `Retrieval.UnfinishedBeforeLast` | scrape.py:49-87 | Every visit of a run was made while the run was not yet finished: the count was below `max` and some snapshot was left for the pass. |
| `Retrieval.FinishedIsMaximal` | scrape.py:49-90 | A finished run cannot be extended: any run over the same snapshots that is at least as long is the same run. |
| `Retrieval.FinishedRunUnique` | scrape.py:44-90 | Two finished runs over the same snapshots are equal, so the whole trace of the loop is determined by the snapshots. |
| `Retrieval.CountedTwice` | scrape.py:55-90 | A thumbnail that fails to scroll, followed by one that is saved, gives with `max = 2` a run of three visits in which the count reaches 2 and the same path is saved twice. |
| `Retrieval.RunPass` | scrape.py:51-87 | One pass over `thumbnails[results_start:num_thumbs]`, starting at the cursor `results_start` it is given, which is the count before the pass. Every visit it adds belongs to this pass. It returns `reached` exactly when the count hit `max`, and then the count equals `max` and the last visit was persisted. Otherwise every thumbnail from the cursor to the end of the snapshot was attempted. The earlier visits are kept as a prefix. |
| `Retrieval.Attempt` | scrape.py:57-87 | A persisted thumbnail scrolled, had a `src` and got a response, and its outcome reaches the `image_count >= max` test. Its file lies under the folder. The full persist condition is `Retrieval.AttemptPersistsIff`. |
| `Retrieval.ReachesCheck` | scrape.py:57-87 | A persisted outcome always reaches the `image_count >= max` test. The test is skipped only after the `continue` of a failed scroll or of the exception handler. |
| `Retrieval.AttemptPersistsIff` | scrape.py:57-87 | A thumbnail raises the count exactly when it scrolls, its `src` contains "http", the fetch returns non-empty bytes and `persist_image` returns True. The file it writes is named by the fetched bytes. Every other outcome is a skip. |
| `Retrieval.Count` | scrape.py:44-76 | `image_count` never exceeds the number of thumbnails attempted. |
| `Retrieval.AppendKeepsPrefixes` | scrape.py:74-76 | One more visit raises `image_count` by one exactly when its thumbnail was persisted, and then appends its path to the saved files. The earlier visits are unchanged. |
| `Retrieval.CountPrefix` | scrape.py:44-76 | `image_count` starts at 0 and never decreases. It rises by at most one per attempted thumbnail. |
| `Retrieval.SavedPaths` | scrape.py:74-76 | The list of saved files is exactly as long as `image_count`. |
| `Retrieval.VisitsInOrder` | scrape.py:49-55 | Passes never go back. Within a pass, thumbnails are attempted in increasing index order, one index at a time. |
| `Retrieval.PassStartsAtCount` | scrape.py:45-90 | The first thumbnail a pass attempts is at the count reached before that pass (0 on the first pass). Later indices of the pass are no smaller. |
| `Retrieval.CursorRevisits` | scrape.py:55-90 | If a pass ends at or beyond the next pass's cursor, the next pass re-attempts a thumbnail index that the previous pass already attempted. |
| `Retrieval.SavedInFolder` | scrape.py:39-104 | Every file the run writes lies under the query's folder. |
| `Retrieval.FolderName` | scrape.py:39 | The folder ends with a segment as long as the query that holds no space. Its full shape is `Retrieval.FolderNameShape`. |
| `Retrieval.FolderNameShape` | scrape.py:39 | The folder ends with the query in which each space became `_`. Every other character and the length are kept. Unless the query starts with `/`, the folder string is `path`, then `/` when `path` is non-empty and does not end with one, then the rewritten query. As a string it begins with `path`, though on disk a leading `..` segment takes it to the parent of `path`, and a query starting with `/` is the absolute folder it spells, which need not lie under `path`. |
| `Retrieval.UnderscoreJoinsWords` | scrape.py:39 | `query.replace(" ", "_")` on two space-free words joined by one space gives the words joined by `_`. |
| `Retrieval.TwoWordFolder` | scrape.py:39 | Two space-free words joined by a space under a plain directory give `path/word1_word2`; `"red panda"` under `images` gives `images/red_panda`. |
| `Retrieval.ParentSegmentKept` | scrape.py:39 | A query `../q` under a plain directory gives `path/../q`: the folder string keeps the leading `..`, which on disk takes the folder to the parent of `path`, so it can name a directory outside `path`. |
| `Retrieval.DotDotFolder` | scrape.py:39 | `"../etc"` under `images` gives `images/../etc`, which on disk is `etc` beside `images`. |
| `Retrieval.GetImageContents` | scrape.py:92-98 | A request that did not raise gives its body unchanged. A failed request gives the empty result. Non-empty contents are therefore always a response body. |
| `ImageSink.PersistImage` | scrape.py:100-113 | A saved image's path lies under the folder given. Its outcomes are stated in `ImageSink.PersistOutcome`. |
| `ImageSink.PersistOutcome` | scrape.py:100-113 | `persist_image` saves exactly when decoding and writing both succeed. It raises exactly when decoding fails. A saved payload goes to the path named by its own digest, whichever codec run wrote it. |
| `ImageSink.FileName` | scrape.py:104 | The name is the lower-case hex digest (two digits per digest byte) followed by `.jpg`. It is never an absolute path. |
| `ImageSink.FilePath` | scrape.py:104 | The file path begins with the folder and ends with the file name. |
| `ImageSink.FilePathShape` | scrape.py:104 | The image file sits directly in the folder: the path is the folder, one `/` when the folder is non-empty and does not end with one, the hex digest, then `.jpg`. |
| `ImageSink.FilePathNamesDigest` | scrape.py:104 | Within one folder, two payloads get the same path exactly when their digests are equal. The re-encoded image plays no part. |
| `Text.HexDigest` | scrape.py:104 | `hexdigest()` gives twice as many characters as digest bytes, all lower-case hexadecimal digits. |
| `Text.HexDigestInjective` | scrape.py:104 | Distinct digests get distinct hexadecimal names. |
| `Text.ReplaceChar` | scrape.py:39 | `str.replace` of one character by another keeps the length and changes exactly the matching positions. |
| `Text.Join` | scrape.py:39 | `os.path.join(a, b)` ends with `b`. It is `b` itself when `b` is absolute, and otherwise begins with `a`. |
| `Text.JoinExact` | scrape.py:39 | For a relative second part, `os.path.join(a, b)` is `a + "/" + b` when `a` is non-empty and does not end with `/`, and `a + b` otherwise: exactly one separator between the parts. |
| `Text.Find` | scrape.py:117 | `find` returns -1 exactly when the pattern does not occur. Otherwise it returns the first index where the pattern occurs. |
| `Text.Contains` | scrape.py:71 | `pat in s` holds exactly when `pat` occurs somewhere in `s`. |
| `Text.AsciiEncode` | scrape.py:116 | A successful `bytes(s, 'ascii')` gives one byte per character. When it succeeds is stated in `Text.AsciiRoundTrip`. |
| `Text.AsciiRoundTrip` | scrape.py:116 | `bytes(s, 'ascii')` succeeds exactly on ASCII text. Decoding the bytes gives back the text, and encoding decoded bytes gives back the bytes. |
| `InlinePayload.MarkerSpellsSlashNine` | scrape.py:117 | The marker searched for is the ASCII encoding of `"/9"`. |
| `InlinePayload.Payload` | scrape.py:117-121 | What is decoded is always a suffix of the encoded source. |
| `InlinePayload.PayloadFromFirstMarker` | scrape.py:117-119 | When the first `"/9"` is at an index above 0, decoding starts there, at the marker. |
| `InlinePayload.PayloadWhole` | scrape.py:117-121 | With no `"/9"`, or one at index 0, the whole source is decoded. |
| `InlinePayload.PayloadTrimsIff` | scrape.py:117-121 | The source is trimmed exactly when `find` returns an index above 0. The trimmed payload starts with the marker. |
| `InlinePayload.DecodeB64Image` | scrape.py:115-121 | `bytes(src, 'ascii')` fails (`None`) exactly when the source holds a non-ASCII character. Otherwise the result is what the decoder gives for the chosen payload, errors from the decoder included. |

## Left out

- Retrieval.FetchImages: runs at most one pass per snapshot supplied and then stops (`SnapshotsExhausted`). The script has no such bound: when too few images are found it polls forever. Nothing here claims that the script terminates.
- A browser error outside the per-thumbnail `try` is not modelled: if `wd.get` (scrape.py:43) or `wd.find_elements` (scrape.py:51) raises, `fetch_images` raises and the run ends. `Ending` has no case for this. The model can represent it at most as the snapshots running out.
- Browser I/O is not modelled: loading the search URL, `find_elements`, `scrollIntoView`, `click`, and the 10-second `WebDriverWait` for the preview. Each probe gives only their outcome. The search URL built with `urllib.parse.quote` is not modelled either, since it is only passed to the browser.
- `requests.get` is not modelled. A probe gives its body, or `None` when it raises.
- Image decoding, RGB conversion, the JPEG save at quality 85, `mkdir` and the file write are reduced to two success flags (`ImageSink.Codec`). The model does not describe file contents, only which path is written. A JPEG save that fails after `open(file_path, 'wb')` (scrape.py:107-108) can leave a partly written file behind. The model counts such a case as `NotSaved` and does not record the leftover file, so `SavedPaths` lists only the files `persist_image` reported as saved.
- InlinePayload.DecodeB64Image: errors raised by `base64.b64decode`, such as `binascii.Error` on ASCII input with bad padding (`"abc"`), are part of the decoder parameter's result type. So `None` stands only for the failure of `bytes(src, 'ascii')`.
- SHA-1 (FIPS 180-4) and base64 decoding (section 4 of RFC 4648) are parameters of the model, not definitions.
- The unused `sleep_between_interactions` parameter is left out, as are the `tqdm` progress bar, the final message, `print_log` with its `args.verbose` switch and the `Level` enum, since they only produce output.
- The command-line handling is left out: argparse, exit code 1 for unknown options, exit code 2 for an empty query, the default count of 5 and the default directory `images`. The CLI passes the directory as a `pathlib.Path`, which turns `""` into `"."` and drops a trailing `/`. The model takes `path` as a plain string, as in a direct call. The default `path="photos"` of `fetch_images` itself (scrape.py:35) is not modelled either: the model always takes `path` as an argument. The browser launch is left out too.
- Exceptions raised by the progress bar or by logging are not modelled.
