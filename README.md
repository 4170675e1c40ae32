# icloud-photos-cleaner: the date-filtered download and delete pipeline

This project models the core of `clean-icloud.py`, a command-line script that
signs in to an iCloud photo library and then either downloads or deletes every
photo whose creation date is on or before a cutoff date. The core is the two
functions `download_photos` and `delete_photos`:

- **Selection.** The library enumeration is filtered with `photo_date <= target_date`.
  An item whose creation date cannot be read is reported and skipped, and the
  enumeration goes on. Dates are `(year, month, day)` triples compared
  lexicographically, as Python compares `datetime.date` values.
- **Download.** The output directory is created only if it does not exist. Each
  match is fetched and written to `<output_dir>/<filename>`. A later match with
  the same filename overwrites the earlier file. Successes are counted, and a
  failing item does not stop the loop (as long as printing its diagnostics
  does not itself raise; see "## Left out").
- **Delete.** All matches are collected into a list first and their number is
  reported. The operator is asked once for confirmation, and only an answer
  whose lower-cased form is exactly `yes` proceeds. Each listed item then gets
  one delete attempt, in list order. Successes are counted, and a failing delete
  does not stop the rest (under the same proviso).

Modules, one per concept:

- `wrappers.dfy`: `Wrappers.Option`.
- `dates.dfy`: `Dates.Date` and the comparison `OnOrBefore`.
- `photos.dfy`: the remote item `Photo`, the interaction `Event`, the selection
  predicate `Matches` and the selection `Select`.
- `confirm.dfy`: `str.lower()` over ASCII and the `"yes"` gate.
- `download.dfy`: the file system, the per-match transfer and `DownloadPhotos`.
- `delete.dfy`: `DeletePhotos` and its outcome.

How the outside world is represented:

- A remote item carries the outcomes its own calls will have in this run. The
  script calls `download()` or `delete()` at most once per item and run.
- `created: Option<Date>` is `None` when `photo.created.date()` raises.
- A download has three outcomes, following the order of the statements at
  lines 93-96. If `download()` or `open()` raises, nothing is written. If the
  file was opened with `"wb"` and reading the stream then raised, the file is
  left empty, because the open truncates it first. Otherwise the payload is
  written and the item counts.
- The file system is a map from directory path to listing (filename to bytes).
  `DownloadPhotos` takes it and returns the new one.
- The operator's answer to the single `input()` prompt is a parameter.
- Every method returns a trace of `Event`s: reads from the enumeration,
  download attempts, the prompt and delete attempts. Properties such as
  "one prompt, after the enumeration, before any delete" are lemmas about
  that trace.

The code prompts at line 119 even when the total is 0; `DeleteTraceShape`
therefore puts exactly one `Prompt` in every delete trace. The answer is not stripped, so `" yes"` and `"yes "`
decline (`ConfirmationExamples`).

## Model

| member | source | states |
|---|---|---|
| `Dates.OnOrBeforeTotalOrder` | clean-icloud.py:90 | the date comparison is a total order; reflexivity makes the cutoff bound inclusive |
| `Photos.Select` | clean-icloud.py:104-113 | the selection is no longer than the enumeration, and every selected item has a readable date on or before the cutoff (`AllMatch`) |
| `Photos.SelectIsMatchingSubsequence` | clean-icloud.py:104-113 | the selection is an order-preserving subsequence of the enumeration: its k-th item is at a strictly increasing position, and a position is used iff the item there matches |
| `Photos.SelectContains` | clean-icloud.py:106-113 | an item is selected iff it is enumerated, its date is readable and that date is on or before the cutoff |
| `Photos.UnreadableNeverSelected` | clean-icloud.py:106-110 | an item whose creation date cannot be read is never selected, whatever the cutoff |
| `Photos.SelectExtends` | clean-icloud.py:105-113 | one more enumerated item extends the selection by that item exactly when it matches, and otherwise leaves it unchanged |
| `Photos.SelectAppend` | clean-icloud.py:105-113 | filtering an enumeration in two parts gives the concatenation of the two selections |
| `Photos.SkipUnreadable` | clean-icloud.py:107-110 | an unreadable item contributes nothing, and the items after it are selected as if it were absent (the enumeration goes on) |
| `Photos.SelectNarrowing` | clean-icloud.py:112 | selecting with an earlier cutoff from a later cutoff's selection is the same as selecting with the earlier cutoff |
| `Photos.InclusiveCutoffScenario` | clean-icloud.py:90 | items dated 2021-12-31, 2022-01-01 and 2022-01-02 with cutoff 2022-01-01 select the first two, in order |
| `Confirm.LowerChar` | clean-icloud.py:120 | lower-casing a character gives `y`, `e` or `s` exactly for that letter in either case |
| `Confirm.ConfirmedIff` | clean-icloud.py:119-120 | the delete proceeds iff the answer is exactly three characters spelling yes in any mix of cases |
| `Confirm.ConfirmationExamples` | clean-icloud.py:119-122 | "yes", "YES" and "Yes" proceed; "", "y", "no", "yes " and " yes" cancel |
| `Download.EnsureDir` | clean-icloud.py:76-77 | afterwards the output directory exists, every existing directory keeps its contents, and a new directory starts empty |
| `Download.TransferOne` | clean-icloud.py:91-99 | one match counts iff its payload was received; the listing then holds that payload under its filename; a failed request leaves the listing unchanged |
| `Download.CountReceived` | clean-icloud.py:78-99 | the download count never exceeds the number of matches |
| `Download.ReceivedPlusFailed` | clean-icloud.py:90-99 | the download count equals the number of matches minus the failed transfers |
| `Download.DownloadedAt` | clean-icloud.py:94-96 | after the transfers, a file holds the last write under its name, or its previous contents if no match wrote it; no file is removed |
| `Download.LastWriteWins` | clean-icloud.py:94-96 | when several matches share a filename, the last one that writes decides the file's contents |
| `Download.UntouchedNamesKept` | clean-icloud.py:94-96 | a filename that no match writes is neither created, changed nor removed |
| `Download.DownloadedIdempotent` | clean-icloud.py:90-99 | transferring the same matches twice, with the same transfer outcomes, leaves the listing as transferring them once |
| `Download.AfterDownloadKeeps` | clean-icloud.py:74-100 | a download run touches only the output directory, and files already in it survive, possibly overwritten |
| `Download.AfterDownloadIdempotent` | clean-icloud.py:74-100 | running the download command twice with the same items, cutoff and directory, when every transfer has the same outcome on both runs, leaves the same files as running it once |
| `Download.RerunKeepsFiles` | clean-icloud.py:74-100 | a second download run, with any items, cutoff and transfer outcomes, removes no file the first run left in the output directory |
| `Download.StepReadsAndFetches` | clean-icloud.py:81-93 | one enumerated item is read once and is fetched once iff it matches |
| `Download.DownloadTraceReadsAll` | clean-icloud.py:81-87 | a download run reads every enumerated item exactly once, in order; an unreadable date does not end the enumeration |
| `Download.DownloadTraceFetchesSelection` | clean-icloud.py:89-93 | a download run fetches exactly the matches, once each, in enumeration order |
| `Download.TransferMatches` | clean-icloud.py:78-99 | the loop over the enumeration leaves the listing as the matches' transfers in order, counts exactly the received payloads, and reads and fetches as the download trace says |
| `Download.DownloadPhotos` | clean-icloud.py:74-100 | the command leaves the file system as `AfterDownload` (the directory ensured, then the selection transferred into it), the count as `CountReceived(Select(photos, cutoff))` and the interactions as `DownloadTrace` |
| `Delete.CountRemoved` | clean-icloud.py:124-130 | the delete count never exceeds the number of listed items |
| `Delete.RemovedPlusFailed` | clean-icloud.py:124-133 | the delete count equals the total minus the failed deletes |
| `Delete.DeleteTraceShape` | clean-icloud.py:104-128 | a delete run reads every item first, then prompts exactly once with the total, including when it is 0. Declined, nothing follows the prompt. Confirmed, exactly one delete attempt per listed item follows, in list order |
| `Delete.OutcomeCounts` | clean-icloud.py:115-133 | the reported total is the number of matches; a confirmed run finishes with `deleted + failures == total`; any other answer cancels |
| `Delete.CollectMatches` | clean-icloud.py:104-113 | the first loop reads every enumerated item once, in order, and its list is exactly `Select(photos, cutoff)` |
| `Delete.DeletePhotos` | clean-icloud.py:102-133 | the collect loop, the single gate and the delete loop give the outcome `Outcome` (canceled with the total, or finished with the removal count and the total) and the interactions `DeleteTrace` |

## Left out

- `load_config`, `main` and `parse_date`: YAML file reading, argument parsing and `sys.exit` paths. The cutoff is taken as an already parsed date, because `datetime.strptime`'s acceptance rules belong to the standard library.
- `login`: the pyicloud handshake and the interactive second-factor prompts are foreign calls and terminal I/O. In the source, a 2FA requirement is handled first and the 2SA branch is an `elif`, so 2SA is never prompted when 2FA is required.
- The network side of `photo.download()`, `download_response.raw.read()` and `photo.delete()`: each is an outcome recorded in the item, and payloads are opaque bytes.
- All `print` diagnostics: only the counts they report are modelled.
- `print` and `photo.filename` are assumed not to raise. In the source, a raise at line 129 after a successful `delete()` leaves the item deleted but uncounted, and one inside the handlers at lines 99 and 132 escapes the loop, so the remaining items get no attempt and no final count is printed.
- Paths: `os.path.join` with an absolute filename, or a filename with a path separator, names a path other than `<output_dir>/<filename>` (and `open` raises when its directory does not exist, where the model writes and counts the file). Filenames are treated as plain names inside one flat directory. `os.makedirs` creating parent directories, and an output path that exists as a regular file, are not modelled.
- A write that fails partway through `f.write` is not modelled: a stream failure leaves an empty file, a received payload is written whole.
- The enumeration `api.photos.all` (lines 81 and 105) is a finite sequence that never raises. In the source an exception from the generator escapes the loop: download keeps the files written so far and prints no count, and delete stops before the prompt and deletes nothing. A possibly unbounded enumeration is not modelled either.
- `os.makedirs` raising at line 77 (a permission error, or an output path that is a dangling symbolic link) is not modelled: the source then aborts the run before any download and prints no count.
- Directory paths and filenames are identified by exact string. On a case-insensitive or normalising file system two distinct strings such as `IMG_1.JPG` and `img_1.jpg` name one file; `Download.LastWriteWins` and `Download.UntouchedNamesKept` speak of names as distinct strings.
- `input()` raising at end of input is not modelled: the answer is always a string.
- `str.lower()` is modelled on ASCII letters only. No other character lowers to `y`, `e` or `s`, so the comparison with `"yes"` is unaffected.
- Calendar validity of dates is not modelled: the comparison is the same for any triple.
- `Download.DownloadPhotos` stores the output directory's listing back into the file system once `Download.TransferMatches` has updated it step by step. No other directory is touched in between, so the final state is the same.
