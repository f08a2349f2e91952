# Screenshot rebinder core, modelled in Dafny

The tool overwrites the content of game screenshots in a NEW folder with
images from an OLD folder. Each NEW file keeps its name and extension. The
core has four parts, and each has its own module here:

- `Scanner` (`scanner.dfy`): lists the `.jpg`/`.png` regular files directly
  inside a folder, in the order the listing gives them. It then prepares the
  OLD and NEW lists: it warns about empty folders and cuts both lists to the
  NEW count when NEW is short. A folder is a tree of entries
  (`RegularFile | Directory(entries) | Special`); a missing path is `None`.
- `Mapping` (`mapping.dfy`): pairs the two lists by position, with a strict
  mode and two warnings. It also makes a preview line per pair and predicts,
  pair by pair, whether the replace step will re-encode. The Pillow
  metadata probe is an input function from a path to `Result<ImageInfo, string>`.
- `Replacer` (`replacer.dfy`): the `FileSystem` class holds the files as a
  `map<Path, seq<byte>>`. `ReplaceOne` follows `replace_one`: the dry-run
  check, the missing-file checks, the target format, the copy-or-re-encode
  decision, and the atomic write through a temporary file. Every exception
  becomes an `"error"` result. `ReplaceMany` runs it over a batch. Pillow
  is the `Codec` input: `detect` (the format `Image.open` reports, or None
  when it raises) and `encode`. Write and rename failures of the operating
  system are the `Disk` input. Each method is proved equal to a function of
  the state before the call (`ReplaceOutcome`, `ReplaceManyOutcome`,
  `AtomicWrite`), and the lemmas are about those functions.
- `AutoScreen` (`autoscreen.dfy`): the `AutoScreener` state machine
  (`Idle | Countdown | Running | Done | Stopped`), driven by `Tick(now)`.
  The injected key sender is modelled as the sequence `sent` of keys handed
  to it. The catch-up loop is specified by the function `CatchUp`.

`common.dfy` holds `Option`/`Result`, bytes, paths, ASCII `Lower`, the
`PurePath.suffix` rule (text from the last dot, unless the dot leads or
ends the name) and Python's `s[:k]` slice (`Take`, where a negative `k`
counts from the end).

Behaviour of the code that the model keeps:

- The "count limited to n" warning of `build_pairs` fires when a list is
  shorter than `n`.
- Missing OLD or NEW files give `ok = False` with the action "dry-run".
- A forced format of `""` is falsy for `_target_format_for`, so the
  extension decides the target. But it is not `None`, so the byte copy is
  never chosen (`ForcedNeverCopies`).
- `next_fire or now` treats a next-fire time of `0.0` as absent. A
  schedule started at time 0 with no delay therefore sends once on a late
  tick and re-anchors at `now + interval` (`ZeroAnchorFiresOnce`). Started
  at any positive time, it catches up fully (`CatchUpAnchored`,
  `CatchUpScenario`).
- Pillow's `Image.open` detects the format and also opens the origin for
  re-encoding, so both are the same `detect`. An origin it cannot open
  takes the re-encode path and fails there: the result is "error" and the
  destination is unchanged (`UnreadableOriginFails`).

## Model

| member | source | states |
|---|---|---|
| `Scanner.ListImagesRaw` | core/scanner.py:20-30 | A missing path gives NotFound, checked first. Any other non-directory gives NotADirectory. A directory gives exactly the filtered listing `Images`. |
| `Scanner.ImagesMembership` | core/scanner.py:26-30 | A path is listed iff some entry is a regular file whose lower-cased suffix is in the allow-list, and the path is that entry under the directory. |
| `Scanner.ImagesConcat` | core/scanner.py:27-29 | Order is kept: the images of listing `a + b` are the images of `a` followed by those of `b`. |
| `Scanner.ImagesShallow` | core/scanner.py:27-29 | At most one path per entry, and every listed path lies directly in the scanned directory. |
| `Scanner.NestedFilesNotListed` | core/scanner.py:27-28 | The scan is non-recursive: no file inside a sub-directory (e.g. `thumbnails/`) is ever listed. |
| `Scanner.DirectoriesNotListed` | core/scanner.py:28 | A sub-directory or special entry whose name is unique in the listing is never listed. |
| `Scanner.UpperCaseSuffixListed` | core/scanner.py:28 | Suffix matching ignores case: `SHOT.JPG` is listed with the default allow-list. |
| `Scanner.JpegSuffixNotListed` | core/scanner.py:4 | The default allow-list excludes `.jpeg`. |
| `Scanner.ScanLists` | core/scanner.py:57-72 | Both results are prefixes of the scanned lists. "OLD empty" appears iff OLD is empty, and "NEW empty" iff NEW is empty. The shortfall warning appears iff NEW is shorter than the limit (which defaults to the OLD count), and then both lists are cut to the NEW count. The warning count is exact. |
| `Scanner.ScanOldNew` | core/scanner.py:54-72 | OLD is listed before NEW with the default allow-list. The first listing error is raised. Otherwise the result is `ScanLists` of the two listings. |
| `Scanner.ScanDefaultLimit` | core/scanner.py:62-72 | With no limit both lists have length min(OLD, NEW). With equal non-empty counts nothing is cut and there are no warnings. |
| `Mapping.BuildPairs` | core/mapping.py:87-108 | Strict mode fails iff the counts differ. Pairs are positional (`pairs[i] = (old[i], new[i])`), and their count is min(n, OLD, NEW), or min(OLD, NEW) with no limit. "Pairs used" is warned iff the counts differ. "Limited" is warned iff a list is shorter than n, so never when n is defaulted. |
| `Mapping.DescribePair` | core/mapping.py:130-139 | OLD is probed first, then NEW. The line describes both images iff both probes succeed. Otherwise it carries the first failure. |
| `Mapping.PreviewLength` | core/mapping.py:141-144 | Every pair is visited with no limit. Otherwise min(total, limit) lines, but at least one for a non-empty input even when the limit is at most 0. |
| `Mapping.PreviewPairs` | core/mapping.py:127-145 | Exactly `PreviewLength` lines, one per visited pair in order, each the pair's `DescribePair`. A probe failure never escapes. |
| `Mapping.PairConversionWarnings` | core/mapping.py:166-189 | At most one warning per pair, always naming the pair's NEW file. |
| `Mapping.ConversionDecisionTable` | core/mapping.py:169-189 | A failed OLD probe gives exactly one read-failure warning. Otherwise a warning is given iff a target is predicted (forced jpg/jpeg or png, else `.jpg`/`.jpeg`/`.png` of NEW) and OLD's format differs from it. The warning names that target and OLD's format, and is "forced" iff a token was forced. |
| `Mapping.ProbeConversionWarnings` | core/mapping.py:163-190 | The loop returns the per-pair warnings of all pairs, joined in pair order. |
| `Mapping.ConversionWarningsConcat` | core/mapping.py:165-190 | The warnings of `a + b` are those of `a` followed by those of `b`. |
| `Mapping.ConversionWarningsBound` | core/mapping.py:165-190 | There are at most as many warnings as pairs, and each names some pair's NEW file. |
| `Mapping.ProbeFailureIsolated` | core/mapping.py:188-189 | A pair whose probe fails adds exactly its read-failure warning, and the pairs after it are still checked. |
| `Replacer.TargetFormatFor` | core/replacer.py:49-63 | The target is always JPEG or PNG. A non-empty token fails iff its lower case is not jpg/jpeg/png. A forced jpg/jpeg gives JPEG and a forced png gives PNG. With no token (or `""`), only a `.png` extension gives PNG; every other extension gives JPEG. |
| `Replacer.Staged` | core/replacer.py:92-125 | On success the source exists and no write fault occurred. A copy stages the source bytes unchanged. A re-encode stages the codec's output, and only for a JPEG or PNG target. It fails iff the source is missing, or the write fails, or (re-encode only) Pillow cannot open the source, the target is unsupported, or encoding fails. Each failure carries its own fault, checked in that order: missing or unopenable source, unsupported target, encode error, write error. |
| `Replacer.AtomicWrite` | core/replacer.py:75-89 | On success only the destination changes, to the staged content. On failure it re-raises the write function's error, or otherwise the rename error. |
| `Replacer.ReplaceOutcome` | core/replacer.py:148-201 | A dry run changes nothing and is ok. Missing files give "dry-run" and not ok. Any later failure gives "error". Any failure changes nothing and has `bytes_after = bytes_before`. Success changes only NEW, keeps the set of files, and reports NEW's new size. Copy-bytes makes NEW equal OLD's bytes. Re-encode targets exactly `TargetFormatFor`'s format and makes NEW the codec's JPEG/PNG output. |
| `Replacer.MissingFilesReported` | core/replacer.py:160-163 | A missing OLD (checked first) or NEW gives ok = False with the distinct error and action "dry-run", and changes nothing. |
| `Replacer.CopyBytesExactly` | core/replacer.py:166-181 | The byte copy happens iff no token is forced, the detected OLD format equals the extension's target, and neither write nor rename fails. |
| `Replacer.ReencodePathOutcome` | core/replacer.py:165-201 | When the byte copy is not chosen and the target is `t`, the replacement succeeds iff Pillow opens OLD, encodes it to `t`, and the write and rename go through. Success reports `reencode->t` with NEW set to the encoded bytes and their size. Failure reports "error" with the first exception raised (cannot open, encode error, write error, rename error) and changes nothing. |
| `Replacer.CopyPathOutcome` | core/replacer.py:176-178 | When the byte copy is chosen, the replacement succeeds iff the write and rename go through. Success makes NEW equal OLD's bytes. Failure reports "error" with the write or rename error and changes nothing. |
| `Replacer.UnknownTokenReported` | core/replacer.py:166 | An unknown forced token is caught as an exception: the result is "error" carrying that token, and nothing changes. |
| `Replacer.ForcedNeverCopies` | core/replacer.py:176-181 | Any forced token, even `""`, never yields a byte copy. |
| `Replacer.UnreadableOriginFails` | core/replacer.py:168-181 | An OLD that Pillow cannot open leads to the re-encode path. That path fails on the same open, giving action "error" and an unchanged file system. |
| `Replacer.NoUnsupportedTarget` | core/replacer.py:124-125 | The unsupported-target error of the re-encode is unreachable from replace_one. |
| `Replacer.ReplaceManyOutcome` | core/replacer.py:220-224 | One result per pair, in input order, naming that pair's paths. The set of files is unchanged. |
| `Replacer.DryRunManyChangesNothing` | core/replacer.py:150-158 | A dry-run batch leaves the file system unchanged. Every result is ok, "dry-run", with `bytes_after = bytes_before` = the file's size. |
| `Replacer.ReplaceManySplit` | core/replacer.py:220-224 | A batch is its first part followed by the rest, run on the file system the first part left. A failure never aborts the batch. |
| `Replacer.FileSystem.WriteAtomic` | core/replacer.py:66-89 | After creating the temp file, running the writer, and renaming or unlinking on failure: success gives `AtomicWrite`'s state, and failure restores the old state and re-raises. No temp file is left behind either way. |
| `Replacer.FileSystem.CopyBytesAtomic` | core/replacer.py:92-99 | The atomic write of OLD's bytes. |
| `Replacer.FileSystem.ReencodeAtomic` | core/replacer.py:102-127 | The atomic write of OLD re-encoded in the given format. |
| `Replacer.FileSystem.ReplaceOne` | core/replacer.py:130-201 | The result and the new file system are `ReplaceOutcome` of the old file system. |
| `Replacer.FileSystem.ReplaceMany` | core/replacer.py:204-224 | The results and the new file system are `ReplaceManyOutcome` of the old file system. |
| `AutoScreen.ConfigCheck` | core/autoscreen.py:44-49 | Valid iff count > 0, interval > 0 and delay >= 0. The errors are reported in that order. |
| `AutoScreen.AutoScreener.Create` | core/autoscreen.py:42-60 | It fails with the first validation error. Otherwise it gives a fresh, valid, idle scheduler that stores the given count, interval, start delay and key, with `remaining = count`, no next-fire or start time, and nothing sent. |
| `AutoScreen.AutoScreener.constructor` | core/autoscreen.py:51-60 | The scheduler starts idle, with `remaining = count`, no next-fire or start time, and nothing sent. |
| `AutoScreen.AutoScreener.Remaining` | core/autoscreen.py:66-68 | Never negative. It equals the counter, or 0 when the counter is negative. |
| `AutoScreen.AutoScreener.SecondsToNext` | core/autoscreen.py:80-84 | 0 before start. Otherwise never negative, and positive iff `now` is before the next fire, where it is the exact gap. |
| `AutoScreen.AutoScreener.Start` | core/autoscreen.py:70-75 | `next_fire = now + start_delay`, `remaining = count`, and the start time is recorded. The state is countdown iff the delay is positive, else running. |
| `AutoScreen.AutoScreener.Stop` | core/autoscreen.py:77-78 | From any state the state becomes stopped, and nothing else changes. |
| `AutoScreen.AutoScreener.PressHotkey` | core/autoscreen.py:27-32 | The key is handed to the sender once. |
| `AutoScreen.CatchUp` | core/autoscreen.py:102-105 | The loop sends at most `remaining` keys, and stops only when none are left or the next fire is after `now`. |
| `AutoScreen.CatchUpAnchored` | core/autoscreen.py:102-105 | With a positive anchor `f`, the schedule stays anchored. The loop sends one key per schedule point `f + j*interval <= now`, up to `remaining`, and leaves `next_fire` on schedule point k, that is `f + k*interval`. |
| `AutoScreen.PointClosedForm` | core/autoscreen.py:105 | Advancing the next fire by `interval` k times from `f` lands on `f + k*interval`: the schedule does not drift. |
| `AutoScreen.CatchUpScenario` | core/autoscreen.py:102-107 | Count 3, interval 2, no delay, started at t0 > 0, first tick at t0 + 5: all three keys go out in that one tick. |
| `AutoScreen.ZeroAnchorFiresOnce` | core/autoscreen.py:97-105 | A next-fire time of 0.0 counts as absent. A late tick sends exactly once and re-anchors at `now + interval`. |
| `AutoScreen.AutoScreener.Tick` | core/autoscreen.py:86-109 | Idle, done and stopped change nothing and return 0 seconds. A due countdown starts running. Running sends `CatchUp`'s number of keys, one per decrement of `remaining`. It is done exactly when `remaining` reaches 0. `remaining` never increases, and the scheduler invariant `Valid` is kept. |

## Left out

- Graphical front-end and application entry point: they are UI plumbing and are not part of this model.
- Pillow internals: `get_image_info` is the input `Probe`. Opening, mode conversion and saving with JPEG quality and optimisation are the `Codec` input, and colour modes are not modelled.
- Real OS behaviour: directory creation (`mkdir`), the random temporary name (an input required to be fresh, beside the destination, and not the destination), chunked copying, and crash consistency. A rename is an atomic map update. Which writes fail is the `Disk` input, keyed by destination.
- `time.monotonic()` and the `now=None` defaults: every time is an explicit `real` parameter, so floating-point rounding is not modelled.
- `_press_with_pyautogui` and sender failures: the sender is assumed to succeed. A failing sender would raise out of `tick` with the state unchanged for that press; this is not modelled.
- `str.lower` is modelled for ASCII letters only, and paths are `(parent, name)` with `/` as the separator.
- The exact Russian warning and error texts: warnings and errors are tagged values carrying the counts, names or messages they show.
- Scanner: symbolic links are not modelled; entry kinds are regular file, directory or other.
- Scanner.JpegSuffixNotListed: stated for one file name, not for every `.jpeg` name.
- Scanner.UpperCaseSuffixListed: stated for one file name, not for every upper-case suffix.
- AutoScreen.CatchUpAnchored: proved for a positive anchor only. With a negative anchor the `or now` quirk can fire again when the schedule passes exactly 0.0.
