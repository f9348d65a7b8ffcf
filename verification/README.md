# Model of the yt-dlp web front-end

A Dafny model of the logic of a small Flask service (`app.py`). The service
lets a user paste a YouTube URL, lists the downloadable formats for it, and
downloads one through an external tool. The downloaded file is kept in memory
and served once from a one-time link. Four pieces of the service are modelled:

- **URL check** (`Url`). `is_valid_youtube_url` is written out by hand as
  `IsValidYoutubeUrl`. A second reading follows the regular expression group
  by group, with every choice left open (`PatternMatches`). The two are proved
  to agree on every string.
- **Format list** (`Formats`, `Dedup`, `StableSort`, `Normalizer`). This is
  the loop and sort inside `get_formats`. Each stream descriptor is filtered
  and gets its label (`Formats.Entry`). Repeated `(label, ext)` pairs are
  dropped, and the first one in input order stays (`Dedup.Collect`, stated
  for any entry and key function and used with `Formats.Entry` and
  `Formats.KeyOf`). Then comes a
  stable sort, largest first, on the first number in the label
  (`StableSort.SortDesc` keyed by `Formats.SortKey`). `Normalizer.Normalize`
  is the whole pipeline. `Normalizer.CollectFormats` is the loop written
  with a `seen_labels` set as the route runs it, and
  `Normalizer.GetFormats` is that loop followed by the sort.
- **Artifact table** (`ArtifactStore`). This is `app.config['videos']`, a map
  from a download id to the file bytes and file name. A download stores one
  entry, and a fetch pops it.
- **Routes** (`Routes`). These are the input checks at the top of
  `download_video`, the `/formats`, `/download` and `/download_file/<id>`
  handlers, and their status codes. The external tool enters as a function
  parameter. The fresh id from `uuid4()` enters as an argument.

`Text` holds the string helpers the routes rely on: Python's `str.strip()`,
decimal rendering, and the value of the first run of digits.

### Behaviour worth knowing

- Sorting. The sort key is only the first number in the label, so audio-only
  entries are not placed after video entries: a `160kbps` audio entry comes
  before a `144p` video entry (`Normalizer.AudioCanPrecedeVideo`).
  A video label with an unknown height keys on the whole number of MiB in
  its size (`Normalizer.UnknownHeightKeysOnSize`). A fractional bitrate keys
  on its whole part (`Normalizer.BitrateKeysAudio`).
- Deduplication is on `(label, ext)` only, not on `(label, ext, format_id)`.
- The URL check asks for no 11-character video id. Any character after
  `youtube.com/` or `youtu.be/` is enough, and one final newline is allowed,
  because Python's `$` matches before it.
- `future.result()` is called with no timeout, so a download request waits
  as long as the tool runs.
- The audio-only label always says `kbps`. If the bitrate is missing, the
  label reads `unknownkbps`. If the bitrate is `null`, it reads `Nonekbps`.

## Model

| member | source | states |
|---|---|---|
| Url.IsValidYoutubeUrl | app.py:14-16 | An accepted URL has at least ten characters, the length of `youtu.be/` and one more character. Exactly which strings it accepts is stated by `Url.ValidatorMatchesPattern`. |
| Url.ValidatorMatchesPattern | app.py:14-16 | The hand-written check accepts a string exactly when the anchored pattern matches it. The pattern is an optional `http://`/`https://`, an optional `www.`, an optional `m.`, then `youtube.com` or `youtu.be`, then `/` and at least one non-newline character to the end. One final newline is allowed. |
| Url.RejectsEmpty | app.py:14-16 | The empty string is rejected. |
| Url.RejectsMissingPath | app.py:14-16 | `youtube.com` and `youtube.com/` are rejected, because `.+` needs a character after the slash. |
| Url.RejectsOtherHost | app.py:14-16 | A URL on another host (`https://vimeo.com/123`) is rejected. |
| Url.AcceptsFullPrefix | app.py:14-16 | `https://www.youtube.com` followed by any accepted path is accepted. |
| Url.AcceptsShortLink | app.py:14-16 | `youtu.be` followed by any accepted path is accepted. |
| Url.PathAllowsFinalNewline | app.py:15 | A slash and one or more non-newline characters form an accepted path, with or without one final newline. |
| Text.Strip | app.py:122-123 | `.strip()` returns a contiguous slice of the input. Only whitespace (Python's `isspace` set) lies before and after it. The slice itself neither starts nor ends with whitespace. |
| Text.StripIdempotent | app.py:122-123 | Stripping a stripped value changes nothing. |
| Text.StripEmptyIff | app.py:123-128 | A stripped value is empty exactly when the raw value is all whitespace. |
| Text.NatToDecimal | app.py:64 | The decimal rendering of a non-negative integer has no leading zero and reads back as the same number. |
| Text.FirstNumber | app.py:86 | A label with no digits has sort key 0. |
| Text.FirstNumberOfRun | app.py:86 | The sort key is the value of the first maximal run of digits in the label. |
| Formats.SizeBytes | app.py:60-62 | The size is `filesize` when that is truthy, and otherwise `filesize_approx`, whatever that holds. It is truthy exactly when one of the two is. |
| Formats.RoundedTenths | app.py:64 | The size in tenths of a MiB is the nearest tenth to bytes / 1048576. Ties go to the even tenth. |
| Formats.SizeText | app.py:64 | The size text has at least six characters and ends in ` MB`. |
| Formats.SizeTextReadsAsTenths | app.py:64 | The size text is `<whole>.<tenth> MB`, with a leading `-` exactly when the byte count is negative. The whole part has no leading zero. Its digits, read without the point, give the rounded count of tenths of a MiB (`RoundedTenths`). |
| Formats.SizeTextExamples | app.py:64 | 50 MiB renders as `50.0 MB`. Exactly 1.25 MiB renders as `1.2 MB`. |
| Formats.Entry | app.py:49-84 | A descriptor is listed exactly when four things hold: it has a non-empty `format_id`; its extension (default `mp4`) is not `webm`; `filesize` or `filesize_approx` is truthy; and some codec is not `none`. The entry copies `format_id` and `ext`. |
| Formats.EntryCaption | app.py:64-73 | The label of a listed descriptor depends on which codecs are present: `{height}p (video + audio) - {size}`, `{height}p - {size}`, or `{abr}kbps (audio only) - {size}`, with a missing value shown as `unknown`. |
| Formats.EntryExamples | app.py:49-84 | A 1080p combined 50 MiB `mp4` stream is listed as `1080p (video + audio) - 50.0 MB`. |
| Formats.WebmSkipped | app.py:53-55 | A `webm` stream is never listed. |
| StableSort.SortDesc | app.py:86 | The sort returns a permutation of its input with keys that never increase. For every key value, the entries with that key keep their input order. |
| StableSort.SortKeepsOrder | app.py:86 | Two sorted entries with equal keys come from input positions in the same order. |
| Dedup.Collect | app.py:46-84 | The pass keeps at most one entry per item. No kept entry has a key that was already seen, and no two kept entries share a key. |
| Dedup.Origin | app.py:75-78 | For a key some item has an entry under, this is the least such position. |
| Dedup.ProducesIff | app.py:75-78 | A key is produced by a list exactly when some position of the list yields it. |
| Dedup.CollectOrigins | app.py:46-84 | Each entry kept by the loop is the entry of the first item yielding its key (the `(label, ext)` pair in the route). That key was not already in `seen_labels`. |
| Dedup.KeptFresh | app.py:75-78 | The key of a kept entry was not already seen, and some item yields it. |
| Dedup.CollectOrder | app.py:46-84 | The kept entries are in the input order of their first items. |
| Dedup.CollectComplete | app.py:46-84 | Every key some item yields, and that was not already seen, is the key of a kept entry. |
| Dedup.CollectAt | app.py:75-84 | One loop iteration: the item at position `i` is appended exactly when it has an entry whose key is not yet seen, and the seen set then gains that key. |
| Normalizer.Normalize | app.py:46-86 | The format list is no longer than the descriptor list. Its sort keys never increase, and it is a rearrangement of the deduplicated entries `Dedup.Collect` keeps from an empty `seen_labels`. |
| Normalizer.CollectFormats | app.py:46-84 | The imperative loop with a `seen_labels` set computes `Dedup.Collect` from an empty set. |
| Normalizer.GetFormats | app.py:46-86 | The loop followed by the sort computes `Normalize`. |
| Normalizer.NormalizeEntriesFromFirstDescriptor | app.py:49-84 | Every listed entry, field for field, is the entry of the first descriptor listed under its pair. So its `format_id`, `ext` and label come unchanged from a descriptor that passed every filter. |
| Normalizer.NormalizeNoDuplicates | app.py:75-78 | No two listed entries share a `(label, ext)` pair. |
| Normalizer.NormalizeComplete | app.py:75-84 | Every descriptor that passes the filters has its pair in the list. |
| Normalizer.NormalizeSorted | app.py:86 | The first numbers of the labels never increase along the list. |
| Normalizer.NormalizeStable | app.py:86 | Entries with equal sort keys are in the input order of their first descriptors. |
| Normalizer.NormalizePermutes | app.py:86 | The list is a rearrangement of the filtered and deduplicated list. |
| Normalizer.HeightKeysVideo | app.py:86 | A video label whose height is a run of digits sorts on that height. |
| Normalizer.BitrateKeysAudio | app.py:86 | An audio-only label sorts on the whole part of its bitrate: `129.5` sorts as 129. |
| Normalizer.SizeTextWholePart | app.py:64 | The whole part of the size text is a run of digits worth the rounded size in tenths divided by ten. |
| Normalizer.UnknownHeightKeysOnSize | app.py:86 | A video label with no height sorts on the whole number of MiB in its size: `unknownp - 50.0 MB` sorts as 50. |
| Normalizer.AudioCanPrecedeVideo | app.py:66-86 | A listed audio-only stream whose bitrate exceeds a listed video stream's height is sorted before it. |
| Normalizer.SortTwo | app.py:86 | Of two entries, the one with the larger key comes first. |
| ArtifactStore.Put | app.py:146 | After storing, `id` holds the new artifact. The key set gains `id`, and every other entry is unchanged. |
| ArtifactStore.Take | app.py:155-156 | The pop returns the entry exactly when `id` is present. It removes `id` and leaves every other entry unchanged. |
| ArtifactStore.PutThenTake | app.py:146-158 | A take after a put returns what was put. If the id was new, the table goes back to what it was before the put. |
| ArtifactStore.TakeTwice | app.py:155-158 | A second take of the same id finds nothing. |
| ArtifactStore.AtMostOnceDelivery | app.py:146-158 | Across any sequence of puts and takes, the successful takes of an id number at most its puts, plus one if the id was already present. |
| ArtifactStore.OthersLeaveEntry | app.py:146-156 | Puts and takes of other ids leave an id's entry as it was. |
| Routes.CheckDownload | app.py:121-128 | A download is dispatched exactly when three things hold: the body is an object with string (or absent) fields; the stripped URL passes the check; and the stripped `format_id` is non-empty. The stripped values are what gets dispatched. A body that is not an object, or whose `url` or `format_id` is not a string, gets 500, because `.get` or `.strip()` raises before any check. A readable body that fails a check gets a 400. |
| Routes.InvalidUrlRejected | app.py:125-126 | A URL failing the check gets 400 `Invalid or missing YouTube URL`. |
| Routes.BlankFormatRejected | app.py:123-128 | A blank `format_id` with a good URL gets 400 `Missing format_id`. |
| Routes.Download | app.py:119-151 | A download link `/download_file/{id}` is returned exactly when the checks pass and the download succeeds. The table then gains the artifact under `id`. Otherwise the table is unchanged. A request that fails the checks gets the answer `CheckDownload` gives (400, or 500 for a body that cannot be read). A failed download gets 500 with the tool's message after `Error downloading video: `. |
| Routes.RejectedDownloadNotDispatched | app.py:121-144 | A request that fails the checks gets an answer that does not depend on the download task, and it leaves the table untouched. |
| Routes.DownloadFile | app.py:153-160 | The file is served exactly when the id is stored. Otherwise the answer is 404 and the table is unchanged. Either way, the id is no longer stored afterwards, and every other id keeps its entry. |
| Routes.DownloadLinkServesOnce | app.py:146-160 | The link from a successful download serves the downloaded file, and a second request gets 404. |
| Routes.FormatsRoute | app.py:35-91 | The format list is returned exactly when the body's stripped URL passes the check and the tool succeeds. The list is `Normalize` of the tool's descriptors. A body `.get`/`.strip()` cannot handle gets 500. A URL failing the check gets 400 `Invalid or missing YouTube URL`. Any other 500 carries the tool's error message after `Failed to retrieve formats: `. |
| Routes.InvalidUrlSkipsExtraction | app.py:37-44 | An invalid URL on `/formats` gets 400 whatever the tool would say, so the tool is not consulted. |

## Left out

- The `yt-dlp` subprocess calls and the JSON decoding of their output (app.py:22-33, 93-117). These are a foreign process. The tool's answers are function parameters (`extract`, `fetch`) that return descriptors, an artifact, or an error message.
- The temporary directory, the file read and the `BytesIO` buffer (app.py:131-138). These are filesystem I/O. The artifact is the bytes and base name they produce.
- The thread pool (app.py:12, 143-144). It runs one blocking call per request, so it is modelled as a synchronous call. Concurrent requests are modelled as an arbitrary sequence of whole puts and pops of the table (`ArtifactStore.Op`). The code takes no lock, and this relies on each CPython dict assignment and `pop` being atomic.
- `uuid.uuid4()` (app.py:139). It is randomness, so the id is an argument of `Routes.Download`.
- Floating point. Byte counts are integers. `:.1f` of `bytes / 1048576` is modelled as exact rounding to the nearest tenth with ties to even. This matches Python for byte counts below 2^53. A float `filesize_approx` is not modelled.
- `\d` in the sort key and `int()` of the run are modelled for ASCII digits only. Python also accepts other Unicode decimal digits.
- Descriptor values are carried as the text `str()` gives for them. The model does not derive that text from a JSON number. A numeric `format_id` (for example `0`) is not distinguished from its text for truthiness. A descriptor that is not a JSON object (where `f.get` would raise, giving a 500) is not modelled.
- Flask glue (app.py:18-20, 88-91, 148-151, 160-163). This covers the index page, `jsonify`, `send_file` with its hard-coded `video/mp4` mimetype, and the mapping of unexpected exceptions to 500. Responses are modelled only as the `Routes.Response` cases.
- Formats.SizeText: its own contract states only the ` MB` suffix. The value it shows, the sign and the rounding are stated by `Formats.SizeTextReadsAsTenths`, so callers do not carry that reading.
- Url.IsValidYoutubeUrl: its own contract states only a length bound. The full meaning is the if-and-only-if in `Url.ValidatorMatchesPattern`.
