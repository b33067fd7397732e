# reels-downloader: a verified model of the request-shaping core

The reels downloader is a small web app. A FastAPI backend asks an extractor
(yt-dlp) for a media page's metadata, and it proxies the chosen media file to
the browser. A React frontend lists the available formats. This project
models the parts that make decisions, and proves what they promise.

- **`POST /download`** (`download.dfy`, `formats.dfy`):
  - A playlist-like result is replaced by its first entry.
  - Every raw format is projected onto the seven-field format record. Absent
    fields stay absent.
  - One `download_url` is picked. The first choice is the first format with
    the requested id and a URL. Otherwise it is the format with a URL that
    comes first after a stable sort by height, descending. This is proved
    equal to "the earliest among the tallest".
  - The extractor is a parameter: a document, or the message of the
    exception it raised.
- **The fixed-window rate limiter** `rate_limit_dep` (`rate_limit.dfy`):
  - A `QuotaStore` class stands in for Redis. It holds a map from key to
    (count, expiry), a logical clock, and INCR / EXPIRE / TTL methods.
  - Each command takes a flag saying whether it raises a store error.
  - `RateLimitDep` states the whole new store and the decision for every
    combination of failures.
  - Three scenario methods prove concrete behaviours:
    - the 21st call in a window is rejected with a retry-after of 60;
    - a call after the window has passed is admitted again;
    - a dead store admits everything;
    - when the first call's EXPIRE fails, the key never expires and the
      client is rejected for good, with a retry-after of -1.
- **The stream proxy's header decision** (`stream_headers.dfy`, `url_path.dfy`):
  - The preflight outcome becomes a 502, the upstream error status, or the
    response headers.
  - The attachment name is chosen: a supplied name with `"` replaced by `'`,
    or else the percent-decoded last path segment (section 2.1 of RFC 3986),
    or else `download`.
  - The header is read back as a quoted-string (section 5.6.4 of RFC 9110;
    the filename parameter of section 4.1 of RFC 6266). It reads back
    exactly when the name holds no `"` and no `\`.
  - Two lemmas show where the code lets a name through that breaks the
    header: a `%22` in a URL-derived name, and any `\` in a supplied name.
- **The frontend's format list** (`format_list.dfy`):
  - `dedupeFormatsByUrl` is a loop over a JavaScript `Map`. It is modelled as
    the map plus its key order, and proved equal to a declarative
    definition. That definition keeps the first of the best-scoring entries
    per URL, in first-seen order.
  - `groupFormats` is the push loop followed by the two stable sorts.
- **The API base** (`api_base.dfy`): `API_BASE` loses one trailing `/`, and
  `api` prefixes a path with it.

`stable_sort.dfy` holds the one stable, descending insertion sort that
models both Python's `sorted(..., reverse=True)` and `Array.prototype.sort`
with a `b - a` comparator. It proves:
- the sort's output is sorted and a permutation of its input;
- stability: each class of equal keys keeps its input order;
- uniqueness: any sorted sequence with the same key classes is this sort's
  output;
- that the first match after sorting is the one-pass "first maximal"
  element.

## Model

| member | source | states |
|---|---|---|
| Download.HandleDownload | backend/main.py:36-85 | an extractor exception gives a 400 whose detail carries its message. Otherwise id, title, uploader, thumbnail and duration come from the effective document, `formats` is the projection of its formats, and `download_url` is the selected URL |
| Download.ProjectFormats | backend/main.py:49-59 | the projected list has the raw list's length and order; each entry is the projection of the raw entry at the same index |
| Formats.Project | backend/main.py:51-59 | each of the seven fields of the record holds what `f.get` gives for its key: the stored value when present, nothing when absent |
| Formats.ProjectEmbed | backend/main.py:50-59 | a projected record keeps every field a record can hold |
| Formats.EmbedProject | backend/main.py:50-59 | projection keeps each of the seven keys exactly as the extractor gave it, never defaulted, and drops every other key |
| Download.IdComparedAsText | backend/main.py:65 | a format matches the request exactly when its id is the requested text and its URL is truthy; a numeric or missing id never matches |
| Download.FirstRequested | backend/main.py:63-67 | the index found has the requested id and a URL, and no earlier format does; no index means no format does |
| Download.SelectDownloadUrl | backend/main.py:61-75 | a selected URL is truthy and is the URL of some format that has one |
| Download.SelectUrl | backend/main.py:61-75 | the two scans (requested id, then the first format with a URL after the height sort) give the specified download URL |
| Download.FirstUrl | backend/main.py:72-75 | the scan gives the URL of the first format in the sorted list that has one, and nothing when none has |
| Download.SelectRequestedFirst | backend/main.py:63-67 | when the k-th format is the first with the requested id and a URL, its URL is selected |
| Download.SelectTallest | backend/main.py:69-75 | with no usable requested format and some URL present, the selected URL belongs to the earliest format of greatest height among those with a URL |
| Download.SelectAbsentIffNoUrl | backend/main.py:62-75 | no URL is selected exactly when no format has a truthy URL, and a selected URL is truthy |
| Download.TallestOfTwo | backend/tests/test_main.py:18-46 | with the test's 360p and 720p formats and no requested id, the 720p URL is selected; requesting id 18 selects the 360p URL |
| StableSort.SortDesc | backend/main.py:71 | the sorted list is a permutation of its input |
| StableSort.SortDescSorted | backend/main.py:71 | the sorted list has non-increasing keys |
| StableSort.SortDescStable | backend/main.py:71 | the elements with any one key keep their input order (stability) |
| StableSort.SortedUnique | frontend/src/App.jsx:57-59 | two sorted lists with the same elements per key, in the same order, are equal; so any stable descending sort gives the same list |
| StableSort.FirstAfterSortIsArgMax | backend/main.py:71-75 | the first element satisfying p after the stable sort is the one-pass choice of the earliest element of greatest key among those satisfying p |
| StableSort.ArgMaxWhereIsFirstMaximal | backend/main.py:69-75 | the one-pass choice is absent exactly when nothing satisfies p. Otherwise it is an element satisfying p whose key is at least every other such key and strictly above every earlier such key |
| StableSort.ArgMaxWhereAppend | frontend/src/App.jsx:36-39 | appending one element changes the choice only when the new element satisfies p and has a strictly greater key, or when nothing was chosen before |
| StableSort.FirstWhere | backend/main.py:72-75 | the first match satisfies p, and it sits at an index before which nothing satisfies p; no match means nothing satisfies p |
| StableSort.Keep | frontend/src/App.jsx:48-55 | the kept elements are exactly those of the input satisfying p |
| StableSort.KeepPartition | frontend/src/App.jsx:48-55 | splitting a list by p and by not-p gives two lists whose elements together are exactly those of the input |
| StableSort.KeepAppend | frontend/src/App.jsx:48-55 | filtering a concatenation gives the concatenation of the filtered parts, in order |
| StableSort.KeepCount | frontend/src/App.jsx:48-55 | each element is kept exactly as often as it occurs when it satisfies p, and never otherwise |
| FormatList.ScoreMonotone | frontend/src/App.jsx:37-38 | the score never drops when neither height nor filesize drops, and rises when either rises; one pixel of height weighs as much as two bytes of filesize |
| FormatList.DedupeFormatsByUrl | frontend/src/App.jsx:24-42 | the Map loop gives exactly the declarative deduplicated list |
| FormatList.SeenUrlsAreCarried | frontend/src/App.jsx:28-34 | the Map's keys are distinct, and a value is a key exactly when some format carries it as a truthy URL |
| FormatList.SeenUrlsOrdered | frontend/src/App.jsx:27-33 | the Map's keys follow the order of each URL's first occurrence |
| FormatList.DedupedUniqueUrls | frontend/src/App.jsx:28-41 | the output holds only formats with a truthy URL and no two with the same URL, and every URL of the input is represented |
| FormatList.DedupedKeepsBest | frontend/src/App.jsx:36-39 | each kept entry comes from the input and scores at least as high as every entry with its URL; every earlier entry with its URL scores strictly less, so ties keep the first seen |
| FormatList.DedupedFirstSeenOrder | frontend/src/App.jsx:27-41 | the output follows the order in which each URL was first seen; a replacement keeps its place |
| FormatList.Lower | frontend/src/App.jsx:49-50 | upper-case ASCII letters become lower case, and every other character is unchanged |
| FormatList.Contains | frontend/src/App.jsx:50 | `includes` holds exactly when the substring occurs at some index |
| FormatList.IsAudio | frontend/src/App.jsx:49-50 | a format is audio exactly when its lower-cased extension holds `m4a` at some index or is `mp3`, or its lower-cased note holds `audio` at some index; a format with neither an extension nor a note is video |
| FormatList.GroupFormats | frontend/src/App.jsx:44-61 | audio and video together are exactly the deduplicated list. Every audio entry passes the audio test and no video entry does. Video is stably sorted by non-increasing height, audio by non-increasing filesize |
| UrlPath.LastSegment | backend/main.py:168 | the last segment holds no `/`, ends the path, and is preceded by a `/` unless it is the whole path |
| UrlPath.PercentDecode | backend/main.py:168 | decoding never lengthens the text |
| UrlPath.HexDigit | backend/main.py:168 | a hex digit written for a value reads back as that value |
| UrlPath.DecodeEncode | backend/main.py:168 | percent-decoding undoes percent-encoding of any text of code points below 256 |
| UrlPath.DecodeWithoutPercent | backend/main.py:168 | text without `%` decodes to itself |
| UrlPath.LastSegmentAfter | backend/main.py:168 | whatever precedes a path's last `/`, the segment after it is the last segment |
| UrlPath.DecodePlainPrefix | backend/main.py:168 | a run of text without `%` decodes to itself, followed by the decoded rest |
| UrlPath.DecodeQuote | backend/main.py:168 | `%22` between two runs of text without `%` decodes to a double quote |
| StreamHeaders.NeutraliseQuotes | backend/main.py:161-162 | every `"` becomes `'`, and every other character and the length are unchanged |
| StreamHeaders.DownloadName | backend/main.py:159-171 | the name is never empty; a supplied non-empty name keeps its length and every character except `"`, and holds no `"` |
| StreamHeaders.DecideHeaders | backend/main.py:151-172 | an error exactly when the preflight failed (502) or answered at least 400 (that same status). Otherwise content-type is the upstream value or `application/octet-stream`, and a disposition is present exactly when `download` is set, and it is then the header for the chosen name |
| StreamHeaders.UnescapeIdentity | backend/main.py:172 | a quoted-string body reads as itself exactly when it holds no `"` and no `\` |
| StreamHeaders.Disposition | backend/main.py:172 | the emitted header reads back as the name exactly when the name holds no `"` and no `\` |
| StreamHeaders.SuppliedNameReadsBack | backend/main.py:159-172 | a supplied non-empty name reads back from the header exactly when it holds no `\` |
| StreamHeaders.DerivedNameMayCarryQuote | backend/main.py:163-172 | a last path segment `<before>%22<after>` (no `/` or `%` in either part) yields the name `<before>"<after>`, and the header then does not read back as that name |
| RateLimit.Bumped | backend/main.py:114 | INCR adds one to the count (starting a missing key at 1), keeps the key's expiry, and leaves other keys alone |
| RateLimit.LiveAt | backend/main.py:116 | the keys left at a time are those whose expiry has not been reached, with their windows unchanged |
| RateLimit.QuotaStore.constructor | backend/main.py:125-128 | a new store is empty and valid |
| RateLimit.QuotaStore.Incr | backend/main.py:114 | on failure nothing changes. Otherwise the reply is the new count and the store is the incremented one |
| RateLimit.QuotaStore.Expire | backend/main.py:116 | on failure nothing changes. A missing key gives false. A non-positive time deletes the key. Otherwise the key expires that many seconds from now |
| RateLimit.QuotaStore.Ttl | backend/main.py:118 | -2 for a missing key, -1 for a key without expiry, else the seconds left, which are then positive |
| RateLimit.QuotaStore.Advance | backend/main.py:116 | the clock moves on, and exactly the keys whose expiry has been reached disappear |
| RateLimit.RateKeyBuckets | backend/main.py:110-111 | two clients share a counter exactly when their addresses are equal; a request without a client address shares the counter of the address `unknown` |
| RateLimit.RateLimitDep | backend/main.py:103-122 | the store is incremented. Expiry is set to 60 only when the new count is 1. The call is rejected exactly when the count exceeds 20, and the rejection is the 429 error carrying the key's TTL. A failing INCR, EXPIRE or TTL admits the call |
| RateLimit.Digits | backend/main.py:119 | the decimal text is non-empty and made of digits |
| RateLimit.DigitsRoundTrip | backend/main.py:119 | the digits of n read back as n |
| RateLimit.DecimalRoundTrip | backend/main.py:119 | `int(str(n)) == n` for every integer, negative ones included |
| RateLimit.RejectionError | backend/main.py:119 | status 429, and the retry-after figure reads back from the detail text |
| RateLimit.FixedWindowScenario | backend/main.py:94-122 | with a healthy store, the first 20 calls are admitted and the 21st is rejected with the 429 whose retry-after is 60; a call 61 seconds later is admitted |
| RateLimit.StoreDownScenario | backend/main.py:120-122 | when every store command fails, every call is admitted |
| RateLimit.LostExpiryScenario | backend/main.py:114-119 | if the first call's EXPIRE fails, calls 21 onward are rejected with the 429 whose retry-after is -1, however much time passes |
| ApiBase.Base | frontend/src/App.jsx:5 | the base is empty exactly when the variable is unset, empty or `/`; otherwise it is the value, or the value without its one trailing `/` |
| ApiBase.OneSlashIgnored | frontend/src/App.jsx:5 | a base with or without one trailing `/` is the same base |
| ApiBase.StripIdempotentIff | frontend/src/App.jsx:5 | stripping twice equals stripping once exactly when the value does not end in `//` |
| ApiBase.EndpointUrl | frontend/src/App.jsx:5-10 | every endpoint URL ends with the path. It is the path alone exactly when the variable is unset, empty or `/` |

## Left out

- The extractor call (backend/main.py:35-41) is a foreign library. Its outcome is a parameter of `HandleDownload`. `isinstance(info, dict)` always holds in the model.
- The HEAD and GET requests, the async stream generator, 8 KiB chunk relaying and cancellation (backend/main.py:145-152, 174-188) are network I/O. The HEAD outcome is a parameter of `DecideHeaders`. Exceptions other than a connection failure are not modelled.
- Redis itself, the startup and shutdown hooks, and the race between concurrent first requests (backend/main.py:98-100, 125-136) are left out. The store is an in-memory map with a logical clock in whole seconds. Whether each command fails is a parameter. Calls are sequential.
- `DecideHeaders` does not model the header encoding of the response built at backend/main.py:188: the framework encodes header values as Latin-1, so a name holding a character above U+00FF (a supplied title, say) fails there, while the model returns `Success` with that name.
- `urlparse` is not modelled: the URL's path is an input of `DecideHeaders`. Because the name is then always computed, the `except Exception: 'download'` fallback (backend/main.py:170-171) is not reachable in the model.
- UrlPath.PercentDecode: each `%HH` becomes the character with code point HH. Python's `unquote` decodes the resulting bytes as UTF-8, so names with bytes of 0x80 and above differ.
- Formats.HeightRank: a height or filesize that is not an integer ranks as 0. Python would compare or raise on a string, and JavaScript would coerce it (and `+` on a string filesize concatenates). Numbers are integers in the model, not floats.
- FormatList.TextOrEmpty: an `ext` or `format_note` that is not a string reads as empty text. JavaScript would throw on `toLowerCase`.
- FormatList.Lower: it lower-cases ASCII letters only; `toLowerCase` also maps other scripts.
- A JSON `null` field and a missing key are the same in the model: `dict.get` and `||` treat them alike. A missing, null or empty `entries` or `formats` is an empty sequence.
- The `!f` test for null array elements (frontend/src/App.jsx:29) is not modelled, because a format record in the model is never null.
- `humanSize` (frontend/src/App.jsx:12-22) is left out because it uses floating-point division and `toFixed`.
- The React components, the CLI scripts under backend/scripts, FastAPI/pydantic request validation, CORS and the liveness route are rendering, I/O or framework code.
