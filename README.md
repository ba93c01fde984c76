# Twilight downloader, modelled in Dafny

`download_twilight.py` mirrors an Archive.org collection. It scrapes the
collection's index page for file links and filters them: navigation links,
"View Contents" links, optional thumbnails and unwanted file types are
dropped. It then downloads each file with resume support: it sends a
`Range: bytes=<size>-` request for a partial file, falls back to a fresh
download when the server answers 416, and skips files that are already
complete. While the body streams, a progress bar advances. At the end the
script prints success and failure counts, or the number of files left when
the user interrupts.

The project models the parts of `TwilightDownloader` that decide things:

- **`text.dfy`, module `Text`.** The Python string operations the code
  relies on, each with a contract saying what it returns:
  - `startswith` and substring `in`;
  - ASCII `lower`, and `lstrip`/`rstrip` of one character;
  - `rfind`, and POSIX `os.path.splitext`;
  - decimal formatting of an integer, with a proved round trip.
- **`listing.dfy`, module `Listing`.** The link filter of `get_file_list`,
  and the base-URL normalisation of the constructor.
  - `GetFileList` is the loop as written, with its `continue`s.
  - `FileList` is the specification it meets.
  - Lemmas prove that the output is the order-preserving image of exactly
    the anchors that pass every test, and that each emitted entry passes
    each filter.
- **`fetch.dfy`, module `Fetch`.** One call of `download_file`.
  - The HTTP session is a function from a request (with or without a Range
    header) to a reply. A reply is a raised exception, or a status, a
    content-length header, the body chunks and how the body's iteration
    ended.
  - The local file is its byte sequence.
  - `DownloadFile` is the branch-and-reassign code as written, and
    `WriteBody` is the chunk loop. `Download` is the specification.
  - Lemmas state the resume, restart, skip, error and progress rules.
- **`driver.dfy`, module `Driver`.** Covers `download_all` and the option
  handling of `main`.
  - `DownloadAll` fetches the listing, filters it, and runs the counting
    loop, stopping at the first interrupt.
  - The download of the `i`-th file is a function `fetch(i, entry)`.
  - Type normalisation (`t.lower().lstrip('.')`) and its link to the
    extension test in the listing are proved here.

## Model

| member | source | states |
|---|---|---|
| `Text.SplitExt` | download_twilight.py:56 | `splitext`: the two parts concatenate to the name. A non-empty extension is one dot followed by no dot and no separator, with a non-dot character before it in its path component. Conversely, every dot of that kind starts the extension. A name without a dot, or a dot-file such as `.hidden`, has no extension |
| `Text.SplitExtOfName` | download_twilight.py:56 | a stem whose last component holds a non-dot character, then a dot, then a suffix with no dot and no `/`, splits into the stem and the dotted suffix (so `a.txt` gives `.txt` and `a..b` gives `.b`) |
| `Text.LStrip` | download_twilight.py:220 | `lstrip(c)`: the result is a suffix whose first character is not `c`, and every dropped character is `c` |
| `Text.RStrip` | download_twilight.py:19 | `rstrip(c)`: the result is a prefix whose last character is not `c`, and every dropped character is `c` |
| `Text.ToLower` | download_twilight.py:56 | `lower()` keeps the length, leaves no upper-case letter, and maps each `A`-`Z` to its lower-case letter and every other character to itself |
| `Text.DecimalRoundTrip` | download_twilight.py:78 | the digits written for an offset read back as that offset |
| `Listing.MakeConfig` | download_twilight.py:18-23 | the base URL loses exactly its trailing slashes and keeps every other character; the types and the thumbnail flag are kept |
| `Listing.ExtensionShape` | download_twilight.py:56 | the extension compared is lower-case, has no dot and no `/`, and is empty when the name has no dot. When it is non-empty, it is the lower-cased text after the dot where `splitext` starts the extension. It can be empty for a name with a dot, such as `.hidden` or `a.` |
| `Listing.ExtensionOfName` | download_twilight.py:56 | for `stem.suffix`, where the stem's last component holds a non-dot character and the suffix has no `.` and no `/`, the extension is the lower-cased suffix |
| `Listing.GetFileList` | download_twilight.py:36-61 | the filter loop with its `continue`s builds exactly `FileList` of the anchors |
| `Listing.KeptIndicesExact` | download_twilight.py:39-58 | the kept positions are in range, strictly increasing, and are precisely the anchors that pass all four tests |
| `Listing.FileListFollowsKeptIndices` | download_twilight.py:39-61 | the output has one entry per kept anchor, in encounter order; each entry is `(unquote(href), urljoin(base + '/', href))` of its anchor; so the output is never longer than the input |
| `Listing.FileListMembership` | download_twilight.py:39-61 | an entry is in the output if and only if some anchor passing all the tests produces it |
| `Listing.ListedEntryFilters` | download_twilight.py:40-58 | an emitted entry comes from an anchor whose href is present, non-empty, not starting with `?`, not `../`, and whose text lacks `View Contents`; with thumbnails skipped its filename lacks `_thumb.`; with a type list, its extension is in the list |
| `Listing.FileListFilters` | download_twilight.py:51-58 | for every emitted entry: no `_thumb.` when thumbnails are skipped, and an extension from the list when one is given |
| `Fetch.RangeHeaderRoundTrip` | download_twilight.py:77-78 | the Range header `bytes=<n>-` names exactly the offset `n` |
| `Fetch.Opening` | download_twilight.py:76-82 | append mode if and only if resuming a non-empty file. A Range header is sent if and only if the mode is append, and it names exactly the offset. The offset is positive exactly in append mode, and in append mode it equals the file size |
| `Fetch.Negotiate` | download_twilight.py:85-93 | one or two requests are sent, the first being the plan's, and the reply kept is the answer to the last one. A second request is sent if and only if the first was answered 416; it has no Range header and resets to truncate mode at offset 0. Append mode survives only when the range was not refused, and then the offset is kept (a 206, or a 200 ignoring the range) |
| `Fetch.DownloadFile` | download_twilight.py:66-134 | the method as written returns exactly the transfer `Download` describes |
| `Fetch.WriteBody` | download_twilight.py:109-121 | the file becomes the opened contents followed by the chunks in order; the progress counter ends at its initial value plus the number of bytes written |
| `Fetch.FirstRequestAsksForRemainder` | download_twilight.py:76-82 | a resumed non-empty file's request carries a Range that names the file size; otherwise no Range is sent |
| `Fetch.SecondRequestOnlyAfterRefusal` | download_twilight.py:88-90 | a second request is sent if and only if the first reply is 416, and it has no Range header |
| `Fetch.ProgressMatchesFile` | download_twilight.py:110-121 | whenever the body was streamed, the progress counter ends at the size of the file on disk |
| `Fetch.NoBodyNoChange` | download_twilight.py:104-106 | when streaming never starts (exception, error status, bad length, or already complete), the file is unchanged |
| `Fetch.ResumeKeepsExisting` | download_twilight.py:77-79 | a resumed file that was not refused with 416 keeps its old bytes as a prefix |
| `Fetch.ErrorStatusFails` | download_twilight.py:96 | a 4xx or 5xx reply fails the call, writes nothing and starts no progress bar |
| `Fetch.InterruptPropagates` | download_twilight.py:129-131 | the call reports an interrupt if and only if the user's interrupt was raised by the request or during streaming |
| `Fetch.ResumeCompletesFile` | download_twilight.py:99-121 | a 206 declaring `n` bytes, followed by those bytes, gives a file of the old size plus `n`: the old bytes, then the new ones; the bar's total and position are both that size |
| `Fetch.AlreadyDownloadedExactly` | download_twilight.py:99-106 | once a reply is accepted, the call returns success without writing if and only if the offset is positive and at least the total size (the content-length, 0 if absent, plus the offset for a 206) |
| `Fetch.PartialWithNothingLeftSkips` | download_twilight.py:99-106 | a 206 with content-length 0 or none leaves the file as it is, sends one request and succeeds |
| `Fetch.IgnoredRangeAppendsBody` | download_twilight.py:77-79 | a 200 answer to a Range request, declaring more than the file holds, has its whole body appended after the old bytes |
| `Fetch.RestartAfterRangeNotSatisfiable` | download_twilight.py:88-92 | after a 416 the call has the outcome and progress of a fresh download, and the same file once the body streams |
| `Fetch.FreshDownloadWritesBody` | download_twilight.py:80-82 | a fresh download of an accepted reply is never skipped; the file becomes exactly the body, and the call succeeds if and only if the body ended normally |
| `Driver.NormaliseType` | download_twilight.py:220 | a normalised type has no upper-case letter and no leading dot; it is the lower-cased input with only dots removed from the front |
| `Driver.NormaliseTypes` | download_twilight.py:219-220 | every type is normalised in place and in order |
| `Driver.Setup` | download_twilight.py:219-238 | no `--types` means no type filter; otherwise the filter is the normalised list. The base URL is the given one with exactly its trailing `/` removed |
| `Driver.NormaliseIdempotent` | download_twilight.py:220 | normalising twice is normalising once |
| `Driver.NormaliseIgnoresCaseAndDot` | download_twilight.py:220 | a type's case and one leading dot do not change its normal form |
| `Driver.TypeSelectsExtension` | download_twilight.py:56-57 | every type that lower-cases to the suffix or to the dotted suffix normalises to the extension of `stem.suffix`, for every stem with a non-dot character in its last component |
| `Driver.NormaliseWithoutDot` | download_twilight.py:220 | a type with no dot is only lower-cased |
| `Driver.ExtensionlessKeptOnlyByEmptyType` | download_twilight.py:55-58 | with a type list, a file without a dot in its name passes the type test if and only if the empty type is in the list |
| `Driver.TallyCounts` | download_twilight.py:146-158 | without an interrupt, the counters are the numbers of successes and failures and add up to the count of outcomes; otherwise the recorded position is the first interrupt, and the counters count what came before it |
| `Driver.TallyKeepsInterrupt` | download_twilight.py:156-159 | outcomes after the first interrupt change nothing |
| `Driver.ReportAccountsForEveryFile` | download_twilight.py:140-166 | an empty listing reports nothing; a completed batch has successes plus failures equal to the number of files, and none interrupted; a cancelled one has the interrupt at position `len(files) - remaining`, no interrupt before it, and successes, failures, the interrupted file and the remaining files add up to the total |
| `Driver.FailureDoesNotStopBatch` | download_twilight.py:146-166 | a failure in the middle of three files still gives two successful, one failed, three in total |
| `Driver.InterruptReportsRemaining` | download_twilight.py:156-159 | an interrupt on the second of three files reports one successful, none failed, one remaining |
| `Driver.DownloadAll` | download_twilight.py:136-166 | a failed listing request yields no batch; otherwise the result is the report of the filtered listing's outcomes |

## Left out

- HTTP: `requests.Session`, the User-Agent header, timeouts and `stream=True` are not modelled. Each GET is the function from request to reply that is passed in. `raise_for_status` is the 400-599 status test.
- The server is deterministic in the model: identical requests get identical replies. When a plain GET (resume off, or an empty file) is answered 416, the code sends the same plain GET again (line 90). A real server may answer that one differently, but the model's second reply is the same 416, so the call fails.
- HTML parsing: BeautifulSoup is not modelled. The anchors, each an optional `href` and the link text, are an input.
- `unquote` and `urljoin` are library calls whose behaviour the source does not define. They are uninterpreted function parameters.
- The filesystem: `mkdir`, `exists`, `stat` and `open` are not modelled. The file is its contents, and a missing file is the empty sequence. A failure to open or write the file is not modelled. The file name's path under the output directory is not modelled either.
- Content-length parsing: `int()` on the header is abstracted as missing, a number, or unparsable. An unparsable header is the generic-exception path.
- `tqdm` rendering and every `print` are not modelled. The progress bar is its total and its counter position.
- `argparse`, the printed banner, and `sys.exit` with its exit status are not modelled. `main`'s part is type normalisation and the construction of the configuration.
- `KeyboardInterrupt` is an outcome at the points where the source handles it. These are the request, the body stream (inside `download_file`) and the per-file call (inside `download_all`). An interrupt at any other point, such as during a `print`, is not modelled.
- `Text.ToLower` lower-cases the ASCII letters only. Python's `lower()` also maps other Unicode letters.
- `Text.SplitExt` follows POSIX `posixpath.splitext`, with `/` as the only separator. The Windows `ntpath.splitext`, which also splits at `\` and after a drive letter, is not modelled.
- The chunk size of `iter_content` is not modelled. The body is a sequence of chunks of any size, so the proofs hold for every split.
- `DownloadAll` downloads through the `fetch` parameter rather than calling `DownloadFile`. `Fetch.Download` is what each call does, given that file's contents and server.
- `test_download.py` is not modelled. It only calls `download_all` against the live collection.

## Where the code differs from what a user might expect

The model follows the code.

- **Extensionless files.** A user might expect a type list to exclude every file without an extension. The code keeps them when the empty type is in the list, which `--types .` produces. See `Driver.ExtensionlessKeptOnlyByEmptyType`.
- **Unknown sizes.** A user might expect a file to be skipped as complete only when its total size is known. The code counts a missing content-length as 0, so a 206 reply without a length is reported as already downloaded. See `Fetch.PartialWithNothingLeftSkips`.
- **Re-running.** A user might expect re-running to leave complete files alone. A server that answers 416 to the Range request for a complete file makes the code download the file again from the start. See `Fetch.RestartAfterRangeNotSatisfiable`.
- **Servers that ignore Range.** The code keeps append mode when the server ignores the Range header and sends the whole file with status 200. The body is then appended to the bytes already there. See `Fetch.IgnoredRangeAppendsBody`.
