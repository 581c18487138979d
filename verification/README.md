# KomikTap downloader core, in Dafny

`komiktap_downloader.py` renders a comic-series page, collects its chapter links and
downloads every image of the chosen chapters. Most of it is I/O: a headless browser,
HTML parsing, HTTP and the file system. Inside that I/O sit a few pure rules, and this
project models and proves them:

- `extract_chapter_num`. The number after the leftmost `chapter-` that is followed by
  a digit. It is read by the pattern `chapter-([0-9]+(?:\.[0-9]+)?)`, and is 0 when
  there is no match (`chapter_number.dfy`).
- `get_chapter_links`, minus the page fetch. It trims every anchor `href` and keeps
  those whose lower-cased form contains `-chapter-`. It removes trailing `/`, resolves
  the result against the page URL, drops duplicates and sorts by chapter number
  (`chapter_links.dfy`).
- `download_chapter`, minus the I/O. It computes the series slug and the `Ch<num>` /
  `Chunknown` directory. Each image's source is `src`, falling back to `data-src`.
  The image at position `idx` goes to the file `f"{idx+1:03d}.webp"`. A file is
  written only for a fetch that answers 200 (`chapter_download.dfy`).
- Chapter selection. The console parses its comma-separated chapter numbers, and
  `download_manga` filters the chapter list by them (`selection.dfy`).

`text.dfy` holds the Python `str` operations these rely on: `strip`, `rstrip`,
`lower`, `in`, `split`, `replace(..., 1)`, digits and padding. `sequences.dfy` holds
the list operations: filtering, list comprehensions, `set()` and `sorted`.
`wrappers.dfy` holds `Option`.

Modelling choices:

- Strings are `seq<char>`.
- Chapter numbers are exact `real`s. `float` parsing is modelled as the exact decimal
  value of the digits.
- `urljoin` is an opaque parameter `resolve(base, href)`.
- The anchors of a page are their `href` strings in document order. The reader area
  is `Option<seq<Image>>`, with `None` when `find` returns nothing.
- The result of fetching the image at each position is a parameter
  `outcome: nat -> Fetch`. A `Fetch` is either a response with a status code or a
  raised exception.

Two details of the code matter here:

- The chapter-token test looks at the trimmed `href`, before `rstrip('/')` and before
  `urljoin`.
- `rstrip('/')` removes every trailing `/`.

## Model

| member | source | states |
|---|---|---|
| ChapterNumber.FirstMatch | komiktap_downloader.py:41 | The search finds the leftmost position at or after `from` where `chapter-` plus one digit starts. No match starts before it, and with no result, none starts anywhere after `from`. |
| ChapterNumber.NumeralAt | komiktap_downloader.py:41 | The captured group is greedy. It holds the maximal digit run at the position. It adds `.` and the maximal following digit run only if a digit follows the `.`, and otherwise has no fraction. |
| ChapterNumber.ExtractChapterNum | komiktap_downloader.py:40-42 | The result is never negative. It is 0 when no position matches. When there is a leftmost match, it is the value of the numeral captured there. |
| ChapterNumber.ZeroMeansNoneOrZero | komiktap_downloader.py:40-42 | The result is 0 exactly when there is no match, or when the leftmost match reads a numeral of value zero. |
| ChapterNumber.TrailingZero | komiktap_downloader.py:42 | Appending `0` to the fraction does not change the value `float` reads (`5.50` is `5.5`). |
| ChapterNumber.LeadingZerosValue | komiktap_downloader.py:42 | Leading zeros in the whole part do not change the value (`007` is `7`). |
| ChapterNumber.CapitalisedMarkerIsNotANumber | komiktap_downloader.py:41-42 | The match is case-sensitive: `Chapter-5` yields 0. |
| ChapterNumber.FractionalChapter | komiktap_downloader.py:40-42 | `x-chapter-12.5` yields 12.5: the fraction belongs to the number. |
| Text.Strip | komiktap_downloader.py:34 | `strip()` returns a contiguous slice of the input. Only whitespace lies outside the slice, and no whitespace is left at either end of the result. |
| Text.StripIdempotent | komiktap_downloader.py:134 | `strip()` is idempotent: stripping an already stripped token changes nothing. |
| Text.RStrip | komiktap_downloader.py:36 | `rstrip('/')` returns a prefix of the input. Everything dropped is a `/`, and the result does not end in `/`. |
| Text.LowerString | komiktap_downloader.py:35 | `lower()` keeps the length and lower-cases every position. |
| ChapterLinks.KeepHref | komiktap_downloader.py:35 | An href is kept exactly when its lower-cased form contains `-chapter-`. |
| ChapterLinks.GetChapterLinks | komiktap_downloader.py:31-37 | The returned links are non-decreasing in chapter number and free of duplicates. A URL is in the result exactly when some anchor is kept and its trimmed, slash-stripped, resolved href is that URL. |
| Sequences.Dedupe | komiktap_downloader.py:37 | `set(links)` holds no duplicates, has the same members as `links`, and is no longer. |
| Sequences.SortBy | komiktap_downloader.py:37 | `sorted(..., key=...)` is non-decreasing in the key. It has the same length and members as its input and no duplicates. |
| ChapterLinks.AbsoluteLinksHaveNoTrailingSlash | komiktap_downloader.py:34-36 | When `urljoin` leaves hrefs unchanged, every link is non-empty, ends in no `/` and still carries the chapter token. |
| ChapterLinks.StripSlashesKeepsToken | komiktap_downloader.py:36 | Removing trailing slashes from an href that contains the token cannot cut into the token, which ends in `-`. |
| Text.BeforeFirst | komiktap_downloader.py:56 | `s.split(token)[0]` is the prefix of `s` before the leftmost occurrence of the token, and all of `s` when the token is absent. |
| Text.AfterLast | komiktap_downloader.py:56 | `s.split('/')[-1]` is the suffix of `s` after its last `/`. It contains no `/`. |
| ChapterDownload.Slug | komiktap_downloader.py:56 | The slug contains no `/`. It is the slice of the URL that ends at the first `-chapter-` (or at the end of the URL) and starts right after a `/` or at the start. |
| ChapterDownload.SlugOfChapterUrl | komiktap_downloader.py:56 | A URL `<base>/<slug>-chapter-<rest>` yields `slug`, provided the token does not occur earlier. |
| ChapterDownload.DirOf | komiktap_downloader.py:55-57 | The directory is numbered by the chapter number when that number is non-zero. It is `unknown` exactly when there is no match or the leftmost numeral is zero. |
| ChapterDownload.ChapterZeroIsUnknown | komiktap_downloader.py:55 | A genuine `chapter-0` and a URL with no chapter number share the `Chunknown` directory. |
| ChapterDownload.Source | komiktap_downloader.py:61-63 | The source is `src` when that is non-empty, otherwise `data-src` when that is non-empty, otherwise none, in which case the image is skipped. |
| Text.NatToDigits | komiktap_downloader.py:65 | `str(n)` is all digits, denotes `n`, and has no leading zero unless `n` is 0. |
| Text.LeadingZeros | komiktap_downloader.py:65 | Zero padding does not change the value of the numeral. |
| ChapterDownload.Stem | komiktap_downloader.py:65 | `f"{idx+1:03d}"` is at least three digits long and denotes `idx+1`. When it is longer than three digits it has no leading zero. |
| ChapterDownload.FileName | komiktap_downloader.py:65 | The file name ends in `.webp`, and its stem is at least three digits denoting `idx+1`, zero-padded to width three and no further (a longer stem has no leading zero). |
| ChapterDownload.FileNameInjective | komiktap_downloader.py:65 | Different image positions get different file names. |
| ChapterDownload.FirstFileName | komiktap_downloader.py:65 | The first image goes to `001.webp`. |
| ChapterDownload.Plan | komiktap_downloader.py:60-65 | The loop's downloads are for images that have a source. Each is fetched at `urljoin(ch_url, source)` and named after its position. They follow document order, and every image with a source gets one. Skipped images keep their position. |
| ChapterDownload.Written | komiktap_downloader.py:67-74 | The downloads whose file is written are exactly those whose fetch answered 200. They keep their order. |
| ChapterDownload.DownloadChapter | komiktap_downloader.py:48-74 | With no reader area nothing is saved. Otherwise the slug and directory are as above, and the file of image `k` is written exactly when the image has a source and its fetch answered 200. |
| ChapterDownload.WrittenJobs | komiktap_downloader.py:60-74 | The written files are downloads of the chapter in image order, one for each image with a source whose fetch answered 200, and none for any other image. |
| ChapterDownload.FailureIsolated | komiktap_downloader.py:67-74 | Changing the outcome of image `j` (another status, or an exception) leaves the writes of every other image unchanged. |
| ChapterDownload.SecondImageMissing | komiktap_downloader.py:60-74 | Of three images whose second fetch answers 404, exactly the first and the third are written. |
| Text.RemoveFirst | komiktap_downloader.py:134 | `replace('.', '', 1)` deletes the leftmost `.` if there is one and leaves the string unchanged otherwise. |
| Text.Split | komiktap_downloader.py:134 | `split(',')` yields at least one piece, and no piece contains `,`. |
| Text.JoinSplit | komiktap_downloader.py:134 | Joining the pieces of `split(c)` with `c` gives back the input. |
| Text.SplitJoin | komiktap_downloader.py:134 | Splitting a `c`-join of pieces that contain no `c` gives back the pieces. |
| Selection.ParseToken | komiktap_downloader.py:134 | A token is converted exactly when the comprehension's test accepts it: stripped and with one `.` removed, it is a non-empty run of digits. |
| Selection.ParseTokenValue | komiktap_downloader.py:134 | The test accepts a token exactly when, stripped, it has the form `w`, `w.` or `w.f` with digit strings not both empty. The value is then the decimal `w.f`. |
| Selection.ParseTokens | komiktap_downloader.py:134 | A number is in the list exactly when some token converts to it. |
| Selection.ParseTokensAppend | komiktap_downloader.py:134 | Parsing distributes over concatenation, so converted tokens keep their input order. |
| Selection.InvalidTokenDropped | komiktap_downloader.py:134 | A rejected token between two accepted ones is dropped, and the two values keep their order. |
| Selection.ParseSelection | komiktap_downloader.py:132-136 | Blank input gives `None`. Otherwise the selection holds exactly the values of the comma-separated tokens that are converted. |
| Selection.ExampleSelection | komiktap_downloader.py:132-136 | The input `3, abc, 5.5` selects `[3.0, 5.5]`. |
| Selection.SelectChapters | komiktap_downloader.py:81-82 | The result is an order-preserving subsequence of the chapters. Without a non-empty selection it is all of them. With one, it is exactly the chapters whose number is selected. |
| Selection.AllTokensInvalidSelectsAll | komiktap_downloader.py:81-82 | Non-blank input whose tokens are all rejected gives an empty selection, and then every chapter is downloaded. |
| Selection.ChaptersToDownload | komiktap_downloader.py:78-85 | The chapters downloaded are in non-decreasing chapter order, each once. They are exactly the page's chapter links whose number is selected, or all of them without a selection. |
| Selection.ParseTokenAsWritten | komiktap_downloader.py:134 | As written, a token is skipped exactly when `isdigit` rejects it. It is converted exactly when, stripped, it is a decimal numeral and it holds none of U+001C to U+001F, which `strip()` removes but `float()` does not. Any other token makes `float` raise. |
| Selection.SuperscriptTokenRaises | komiktap_downloader.py:134 | The token `²` passes the test as written, and its conversion raises. |
| Selection.SeparatorTokenRaises | komiktap_downloader.py:134 | The token `2\x1c` passes the test as written, because `strip()` removes U+001C, and `float` raises on it. |
| Selection.SeparatorTokenKept | komiktap_downloader.py:134 | The corrected conversion keeps `2\x1c` and reads it as 2. |
| Selection.ParseTokenOfStrip | komiktap_downloader.py:134 | The corrected conversion depends only on the stripped token. |

## Findings

| source | as written | input that shows it | evidently intended | confidence | as-written member | corrected member |
|---|---|---|---|---|---|---|
| komiktap_downloader.py:134 | The test uses `str.isdigit()`. That accepts superscript digits (Unicode Numeric_Type=Digit), which `float()` rejects, so the comprehension raises `ValueError` and the program stops before any download. | the chapter input `²` (or `1, ³`) | Keep exactly the tokens whose stripped text is a decimal numeral (ASCII digits with at most one `.`), and drop every other token. | high, not executed | Selection.SuperscriptTokenRaises | Selection.ParseToken |
| komiktap_downloader.py:134 | The test looks at `x.strip()`, but `float()` is given `x`. `strip()` removes the separators U+001C to U+001F, and `float()` does not trim them, so a token such as `2\x1c` passes the test and then raises `ValueError`. | the chapter input `1,2\x1c,3` | Read the numeral the test accepted, as `float(x.strip())` does, the same way a token with spaces around it is read. | high, not executed | Selection.SeparatorTokenRaises | Selection.SeparatorTokenKept |

## Left out

- Rendering (`get_rendered_html`: Selenium, `time.sleep`) and HTML parsing (BeautifulSoup `find_all`, `find`, `select`). These are external programs. Anchors arrive as `href` strings and images as `Image` records.
- The `hasattr(a, "get")` guard at line 32. Every anchor handed to the model is a tag.
- `urljoin`. Its RFC 3986 section 5.2 resolution is an opaque parameter, so the model proves nothing about what it returns. The no-trailing-slash property is stated only for absolute hrefs that it leaves unchanged.
- `requests.get`, streaming and file writes. They become the per-image `outcome`. A file left partly written by an exception raised mid-stream is not modelled. Neither are `os.makedirs` and `os.path.join` separators, or the `OUTPUT_DIR` prefix.
- The `print` calls and the progress messages.
- `list_manga_and_chapters` (lines 88-101) and `list_manga_titles` (lines 103-111). They only print. The first prints the page's `h1` title, or `Unknown Title`, and then the result of `get_chapter_links` with `extract_chapter_num` of each link. The second prints the `title` attribute or the stripped text, and the `href`, of every `div.bsx > a` anchor. Printing is not modelled.
- The console menu, its prompts and the empty-URL check. Only the chapter-number input (lines 132-136) is modelled.
- The loop at lines 85-86 that calls `download_chapter` for each chapter. `ChaptersToDownload` gives the order of those calls, and `DownloadChapter` gives what each call does.
- ChapterDownload.DownloadChapter: `resolve` is total, but `urljoin` at line 64 can raise (`ValueError` from `urlsplit` on a `src` such as `//[x/1.webp`). That call is outside the `try` at lines 67-74, so in the program the exception ends `download_chapter` and, uncaught in `download_manga`, the whole run, and no later image is written. The per-image "written exactly when it has a source and its fetch answered 200" is therefore promised only when `urljoin` returns for every source of the chapter. The same holds for ChapterDownload.FailureIsolated, which isolates fetch failures but not a raising `urljoin`.
- ChapterLinks.GetChapterLinks: likewise assumes `urljoin` at line 36 returns for every kept `href`. A raising `urljoin` there stops the program before any link is returned.
- ChapterNumber.ExtractChapterNum: uses exact decimals, not binary floats. Rounding, and `in` comparisons that rounding could change, are not modelled.
- ChapterDownload.DirOf: returns a `ChapterDir` value rather than the text `Ch<repr of float>` (such as `Ch7.0`), because the text of a float's `repr` is not modelled.
- Sequences.SortBy: insertion sort fixes one order among links with equal chapter numbers. `sorted(set(...))` leaves that order to the iteration order of the set, so only sortedness, distinctness and membership are stated.
- Text.LowerString: lower-cases ASCII letters only. No other character lower-cases to a character of `-chapter-`, so the result of the token test does not change.
- Text.IsDigit: accepts ASCII `0-9` only. Python's `isdigit` and `float` also accept decimal digits of other scripts, such as Arabic-Indic, so such tokens are kept by the program but dropped by this model. The superscripts in the first finding above are a sample of the characters `isdigit` accepts and `float` rejects, not the full Unicode class.
