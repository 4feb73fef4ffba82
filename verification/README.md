# Rescue portal photo scraper: the filter and file-name logic

The scraper logs into a pet-adoption portal, walks the animal listing pages,
picks out the rows whose status cell says an animal is on hold in a given year,
and downloads each such animal's photo under a file name built from the row.
Two copies exist: `images.py` wraps everything in a `RescuePortal` class whose
patterns come from the command line (defaults `Hold` and `-24-`, pages up to and
excluding 45); `bin/images.py` is the older free-function version with the patterns fixed at
`Hold` and `-21-` and pages up to and excluding 120.

This project models the logic of both copies that decides *what* is downloaded
and *under which name*:

- `text.dfy` (module `Text`): the string operations the scraper borrows from
  Python — the prefix test of `re.match(hold, s)`, the substring test of
  `re.match(".*" + year + ".*", s, re.DOTALL)`, `s.replace(pat, "")` as a single
  left-to-right pass, and the filter `re.sub(r"[^a-zA-Z0-9\-]", "", s)`.
- `cells.dfy` (module `Cells`): a table cell as its text plus its first `<a>`
  element, whose `href` attribute is optional; the `{href, filename}` candidate.
- `filenames.dfy` (module `Filenames`): `sanitize`.
- `rowfilter.dfy` (module `RowFilter`): `process_table_data` once, with the hold
  string and the year token as parameters: the one-cell-lookback scan `Scan` for
  any per-cell emission, the specification function `Filter` (the scan with the
  row filter's emission), an independent description by selected indices, and
  the loop `ProcessTableData` proved equal to `Filter`.
- `pages.dfy` (module `Pages`): `range(start_page, end_page)` and the page loop
  that filters each page and downloads its candidates before the next.
- `portal.dfy` (module `Portal`): the `RescuePortal` class of `images.py`.
- `script.dfy` (module `Script`): the constants and entry points of `bin/images.py`.

Patterns are read as literal text. `re.match` treats a pattern as a regular
expression; for a pattern free of metacharacters (`RowFilter.IsLiteral`), such as
`Hold`, `-24-` and `-21-`, it is exactly a prefix test, and the `.*….*` form with
`re.DOTALL` is exactly a substring test that also sees across line breaks.

Points where the code is easy to misread:

- The code accepts any `href` attribute on the previous cell's first anchor, an
  empty one included; it does not demand a non-empty `href`.
- The hold test is a prefix test only (`re.match` anchors at the start), so
  `On Hold -24-` does not match `Hold`.
- `sanitize` is not idempotent as a function of its two inputs (sanitising its
  own output prepends the previous text again); what holds is that its output is
  left unchanged by the final character filter (`SanitizeIsFiltered`,
  `KeepIdempotent`).

## Model

| member | source | states |
|---|---|---|
| Text.ContainsIff | images.py:146-148 | the DOTALL `.*year.*` search succeeds exactly when the token occurs at some offset of the text, in both directions |
| Text.ContainsInfix | images.py:146-148 | the year token is found wherever it sits, whatever text and line breaks surround it (same test at bin/images.py:139) |
| Text.RemoveAll | images.py:81 | `replace(pat, "")` never lengthens the text |
| Text.RemoveCharIsWithout | images.py:81 | `replace("\n", "")` drops exactly the line breaks and keeps every other character in order |
| Text.WithoutCounts | images.py:81 | dropping one character keeps every other character as often as it occurred |
| Text.WithoutAppend | images.py:81 | dropping a character works piece by piece over concatenation |
| Text.WithoutAbsent | images.py:81 | text without the character is unchanged |
| Text.RemoveSkipsPrefix | images.py:81 | a stretch holding no first letter of the pattern passes through `replace` unchanged, and removal continues after it |
| Text.RemoveAbsent | images.py:81 | text with no occurrence of `Adopted` is left as it is |
| Text.RemoveSkipsUnmatched | images.py:81 | a stretch in which no occurrence of the pattern starts passes through `replace` unchanged, and removal continues after it |
| Text.RemoveLeftmost | images.py:81 | `replace` removes the leftmost occurrence first: for any text `a + pat + b` with no occurrence starting inside `a`, the result is `a` followed by the removal over `b` |
| Text.RemoveSinglePass | images.py:81 | `replace` is one left-to-right pass: for a pattern split as non-empty front + back, where the pattern's first character does not recur in front after its first position and back does not start with it, `front + pat + back` (`AdoAdoptedpted`) comes out as the pattern itself (`Adopted`), which is not removed again |
| Text.Keep | images.py:83 | the result of the character filter holds only ASCII letters, digits and `-` |
| Text.KeepCounts | images.py:83 | every safe character survives the filter as often as it occurs, no unsafe one survives |
| Text.KeepAppend | images.py:82-83 | the filter splits over concatenation |
| Text.KeepFixed | images.py:83 | the filter leaves a text unchanged exactly when all its characters are safe |
| Text.KeepShorter | images.py:83 | the filter never lengthens a text |
| Text.KeepIdempotent | images.py:83 | filtering twice is filtering once |
| Filenames.Sanitize | images.py:77-84 | the file name holds only ASCII letters, digits and `-` (same code at bin/images.py:66-73) |
| Filenames.SanitizeShape | images.py:81-83 | the name is the filtered previous text, a `-` that always survives, and the filtered cleaned current text, so it is never empty |
| Filenames.SanitizeIsFiltered | images.py:83 | the final filter would leave the name unchanged |
| Filenames.NewlinesGoFirst | images.py:81 | line breaks go before `Adopted` is looked for, so `Adopted` broken by a line break anywhere (`Adop\nted`) disappears entirely |
| Filenames.CleanDropsTrailingAdopted | images.py:81 | a status text holding no line break and no `A`, followed by a line break and `Adopted`, is cleaned back to the status text |
| Filenames.SanitizeStatusCell | images.py:81-83 | with safe previous text `p` and safe status `s` holding no `A`, the cell text `s + "\nAdopted"` is named `p-s` (previous `Buddy123`, text `Hold-24-\nAdopted` gives `Buddy123-Hold-24-`) |
| Filenames.PreviousTextUntouched | images.py:81-82 | cleaning touches the current text only: a safe previous text, `Adopted` included, opens the name unchanged, followed by `-` |
| RowFilter.FilterLength | images.py:144-159 | a page of n cells yields at most max(0, n-1) candidates: the first cell has no lookback and every other cell adds at most one |
| RowFilter.SelectedBelowSpec | images.py:144-159 | the index list holds exactly the selected cells below n, strictly increasing |
| RowFilter.FilterPrefixIsSelected | images.py:144-159 | the filter over the first n cells reports, position by position, the candidate of each selected index below n |
| RowFilter.FilterIsSelected | images.py:144-161 | candidates come out in cell order, one per selected cell; entry k carries the `href` of the cell before the k-th selected cell and the sanitised name of that cell pair |
| RowFilter.FilterMembership | images.py:146-157 | a candidate is reported iff some cell i > 0 starts with the hold string, contains the year token, has a previous cell whose first anchor has an `href`, and yields that candidate |
| RowFilter.LookbackSlides | images.py:149-159 | the lookback is always the cell just before, even when that cell matched itself |
| RowFilter.ScanSplit | images.py:144-159 | the one-cell-lookback scan, whatever each cell emits, splits after any cell into the scan of the front followed by the scan of the back started at the lookback cell |
| RowFilter.FilterAppend | images.py:144-159 | the row filter over two pieces of a page is the filter of the front followed by that of the back with the front's last cell as lookback |
| RowFilter.ProcessTableData | images.py:134-161 | the loop with its sliding `previous` returns exactly `Filter` of the cells |
| RowFilter.HoldIsPrefixTest | images.py:146 | `On Hold -24-` does not match hold `Hold`: the test is anchored at the start |
| RowFilter.FirstAnchorOnly | images.py:150-152 | when the previous cell's first anchor has no `href`, the row is skipped |
| Pages.PageRangeSpec | images.py:182 | `range(start, end)` has max(0, end-start) pages and page k is start+k |
| Pages.PageRangeMembership | images.py:179-182 | a page is visited exactly when start <= page < end |
| Pages.DownloadsAppend | images.py:182-191 | the downloads of a run split at any page boundary, whatever each page yields |
| Pages.Crawl | images.py:182-191 | the loop visits exactly `range(start, end)` and downloads each page's filtered candidates in page order |
| Portal.RescuePortal.constructor | images.py:40-42 | the portal keeps the arguments it was given |
| Portal.RescuePortal.ProcessTableData | images.py:134-161 | for literal patterns, the method filters with `--hold` and `--year-pattern` from the arguments (defaults `Hold`, `-24-`), and reports exactly the selected cells' candidates |
| Portal.RescuePortal.Run | images.py:172-194 | for literal patterns, pages start_page to 44 are visited, each page's candidates downloaded in order, status 0 |
| Portal.DefaultsAreLiteral | images.py:141-142 | without the options the patterns are `Hold` and `-24-`, both literal text |
| Script.ProcessTableData | bin/images.py:130-152 | the filter with the fixed patterns `Hold` and `-21-`, reporting exactly the selected cells' candidates |
| Script.Run | bin/images.py:166-191 | pages start_page to 119 are visited, each page's candidates downloaded in order, status 0 |
| Script.VisitedPages | bin/images.py:175-178 | the pages are start_page, ..., 119 in order, and none from page 120 on |
| Script.PatternsAreLiteral | bin/images.py:139 | both fixed patterns are literal text |

## Left out

- Browser automation (`login`, `run_search`, `list_page`, `show_animal`,
  `show_picture`, `get_pic_url`, `close_picture`, `browser.quit`): calls into
  Selenium with no behaviour to state; fetching a page is the parameter `listing`.
- `save_image` and `download_links`: HTTP fetches and file writes to `pages/`;
  downloading a page's candidates is recorded as appending them, in order, to the
  run's download list.
- HTML parsing (`BeautifulSoup`, `find_all("td")`, `get_text()`, `find("a")`):
  cells are given as records holding the text and the first anchor.
- General regular-expression semantics: patterns are read as literal text. For a
  pattern with metacharacters the program's `re.match` differs (`H.ld` matches
  `Hold-24-`, `(` raises `re.error`); `RowFilter`'s functions read such a pattern
  literally and so do not describe the program for it.
- Portal.RescuePortal.ProcessTableData: promises nothing when `--hold` or
  `--year-pattern` is not `IsLiteral`, because the literal reading differs from
  `re.match` there.
- Portal.RescuePortal.Run: promises nothing when `--hold` or `--year-pattern` is
  not `IsLiteral`, for the same reason.
- Argument parsing (docopt), the `int(...)` conversion of `--start-page` (the
  start page is an integer parameter), `print` and `sys.exit`.
- Exceptions: any failing browser or network call aborts the real run; the model
  has no such calls and so no such failures.
