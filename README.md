# Index.hr sports-news scraper — a Dafny model

The scraper saves the index.hr homepage and reads the sport categories from its
navigation menu. It saves each category page under a file name made from the
category name. Then it turns every saved category page into a spreadsheet of
news records: the featured item first, then at most four grid items. Each
record has a title, a summary, a publish date and a URL.

This project models the deterministic core of that pipeline in Dafny and
proves what it promises. Every CSS selection is an abstract input: each page
is the sequence of anchors its selector matched, in document order. Each
anchor has an optional `href` and, for news anchors, an optional title,
summary and date text.

Modules, one per part of `Scraper.py`:

- `Wrappers` — `Option` and `Result`.
- `SavedFiles` — what opening and reading a saved page gives (not found,
  unreadable, or parsed), and the errors that escape the extraction functions.
- `Text` — the Python `str` operations used: `startswith`, `endswith`,
  `strip()` (with Python's full `isspace` set), `rstrip(c)`, one-character
  `replace`, and `rfind`.
- `Urls` — the two `href` → URL rules: category links and news links.
- `FileNames` — the safe category name, the saved-page and snapshot file
  names, the filter of `process_all_files`, and `os.path.splitext` (POSIX).
- `Categories` — `extract_sports_categories`: a method with its loop, proved
  equal to a specification function whose key set and last-wins values are
  proved.
- `News` — `extract_news_from_file`: a method with its loop, proved equal to a
  specification function. Proved about that function: the record count,
  order, placeholders, and the `KeyError` path.
- `Processing` — `process_all_files`: a method over the directory listing,
  proved equal to a specification function. Proved: which files become
  workbooks, and when the run stops early.

An anchor with no `href` makes `anchor["href"]` raise `KeyError`. Only
`FileNotFoundError` is caught, so that error ends `extract_news_from_file` and
`process_all_files` too. The model returns `Failure(MissingHref)`, and
`Processing.Run.aborted` records that the run ended early. Workbooks already
written stay in `Run.written` (`Processing.WrittenStaysWritten`). A file that
does not exist (`SavedFiles.NotFound`) gives the empty map or the empty list.
A file that exists but cannot be read or decoded (a directory named `x.txt`,
no permission, bytes that are not UTF-8) raises an error that is not caught;
the model returns `Failure(ReadFailed)`, and it ends a run like the
`KeyError` does.

Behaviour of the code that is easy to misread:

- The category rule is `link.rstrip('/') + href` for every non-empty `href`.
  An `href` without a leading slash is glued straight onto the origin; it is
  not passed through (`Urls.CategoryUrlIsOriginPlusHref`).
- Only the texts from `get_text(strip=True)` and the category name
  (`.text.strip()`) are trimmed. The `href` is used as it is.
- A category file whose name before ".txt" is empty or only dots keeps the
  ".txt" in its recovered category name, because of how `os.path.splitext`
  treats leading dots (`FileNames.CategoryNameOfPageFile`,
  `FileNames.RecoverCategoryName`).

## Model

| member | source | states |
|---|---|---|
| `Text.StripIsInnerSlice` | Scraper.py:56 | `strip()` keeps the slice between the leading and the trailing whitespace; every character removed is whitespace, and the result neither starts nor ends with whitespace |
| `Text.StripIdempotent` | Scraper.py:56 | stripping a stripped name changes nothing |
| `Text.RStrip` | Scraper.py:59 | `rstrip('/')` returns a prefix that does not end in '/', and every character it removed is '/' |
| `Text.ReplaceChar` | Scraper.py:76 | a one-character `replace` keeps the length and swaps exactly the matching characters, position by position |
| `Text.RFind` | Scraper.py:154 | `rfind` returns -1 or an index holding the character, with no later occurrence |
| `Urls.StrippedLinkIsOrigin` | Scraper.py:59 | stripping the slashes off `https://www.index.hr/` leaves exactly the origin `https://www.index.hr` |
| `Urls.CategoryUrlIsOriginPlusHref` | Scraper.py:59 | every category link is the origin followed by the `href`, whatever the `href` is |
| `Urls.NewsUrlKeepsHref` | Scraper.py:121 | a news link is either the `href` itself or the origin plus the `href`; it differs from the `href` exactly when the `href` starts with "/"; and it always ends with the `href` |
| `Urls.NewsUrlIdempotent` | Scraper.py:135 | applying the news rule to its own result changes nothing |
| `Urls.UrlRulesAgree` | Scraper.py:59 | for an `href` starting with "/", the category rule and the news rule (lines 121, 135) give the same link, and that link starts with `https://www.index.hr/` |
| `Urls.ArticleLinkExample` | Scraper.py:121 | "/sport/football/article-1" becomes "https://www.index.hr/sport/football/article-1" under both rules |
| `FileNames.SafeCategoryName` | Scraper.py:76 | same length as the category name; no ' ' and no '/'; each space or slash becomes '_' and every other character stays in place |
| `FileNames.SafeCategoryNameIdempotent` | Scraper.py:76 | sanitising a sanitised name changes nothing |
| `FileNames.SnapshotNeverProcessed` | Scraper.py:147 | the homepage snapshot `Index_<timestamp>.txt` (line 27) never passes the filter |
| `FileNames.CategoryFileProcessedUnlessSnapshotLike` | Scraper.py:147 | a saved category page (lines 76-77) passes the filter if and only if its sanitised name does not start with "Index_" |
| `FileNames.SplitExt` | Scraper.py:154 | `os.path.splitext` cuts the name into root and extension that concatenate back to it; the extension is empty, or starts with '.' and holds no further '.' or '/' |
| `FileNames.SplitExtFindsExtension` | Scraper.py:154 | an extension is split off if and only if some character after the last '/' is not a '.' and a '.' follows it |
| `FileNames.CategoryNameOfPageFile` | Scraper.py:154 | for a ".txt" file name, the recovered category name is the name without ".txt" if and only if some character before ".txt" is not a dot; when all of them are dots, it is the whole file name, ".txt" included |
| `FileNames.RecoverCategoryName` | Scraper.py:154 | saving a category and reading its name back gives the sanitised name if and only if the category name has a character other than '.' |
| `Categories.SportCategories` | Scraper.py:44-65 | the function fails if and only if the homepage file exists but cannot be read, then with the read error; a missing file gives the empty map |
| `Categories.ExtractSportsCategories` | Scraper.py:44-65 | the loop builds exactly the specification map |
| `Categories.CategoryMapKeys` | Scraper.py:53-59 | the keys are exactly the stripped names of the anchors whose `href` is present and non-empty |
| `Categories.CategoryMapLastWins` | Scraper.py:55-59 | a name's link is built from the `href` of the last linked anchor with that name |
| `Categories.CategoryMapValues` | Scraper.py:59 | every stored link is the origin followed by the `href` of some linked anchor with that name |
| `Categories.UnlinkedMenuGivesNoCategories` | Scraper.py:57-58 | a menu in which no anchor has a non-empty `href` gives the empty map |
| `News.MakeRecordFollowsPolicy` | Scraper.py:113-122 | a record fails exactly when the `href` is missing; otherwise each field is its element's text when the element is present and "No Title"/"No Summary"/"No Date" when it is not, each decided on its own, and the URL follows the news rule |
| `News.SelectedShape` | Scraper.py:111-126 | the selected anchors are only the first featured match, then the first min(4, n) grid matches in order |
| `News.ExtractNewsFromFile` | Scraper.py:100-141 | the featured step and the grid loop compute exactly the specification result |
| `News.RecordsFromOnlyMissingHref` | Scraper.py:117-136 | the only error visiting the anchors can raise is the `KeyError` of a missing `href` |
| `News.ReadFailedIffUnreadable` | Scraper.py:104-106 | a missing file gives the empty list (lines 138-141), and the read error escapes if and only if the file exists but cannot be read |
| `News.RecordsFromMissingHref` | Scraper.py:126-136 | any visited anchor without an `href` makes the whole extraction fail, discarding the records appended before it |
| `News.RecordsFromSpec` | Scraper.py:117-136 | extraction succeeds if and only if every selected anchor has an `href`; it then gives one record per selected anchor, in order, each under the placeholder policy |
| `News.NewsCount` | Scraper.py:111-126 | a successful extraction has one featured record (if any) plus min(4, n) grid records, at most 5 in all |
| `News.NewsFailsIffMissingHref` | Scraper.py:111-130 | extraction fails if and only if the first featured anchor or one of the first four grid anchors has no `href` |
| `News.NewsOrder` | Scraper.py:111-136 | the featured record comes first, and grid record j sits at position offset + j, built from grid anchor j |
| `News.GridBeyondFourIgnored` | Scraper.py:126 | grid anchors after the fourth have no effect on the result |
| `News.EmptyPageGivesNoNews` | Scraper.py:111-126 | a page where neither selector matched gives the empty list |
| `News.FeaturedAndSixGridItemsExample` | Scraper.py:111-136 | one featured and six grid anchors give five records, "Match Recap" and G1 to G4, with absolute links and placeholder summaries and dates |
| `Processing.ProcessAllFiles` | Scraper.py:144-161 | the loop over the directory entries computes exactly the specification run |
| `Processing.WrittenStaysWritten` | Scraper.py:146-158 | the workbooks written after any number of entries are still there, in order, at the end of the run, including a run an error ended early |
| `Processing.AbortIsFinal` | Scraper.py:151 | once an extraction error has escaped, later entries are not looked at |
| `Processing.WrittenFromCategoryFiles` | Scraper.py:147-158 | every workbook comes from a listed file that passes the filter; its extraction gave exactly that non-empty list of rows, and it is named after the recovered category name plus ".xlsx" |
| `Processing.AbortedIffExtractionFails` | Scraper.py:147-151 | a run ends early if and only if extracting some listed category file fails, because it cannot be read or an anchor it visits has no `href` |
| `Processing.CompletedRunWritesAll` | Scraper.py:146-158 | a run that is not cut short writes a workbook for every listed category file with at least one record |

## Left out

- HTTP fetching (`requests.get`, the 60-second timeout, `raise_for_status`) for the homepage and in `fetch_and_save_category_data`: network I/O. The only part of `fetch_and_save_category_data` modelled is the file name it saves each page under (`FileNames.SafeCategoryName`, `FileNames.CategoryFileName`).
- File reads and writes and `os.makedirs`: disk I/O. Reading a file is given as its outcome: a parsed page, a file that does not exist, or a file that exists and cannot be read. A name absent from the map of saved files does not exist. Which read error it was (`PermissionError`, `IsADirectoryError`, `UnicodeDecodeError`) is not distinguished.
- The order of `os.listdir`: nondeterministic. The model takes the listing as a given sequence.
- The timestamp from `datetime.now()`: nondeterministic. The snapshot name is stated for any timestamp string.
- Logging setup and log messages: they carry no data.
- BeautifulSoup parsing and CSS selector matching: a foreign library. Their results are abstract inputs (`MenuAnchor`, `NewsAnchor`, `CategoryPage`).
- How `get_text(strip=True)` joins and trims text pieces: the texts are taken as given. `item.text.strip()` is modelled with Python's `str.isspace` set.
- pandas and Excel writing: a foreign library. A written spreadsheet is a `Processing.Workbook` with its file name, its sheet name "News" and its rows. Each row is a `News.NewsRecord` with the columns in the fixed order Title, Summary, Publish Date, URL.
- Python dict insertion order, and so the order in which categories would be fetched: a Dafny `map` has none.
- The module-level script (the homepage fetch and the calls at the end of the file): orchestration of the operations above.
- Two category names that sanitise to the same file name overwrite each other's saved page on disk; this is file-system behaviour and is not modelled.
- Determinism (running the extraction twice on the same page gives the same result) holds by construction: every extraction is a function of its input.
