# TechDaily generator: file naming and index selection

A Dafny model of the logic in `tech_automator.py`, the script that writes one
tech article per run and rebuilds the site's index page. Two parts of the
script are modelled:

- **Page naming and header strings** (`create_new_page`, `write_page`). An
  article is written to `{type}-{slug}-{YYYYMMDD}.html`. The slug is the topic
  lower-cased, with each space turned into a hyphen. The page carries a
  description meta `Latest {Type} about {topic} in tech`, a `<title>` of
  `{topic} {Type} - TechDaily` and an `<h1>` of `{topic} {Type}`. Here `{Type}` is the type title-cased by
  `str.title()`.
- **Index selection** (`update_index`). The scan skips `index.html` and builds
  an entry `{title, file, date, summary}` for every other page. A page without
  an `<h1>` or a description ends the whole run. The entries are sorted by date
  token, newest first, and the first ten are kept. The date token is the last
  `-`-separated piece of the file's stem.

Modules:

- `Wrappers`: `Option` and `Result`.
- `Strings`: the Python string operations the script uses. These are `lower`,
  `replace`, `title`, `split`, `rfind`, `PurePath.stem` and the `<` order on
  strings. The module proves their properties: the split/join round trip,
  splitting at a separator, and that `<` is a strict total order.
- `Dates`: the `%Y%m%d` stamp. Comparing two stamps as strings gives the same
  answer as comparing the two dates in the calendar.
- `Naming`: the topic and type enumerations, the slug, the file name, the
  title-cased type and the header strings of a written page.
- `Index`: the scanned-page records. `UpdateIndex` is a method with the scanning
  loop, proved against the function `BuildIndex`. `BuildIndex` is built from
  `Collect`, a stable descending sort `SortByDate`, and `Newest`, which keeps
  the first ten. The module has lemmas for failure, size, order, provenance,
  top-ten selection and tie order.
- `Pipeline`: the created page as the index reads it back. It covers the
  round trip of the date through the file name and the first-run scenario.

The script's random choices, the generated article text and the current date
are parameters: `PageType`, `Topic`, the body string, and the date string or
`Dates.Date`. Parsing a page is abstracted as a record holding the file name
plus the optional `<h1>` text and the optional description content. A written
page is returned as a `Naming.Page` value instead of being written to disk.

## Model

| member | source | states |
|---|---|---|
| `Strings.Lower` | tech_automator.py:46 | `lower()` keeps the length and turns each ASCII capital into its lower-case letter, leaving every other character as it is |
| `Strings.ReplaceChar` | tech_automator.py:46 | `replace(' ', '-')` keeps the length, writes the replacement at every position that held the replaced character, leaves no such character behind, and keeps every other character |
| `Strings.Title` | tech_automator.py:47 | `title()` keeps the length and upper-cases the first character |
| `Strings.TitleOfLowerWord` | tech_automator.py:47 | `title()` of a lower-case word capitalises its first letter and keeps the rest |
| `Strings.Split` | tech_automator.py:62 | `split('-')` gives at least one piece, and no piece holds the separator |
| `Strings.JoinSplit` | tech_automator.py:62 | joining the pieces of a split with the separator gives back the string |
| `Strings.SplitAtSeparator` | tech_automator.py:62 | splitting `a + sep + b` splits `a` and `b` independently |
| `Strings.LastSegment` | tech_automator.py:62 | the last piece of `a + sep + b` is `b` when `b` has no separator, whatever `a` holds |
| `Strings.RFind` | tech_automator.py:62 | `rfind` returns the last index of the character, or -1 exactly when the character is absent |
| `Strings.Stem` | tech_automator.py:62 | `PurePath.stem` is either the whole name, or the part before a final dot that is neither the first nor the last character, with no dot after it |
| `Strings.StemDropsExtension` | tech_automator.py:62 | the stem of `p + "." + ext` is `p` when `p` is non-empty and `ext` is non-empty and dot-free |
| `Strings.LessIsLexicographic` | tech_automator.py:66 | `Less`, the model of Python's `<` on strings, holds exactly when `a` is a proper prefix of `b` or, at the first position where they differ, `a` has the smaller character |
| `Strings.LessTotal` | tech_automator.py:66 | two different strings are ordered one way or the other |
| `Strings.LessTransitive` | tech_automator.py:66 | string `<` is transitive |
| `Strings.NotLessTransitive` | tech_automator.py:66 | string `>=` is transitive, so sorting by date token is consistent |
| `Strings.LessConcat` | tech_automator.py:66 | concatenations with equal-length heads compare head first, then tail |
| `Dates.Digits` | tech_automator.py:46 | a zero-padded field has exactly the requested width and only digits |
| `Dates.Stamp` | tech_automator.py:46 | `%Y%m%d` is eight digits and holds no hyphen |
| `Dates.DigitsOrder` | tech_automator.py:46 | equal-width numerals compare as strings exactly as the numbers compare |
| `Dates.StampOrder` | tech_automator.py:46 | one stamp is string-less than another exactly when its date is earlier in the calendar |
| `Dates.StampInjective` | tech_automator.py:46 | different dates give different stamps |
| `Naming.Slug` | tech_automator.py:46 | `topic.lower().replace(' ', '-')` has the topic's length and no space |
| `Naming.SlugShape` | tech_automator.py:46 | the slug keeps the topic's length and has no spaces and no capitals; it has a hyphen exactly where the topic had a space or a hyphen |
| `Naming.SlugKeepsLetters` | tech_automator.py:46 | away from the spaces, each slug character is the topic's character up to case |
| `Naming.SlugOfTopic` | tech_automator.py:38-46 | the slugs of the five topics are `ai`, `cybersecurity`, `cloud-computing`, `mobile-tech` and `gaming` |
| `Naming.FileName` | tech_automator.py:46 | the file name starts with the type and a hyphen, ends in `.html`, and is seven characters longer than type, slug and date together |
| `Naming.WritePage` | tech_automator.py:69-110 | the page goes to the given file with the body verbatim; the category is the topic; the `<h1>` is the topic, a space and the type; the `<title>` is the `<h1>` plus ` - TechDaily`; the description is `Latest `, the type, ` about `, the topic and ` in tech` |
| `Naming.CreateNewPage` | tech_automator.py:36-48 | the page is written to the file name built from the type, the topic and the date, with the generated body, the topic as category and the `<title>` extending the `<h1>` |
| `Naming.DisplayTypeIsLabel` | tech_automator.py:39-47 | `page_type.title()` is the type with its first letter capitalised, e.g. `Tutorial` |
| `Naming.CreatedPageHeaders` | tech_automator.py:77-92 | a created page's description is `Latest {Type} about {topic} in tech`, its `<h1>` is `{topic} {Type}`, its `<title>` is the `<h1>` plus ` - TechDaily`, its category is the topic and its body is the generated text |
| `Naming.SplitCreatedStem` | tech_automator.py:46 | a stem `type-slug-date` whose type and date have no hyphen splits into the type, the pieces of the slug and the date |
| `Naming.StemPartsDetermined` | tech_automator.py:46 | such a stem determines its type, slug and date |
| `Naming.FileNameInjective` | tech_automator.py:46 | two runs write the same file exactly when they chose the same type, topic and date, for dates without a hyphen |
| `Index.DateToken` | tech_automator.py:62 | `stem.split('-')[-1]` holds no hyphen |
| `Index.ToEntry` | tech_automator.py:57-64 | a page yields an entry exactly when it has both fields; the entry copies the name, `<h1>` and description and takes the name's date token; otherwise the error names the first missing field |
| `Index.Eligibles` | tech_automator.py:53-54 | the pages kept by the scan are exactly the scanned pages other than `index.html`, and there are no more of them than pages scanned |
| `Index.EligiblesAppend` | tech_automator.py:53-54 | the kept pages of two runs scanned one after the other are those of the first run followed by those of the second, so the scan keeps glob order |
| `Index.EligiblesOfOne` | tech_automator.py:53-54 | a single page is kept exactly when it is not `index.html`; with `EligiblesAppend` this fixes the kept pages and their order |
| `Index.Collect` | tech_automator.py:52-64 | a successful scan has at most one entry per page scanned |
| `Index.ScannedPageOf` | tech_automator.py:59-64 | every collected entry is the entry of a scanned page other than the index |
| `Index.UpdateIndex` | tech_automator.py:50-67 | the scanning loop, the sort and the slice compute `BuildIndex`, failing on the first page without a field |
| `Index.CollectEntries` | tech_automator.py:52-64 | the scan succeeds exactly when every non-index page is complete, and then gives one entry per such page, in scanning order |
| `Index.CollectFailure` | tech_automator.py:57-58 | a failed scan reports the error of the first non-index page that lacks a field |
| `Index.Insert` | tech_automator.py:66 | inserting adds exactly one entry |
| `Index.SortByDate` | tech_automator.py:66 | the sort keeps the number of entries |
| `Index.Newest` | tech_automator.py:67 | `articles[:10]` is the prefix of length min(n, 10) |
| `Index.BuildIndex` | tech_automator.py:50-67 | `update_index` fails exactly when the scan fails, with the scan's error, and otherwise lists at most ten entries |
| `Index.SortPermutes` | tech_automator.py:66 | the sort is a permutation of the entries |
| `Index.SortSorts` | tech_automator.py:66 | the sorted entries are in non-increasing order of date token |
| `Index.SortIsStable` | tech_automator.py:66 | among entries with the same date token the sort keeps their order |
| `Index.IndexFailsIff` | tech_automator.py:53-58 | the run fails exactly when some non-index page lacks its `<h1>` or its description; no page is skipped |
| `Index.IndexErrorNamesFirstBadPage` | tech_automator.py:53-58 | the error is the first such page's, for its heading if that is missing, otherwise for its description |
| `Index.IndexSize` | tech_automator.py:67 | the index has ten entries when at least ten pages qualify, otherwise one per qualifying page |
| `Index.IndexEntriesFromPages` | tech_automator.py:59-64 | every listed entry comes from a scanned non-index page: same file name, `<h1>` and description, and the file's date token |
| `Index.IndexOmitsIndexFile` | tech_automator.py:54 | `index.html` is never listed, even when it was scanned |
| `Index.IndexNewestFirst` | tech_automator.py:66 | listed entries are in non-increasing order of date token |
| `Index.PrefixOfSortedIsNewest` | tech_automator.py:66-67 | no entry after a cut of a sorted list has a date token strictly greater than one before it |
| `Index.IndexIsTopTen` | tech_automator.py:66-67 | listed entries are a sub-multiset of the scanned entries, and no omitted entry has a date token strictly greater than a listed one's |
| `Index.IndexKeepsScanOrderOnTies` | tech_automator.py:66-67 | among entries with one date token, those listed are the first ones scanned, in scanning order |
| `Index.IndexOfOnePage` | tech_automator.py:50-67 | a directory with one complete page besides the index lists that page alone |
| `Index.SortPutsStrictNewestFirst` | tech_automator.py:66 | an entry strictly newer than every other entry is sorted first |
| `Index.IndexListsNewestPageFirst` | tech_automator.py:66-67 | a page dated strictly after every other page heads the index |
| `Index.WithDateOfPrefix` | tech_automator.py:67 | cutting the list keeps a prefix of the entries of each date |
| `Pipeline.ScanPage` | tech_automator.py:56-58 | reading back a written page finds its file name, its `<h1>` and its description, so it is complete |
| `Pipeline.DateTokenOfFileName` | tech_automator.py:62 | the date token of a name built at line 46 is the date, even though slugs contain hyphens, when the date has none |
| `Pipeline.CreatedPageIsListed` | tech_automator.py:54 | a created page is never taken for the index page |
| `Pipeline.FirstPageIndex` | tech_automator.py:183-189 | on a directory with no pages, one run lists exactly the new page with its `<h1>`, file name, date and description |
| `Pipeline.CreatedPagesInDateOrder` | tech_automator.py:66 | for pages created on valid dates, the order on date tokens is the calendar order of the creation dates |

## Left out

- `get_tech_news` and `generate_article` (tech_automator.py:19-34) call NewsAPI and OpenAI over the network. The generated article is a parameter of `CreateNewPage`. Neither the prompt nor the news result is modelled.
- `commit_and_push` (tech_automator.py:169-176) is a git side effect. Its commit message is not modelled.
- `update_styles` (tech_automator.py:112-167) is a random overwrite of a constant stylesheet, with one colour substituted. It is not modelled.
- `write_index_page` is called at tech_automator.py:67 but is not defined anywhere in `TechNewsAutomator` (tech_automator.py:12-176). As written, that call raises `AttributeError` once the list is built, so `main` never reaches `commit_and_push` (tech_automator.py:192). `BuildIndex` and `Pipeline.FirstPageIndex` describe the list handed to that call; what the call does with it is not modelled.
- `random.choice` and `datetime.now()` are not modelled. The type, the topic and the date are parameters.
- The `__init__` configuration (repository path, API keys) and `main` are not modelled, except the create-then-index order in `Pipeline.FirstPageIndex`.
- File I/O is not modelled. `Path.glob('*.html')` is the order of the input sequence, which may be any order. The model does not check the `.html` suffix of scanned names. A written page is returned as a `Naming.Page` instead of a file.
- HTML parsing with BeautifulSoup is not modelled. A scanned page is its optional `<h1>` text and optional description content. A description meta without a `content` attribute, which raises `KeyError`, counts the same as a missing description.
- The literal HTML template is not modelled. This covers the navigation bar, the `Published:` date, the footer year and the unescaped insertion of the article body. Only the derived strings are kept; the body is carried verbatim.
- `Index.SortByDate` gives the result of Python's stable sort with `reverse=True`, not Timsort's steps.
- `Strings.Lower` and `Strings.Title` map case for ASCII letters only. Python also maps other Unicode letters; every topic and type is ASCII.
- `Dates.Stamp` covers four-digit years only. `strftime('%Y')` pads smaller years differently on different platforms.
