# Bayreuth Mensa reminder: the menu matching ladder

This project models the core of the Bayreuth Mensa reminder. The reminder checks
today's menus of the Hauptmensa and the Frischraum against the user's food keywords.
The same matcher is written twice: in the desktop program `mensa.py` and in the
Streamlit page `app.py`.

For each location, and for each menu item in scrape order, the keywords are tried
in list order. Each keyword goes through four tiers, in this order:

1. Direct: the lower-cased keyword is a substring of the lower-cased item.
2. Category: a synonym of the keyword from `CATEGORY_SYNONYMS` is a substring of the item.
3. Fuzzy: rapidfuzz's `partial_ratio` is at least `FUZZY_THRESHOLD` (85).
4. Semantic: the cosine similarity of the sentence embeddings of the original-case
   strings is at least `THRESHOLD` (0.4).

The first success labels the item and ends the walk (`break`). A location with no
match is left out of `matches_found`. Before matching, the scraper collapses the
whitespace in each meal cell, drops blank cells, and dedups the list, keeping first
occurrences.

Files and modules:

- `text.dfy` (`Text`): the Python string operations used by the code: `str.isspace`,
  the substring test `in`, `strip`, `split()`, `' '.join` and the collapse
  `' '.join(s.split())`.
- `seqs.dfy` (`Seqs`): distinctness, and `list(dict.fromkeys(xs))` as `Dedup`.
- `matching.dfy` (`Matching`): the ladder that both files share.
  - The calls into rapidfuzz, the embedding model and `str.lower` are parameters,
    bundled in `Oracles`.
  - `PairTier` decides one pair, `ItemMatch` walks the keywords, `MenuMatches`
    handles one location and `Report` handles all locations.
  - `MatchItem` is the imperative keyword loop with `break`.
- `scrape.dfy` (`Scrape`): the list clean-up of `scrape_menus`, which is identical in
  the two files. A fetched page is given to it as `Fetch`.
- `mensa.py` becomes `mensa.dfy` (`Mensa`):
  - this file's synonym table and label format;
  - `check_for_matches` as written, including the guard `if item not in matches` and
    the final `dict.fromkeys`;
  - the keyword file changed by `add_keyword` and `clear_keywords`.
- `app.py` becomes `app.dfy` (`App`):
  - this file's English synonym table and label format;
  - the inline matching block;
  - the Add and Clear buttons, acting on the session's keyword list.

## Model

| member | source | states |
|---|---|---|
| `Text.ContainsIff` | mensa.py:126 | the modelled `keyword_lower in item_lower` holds exactly when the keyword occurs at some position of the item (reference definition) |
| `Text.Strip` | mensa.py:204 | `str.strip()` gives the empty string exactly when the input is all whitespace; otherwise the result neither starts nor ends with whitespace |
| `Text.StripRemovesOuterWhitespace` | mensa.py:204 | `str.strip()` returns the input with an all-whitespace prefix and an all-whitespace suffix cut off; with the non-whitespace ends from `Text.Strip`, this fixes the result for every input |
| `Text.StripIdempotent` | mensa.py:204 | stripping a stripped keyword changes nothing |
| `Text.Words` | mensa.py:96 | `s.split()` yields only non-empty, whitespace-free words |
| `Text.WordsOfWord` | mensa.py:96 | a non-empty, whitespace-free string splits into itself alone |
| `Text.WordsAtSpace` | mensa.py:96 | splitting at any whitespace character gives the words on its left followed by the words on its right; with `Text.WordsOfWord` and `Text.WordsEmptyIff` this fixes `s.split()` for every input |
| `Text.WordsEmptyIff` | app.py:74 | `s.split()` is empty exactly when the text is all whitespace |
| `Text.WordsOfJoin` | mensa.py:96 | splitting undoes `' '.join` of words (round trip) |
| `Text.CollapseIdempotent` | app.py:74 | `' '.join(s.split())` is idempotent, so every scraped item is already in normal form |
| `Text.CollapseEmptyIff` | mensa.py:96-98 | the collapsed text is empty exactly when the cell is all whitespace, which is what `if meal_text:` rejects |
| `Text.CollapseOfStrip` | mensa.py:93-96 | the `.strip()` before the collapse makes no difference to the result |
| `Seqs.Dedup` | mensa.py:102 | `list(dict.fromkeys(items))` is duplicate-free and holds exactly the elements of its input |
| `Seqs.DedupOrder` | app.py:77 | the kept elements appear in the order of their first occurrences |
| `Seqs.DedupOfDistinct` | mensa.py:156 | `dict.fromkeys` leaves a list that is already duplicate-free unchanged |
| `Matching.PairTier` | mensa.py:122-153 | one (keyword, item) pair gets the first tier, in the order Direct, Category, Fuzzy, Semantic, that succeeds, and no tier when all four fail; Fuzzy carries the compared `partial_ratio` score and Semantic the similarity of the original-case strings |
| `Matching.UnlistedKeywordSkipsCategory` | app.py:143-144 | a keyword whose lower-case form is not a key of the table never gets a Category match (`.get(..., [])` and `any` over it) |
| `Matching.SynonymContainingKeywordIsDirect` | mensa.py:126-136 | when a synonym contains the keyword and occurs in the item, the pair is a Direct match |
| `Matching.CategoryUnreachableWhenSynonymsContainKeyword` | mensa.py:132-136 | when every synonym of a keyword contains the keyword, the Category tier never decides a pair for it |
| `Matching.ItemMatchIsFirstKeyword` | mensa.py:120-153 | the item's verdict is that of the first keyword in list order that matches it; later keywords are not consulted |
| `Matching.ItemMatchNoneIff` | app.py:138-156 | an item is unmatched exactly when every keyword fails all four tiers on it |
| `Matching.SemanticQueriedOnlyAfterCheaperTiersFail` | mensa.py:145-153 | the embedding model is consulted for a keyword only when Direct, Category and Fuzzy have all failed for that pair, and only for keywords up to the deciding one |
| `Matching.MatchItem` | app.py:138-156 | the keyword loop with `break` returns the first-keyword verdict, and the keywords it hands to the model are exactly the specified ones |
| `Matching.MenuMatchesAtPositions` | app.py:135-156 | a location's entries correspond one-to-one, in menu order, to strictly increasing item positions, each a matched item; each entry carries its item's verdict |
| `Matching.MatchedPositionsComplete` | app.py:135-156 | the position of every item that some keyword matches is among those positions, so no matched item is skipped |
| `Matching.MenuMatchesSound` | mensa.py:119-153 | every entry is a menu item together with the verdict of its keyword walk |
| `Matching.MenuMatchesComplete` | app.py:136-156 | every item that some keyword matches has its entry |
| `Matching.MenuMatchesDistinct` | app.py:136-156 | with distinct menu items, no item is reported twice; this relies on the scraper's dedup, since app.py has no guard |
| `Matching.MenuMatchesEmptyIff` | app.py:157-158 | a location yields no entry exactly when none of its items is matched |
| `Matching.ReportSound` | app.py:157-158 | every reported location is a scraped location with a non-empty list, and that list is its menu's entries |
| `Matching.ReportComplete` | app.py:134-158 | every location with at least one match is reported, with its entries |
| `Matching.ReportNamesDistinct` | app.py:132-158 | distinct location names stay distinct in the report, so it matches the dictionary `matches_found` |
| `Matching.ReportWithoutKeywordsIsEmpty` | app.py:134-158 | with no keywords stored, the Streamlit check finds nothing |
| `Scrape.CleanedTextSource` | mensa.py:93-99 | every collected text is the non-blank cleaned text of some meal cell |
| `Scrape.CleanedTextKept` | app.py:73-76 | every meal cell whose cleaned text is not blank contributes that text |
| `Scrape.LocationItemsClean` | mensa.py:96-106 | a location's items are non-empty, whitespace-collapsed and pairwise distinct; a failed fetch gives `[]` |
| `Scrape.LocationItemsFromCells` | app.py:73-77 | the items are exactly the cleaned texts of the non-blank cells |
| `Scrape.ScrapeLocation` | mensa.py:71-106 | the cell loop with its append, followed by `dict.fromkeys`, computes the specified item list; an exception gives `[]` |
| `Scrape.ScrapeMenus` | app.py:52-81 | one entry per location of `MENSA_URLS`, in order, each with that location's cleaned list |
| `Mensa.Label` | mensa.py:128-152 | a printed label begins with the item's own text and is strictly longer |
| `Mensa.SelfContainingSynonymsNeverDecide` | mensa.py:17-35 | with this table, the keywords "reis", "rind", "schwein" and "burger" can never get a Category match, because each of their synonyms contains the keyword |
| `Mensa.CheckForMatches` | mensa.py:109-156 | with no keyword stored nothing is checked; otherwise the nested loops build `matches_found` as specified, guard and `dict.fromkeys` included |
| `Mensa.GuardedMatchesEmptyIff` | mensa.py:127-156 | the guard never empties a list: a location's list is empty exactly when none of its items matched |
| `Mensa.MensaReportLocations` | mensa.py:155-156 | the locations in `matches_found` are exactly those where the ladder matched an item |
| `Mensa.MensaReportListsNonEmptyDistinct` | mensa.py:155-156 | every list in `matches_found` is non-empty and duplicate-free |
| `Mensa.GuardedMatchesWithinLabels` | mensa.py:119-153 | on every menu, the guarded list is a subsequence of the labels of all matched items in menu order: the guard may drop labels but never adds, alters or reorders one |
| `Mensa.GuardHarmlessUnlessItemIsEarlierLabel` | mensa.py:127 | when no item's text equals the label, under any tier, of an earlier item, the guard never fires and the list holds every matched item's label in menu order |
| `Mensa.GuardDropsItemEqualToEarlierLabel` | mensa.py:126-129 | as written, the matched item "Pasta (direct match)" is dropped after "Pasta" has matched |
| `Mensa.IntendedMatchesReportEveryMatch` | mensa.py:119-156 | without the guard, every matched item is reported with its verdict's label, each label once, and nothing else is reported |
| `Mensa.KeywordFile.AddKeyword` | mensa.py:203-212 | the stripped entry is appended exactly when it is non-empty, and the list is otherwise unchanged; stored keywords stay stripped and non-empty |
| `Mensa.KeywordFile.ClearKeywords` | mensa.py:221-223 | the stored list becomes empty |
| `App.Label` | app.py:141-155 | a printed label begins with the item's own text and is strictly longer |
| `App.CheckMenus` | app.py:129-158 | the nested loops with `break` produce the shared report, printed in this file's label format; locations without matches are absent |
| `App.NudelnMatchesSpaghettiByCategory` | app.py:17 | "nudeln" against an item that contains "spaghetti" but not "nudeln" is a Category match |
| `App.BurgerNeverCategory` | app.py:28 | with this table, the keyword "burger" can never get a Category match, because each of its synonyms ends with "burger" |
| `App.KeywordSession.Add` | app.py:87-92 | the input is appended unstripped exactly when it is non-empty; the file stays in step with the list |
| `App.KeywordSession.Clear` | app.py:94-97 | the list and the file both become empty |

## Behaviour worth knowing

- The Semantic tier encodes the original-case keyword and item, not the lower-cased
  ones the other tiers compare (mensa.py:146-147, app.py:151-152). `SemanticHit`
  uses the original strings.
- There is no `try` around the encode calls, so an error from the embedding model ends
  the whole check rather than counting as a non-match. The model has no failure
  path for the oracles.
- Nothing caches embeddings: each (keyword, item) pair is encoded afresh.
- Duplicates are removed by exact string comparison, not ignoring case: the scraper
  dedups items, and mensa.py also dedups each location's labels.
- The thresholds are module constants (mensa.py and app.py alike), so they are
  constants here.

## Findings

| source | as written | input that shows it | evidently intended | confidence | as-written member | corrected member |
|---|---|---|---|---|---|---|
| mensa.py:127 | `if item not in matches` compares the raw item with the labels already stored, and `break` runs either way | menu `["Pasta", "Pasta (direct match)"]`, keywords `["Pasta"]`: both items match directly, but only `"Pasta (direct match)"` is reported, and the second item's label `"Pasta (direct match) (direct match)"` is missing | skip only an item that is already reported; items are distinct and each is visited once, so the guard should never drop anything | high (proved about the model; not executed) | `Mensa.GuardDropsItemEqualToEarlierLabel` | `Mensa.IntendedMatchesReportEveryMatch` |

`Mensa.CheckForMatches` keeps the guard, because it models the code as written.
`Mensa.IntendedMatches` is the corrected list: it drops the guard, which is exactly
what app.py does. `Mensa.GuardHarmlessUnlessItemIsEarlierLabel` shows that the two agree
on every menu in which no item's text is the label of an earlier item, and
`Mensa.GuardedMatchesWithinLabels` shows that on any menu the guard can only drop labels.

## Left out

- HTML fetching and parsing are not modelled: `urllib`, `bs4`, the table traversal and
  `<sup>` removal. Neither are the SSL context change, the date in the URL and the
  log `print`s. They are I/O and foreign libraries. A page arrives as a `Fetch`: the
  texts of its meal cells, or a failure.
- rapidfuzz's `partial_ratio` is an uninterpreted function returning `real`, because
  rapidfuzz returns a float score.
- The SentenceTransformer model and `util.cos_sim` are reduced to one uninterpreted
  similarity function returning `real`. They are a neural model and floating point.
- `str.lower()` is an uninterpreted function. Python's Unicode case mapping is outside
  the model.
- The float formatting in the labels is uninterpreted (`Formatting`): `f"{score}"` and
  `f"{sim_score:.2f}"`.
- JSON persistence is not modelled: `load_keywords`, `save_keywords` and the
  missing-file fallback are file I/O. The keyword file is a `seq<string>` field, and
  the constructors take the stored list.
- `check_for_matches` and the Streamlit check do not read their inputs themselves in
  the model. The stored keywords and the scraped menus are parameters, so the model
  fetches nothing. In mensa.py, a run with no keywords stops before scraping.
- The user interface is not modelled: the tkinter popup, `show_keywords`, the
  "Open Full Menu" `webbrowser.open`, the Streamlit widgets and messages, the session
  state flag, and the 7:00-7:05 autorefresh window. These are UI and wall-clock timing.
- Python dictionaries are modelled as sequences of (name, value) pairs in insertion
  order. `ScrapeMenus` produces the two names of `MENSA_URLS`, which are distinct.
  `Matching.ReportNamesDistinct` shows that the report keeps names distinct.
- `Mensa.Label`: its contract states only that the label extends the item's text. The
  exact wording is fixed by the body alone.
- `App.Label`: its contract states only that the label extends the item's text. The
  exact wording is fixed by the body alone.
