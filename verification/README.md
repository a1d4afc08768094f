# FL.ru feed notifier: filtering, formatting and the item store

This project models, in Dafny, two parts of a bot that watches the FL.ru
project feed and forwards matching projects to a Telegram chat:

- `TelegramNotifier` (`telegram_bot.py`). It covers:
  - how the keyword and stopword lists are loaded and normalised;
  - the two word checks;
  - the precedence in `should_notify`: a stopword veto beats the category-5 override, which beats a keyword match;
  - the HTML message that `format_message` builds;
  - the decision part of `notify_if_needed`.
- `RSSDatabase` (`database.py`). It covers:
  - the `rss_items` table with its UNIQUE link and its AUTOINCREMENT id;
  - `add_item` (`INSERT OR IGNORE`);
  - the two listing queries ordered by `pub_date DESC`;
  - `get_statistics`;
  - `clear_category` and `clear_all`.

Modules:

- `Text`: Python's `str.strip()`, `str.lower()`, the substring test `w in t` and `str(int)`. It also has the text order SQLite's BINARY collation uses, with lemmas that it is a total order.
- `Options`: the `Option` type.
- `WordLists`: `load_keywords` and `load_stopwords`. What configparser made of the file and the file's raw lines are given as data, so only the loaders' own logic is modelled.
- `Notifier`: the policy, the word checks, `should_notify`, `format_message` and `notify_if_needed`.
- `ItemStore`: the table as a sequence of rows in rowid order together with the AUTOINCREMENT counter; `add_item`, `clear_category`, `clear_all`, and any history of these calls.
- `StoreQueries`: `get_items_by_category`, `get_all_items` and `get_statistics`.

Every storage error (`sqlite3.Error`) is a `fault` parameter. A statement that fails is rolled back, so a fault leaves the table unchanged. The function then returns what the `except` branch returns: `False`, `[]` or `{}`. The empty dictionary is `None` here.

Behaviour of the code that the model follows:

- **The plain-text fallback.** The comment at `telegram_bot.py:48` says that when the section is not found the file is read as a plain text list, one phrase per line. In the code the fallback runs only after configparser has parsed the file. A plain list of phrases has no section header, so `config.read` raises `MissingSectionHeaderError`. The surrounding `except Exception` catches it, and the list stays empty. The model exposes this as `IniRead.Unparsable`, which gives the empty set; `WordLists.PlainListGivesNothing` shows a one-phrase list that loads nothing although the line fallback would read the phrase. The fallback is reached only for files that parse as INI and either lack the section or have only blank values in it.
- **The always-notify category.** It is the literal 5 in `should_notify` (`telegram_bot.py:123`); the model names it `AlwaysNotifyCategory`.
- **The result of `add_item`.** It is one boolean, so "link already stored" and "storage error" both return false. The model keeps them apart only through the `fault` input.
- **Row order is text order.** `pub_date` holds the feed's RFC 822 text, such as `Mon, 01 Jan 2024 12:00:00 GMT`. Under SQLite's BINARY collation `ORDER BY pub_date DESC` compares it as text, which sorts by weekday name first, so the listing is not chronological. `StoreQueries.TextOrderIsNotChronological` shows a 2020 row coming before a 2024 row. The model promises descending text order of `pub_date` and the exact set of rows.
- **Row order for equal dates.** `ORDER BY pub_date DESC` has no tie-break, and the model leaves the order of equal dates open.

## Model

| member | source | states |
|---|---|---|
| Text.Strip | telegram_bot.py:45-46 | `value.strip()` returns a contiguous slice of the input that neither starts nor ends with whitespace. Everything removed is whitespace. The result is empty exactly when the input is all whitespace. |
| Text.LowerChar | telegram_bot.py:98 | One character of `str.lower()` on the modelled alphabet (ASCII and basic Cyrillic): an upper-case letter becomes a lower-case letter whose upper case is the original letter, every other character (whitespace included) stays, and no upper-case letter is produced. |
| Text.Lower | telegram_bot.py:98 | `text.lower()` keeps the length and lower-cases each character in place, leaving no upper-case letter. Text without upper-case letters is returned as is. |
| Text.Contains | telegram_bot.py:99 | The executable test `keyword in text_lower` is true exactly when the keyword occurs at some position of the text. |
| Text.DecimalRoundTrip | telegram_bot.py:145 | The category number written into the message reads back as the same integer. |
| Text.BelowTotal | database.py:74 | Any two texts are comparable in the order used by `ORDER BY` and `MAX`. |
| Text.BelowTransitive | database.py:74 | That order is transitive. |
| Text.BelowAntisymmetric | database.py:116 | That order is antisymmetric, so `MAX(created_at)` is one well-defined text. |
| WordLists.NormaliseIsEntry | telegram_bot.py:45-46 | A non-blank value becomes a non-empty, stripped, lower-case entry. |
| WordLists.SectionEntries | telegram_bot.py:43-46 | Every entry taken from the section is non-empty, stripped and lower-case. |
| WordLists.SectionEntriesExact | telegram_bot.py:43-46 | A word is a section entry if and only if some non-blank value of the section strips and lower-cases to it. |
| WordLists.SectionValuesLoaded | telegram_bot.py:44-46 | Each non-blank value of the section, normalised, is among the section's entries. |
| WordLists.KeptLineIsEntry | telegram_bot.py:52-54 | A line the fallback keeps becomes an entry that does not begin with `#` or `[`. |
| WordLists.LineEntries | telegram_bot.py:49-54 | Every fallback entry is a normalised entry that does not begin with `#` or `[`. |
| WordLists.LineEntriesExact | telegram_bot.py:49-54 | A word is a fallback entry if and only if some line that is non-blank, not a `#` comment and not a `[` header strips and lower-cases to it. |
| WordLists.LoadWordList | telegram_bot.py:31-60 | A missing or unparsable file gives the empty set. A section with a non-blank value gives exactly the section's entries. Otherwise (no such section, or only blank values) the result is exactly the line fallback. The empty string is never loaded. |
| WordLists.LoadKeywords | telegram_bot.py:31-60 | Every non-blank value of `[keywords]` is loaded, normalised, and every loaded word is a normalised entry. |
| WordLists.LoadStopwords | telegram_bot.py:62-91 | The same for `[stopwords]`. |
| WordLists.PlainListGivesNothing | telegram_bot.py:38-58 | A headerless list holding the one phrase `python` loads no keywords, while the line fallback on the same lines would give exactly `python`. |
| WordLists.LoadedEntriesHaveASource | telegram_bot.py:39-54 | Every loaded word comes from a non-blank section value or a kept line of a parsed file. |
| Notifier.NewPolicy | telegram_bot.py:24-29 | A notifier's two lists hold only normalised, non-empty entries. |
| Notifier.MentionsAny | telegram_bot.py:93-113 | A word check is true if and only if the text is non-empty and some listed word is a substring of the lower-cased text. An empty text or an empty list gives false. |
| Notifier.CheckKeywordsInText | telegram_bot.py:93-99 | `check_keywords_in_text` is true if and only if the text is non-empty and contains some keyword after lower-casing. |
| Notifier.CheckStopwordsInText | telegram_bot.py:101-113 | `check_stopwords_in_text` is true if and only if the text is non-empty and contains some stopword after lower-casing. |
| Notifier.ShouldNotify | telegram_bot.py:115-130 | A stopword in the title or the description always suppresses. Without one, category 5 always notifies. Any other category notifies if and only if a keyword occurs in the title or the description. |
| Notifier.EmptyStopwordsNeverVeto | telegram_bot.py:103-104 | With no stopwords nothing is vetoed. |
| Notifier.EmptyKeywordsOnlyOverride | telegram_bot.py:95-96 | With no keywords only category 5 can notify. |
| Notifier.WellFormedVeto | telegram_bot.py:101-120 | For loaded lists, the veto holds if and only if some stopword occurs in the lower-cased title or description. |
| Notifier.StopwordBeatsKeywordExample | telegram_bot.py:117-120 | With keyword `urgent` and stopword `spam`, the title "urgent spam job" is not announced although it holds the keyword. |
| Notifier.CategoryOverrideExample | telegram_bot.py:122-124 | A category-5 item with no listed word is announced. |
| Notifier.KeywordExample | telegram_bot.py:126-128 | A keyword in the title announces an item of another category when no stopword is present. |
| Notifier.UpperCaseKeywordExample | telegram_bot.py:98-99 | Matching ignores case: the title "URGENT fix" in category 2 is announced under the keyword `urgent`. |
| Notifier.NoMatchExample | telegram_bot.py:130 | An item of another category with no listed word is not announced. |
| Notifier.TruncateDescription | telegram_bot.py:134-137 | A description of at most 300 characters is kept as is. A longer one becomes its first 300 characters followed by `...` (303 in all). The result is empty exactly when the description is. |
| Notifier.DescriptionBlock | telegram_bot.py:142-143 | The description line is present if and only if the description is non-empty. |
| Notifier.DateBlock | telegram_bot.py:147-148 | The date line is present if and only if the publication date is non-empty. |
| Notifier.Layout | telegram_bot.py:139-150 | The message consists of the header, the title, the description (only when non-empty), the category, the date (only when non-empty) and the link, in that order, 4 to 6 parts. |
| Notifier.FormatMessage | telegram_bot.py:132-152 | The message always starts with the header and the title line and always ends with the link line. It always holds the category line. It holds the (cut) description line when the description is non-empty, and the date line when the date is non-empty. |
| Notifier.LayoutBlocksRendered | telegram_bot.py:142-148 | The rendered message holds the category line, and the description and date lines whenever those values are non-empty. |
| Notifier.NotifyIfNeeded | telegram_bot.py:171-184 | The result is true exactly when `should_notify` holds, and a message is sent exactly then. When the policy declines, nothing is sent. Otherwise exactly the formatted message is sent; delivery errors are swallowed by the sender and do not change the result. A vetoed item is never sent. |
| ItemStore.Empty | database.py:24-35 | A new table is empty and valid. |
| ItemStore.AddItem | database.py:44-63 | A new link appends exactly one row holding the item, stamped with the current time, with an id above every id handed out before, and returns true. A stored link returns false and leaves the rows unchanged; the counter never goes down. A storage error returns false and changes nothing. Ordered ids and unique links are preserved. |
| ItemStore.LinkCountPresence | database.py:50-56 | A link counts among the rows if and only if some stored row carries it, which is what `INSERT OR IGNORE` tests against the UNIQUE column. |
| ItemStore.LinkCountAtMostOne | database.py:29 | In a valid table every link is stored at most once, and exactly once if it is stored at all. |
| ItemStore.AddItemIdempotent | database.py:49-59 | Adding the same link a second time, with any other fields and at any time, returns false, leaves the rows unchanged, and the link stays stored exactly once. |
| ItemStore.AddAll | database.py:44-59 | Adding a batch keeps the table valid, and the stored links become the old links plus the batch's links. |
| ItemStore.AddAllCount | database.py:49-59 | A batch grows the table by the number of its distinct links that were not stored before. |
| ItemStore.Filter | database.py:133 | Selecting by category keeps exactly the rows on the chosen side of the test, in order, and keeps the table ordered. |
| ItemStore.FilterSplit | database.py:133 | The rows of a category and the other rows together account for every row. |
| ItemStore.ClearCategory | database.py:128-138 | Exactly the rows of that category are removed, and the count shrinks by that category's count. The counter is kept and the table stays valid. A storage error returns false and changes nothing. |
| ItemStore.ClearAll | database.py:140-150 | The table is emptied while the AUTOINCREMENT counter is kept. A storage error returns false and changes nothing. |
| ItemStore.IdsNotReusedAfterClearAll | database.py:26 | After `clear_all` the next row gets an id above every id the table ever held. |
| ItemStore.IdsStrictlyIncrease | database.py:26 | Over any history of inserts, deletions and faults the table stays valid, and the ids handed out are strictly increasing and above the starting counter. |
| StoreQueries.InsertByDate | database.py:74 | Inserting a row into a list in non-increasing text order of `pub_date` keeps that order and adds exactly that row. |
| StoreQueries.SortByDate | database.py:74 | `ORDER BY pub_date DESC` gives a permutation of the rows in non-increasing text order of `pub_date`. |
| StoreQueries.TextOrderIsNotChronological | database.py:74 | A row dated Wednesday 1 January 2020 is listed before one dated Monday 1 January 2024, and the reverse order is not a valid result, because the dates are compared as RFC 822 text. |
| StoreQueries.GetItemsByCategory | database.py:65-79 | Gives a permutation of exactly the category's rows in non-increasing text order of `pub_date`, as many as the category count. A storage error gives the empty list. |
| StoreQueries.GetAllItems | database.py:81-94 | Gives a permutation of all rows in non-increasing text order of `pub_date`. A storage error gives the empty list. |
| StoreQueries.ItemsByCategoryExact | database.py:70-75 | A row is returned for a category if and only if a stored record of that category selects to it. |
| StoreQueries.InsertCategory | database.py:110-111 | Adding a category to an ascending list keeps it ascending and adds exactly that category. |
| StoreQueries.Categories | database.py:107-112 | The grouped categories are strictly ascending and are exactly the categories of the stored rows. |
| StoreQueries.ByCategoryFacts | database.py:107-113 | The grouped counts come in strictly ascending category order, each is the category's non-zero row count, every stored category appears, and together they add up to the row count. |
| StoreQueries.CountsAddUp | database.py:103-113 | Counts over distinct categories that cover every row add up to the number of rows. |
| StoreQueries.LatestCreated | database.py:116-117 | `MAX(created_at)` is absent exactly for an empty table. Otherwise it is one of the stored creation times, and no creation time is later. |
| StoreQueries.GetStatistics | database.py:96-126 | `total_items` is the row count. `by_category` lists each present category once, ascending, each with its non-zero count, and the counts add up to the total. `last_update` is the latest creation time, absent for an empty table. A storage error gives no statistics. |
| StoreQueries.QueryMatchesStatistics | database.py:65-113 | For a stored category, the statistics' count equals the number of rows the per-category query returns. |

## Left out

- The Telegram `Bot`, `send_notification`, the asyncio event loop and the HTTP call. The model records the message handed to the sender. `send_notification` catches every error, so delivery failure does not change the result.
- `notify_if_needed`'s own `except` branch (telegram_bot.py:181-183). It runs only when creating or running the event loop fails. That is a runtime failure outside the model.
- File I/O, `os.path.exists` and configparser itself. The loaders receive whether the file exists, configparser's outcome (a parse error, or the values of each section in order) and the raw lines.
- WordLists.LoadWordList: configparser details that are not modelled:
  - values inherited from a `[DEFAULT]` section must already be part of the section's value list;
  - a `%` interpolation error that stops the loop part-way, keeping the entries read so far, is not modelled.
- Text.LowerChar, Text.Lower: only ASCII and the basic Cyrillic block (U+0400–U+042F) are case-folded. Other scripts pass through unchanged. Python's multi-character lowerings, such as U+0130, are not modelled.
- Logging, `print`, and `title[:50]` in log messages. These have no effect on results.
- SQLite internals:
  - connections and commits;
  - the three indexes (they do not change results);
  - `NULL` in the nullable columns: category, description and pub_date are plain values here;
  - storage of CURRENT_TIMESTAMP: the creation time is a `now` parameter.
- ItemStore.AddItem: an ignored duplicate is modelled as reserving one AUTOINCREMENT id. Whether SQLite consumes one is internal to it, so the contract promises only that the rows stay the same and the counter does not go down; after any insert `with conn` commits.
- ItemStore.AddItem: a category outside SQLite's 64-bit integer range makes the driver raise `OverflowError`, which `except sqlite3.Error` does not catch (database.py:61, 77, 136). Categories are unbounded integers here and that exception is not modelled; the same holds for ItemStore.ClearCategory and StoreQueries.GetItemsByCategory.
- StoreQueries.GetStatistics: the three `SELECT`s (database.py:103-117) are modelled as reading one snapshot. Under a concurrent writer they may see different states, and then the counts need not add up to the total.
- StoreQueries.GetItemsByCategory: rows with equal `pub_date` come in an unspecified order. The same holds for StoreQueries.GetAllItems.
- `get_telegram_notifier`, `send_telegram_notification`, `test_bot` and the rest of the repository: feed fetching and parsing, the scheduler, the viewers and the setup scripts. The ingestion loop and the scheduler that call these components are not part of this model.
