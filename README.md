# Realtime reviews sentiment: the ingestion path and the read endpoints

This project models the core of *realtime-reviews-sentiment*. A producer keeps polling Letterboxd for film reviews. It scores their sentiment and stores them in a SQLite table. A small HTTP API serves the most recent rows. The model covers three parts:

- **Extraction** (`extraction.dfy`, with the string helpers in `text.dfy`): `fetch_reviews(slug, limit)`.
  - It tries the two listing variants `reviews/popular/` and `reviews/` in turn.
  - On a page it walks the review articles in document order.
  - For each article it recovers the author, the permalink, the text, the language, the rating and the timestamp.
  - It skips an article that has no text element, has text shorter than 20 characters, has no author, or has no permalink.
  - It stops at `limit` records.
- **Producer** (`producer.dfy`): one pass of `main`'s loop for one film.
  - It fetches with the default limit of 5.
  - It labels each record `pos`, `neu` or `neg` with the thresholds ±0.1 on the compound score.
  - It builds a row tagged `letterboxd`.
  - It stores the row through a session (`Session`: `Add`, `Commit`, `Rollback`). Each row is committed on its own. A row the database rejects is rolled back without stopping the batch.
  - Its result is the count of rows that committed.
- **API** (`api.dfy`):
  - `GET /health` returns the constant payload `{"status": "ok"}`.
  - `GET /reviews?limit=n` returns the `n` rows with the highest ids, newest first, projected to the public fields. `n` defaults to 20. Following SQLite, a negative `LIMIT` means no limit.

`schema.dfy` holds the stored row: the columns the producer supplies, the id and the ingestion time. It also holds the `(source, item_id, text)` key that identifies one logical review. `wrappers.dfy` holds `Option`.

Several things outside the program are parameters:
- `get` stands for the HTTP fetch. It maps a URL to the response status and the articles the CSS selectors pick out.
- `parseIso` stands for the ISO-8601 parse.
- `score` stands for VADER's compound score.
- `detect` stands for `langdetect.detect`.
- `now` stands for the clock.
- `conflicts` stands for the database's integrity check at commit time.

The ids follow SQLite's rowid: one more than the largest id so far, and a rolled-back insert uses none up.

The row type follows the code that writes and reads rows:
- `apps/common/models.py` declares neither `review_url`, `author`, `review_rating`, `ts_review`, `ts_ingest` nor any unique key. The row type here holds the fields that the producer writes (`apps/worker/letterboxd_producer.py:165-176`) and the API reads (`apps/api/main.py:41-53`). With only the columns `models.py` declares, the producer's `Review(...)` call would fail with an unknown keyword.
- Because no unique key is declared, the integrity check is a parameter of the cycle. `KeyConflict` is one instantiation of it: a unique `(source, item_id, text)` key. The `KeyConstraint…`, `FreshKeys…` and `…InsertsNothing` lemmas state what the loop does under that key.
- `requests.get` is called without a timeout.

## Model

| member | source | states |
|---|---|---|
| Text.Strip | apps/worker/letterboxd_producer.py:57 | `str.strip('/')` never makes the string longer. |
| Text.StripShape | apps/worker/letterboxd_producer.py:57 | `str.strip('/')` leaves a string that neither starts nor ends with `/`. The input is that string with some slashes before it and some after it. |
| Text.StripPadded | apps/worker/letterboxd_producer.py:57 | Stripping a string that is wrapped in any number of slashes gives back the unpadded string inside. |
| Text.Split | apps/worker/letterboxd_producer.py:73 | `str.split('/')` always gives at least one piece, even for the empty string. |
| Text.JoinSplit | apps/worker/letterboxd_producer.py:73 | Joining the pieces of `split('/')` with `/` gives back the original href. |
| Text.SplitJoin | apps/worker/letterboxd_producer.py:73 | Splitting a `/`-join of pieces that contain no `/` gives back those pieces. |
| Text.LeadingDigits | apps/worker/letterboxd_producer.py:104 | The greedy `\d+` match is the longest run of digits that starts the string. |
| Text.SearchRated | apps/worker/letterboxd_producer.py:104-107 | The search finds a match exactly when some position of the string starts `rated-` followed by a digit. |
| Text.SearchRatedLeftmost | apps/worker/letterboxd_producer.py:104-108 | `re.search(r"rated-(\d+)")` takes the leftmost `rated-` that a digit follows. The value seen is the number its greedy digit run spells. |
| Text.SearchRatedAbsent | apps/worker/letterboxd_producer.py:104-107 | With no `rated-<digit>` anywhere, the search finds nothing. |
| Text.SearchRatedToken | apps/worker/letterboxd_producer.py:104-108 | The token `rated-<n>` is read back as `n`. |
| Extraction.AvatarAuthor | apps/worker/letterboxd_producer.py:55-60 | A name comes only from a present avatar href. It is that href with the `/`s stripped from both ends, and it is non-empty and holds no `/`. |
| Extraction.ContextAuthor | apps/worker/letterboxd_producer.py:70-76 | A name comes only from an href with at least three `/`-pieces whose third piece is `film`. The name is the second piece, and it is non-empty and holds no `/`. |
| Extraction.AuthorOf | apps/worker/letterboxd_producer.py:53-76 | An author is non-empty and holds no `/`. The avatar wins whenever it gives a name. When the avatar gives none, the author is exactly what the context href gives, and there is none without a context href. |
| Extraction.AvatarAuthorSound | apps/worker/letterboxd_producer.py:55-60 | An avatar href yields `u` only if it is `u` wrapped in slashes and `u` is a single non-empty segment. |
| Extraction.AvatarAuthorComplete | apps/worker/letterboxd_producer.py:55-60 | Every href of the form `/…/u/…/`, with `u` a non-empty segment, yields `u`. |
| Extraction.ContextAuthorSound | apps/worker/letterboxd_producer.py:70-76 | The fallback yields `u` only for hrefs `<x>/<u>/film` followed by nothing or by `/…`, where `u` is a non-empty segment. |
| Extraction.ContextAuthorComplete | apps/worker/letterboxd_producer.py:70-76 | Every such href yields its second segment. |
| Extraction.ReviewUrl | apps/worker/letterboxd_producer.py:64-68 | A permalink exists exactly when the context link has a non-empty href. A site-relative href gets `https://letterboxd.com` before it. Any other href is kept verbatim. |
| Extraction.TextElementOf | apps/worker/letterboxd_producer.py:78-83 | The prose body is preferred. The generic body text is used only when there is no prose body. |
| Extraction.LangOf | apps/worker/letterboxd_producer.py:93-94 | The language is the element's non-empty `lang` attribute, and `en` otherwise. It is never empty. |
| Extraction.RatingAsWritten | apps/worker/letterboxd_producer.py:100-108 | Without a rating span there is no rating. With a token list, only the first token is searched. A class given as one string is searched whole. |
| Extraction.Rating | apps/worker/letterboxd_producer.py:100-108 | Without a rating span there is no rating. Wherever the code as written finds a rating, the corrected search finds the same one. A class given as one string is searched whole. With a token list, the rating is that of the first token that matches. |
| Extraction.FirstRatedFinds | apps/worker/letterboxd_producer.py:100-108 | The intended search finds `rated-<n>` wherever it stands among the class tokens, provided no earlier token matches. |
| Extraction.FirstRatedNone | apps/worker/letterboxd_producer.py:100-108 | The intended search finds no rating exactly when no class token matches. |
| Extraction.RatingFirstTokenMissed | apps/worker/letterboxd_producer.py:104-106 | For `class="rating rated-8"` the code as written reads no rating. The intended search reads 8. |
| Extraction.ReviewTimestampAsWritten | apps/worker/letterboxd_producer.py:110-117 | As written, the review timestamp is always None. |
| Extraction.ReviewTimestamp | apps/worker/letterboxd_producer.py:110-117 | The timestamp is present only for a non-empty `datetime` attribute, and it is that attribute's ISO parse. |
| Extraction.TimestampDropped | apps/worker/letterboxd_producer.py:113-117 | A non-empty attribute that parses is still lost by the code as written. |
| Extraction.ExtractArticle | apps/worker/letterboxd_producer.py:52-132 | An article gives a record exactly when four things hold: it has a text element, the text is at least 20 characters, there is an author, and the context link has a non-empty href. The record is well formed and carries each recovered field. |
| Extraction.RatingNeverRejects | apps/worker/letterboxd_producer.py:100-108 | The rating span never decides whether an article is kept. |
| Extraction.ValidRecords | apps/worker/letterboxd_producer.py:52-132 | The accepted records of a page are never more than its articles. |
| Extraction.ValidRecordsConcat | apps/worker/letterboxd_producer.py:52-132 | Extraction goes article by article: the records of `a + b` are the records of `a` followed by the records of `b`. |
| Extraction.ValidRecordsWellFormed | apps/worker/letterboxd_producer.py:85-98 | Every accepted record is well formed. There are never more records than articles. |
| Extraction.SkipRejected | apps/worker/letterboxd_producer.py:85-98 | A rejected article is skipped without changing the records of the others. |
| Extraction.KeepAccepted | apps/worker/letterboxd_producer.py:122-132 | An accepted article contributes exactly its record, in its document position. |
| Extraction.AsWrittenCap | apps/worker/letterboxd_producer.py:134-136 | The loop as written stops after `limit` records for a positive limit, and after exactly one otherwise. |
| Extraction.CollectReviewsAsWritten | apps/worker/letterboxd_producer.py:50-136 | The scan as written returns the first `max(limit, 1)` accepted records of the page, in document order. |
| Extraction.NonPositiveLimitKeepsOne | apps/worker/letterboxd_producer.py:134-136 | With a limit of 0 or less, the scan as written still returns one record. |
| Extraction.CollectReviews | apps/worker/letterboxd_producer.py:50-136 | The corrected scan returns the first `limit` accepted records, in document order. It never returns more than `limit`, and every record is well formed. |
| Extraction.CollectAgreesForPositiveLimit | apps/worker/letterboxd_producer.py:134-136 | For every positive limit the two scans return the same records. |
| Extraction.FetchReviews | apps/worker/letterboxd_producer.py:34-142 | The variants are requested in order, popular first. The first variant is always requested. A variant is abandoned only if its status is not 200 or it yields no record. The result is the records of the last page requested. An empty result means both variants were tried. The result is the first variant's records when there are any, and otherwise the second's. There are at most `limit` records, and all are well formed. |
| Extraction.FetchedNothingWithoutOk | apps/worker/letterboxd_producer.py:37-142 | When neither listing answers with status 200, nothing is fetched. |
| Producer.LabelOf | apps/worker/letterboxd_producer.py:157-163 | The label is `pos` exactly when the score is ≥ 0.1. It is `neg` exactly when the score is ≤ −0.1. It is `neu` exactly in between. |
| Producer.LabelMonotone | apps/worker/letterboxd_producer.py:158-163 | A higher score never gets a lower label. |
| Producer.LabelSymmetric | apps/worker/letterboxd_producer.py:158-163 | Negating the score mirrors the label. |
| Producer.LabelExamples | apps/worker/letterboxd_producer.py:158-163 | 0.1 is `pos`, −0.1 is `neg`, 0.05 is `neu` and −0.3 is `neg`. |
| Producer.Candidate | apps/worker/letterboxd_producer.py:153-176 | The row's key is `("letterboxd", item_id, text)`. Its label agrees with its score. Its language is the detector's verdict on the text, not the markup's `lang`. Every other field is copied from the record. |
| Producer.Candidates | apps/worker/letterboxd_producer.py:153-176 | There is one row per fetched record, in fetch order. |
| Producer.NextId | apps/worker/letterboxd_producer.py:178-179 | A new id is larger than every id stored so far. |
| Producer.Append | apps/worker/letterboxd_producer.py:178-179 | Writing one row keeps ids ascending. |
| Producer.Flushed | apps/worker/letterboxd_producer.py:178-179 | A commit appends the pending rows after the committed ones, in the order they were added, and keeps ids ascending. |
| Producer.Session.constructor | apps/worker/letterboxd_producer.py:147 | A new session starts over the committed table with nothing pending. |
| Producer.Session.Add | apps/worker/letterboxd_producer.py:178 | `db.add` queues the row and leaves the table unchanged. |
| Producer.Session.Commit | apps/worker/letterboxd_producer.py:179-182 | `db.commit` succeeds exactly when every pending row passes the integrity check. On success all pending rows are written in order. On failure nothing is written, and the rows stay pending. |
| Producer.Session.Rollback | apps/worker/letterboxd_producer.py:181-182 | `db.rollback` drops the pending rows and leaves the table untouched. |
| Producer.Attempt | apps/worker/letterboxd_producer.py:177-182 | One `try` block: the row commits exactly when it passes the integrity check against the committed table. The table then gains that row, and otherwise stays as it was. Nothing is left pending. |
| Producer.Step | apps/worker/letterboxd_producer.py:177-182 | One attempt adds one row when the integrity check passes and none when it fails. The new row holds the candidate and the commit time. The old rows are unchanged, and ids keep ascending. |
| Producer.Stored | apps/worker/letterboxd_producer.py:152-182 | The table after the loop has between zero and one new row per candidate. |
| Producer.InsertedCount | apps/worker/letterboxd_producer.py:152-182 | The count of commits is at most the number of candidates. |
| Producer.StoredGrowth | apps/worker/letterboxd_producer.py:152-182 | The insert loop only appends. The old rows are unchanged. It adds exactly as many rows as it counts, at most one per record. Every new row is one of the candidates. Ids keep ascending. |
| Producer.StoreReviews | apps/worker/letterboxd_producer.py:152-182 | The loop adds and commits each candidate once, rolling back each one that is rejected. The table it leaves is the one the candidates produce in order. `inserted` counts the commits that went through. |
| Producer.RunCycle | apps/worker/letterboxd_producer.py:150-183 | One cycle fetches with the default limit and returns what was fetched. The table it leaves is the one those records' candidates produce in order, and `inserted` counts their commits. When neither listing answers with status 200, nothing is fetched, inserted or added. It inserts at most as many rows as it fetched, at most 5, and only appends. Every new row is tagged `letterboxd` and belongs to the polled film. Each new row has text of at least 20 characters, an author and a permalink, and a label that agrees with its score. |
| Producer.NewRowsFromFilm | apps/worker/letterboxd_producer.py:153-176 | Every row stored from well-formed records of a film is tagged `letterboxd`, belongs to that film, has text of at least 20 characters, an author and a permalink, and a label that agrees with its score. |
| Producer.KeyConstraintKeepsKeysUnique | apps/worker/letterboxd_producer.py:177-182 | Under a `(source, item_id, text)` unique key, the stored keys stay unique whatever the batch. |
| Producer.KeyConstraintStoresEveryKey | apps/worker/letterboxd_producer.py:177-182 | Under that key, every candidate's key is present after the loop, inserted either now or before. |
| Producer.FreshKeysStoreAll | apps/worker/letterboxd_producer.py:177-182 | Under that key, candidates whose keys are new and pairwise distinct all commit. The count is the number of candidates, the old rows are unchanged, and the new rows hold the candidates in order. |
| Producer.ThreeFreshThenNone | apps/worker/letterboxd_producer.py:150-183 | Three reviews with distinct keys all insert into an empty table. Polling them again inserts none. |
| Producer.AllPresentStoresNothing | apps/worker/letterboxd_producer.py:177-182 | A batch whose keys are all present already changes nothing and counts 0. |
| Producer.RerunInsertsNothing | apps/worker/letterboxd_producer.py:150-183 | Polling the same reviews again inserts nothing and leaves the table as it was. |
| Producer.SameKeyOneRow | apps/worker/letterboxd_producer.py:177-182 | Two reviews with the same key leave exactly one row with that key. |
| Api.Project | apps/api/main.py:40-53 | The projected element keeps the row's id. |
| Api.Health | apps/api/main.py:28-30 | The health payload has the single key `status`, and its value is `ok`. |
| Api.InsertById | apps/api/main.py:38 | Inserting one row lengthens the list by one. |
| Api.SortByIdDesc | apps/api/main.py:38 | `ORDER BY id DESC` returns as many rows as the table holds. |
| Api.InsertByIdSorted | apps/api/main.py:38 | Inserting into a list in descending id order keeps it in descending id order. |
| Api.SortByIdDescKeeps | apps/api/main.py:38 | `ORDER BY id DESC` keeps every row, each as often as it appears. |
| Api.SortByIdDescSorted | apps/api/main.py:38 | `ORDER BY id DESC` puts the ids in descending order, strictly so when the ids are unique. |
| Api.SortAscendingReverses | apps/api/main.py:38 | On a table whose ids grow in insertion order, `ORDER BY id DESC` is the reversed insertion order. |
| Api.SelectRecent | apps/api/main.py:38 | `LIMIT n` returns every row when `n` is negative or at least the row count, and `n` rows otherwise. The rows returned are a prefix of the table sorted by descending id. |
| Api.SelectRecentFacts | apps/api/main.py:38 | Every row `LIMIT n` returns is a row of the table. |
| Api.ListReviews | apps/api/main.py:33-55 | With the default limit of 20, the length is as above. Each element is the projection of a stored row. |
| Api.ListReviewsDescending | apps/api/main.py:33-55 | With the ids unique, the ids in the response strictly decrease. Each element is the projection of the one row that has its id. |
| Api.ListReviewsPrefix | apps/api/main.py:38-55 | The response's elements are the projections of the first rows of the table sorted by descending id, in that order. |
| Api.ListReviewsNewestFirst | apps/api/main.py:33-55 | On a table the producer wrote, the `k`-th element is the projection of the `k`-th most recently inserted row. |
| Api.ListReviewsTop | apps/api/main.py:38 | Every row left out has a smaller id than every row returned. |
| Api.ListReviewsExample | apps/api/main.py:33-55 | Over ids 1 to 5 with `limit=2`, the response holds ids 5 and 4, in that order. |

## Findings

| source | as written | input that shows it | evidently intended | confidence | as-written member | corrected member |
|---|---|---|---|---|---|---|
| apps/worker/letterboxd_producer.py:104-106 | `re.search` runs on only the first token of the class list, which on a rating span is normally `rating` | `<span class="rating rated-8">` gives no rating | the rating is read from whichever class token is `rated-<n>` (8 here) | not executed | Extraction.RatingAsWritten, Extraction.RatingFirstTokenMissed | Extraction.Rating, Extraction.FirstRatedFinds |
| apps/worker/letterboxd_producer.py:134-136 | the limit is tested only after an append | `limit=0` with one acceptable article gives one record | never more than `limit` records | not executed | Extraction.CollectReviewsAsWritten, Extraction.NonPositiveLimitKeepsOne | Extraction.CollectReviews, Extraction.CollectAgreesForPositiveLimit |
| apps/worker/letterboxd_producer.py:115 | `datetime.fromisoformat` is called on the module, which raises; the handler swallows the error | `datetime="2024-05-01T10:00:00"` gives `ts_review = None` | the parsed timestamp | not executed | Extraction.ReviewTimestampAsWritten, Extraction.TimestampDropped | Extraction.ReviewTimestamp |

The rest of the model uses the corrected members. For the cycle's limit of 5, the two scans agree (`CollectAgreesForPositiveLimit`).

## Left out

- HTML parsing and CSS selection are not modelled. An `Article` holds what the selectors return, and `get_text(" ", strip=True)` is taken to be the text element's `text`.
- `requests.get` is the parameter `get`. Network errors and the exceptions it raises are not modelled. Neither are the request headers.
- VADER is the parameter `score`, `langdetect.detect` is `detect`, and the ISO-8601 parse is `parseIso`. The model does not cover `detect` raising on text with no features, which escapes the loop and ends `main`.
- Producer.RunCycle: the film slug is a parameter. The `random.choice(FILMS)` pick, the endless `while True`, `asyncio.sleep(30)` and the closing of the session are not modelled.
- Producer.StoreReviews: one `now` stamps every commit in a cycle, whereas the database stamps each row when it is written. The integrity check is a parameter because the schema shown declares no unique key.
- Extraction.ExtractArticle: it uses the corrected `Rating` and `ReviewTimestamp`. On the same article the code as written stores no rating for `class="rating rated-8"` (`RatingFirstTokenMissed`) and never stores a timestamp (`TimestampDropped`). The Findings table records both.
- Extraction.FetchReviews: it uses the corrected `CollectReviews`, so its records carry the corrected rating and timestamp described for `ExtractArticle`. For `limit <= 0` the code as written returns one record where this returns none (`NonPositiveLimitKeepsOne`). For every positive limit, including the cycle's 5, the two agree (`CollectAgreesForPositiveLimit`).
- Extraction.Rating: the rating is an exact natural number, not a `float`. `\d` is modelled as the ASCII digits only, whereas Python's `\d` also accepts other Unicode decimal digits.
- Extraction.AuthorOf: the model takes the avatar and context hrefs as the selectors return them (`^='/'`, `*='/film/<slug>'`). It does not check that those attribute filters hold.
- The console messages (`print`) are not modelled, and neither is `create_all`.
- The API's lifespan hook, the `get_db` dependency and FastAPI's query parsing are not modelled. A `limit` that FastAPI rejects as a non-integer never reaches `list_reviews`.
- The Streamlit dashboard (`apps/dashboard/app.py`) is not part of this model.
