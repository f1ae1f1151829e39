# Movie recommender: accounts, validators, posters and ranking

This project models the core of a small movie-recommendation web application:

- **Input validators.** `validate_username` and `validate_email` are anchored regular
  expressions over ASCII character classes. Here they are written as direct scanners,
  `Validators.ValidateUsername` and `Validators.ValidateEmail`. Each is proved to accept exactly
  the language of its pattern, which is stated separately as character-class and length
  predicates.
- **Account store.** `register_user`, `login_user` and `get_user_info` work on the `users` table.
  The table is a sequence of rows `(id, username, email, passwordHash, createdAt)` plus its
  AUTO_INCREMENT counter. `Accounts.Register`, `Accounts.Login` and `Accounts.UserInfoOf` say what
  one call does to a table value. The class `Accounts.UserStore` holds the table and runs the same
  steps in the source's order, and each of its methods is proved against its function.
  - `hash_password` is a deterministic function fixed when the store is created. Nothing about it
    is assumed, not even injectivity.
  - Whether the database answers, or a statement raises `mysql.connector.Error`, is an input
    (`DbFault`).
- **Poster URL decision.** `fetch_poster` is a three-way choice over what the metadata API
  answered (`Posters.Response`).
- **Recommendation.** `recommend` looks up the query title's row in the similarity matrix. It
  ranks `enumerate(row)` with Python's stable descending sort (`Ranking.Rank`) and keeps
  `distances[1:6]` (`Recommender.TopPicks`). A loop then builds the two position-aligned lists of
  titles and poster URLs (`Recommender.Recommend`).

Where the evident intent and the code differ, the model follows the code:

- The evident intent is five recommendations that exclude the query. The code's slice
  `distances[1:6]` yields `min(5, n-1)` of them for a catalog of `n` titles.
- The code drops the top-ranked pair, not necessarily the query's similarity to itself. That pair
  is the query's own only when the query scores the row's maximum and no lower index ties it
  (`Ranking.TopRanked`). Otherwise the query itself can be recommended
  (`Recommender.QueryPickedOnTie`).
- The code's `re.match` with `$` also accepts a valid username or email followed by one final
  newline.
- For an unknown title the code raises an `IndexError` at `.index[0]`. The model answers
  `NotFound`, an explicit "movie not found" result.
- Messages are the code's exact strings, for example `"Username not found"` and
  `"Incorrect password"`.

Files:

- `common.dfy`: `Option`, prefix scans and first/last match.
- `validators.dfy`
- `accounts.dfy`
- `posters.dfy`
- `ranking.dfy`
- `recommender.dfy`

## Model

| member | source | states |
|---|---|---|
| Validators.ValidateUsername | movierecommendationsystem/auth.py:17-20 | decides `MatchesUsernamePattern`, the language of `^[a-zA-Z0-9_]{3,20}$` under `re.match` (`ValidateUsernameCorrect`) |
| Validators.Body | movierecommendationsystem/auth.py:14-15 | the text `$` must reach: the input without one final newline; a prefix of the input |
| Validators.EmailBodyOk | movierecommendationsystem/auth.py:14 | decides `EmailShape`, the pattern without its anchors (`EmailBodyOkSound`, `EmailBodyOkComplete`, `EmailBodyOkCorrect`) |
| Validators.ValidateEmail | movierecommendationsystem/auth.py:12-15 | decides `MatchesEmailPattern`, the language of the email pattern under `re.match` (`ValidateEmailCorrect`, `ValidEmailHasOneAt`) |
| Validators.ValidateUsernameCorrect | movierecommendationsystem/auth.py:17-20 | the scanner accepts exactly 3 to 20 characters of `[a-zA-Z0-9_]`, optionally followed by one final newline (both directions) |
| Validators.UsernameTrailingNewline | movierecommendationsystem/auth.py:19-20 | appending a newline to a username without one never changes the verdict |
| Validators.UsernameExamples | movierecommendationsystem/auth.py:17-20 | `alice_01` is accepted and the two-character `ab` is refused |
| Validators.EmailBodyOkSound | movierecommendationsystem/auth.py:12-15 | every address the scanner accepts splits as local part, '@', domain, '.', and two or more letters, with the pattern's character classes |
| Validators.EmailBodyOkComplete | movierecommendationsystem/auth.py:12-15 | every such split is accepted by the scanner, wherever its '@' and last '.' are |
| Validators.EmailBodyOkCorrect | movierecommendationsystem/auth.py:12-15 | the scanner accepts an address iff it has the pattern's shape |
| Validators.ValidateEmailCorrect | movierecommendationsystem/auth.py:12-15 | validate_email accepts exactly the pattern's shape, optionally followed by one final newline |
| Validators.EmailShapeNoFinalNewline | movierecommendationsystem/auth.py:14 | an address of the pattern's shape ends in a letter, never in a newline |
| Validators.ValidEmailHasOneAt | movierecommendationsystem/auth.py:14 | an accepted email contains an '@', and only one |
| Validators.EmailTrailingNewline | movierecommendationsystem/auth.py:14-15 | appending a newline to an email without one never changes the verdict |
| Validators.EmailExamples | movierecommendationsystem/auth.py:12-15 | `a@b.co` is accepted |
| Accounts.TableInvariant | movierecommendationsystem/config.py:45-47 | the primary key and the two UNIQUE columns of `users`, with the AUTO_INCREMENT counter past every id; kept by every registration (`RegisterPreservesInvariant`) |
| Accounts.InputError | movierecommendationsystem/auth.py:26-33 | the first failing input check and its message, in the source's order (`InputErrorOrder`) |
| Accounts.Register | movierecommendationsystem/auth.py:22-61 | the reply and the table after register_user (`RegisterValidatesFirst`, `RegisterSucceedsIff`, `RegisterEffect`, `RegisterPreservesInvariant`, `RegisterTwiceRefused`) |
| Accounts.Login | movierecommendationsystem/auth.py:63-93 | the reply of login_user (`LoginOutcome`, `RegisterThenLogin`) |
| Accounts.UserInfoOf | movierecommendationsystem/auth.py:95-120 | the answer of get_user_info (`UserInfoOfOutcome`, `RegisterThenUserInfo`) |
| Accounts.InputErrorOrder | movierecommendationsystem/auth.py:26-33 | the input checks run username, then email, then password length, and the message names the first failing one; a password of exactly six characters passes (each case as an iff) |
| Accounts.RegisterValidatesFirst | movierecommendationsystem/auth.py:26-33 | a rejected input fails, its reply depends on neither the table nor the database, and the table is unchanged |
| Accounts.RegisterSucceedsIff | movierecommendationsystem/auth.py:22-58 | registration succeeds iff both patterns match, the password has six or more characters, the database is healthy, and no row has the username or the email |
| Accounts.RegisterEffect | movierecommendationsystem/auth.py:51-58 | a success appends exactly one row (the next id, the username, the email, the password's hash, the time) and increments the counter; a failure leaves the table as it was |
| Accounts.RegisterPreservesInvariant | movierecommendationsystem/auth.py:42-58 | registration keeps ids, usernames and emails pairwise distinct and every id below the counter |
| Accounts.RegisterTwiceRefused | movierecommendationsystem/auth.py:42-48 | after a success, a valid registration that repeats the username or the email is refused as a duplicate and changes nothing |
| Accounts.LoginOutcome | movierecommendationsystem/auth.py:73-90 | with a healthy database: "Username not found" iff no row has the username; otherwise success with that row's id iff the stored hash equals the password's hash, else "Incorrect password" |
| Accounts.RegisterThenLogin | movierecommendationsystem/auth.py:51-53 | after a successful registration, logging in with the same username and password succeeds and answers the new row's id |
| Accounts.UserInfoOfOutcome | movierecommendationsystem/auth.py:103-116 | the lookup answers the username, email and creation time of the row with that id, and None iff no row has it |
| Accounts.RegisterThenUserInfo | movierecommendationsystem/auth.py:103-116 | after a successful registration, the new id answers the registered username, email and time |
| Accounts.UserStore.constructor | movierecommendationsystem/config.py:44-50 | an empty `users` table whose ids start at 1 satisfies the table's constraints |
| Accounts.UserStore.RegisterUser | movierecommendationsystem/auth.py:22-61 | the reply and the new table are those of `Register`; the constraints are kept; a failure leaves rows and counter unchanged, and a success appends the new row |
| Accounts.UserStore.LoginUser | movierecommendationsystem/auth.py:63-93 | the reply is that of `Login` and carries an id exactly when it succeeds; the table is not modified |
| Accounts.UserStore.GetUserInfo | movierecommendationsystem/auth.py:95-120 | the answer is that of `UserInfoOf` and, when present, is the profile of a row with that id; the table is not modified |
| Posters.FetchPoster | movierecommendationsystem/app.py:16-26 | the URL is an image URL iff a non-empty poster path was answered, and the error placeholder iff the request or its parsing failed |
| Posters.FetchPosterInverse | movierecommendationsystem/app.py:20-24 | an image URL gives back exactly the poster path it was built from, and the no-image placeholder is returned iff an answer carried no poster path |
| Ranking.Enumerate | movierecommendationsystem/app.py:31 | `enumerate(row)`: one `(k, row[k])` pair per position |
| Ranking.Insert | movierecommendationsystem/app.py:31 | insertion adds exactly the one pair to the multiset of pairs |
| Ranking.SortDescending | movierecommendationsystem/app.py:31 | the sort is a permutation of its input |
| Ranking.InsertRanked | movierecommendationsystem/app.py:31 | inserting into a ranked sequence keeps it ranked |
| Ranking.SortDescendingRanked | movierecommendationsystem/app.py:31 | the sort of pairs with distinct indices is non-increasing by score, with equal scores in ascending index |
| Ranking.Rank | movierecommendationsystem/app.py:31 | the ranking is a permutation of `enumerate(row)`, ordered by score descending with ties in input order, and holds every pair of the row |
| Ranking.RankedUnique | movierecommendationsystem/app.py:31 | two sequences with the same elements and that order are equal |
| Ranking.RankIsStableSort | movierecommendationsystem/app.py:31 | every permutation of `enumerate(row)` in stable descending order equals `Rank(row)`, so `Rank` is what Python's stable `sorted(..., reverse=True)` returns |
| Ranking.TopRanked | movierecommendationsystem/app.py:31-36 | the first ranked pair, the one `distances[1:6]` skips, is at index q iff `row[q]` is the maximum and no lower index ties it |
| Recommender.TitleIndex | movierecommendationsystem/app.py:30 | the first catalog row whose title equals the query, or none (the ensures of `Recommend`) |
| Recommender.TopPicks | movierecommendationsystem/app.py:36 | `distances[1:6]` has `min(5, n-1)` entries (none for an empty row), each a genuine pair of the row, in ranked order, with no index repeated |
| Recommender.Recommend | movierecommendationsystem/app.py:29-41 | NotFound iff no title matches; otherwise position k of the names and of the posters is the title and `fetch_poster` of the movie id of the catalog row of the k-th pick of the first matching title's row |
| Recommender.TopPicksAreTopK | movierecommendationsystem/app.py:31-36 | every pick scores at least as high as every entry that is neither picked nor the skipped top-ranked one |
| Recommender.QueryExcludedWhenStrictMax | movierecommendationsystem/app.py:31-36 | when the query's score is strictly the row's largest, the query is not recommended |
| Recommender.QueryPickedOnTie | movierecommendationsystem/app.py:31-36 | when one lower-indexed movie ties the query's maximum, that movie is skipped and the query itself is the first recommendation |
| Recommender.DecreasingRowPicks | movierecommendationsystem/app.py:31-39 | on a strictly decreasing row the picks are positions 1 to 5 in order, so a six-title row `[10, 9, 8, 7, 6, 5]` yields the other five in that order |

## Left out

- Accounts.Register: when the username belongs to one row and the email to another, the duplicate check returns two rows, of which `fetchone` reads one. With mysql-connector's default unbuffered cursor, `cursor.close()` then likely raises an "Unread result found" error, which the source reports as "Error during registration: Unread result found". The model answers the duplicate message. The `ok` flag and the table agree either way; only the message may differ. This rests on the driver's behaviour, which is not part of this model.
- Accounts.UserStore.RegisterUser: inherits the same two-row clash message from `Accounts.Register`.
- Accounts.RegisterTwiceRefused: when the other field of the second registration belongs to a different row, the source's reply may be that driver error rather than the duplicate message. No row is stored either way.

- `hash_password` (movierecommendationsystem/auth.py:8-10): SHA-256 and the hex encoding are not modelled. The store takes any deterministic string function, and no property relies on more than determinism.
- Collation: MySQL's default collation compares `username` and `email` case- and accent-insensitively in the duplicate check, the lookups and the UNIQUE constraints. This matters most for `login_user`, which does not validate its username. The model compares exactly.
- `DbFault` covers an unreachable database and a `mysql.connector.Error` at the first statement of a call. An error at a later statement (the INSERT, the commit) is not modelled separately. After a duplicate check that found nothing it would give the same reply and table as a `QueryError`.
- Column widths: `username` and `email` are `VARCHAR(255)` and `id` is `INT` (movierecommendationsystem/config.py:45-47). `validate_email` accepts addresses longer than 255 characters; for such an address the source's INSERT fails under MySQL's default strict mode (or the value is truncated), while the model, with a healthy database, answers success and stores the whole email (`Accounts.RegisterSucceedsIff`, `Accounts.RegisterThenUserInfo`). Ids beyond the `INT` range are not modelled either.
- Opening and closing connections and cursors are not modelled. Neither is the transaction behaviour of the engine or concurrency between requests.
- `created_at` is the database clock. Here it is the caller-supplied `now`.
- AUTO_INCREMENT ids: the model issues consecutive ids from a counter. Gaps the engine may leave after failed inserts are not modelled.
- `get_user_info` prints a message on a database error. The print is not modelled; the result is None, as modelled.
- The `user_preferences` table and the schema set-up in movierecommendationsystem/config.py are not part of this model, apart from the `users` constraints, which become `Accounts.TableInvariant`.
- movierecommendationsystem/test_database.py only checks the environment and prints. It is not part of this model.
- `fetch_poster`'s HTTP request and JSON decoding: they become a `Response` from a function `tmdb` keyed by movie id. A `poster_path` that is present but not a string (a number, say) is not modelled.
- `tmdb` gives one fixed answer per movie id. Two picks with the same `movie_id` therefore always get the same poster, although the source sends a new request per pick and one may fail while the other succeeds. `requests.get` has no timeout and can block forever; that is not modelled either.
- Similarity scores are floating-point in the source. They are only compared, so they are integers here.
- pandas indexing: the catalog's index label is taken to equal the row position, and the similarity matrix to be square over the catalog (a precondition of `Recommender.Recommend`).
- Loading the pickled catalog and matrix, the API-key check, and the Streamlit page and its session handling (movierecommendationsystem/app.py:1-13, 43-60) are not modelled.
