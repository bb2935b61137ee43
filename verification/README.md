# Community Notes Everywhere — scoring engine and text anchoring in Dafny

This project models the core of Community Notes Everywhere. Readers attach
notes to passages of web pages and rate them "yes", "somewhat" or "no". A
note turns *helpful* or *not helpful* once enough ratings agree. Raters earn
reputation when their past ratings match how notes were settled. Authors earn
karma from the ratings their notes collect. A browser extension finds each
note's passage again on the live page.

The model is functional throughout: immutable datatypes, pure functions, and
lemmas about them.

| module | file | what it models |
|---|---|---|
| `Wrappers` | wrappers.dfy | `Option` and `Result` |
| `Notes` | notes.dfy | the status enum and `Note#update_status!` (the helpful / not-helpful thresholds) |
| `Ratings` | ratings.dfy | the helpfulness enum, the ratings ledger with its (user, note) uniqueness, find-or-initialize, destroy, and the per-note recount |
| `HelpfulnessMigration` | helpfulness_migration.dfy | the migration that turned the boolean `helpful` into the three-way `helpfulness` |
| `Users` | users.dfy | the reputation gates, `recalculate_reputation!` (account age, followers, accuracy, rounding) and `recalculate_karma!` |
| `Store` | store.dfy | users, notes and ratings together; the rating save/destroy callback (recount, then status update, then author karma) and the consistency invariant it keeps |
| `Whitespace` | whitespace.dfy | `normalizeWs` and the normalised-index map of `findTextNormalized` |
| `Anchoring` | anchoring.dfy | `collectTextNodes`, `buildRange`, `findTextInNode`, `findTextNormalized`, `findTextWithContext` and the `findTextRange` strategy order |

Modelling choices:

- Ratings are a `seq<Rating>` ledger. The database's unique index on (user, note) is the predicate `Ratings.Unique`.
- Users and notes are addressed by their position in `Store.Db`.
- Reputation and karma are exact `real`s.
  - `Float#round(2)` becomes `Users.Round2`: rounding half away from zero to two decimals.
  - `Math.log10` is a function parameter.
  - The current time is a parameter.
  - A year is 31556952 seconds, Rails' `1.year`.
- The DOM becomes values:
  - a subtree is the sequence of its text nodes' contents, in document order;
  - a range is a pair of (text node, offset) boundaries;
  - `document.body.innerText` and the outcome of `document.querySelector` are fields of `Anchoring.Page`.
- JavaScript's `\s` is `Whitespace.IsWs`: tab through carriage return, space, U+00A0, U+1680, U+2000–U+200A, U+2028, U+2029, U+202F, U+205F, U+3000 and U+FEFF.

Where the model code and its tests disagree, the model follows the model code:

- A rating write does not recompute the rater's reputation. The rating callback (app/models/rating.rb:15-23) recounts the note, updates its status and recomputes the author's karma, and nothing more. Reputation recomputation is the separate `Store.RecalculateUserReputation`.
- spec/models/note_spec.rb:74-100 expects `Note#update_status!` to write a status-change record and to recompute the raters' rating impact. app/models/note.rb:11-18 does neither: it only sets the status. Both are left out (see below).
- app/controllers/api/ratings_controller.rb:9 assigns the old boolean `helpful`, but db/schema.rb:48 has only `helpfulness`. `Store.RateNote` follows spec/requests/api/ratings_spec.rb:10-36, which posts `helpfulness` and expects it saved.

## Model

| member | source | states |
|---|---|---|
| Notes.StatusCodeRoundTrip | app/models/note.rb:6 | pending, helpful and not_helpful are stored as 0, 1 and 2. Decoding a stored code gives back the status, and encoding a decoded code gives back the code. |
| Notes.UpdateStatus | app/models/note.rb:11-18 | With positive = helpful + somewhat: at least 3 positive votes and more than twice the "no" votes make the note helpful. At least 3 "no" votes and more than twice the positive votes make it not helpful. Otherwise the status is unchanged. The result is pending only if the note was pending. |
| Notes.ThresholdsExclusive | app/models/note.rb:13-16 | The helpful and not-helpful thresholds never hold together, so the order of the two branches does not matter. |
| Notes.UpdateStatusIdempotent | app/models/note.rb:11-18 | A second status update on the same counts changes nothing. |
| Notes.DecisionIgnoresCurrent | app/models/note.rb:13-16 | Once a threshold is met, the new status does not depend on the old one. |
| Notes.DecidedStaysDecided | app/models/note.rb:11-18 | A helpful or not-helpful note never goes back to pending. |
| Notes.PositiveRatingNeverCondemns | app/models/note.rb:12-16 | From a settled status other than not helpful, one more yes or somewhat vote never makes the note not helpful. |
| Notes.NegativeRatingNeverEndorses | app/models/note.rb:12-16 | From a settled status other than helpful, one more no vote never makes the note helpful. |
| Notes.ThresholdExamples | app/models/note.rb:12-16 | Worked cases. (3,0,0) becomes helpful. (2,0,0), (1,0,0) and (3,0,2) stay pending. (5,0,2) and (1,2,0) become helpful. A helpful note with (0,0,3) becomes not helpful, and a not-helpful note with (3,0,1) becomes helpful. |
| Ratings.HelpfulnessCodeRoundTrip | app/models/rating.rb:5 | yes, somewhat and no are stored as 0, 1 and 2, and decoding inverts encoding. |
| Ratings.FindRating | app/models/rating.rb:7 | The lookup of a user's rating of a note returns a row holding that pair, or reports that no row holds it. |
| Ratings.FindRatingIsTheOnlyRow | db/schema.rb:53 | Under the unique (user, note) index, any row holding the pair is the row the lookup returns. |
| Ratings.Upsert | app/controllers/api/ratings_controller.rb:8 | find_or_initialize_by: the ledger keeps its length when the pair has a row and grows by one otherwise. What the rows then hold is `Ratings.UpsertOverwrites`. |
| Ratings.UpsertOverwrites | app/controllers/api/ratings_controller.rb:8 | find_or_initialize_by then save keeps the ledger unique. The pair's row then carries the new helpfulness. Every other row keeps its user, note and helpfulness. |
| Ratings.RemoveAt | app/models/rating.rb:11 | Destroying row k shortens the ledger by one. Rows before k stay in place, and rows after it move down by one. Uniqueness is `Ratings.RemoveAtKeepsUnique`. |
| Ratings.RemoveAtKeepsUnique | app/models/rating.rb:7 | Removing a row keeps the ledger unique. |
| Ratings.Recount | app/models/rating.rb:16-20 | The recount of a note's yes, somewhat and no votes. It has no contract of its own; `Ratings.CountAppend`, `Ratings.TallySumsToRatings`, `Ratings.OtherNotesIgnored` and the three effect lemmas state what it computes. |
| Ratings.CountAppend | app/models/rating.rb:16-20 | The per-note count of a helpfulness value is additive over ledger concatenation. |
| Ratings.TallySumsToRatings | app/models/rating.rb:16-20 | The recounted yes + somewhat + no equals the number of ratings on the note. |
| Ratings.OtherNotesIgnored | app/models/rating.rb:16-20 | A note's recount depends only on the ratings of that note. |
| Ratings.ReplaceEffect | app/models/rating.rb:16-20 | Overwriting one row moves exactly that row's vote out of the old count and into the new one. |
| Ratings.AppendEffect | app/models/rating.rb:16-20 | Appending a row adds exactly that row's vote. |
| Ratings.RemoveEffect | app/models/rating.rb:16-20 | Removing a row subtracts exactly that row's vote. |
| HelpfulnessMigration.Up | db/migrate/20260211124011_convert_ratings_to_three_way_and_add_sources_linked.rb:9 | true becomes the code of yes and false the code of no. |
| HelpfulnessMigration.Down | db/migrate/20260211124011_convert_ratings_to_three_way_and_add_sources_linked.rb:26 | The boolean is true exactly when the code decodes to yes. |
| HelpfulnessMigration.UpDownRoundTrip | db/migrate/20260211124011_convert_ratings_to_three_way_and_add_sources_linked.rb:9-26 | Migrating down after up gives back every boolean. |
| HelpfulnessMigration.DownUpLosesSomewhat | db/migrate/20260211124011_convert_ratings_to_three_way_and_add_sources_linked.rb:9-26 | Up after down maps somewhat to no and so loses it. yes and no survive. |
| Users.CanRate | app/models/user.rb:27-29 | Rating needs a reputation of at least 15. Its partner is `Users.CanWriteImpliesCanRate`. |
| Users.CanWrite | app/models/user.rb:31-33 | Writing needs a reputation of at least 25. Its partner is `Users.CanWriteImpliesCanRate`. |
| Users.CanWriteImpliesCanRate | app/models/user.rb:27-33 | Anyone allowed to write may rate. Some users may rate but not write (thresholds 15 and 25). |
| Users.Round2 | app/models/user.rb:61 | The result is a whole number of hundredths. It is the one nearest the input, with a tie going away from zero. It moves the value by at most 0.005 and keeps it inside [0, 100]. |
| Users.Round2Unique | app/models/user.rb:61 | Any whole number of hundredths that is nearest the input, with ties away from zero, is the rounded value. These conditions pin the result down. |
| Users.Round2Ties | app/models/user.rb:61 | 0.125 rounds to 0.13, −0.125 to −0.13, 2.675 to 2.68 and 0.124 to 0.12. |
| Users.Round2KeepsHalves | app/models/user.rb:66 | Rounding leaves multiples of 0.5 unchanged, so rounding karma is the identity. |
| Users.AgeBonus | app/models/user.rb:38-42 | The bonus is 0 without a creation date and at most 20. It is 20 after five years and non-negative when the date is not in the future. It is negative when the date is in the future. |
| Users.AgeBonusMonotone | app/models/user.rb:39-42 | As the clock moves on, an account's age bonus never shrinks. |
| Users.FollowerBonus | app/models/user.rb:44-47 | The bonus is 0 without a positive follower count and at most 30. It is 30 from 1000 followers on (log10 ≥ 3). |
| Users.FollowerBonusMonotone | app/models/user.rb:45-47 | More followers never give a smaller bonus, given that log10 does not decrease between the two counts. |
| Users.JudgedRatings | app/models/user.rb:50-52 | The user's ratings joined with their notes' status: never more rows than the ledger. Which rows it keeps is `Users.JudgedRatingsSnoc`. |
| Users.JudgedRatingsAppend | app/models/user.rb:50-52 | The join distributes over the ledger: the judged rows of two ledger pieces are the judged rows of each, in order. |
| Users.JudgedRatingsSnoc | app/models/user.rb:50-52 | A ledger row adds exactly one judged row when it is this user's rating of an existing note: its helpfulness, paired with that note's status. Any other row adds nothing. |
| Users.OtherUsersRatingIgnored | app/models/user.rb:50-52 | Another user's rating, wherever it sits in the ledger, leaves this user's judged rows unchanged, and so leaves their reputation unchanged. |
| Users.AccurateMeansAgreement | app/models/user.rb:55-56 | The SQL accuracy condition on stored codes holds exactly for yes on a helpful note or no on a not-helpful note. Every accurate row is counted. |
| Users.AccuracyBonus | app/models/user.rb:49-59 | The bonus lies in [0, 50]. It is 0 with no counted ratings or no accurate ones, and 50 when every counted rating is accurate. |
| Users.AccurateRatingNeverLowersBonus | app/models/user.rb:53-58 | One more accurate yes/no rating of a decided note never lowers the accuracy bonus. |
| Users.InaccurateRatingNeverRaisesBonus | app/models/user.rb:53-58 | One more inaccurate yes/no rating of a decided note never raises the accuracy bonus. |
| Users.CountsAppend | app/models/user.rb:50-57 | The counted and accurate totals are additive over concatenation. |
| Users.UncountedRowIgnored | app/models/user.rb:50-52 | A somewhat rating, or a rating of a pending note, never changes the accuracy bonus. |
| Users.RawReputation | app/models/user.rb:36-59 | The score before rounding is at most 100. It is non-negative when the creation date is absent or not in the future. |
| Users.RecalculateReputation | app/models/user.rb:35-62 | The stored score is a whole number of hundredths. It is the one nearest the raw score, with ties away from zero, so it is within 0.005 of it. It is at most 100. Followers, creation date and karma are untouched. |
| Users.NewcomerCannotRate | app/models/user.rb:27-62 | A user with no age, no followers and no decided yes/no ratings scores 0 and may not rate. |
| Users.KarmaSum | app/models/user.rb:65 | The sum of helpful + 0.5 × somewhat − not_helpful over the user's notes. `Users.KarmaIsHalfInteger`, `Users.NoNotesNoKarma`, `Users.KarmaReplace` and `Users.KarmaExamples` state what it computes. |
| Users.KarmaIsHalfInteger | app/models/user.rb:65 | Karma is an integer divided by two (2h + s − 2n summed over the author's notes). |
| Users.RecalculateKarma | app/models/user.rb:64-67 | Stored karma is the sum over the user's notes of helpful + 0.5 × somewhat − not_helpful. Reputation and profile fields are untouched. |
| Users.NoNotesNoKarma | app/models/user.rb:65 | A user who authored no note has karma 0. |
| Users.KarmaReplace | app/models/user.rb:65 | Replacing one note changes karma by exactly the difference of that note's contributions. |
| Users.KarmaExamples | app/models/user.rb:65 | (4,1,1) gives 3.5 and (0,0,3) gives −3, so karma can be negative. Other authors' notes do not count. |
| Store.AfterRatingWrite | app/models/rating.rb:15-23 | The callback sets the note's counts to the recount of its ratings and its status to the status update of those counts. It then sets the author's karma to the karma sum over the updated notes and changes no other field of the author's row. Every other note and user, every reputation and the ledger are untouched. |
| Store.CreateRating | app/models/rating.rb:7-10 | A missing user, a missing note, or an existing rating of the pair fail in that priority order: `UserMissing` exactly when the user is missing, otherwise `NoteMissing` exactly when the note is, otherwise `AlreadyRated` exactly when the pair has a row. On success the ledger gains exactly the new row, and the result is the callback run on note n over that ledger (`Store.AfterRatingWrite`). |
| Store.RateNote | app/controllers/api/ratings_controller.rb:6-11 | A missing user or note fails exactly in those cases. A rating never fails as already rated. On success the ledger is the upsert of the pair, and the result is the callback run on note n over it. |
| Store.DestroyRating | app/models/rating.rb:11 | Destroying a pair nobody rated, or on a missing note, changes nothing. Otherwise the pair's row is removed and the callback runs on note n. On a unique ledger no row of the pair remains. |
| Store.DestroyLeavesNoRow | db/schema.rb:53 | On a unique ledger, removing the pair's row leaves no row for the pair. |
| Store.CallbackRestoresValid | app/models/rating.rb:15-23 | If only note n's counts or status are stale, the callback on n makes the whole store consistent again. |
| Store.ReplaceKeepsOtherRecounts | app/models/rating.rb:16-20 | Re-rating a note leaves every other note's recount unchanged. |
| Store.AppendKeepsOtherRecounts | app/models/rating.rb:16-20 | A new rating leaves every other note's recount unchanged. |
| Store.RemoveKeepsOtherRecounts | app/models/rating.rb:16-20 | Destroying a rating leaves every other note's recount unchanged. |
| Store.CreateRatingPreservesValid | app/models/rating.rb:7-23 | Creating a rating keeps the store consistent: unique ledger, counts equal recounts, status settled, karma current. |
| Store.RateNotePreservesValid | app/controllers/api/ratings_controller.rb:8-11 | Rating or re-rating through the endpoint keeps the store consistent. |
| Store.DestroyRatingPreservesValid | app/models/rating.rb:11-23 | Destroying a rating keeps the store consistent. |
| Store.CallbackIsNoOpWhenValid | app/models/rating.rb:15-23 | On a consistent store the callback changes nothing. |
| Store.ReRatingMovesOneVote | spec/requests/api/ratings_spec.rb:39-46 | Re-rating succeeds, moves exactly one vote from the old helpfulness to the new one, and keeps the note's total. |
| Store.RecalculateUserReputation | app/models/user.rb:35-62 | The user's stored score is the raw score over their own judged ratings, rounded to hundredths with ties away from zero (`Users.Round2Unique` shows this fixes it), and at most 100. Every other field of that user, every other user, the notes and the ledger are untouched. |
| Store.RecalculateUserReputationPreservesValid | app/models/user.rb:35-62 | Recomputing a reputation keeps the store consistent, including the invariant that no stored reputation exceeds 100 (db/schema.rb:65 starts every score at 0.0). |
| Whitespace.SkipWs | extension/anchoring.js:5 | The leading-trim result is never longer, is shorter when the input starts with whitespace, and starts with non-whitespace. |
| Whitespace.SkipWsSuffix | extension/anchoring.js:5 | The leading-trim result is a suffix of the input, and what it drops is all whitespace. |
| Whitespace.TrimEnd | extension/anchoring.js:5 | The trailing-trim result is never longer and ends with non-whitespace. |
| Whitespace.TrimEndPrefix | extension/anchoring.js:5 | The trailing-trim result is a prefix of the input, and what it drops is all whitespace. |
| Whitespace.CollapseRuns | extension/anchoring.js:5 | Collapsing whitespace runs never lengthens the string and keeps it non-empty. The first character becomes a space exactly when it was whitespace. |
| Whitespace.CollapseRunsCollapsed | extension/anchoring.js:5 | After collapsing, every whitespace character is a plain space and no two whitespace characters are adjacent. |
| Whitespace.CollapseRunsKeepsCollapsed | extension/anchoring.js:5 | Collapsing an already collapsed string changes nothing. |
| Whitespace.NormalizeWs | extension/anchoring.js:4-6 | The result has no leading or trailing whitespace, no two adjacent whitespace characters, and only plain spaces. It is never longer than the input. |
| Whitespace.NonWsSkipWs | extension/anchoring.js:5 | Trimming leading whitespace keeps every other character, in order. |
| Whitespace.NonWsTrimEnd | extension/anchoring.js:5 | Trimming trailing whitespace keeps every other character, in order. |
| Whitespace.NonWsCollapseRuns | extension/anchoring.js:5 | Collapsing runs keeps every other character, in order: only whitespace changes. |
| Whitespace.NonWsNormalizeWs | extension/anchoring.js:4-6 | Normalising keeps every non-whitespace character, in order. |
| Whitespace.NormalizeWsEmptyIffAllWs | extension/anchoring.js:4-6 | Text normalises to the empty string exactly when it is all whitespace. |
| Whitespace.CollapseRunsAppend | extension/anchoring.js:5 | Text that ends in non-whitespace collapses independently of what follows it. |
| Whitespace.CollapseSeparatesWords | extension/anchoring.js:5 | A whitespace run between two words becomes exactly one space. Words are never joined. |
| Whitespace.NormalizeJoinsWithOneSpace | extension/anchoring.js:4-6 | Two normalised words with any whitespace run between them normalise to the words joined by one space. |
| Whitespace.NormalizeWsKeepsNormal | extension/anchoring.js:4-6 | A string already in that shape is its own normalisation. |
| Whitespace.NormalizeWsIdempotent | extension/anchoring.js:4-6 | Normalising twice equals normalising once. |
| Whitespace.Scan | extension/anchoring.js:72-86 | Each step of the map-building loop yields entries that fit the text. A copied character is the character at its index. A space stands at the first index of a whitespace run that follows a non-whitespace character. Consecutive entries are linked. |
| Whitespace.IndexMap | extension/anchoring.js:68-87 | The index map fits the text and drops leading whitespace: its first entry is never a space. |
| Whitespace.IndexMapIncreasing | extension/anchoring.js:68-87 | The original indices in the map strictly increase. |
| Whitespace.SliceCollapses | extension/anchoring.js:88-95 | The original text between two map entries, ending on a non-whitespace one, collapses to exactly the normalised characters between them. |
| Whitespace.IndexMapText | extension/anchoring.js:68-87 | The normalised characters are `normalizeWs` of the text, plus at most one trailing space. |
| Anchoring.CollectTextNodes | extension/anchoring.js:9-25 | fullText is the concatenation of the node texts, and the nodes tile it in order. |
| Anchoring.CollectTextNodesOffsets | extension/anchoring.js:19-24 | Node k holds the k-th text. Its start is the total length of the texts before it. |
| Anchoring.BuildRange | extension/anchoring.js:28-48 | The walk that turns two offsets into (node, offset) boundaries. `Anchoring.BuildRangeFinds` and `Anchoring.BuildRangeMisses` state when it succeeds and where it points. |
| Anchoring.BuildRangeFinds | extension/anchoring.js:28-48 | For 0 ≤ start < end ≤ length, the range exists. Its boundaries lie inside their nodes, and node start + offset gives back start and end. The start offset is strictly before the end of its node. |
| Anchoring.BuildRangeMisses | extension/anchoring.js:28-48 | The range is null when start is at or past the end of the text, or end is beyond it. |
| Anchoring.IndexOf | extension/anchoring.js:54 | indexOf is −1 exactly when the pattern does not occur. Otherwise it is the first index where it occurs. |
| Anchoring.FindTextInNode | extension/anchoring.js:51-59 | The exact search. `Anchoring.FindTextInNodeFinds` and `Anchoring.FindTextInNodeCovers` state when it succeeds and what it covers. |
| Anchoring.FindTextInNodeFinds | extension/anchoring.js:51-59 | The exact search succeeds exactly when the search text is non-empty and occurs in the collected text. |
| Anchoring.FindTextInNodeCovers | extension/anchoring.js:51-59 | A found range starts at the first occurrence and covers exactly the search text. |
| Anchoring.FindTextNormalized | extension/anchoring.js:63-96 | The whitespace-tolerant search. `Anchoring.FindTextNormalizedFinds` and `Anchoring.FindTextNormalizedCovers` state when it succeeds and what it covers. |
| Anchoring.FindTextNormalizedFinds | extension/anchoring.js:63-96 | The normalised search succeeds exactly when the normalised search text is non-empty and occurs in the normalised page text. |
| Anchoring.FindTextNormalizedCovers | extension/anchoring.js:88-95 | The text a found range covers normalises to the normalised search text. |
| Anchoring.BodyText | extension/anchoring.js:100 | `innerText`, or the concatenated node texts when that is empty. |
| Anchoring.FindTextWithContext | extension/anchoring.js:99-122 | The search for prefix + text + suffix. `Anchoring.ContextSearchDelegates` states which search it hands over to. |
| Anchoring.ContextSearchDelegates | extension/anchoring.js:99-122 | The context search returns null, the exact search's result for the text, or the normalised search's result. When prefix + text + suffix occurs in the body text, it returns the exact search's result. |
| Anchoring.FindTextRange | extension/anchoring.js:125-159 | The four strategies in order. `Anchoring.FindTextRangeOrder`, `Anchoring.FindTextRangeSound` and `Anchoring.FindTextRangeMisses` state what it returns. |
| Anchoring.FindTextRangeOrder | extension/anchoring.js:125-159 | The result is the first non-null of selector, exact, context (only with a non-empty prefix or suffix) and normalised. It is null exactly when all four miss. |
| Anchoring.ContextAddsNothing | extension/anchoring.js:143-158 | Dropping the prefix and suffix never changes the range found. |
| Anchoring.InvalidSelectorIsMiss | extension/anchoring.js:127-137 | A selector that throws behaves exactly as no selector. |
| Anchoring.FindTextRangeSound | extension/anchoring.js:125-159 | A found range covers the selected text exactly (in the selected element or the body), or body text that normalises to the normalised selected text. |
| Anchoring.FindTextRangeMisses | extension/anchoring.js:125-159 | Anchoring fails exactly when the selector strategy misses, the selected text does not occur in the body, and its normalisation is empty or does not occur in the normalised body text. |

## Left out

- Controllers, authentication, sessions, admin and profile pages: request plumbing with no scoring logic. `RateNote` models only the ledger effect of the ratings endpoint.
- The ban on rating one's own note and the reputation gate on rating: neither app/models/rating.rb nor app/controllers/api/ratings_controller.rb checks the author or `can_rate?`, so neither is modelled.
- Store.RateNote: follows the request spec rather than app/controllers/api/ratings_controller.rb:9. That line assigns the removed `helpful` column and would raise before saving, so as written the endpoint stores nothing.
- Store.CreateRating and Store.RateNote: a missing or unknown helpfulness cannot be expressed, because `h` is a `Helpfulness`. The source rejects a blank value (app/models/rating.rb:8) and raises on a value outside the enum (app/models/rating.rb:5). Neither error path is modelled.
- Users.CanRate and Users.CanWrite: `reputation` is a plain real. db/schema.rb:65 lets the column be null, with a default of 0.0, and a null score makes `can_rate?` and `can_write?` (app/models/user.rb:27-33) raise on the comparison. That case is not modelled.
- Concurrency: writes and their callbacks are modelled as running one at a time. app/models/rating.rb:15-23 recounts inside each save, so two ratings of one note saved at once could leave a stale count. The model does not represent interleavings.
- The status transition log, the transparency projection, rating impact (spec/models/note_spec.rb:74-100), profile statistics and short ids: their implementations are not part of this model, though tests mention them.
- Reputation recomputation on each rating: the rating callback does not do it (app/models/rating.rb:15-23). It is modelled only as the separate `Store.RecalculateUserReputation`.
- The report counter and the hiding of notes with three or more reports: a framework counter cache and a query filter.
- `Page.normalize_url_string`: a wrapper over Ruby's URI parser, which is not part of this model.
- Note creation and deletion, and the deletion cascades to ratings: ordinary record plumbing.
- Floating point: reputation, karma and `round(2)` are exact reals. `Math.log10` is a parameter, and only its range is used.
- Users.AgeBonus: there is no clamp for a creation date in the future, so the bonus, and with it the reputation, can be negative. The model keeps this as the code has it.
- The DOM: tree walking, `Range` objects, `surroundContents`, highlighting, popovers and messaging. Text nodes are strings, `innerText` is a field of `Anchoring.Page`, and the selector query is reduced to its three outcomes.
- Indexing: strings are sequences of characters, while JavaScript indexes UTF-16 code units. Text outside the Basic Multilingual Plane is counted differently.
- The whitespace-only search in `findTextNormalized` is modelled as null. The script reads an index before the start of the map there, gets no valid end, and `buildRange` returns null.
- extension/content.js carries an older duplicate of the anchoring functions, which is not modelled.
- The AI draft service, seeds, and migrations other than the helpfulness conversion.
