# nilai_raport: a Dafny model of the grade and recommendation layer

nilai_raport is a student report-card portal. It is an Express application over a
SQLite database. A student keeps:

- subjects (`mata_pelajaran`);
- one grade per subject and semester (`nilai`).

From these the portal shows:

- averages and a dashboard;
- a catalog of university majors (`jurusan`, each at a university `ptn`);
- majors recommended from the student's grade average.

Accounts are created with an emailed six-digit code, verified, logged in and reset
through a second emailed code that expires after 15 minutes.

This project models the five route files that hold that logic. The tables are
sequences of row datatypes (`Schema`). The SQL the handlers run is built from a small
library of query functions (`Sql`):

- `WHERE` is `Where`;
- the `JOIN` is `Join`;
- `ORDER BY` is a stable insertion `SortBy` under a total preorder;
- `LIMIT` is `Limit`;
- `COUNT(DISTINCT …)` is `DistinctAsc`;
- `AVG` is `Avg`;
- case-insensitive `LIKE '%q%'` is `LikeContains`.

Scores, averages and passing grades are exact `real`s.

How the handlers are modelled:

- **Read-only handlers** are functions of the tables. These are the recommendation,
  the catalog listing and search, the grade lists and summary, the dashboard, and
  the subject list and lookup.
- **Handlers that write** are methods on the database object `Schema.Db`, with
  field-level `modifies` clauses:
  - saving a grade, saving a batch and deleting a grade;
  - creating, updating and deleting a subject.

  Each method keeps `Db.Valid()`. `Db.Valid()` holds the table constraints:
  - unique ids below the AUTOINCREMENT counters;
  - unique emails;
  - at most one grade per (subject, semester, user);
  - every grade pointing at a subject of the same user;
  - every stored score in [0, 100].
- **Account handlers** are the methods of the router object `AuthRoute.AuthRouter`.
  The router also owns the one-shot `dbInitialized` flag. Each handler is specified
  by a step function on the users table (`RegisterStep`, `VerifyStep`, `ForgotStep`,
  `ResetStep`, `LoginOutcome`). The account lifecycle is proved as lemmas over those
  step functions.

These become parameters:

- bcrypt hashing (`hash`) and its comparison (`matches`);
- the `Math.random()` draw (`random`, in [0, 1));
- the clock (`now`, milliseconds);
- the session user id (`userId`).

Modules, one per file:

- `wrappers.dfy`: `Option`, and `Falsy` for request fields JavaScript treats as false.
- `sql.dfy`: the query library.
- `schema.dfy`: the rows, the table constraints and `Db`.
- `nilai.dfy`: `routes/nilai.js`.
- `rekomendasi.dfy`: `routes/rekomendasi.js`.
- `dashboard.dfy`: `routes/dashboard.js`.
- `mapel.dfy`: `routes/mapel.js`.
- `auth.dfy`: `routes/auth.js`.

## Model

| member | source | states |
|---|---|---|
| Sql.Where | routes/nilai.js:23 | the filtered rows are exactly the rows satisfying the condition, no more than the input |
| Sql.Join | routes/nilai.js:22 | a pair is in the join exactly when both rows are in their tables and the ON condition holds |
| Sql.WhereCount | routes/nilai.js:23 | bag semantics of `WHERE`: a passing row occurs as often as in the table, a failing row never |
| Sql.JoinCount | routes/nilai.js:22 | bag semantics of `JOIN`: a pair occurs (count of its left row) × (count of its right row) times when the ON condition holds, otherwise never |
| Sql.JoinWhereCount | routes/nilai.js:22-23 | a filtered join has, for each pair, the join's count when the filter passes and 0 otherwise |
| Sql.UniqueOnce | config/database.js:32 | a row of a table with a unique key occurs at most once |
| Sql.JoinOnce | routes/nilai.js:22 | a join of two tables with unique keys yields each pair at most once |
| Sql.MapCount | routes/rekomendasi.js:81-88 | mapping rows one-to-one keeps each row's number of occurrences |
| Sql.LimitSubBag | routes/dashboard.js:45 | `LIMIT` keeps a sub-bag of its input |
| Sql.LimitOfSorted | routes/dashboard.js:44-45 | `LIMIT n` over rows in order: at most n rows, in order, a sub-bag of the input; a row left out means n rows kept, each ordered before it |
| Sql.SortBy | routes/rekomendasi.js:50 | `ORDER BY` returns a permutation of its input |
| Sql.SortBySorted | routes/rekomendasi.js:50 | under a total, transitive order the sorted rows are in that order |
| Sql.TopN | routes/rekomendasi.js:100 | `ORDER BY … LIMIT n` gives at most n sorted rows forming a sub-bag of the input (no row more often than in the input); a row left out means n rows were returned, each ordered before it |
| Sql.DistinctAsc | routes/nilai.js:66 | the distinct values, strictly ascending, with the same members as the input |
| Sql.DistinctCount | routes/nilai.js:66 | `COUNT(DISTINCT x)` equals the number of distinct values |
| Sql.Avg | routes/nilai.js:57 | `AVG` is NULL exactly for no rows, otherwise the mean (mean times count equals the sum) |
| Sql.AvgWithin | routes/nilai.js:57 | the mean of values in [lo, hi] is in [lo, hi] |
| Sql.LowerStrOfUpper | routes/rekomendasi.js:137 | upper-casing does not change the case-folded text `LIKE` compares |
| Sql.LikeContainsIgnoresCase | routes/rekomendasi.js:137 | `LikeContains` (`hay LIKE '%q%'`) gives the same answer when either the text or the pattern is upper-cased |
| Sql.LikeContainsInfix | routes/rekomendasi.js:137 | `LikeContains` holds for every text that has the pattern written inside it |
| Schema.ParseKategori | config/database.js:66 | the CHECK on `kategori` accepts a text exactly when it names one of the three categories |
| Schema.Db.constructor | config/database.js:28-111 | a fresh database has only the seeded catalog, empty user/subject/grade tables and counters at 1, and satisfies the constraints |
| NilaiRoute.UserAverageSpec | routes/rekomendasi.js:66 | `UserAverage`, the user's `AVG(nilai)`, is NULL exactly when the user has no grade, is otherwise the mean of the user's scores, and lies in [0, 100] |
| NilaiRoute.SemesterStatOfGraded | routes/nilai.js:56-62 | a semester with a grade has a positive count and the mean of that semester's scores |
| NilaiRoute.PerSemester | routes/nilai.js:56-62 | one entry per semester with a grade, strictly ascending, each with that semester's row count (positive) and mean |
| NilaiRoute.PerSemesterFacts | routes/nilai.js:56-62 | every graded semester has an entry, and each entry's count is positive and its average the mean |
| NilaiRoute.GroupStatSpec | routes/nilai.js:72-79 | a `GROUP BY mapel_id` group yields its subject and the mean of its scores |
| NilaiRoute.PerMapel | routes/nilai.js:72-79 | the per-subject averages come highest first |
| NilaiRoute.PerMapelSpec | routes/nilai.js:72-79 | every entry is a subject's group with the group's mean; every graded subject has an entry; there are as many entries as graded subjects |
| NilaiRoute.PerMapelSound | routes/nilai.js:72-79 | every sorted per-subject entry is a group of the join with its mean |
| NilaiRoute.PerMapelCovers | routes/nilai.js:72-79 | every joined grade's subject has an entry |
| NilaiRoute.GroupCount | routes/nilai.js:77 | the number of groups is the number of distinct graded subjects |
| NilaiRoute.SummarySpec | routes/nilai.js:56-87 | for `GetSummary` (`GET /summary`): the overall mean is 0 with no grades and the mean otherwise; `totalMapel` is the number of distinct subjects graded; per-semester ascending, per-subject descending |
| NilaiRoute.NamaThenSemesterIsPreorder | routes/nilai.js:24 | `ORDER BY nama_mapel, semester` is a total preorder |
| NilaiRoute.List | routes/nilai.js:19-25 | `GET /` returns exactly the user's grades joined to their subjects, each pair as often as the join yields it, ordered by subject name then semester |
| NilaiRoute.ListCount | routes/nilai.js:19-25 | each of the user's joined grade pairs occurs as often as the join yields it, any other pair never |
| NilaiRoute.ListByMapel | routes/nilai.js:37-43 | `GET /mapel/:id` returns exactly the user's grades of that subject, each pair as often as the join yields it, ordered by semester |
| NilaiRoute.ListByMapelCount | routes/nilai.js:37-43 | each of the user's joined grade pairs of that subject occurs as often as the join yields it, any other pair never |
| NilaiRoute.FindTriple | routes/nilai.js:126 | the lookup finds a row with that (subject, semester, user), or reports that none exists |
| NilaiRoute.SetScoreAt | routes/nilai.js:130 | with unique ids, `UPDATE … WHERE id = ?` changes the score of exactly that one row |
| NilaiRoute.UpdateAtSpec | routes/nilai.js:128-131 | updating one row's score keeps the constraints and every row of another triple |
| NilaiRoute.InsertSpec | routes/nilai.js:133-134 | inserting a row with the next id and a new triple keeps the constraints |
| NilaiRoute.UpsertValid | routes/nilai.js:126-140 | `Upsert`, an upsert of an owned subject with a score in range keeps the constraints, so at most one row per triple |
| NilaiRoute.UpsertSpec | routes/nilai.js:126-140 | after `Upsert` the triple holds the new score; all other triples' rows are unchanged; the size stays the same on update and grows by one on insert |
| NilaiRoute.UpsertRow | routes/nilai.js:126-140 | the table becomes the upsert of the old table, the constraints hold, and `updated` tells whether the triple existed |
| NilaiRoute.Save | routes/nilai.js:97-145 | missing field, score out of [0,100] and foreign subject are rejected in that order, changing nothing; otherwise the upsert happens, `Updated` exactly when the triple existed, `Inserted` with the new id |
| NilaiRoute.Accepted | routes/nilai.js:172-174 | a batch item counts exactly when its value is present, numeric and in [0, 100] |
| NilaiRoute.ApplyBatchValid | routes/nilai.js:171-184 | `ApplyBatch`, processing the items in order, keeps the constraints |
| NilaiRoute.BatchIgnoresRejected | routes/nilai.js:171-184 | the batch has the effect of its accepted items alone |
| NilaiRoute.BatchLastWins | routes/nilai.js:171-184 | after the batch, each semester with an accepted item has the score of its last accepted item |
| NilaiRoute.BatchFrame | routes/nilai.js:171-184 | each item writes only its own (subject, semester, user) row: a row of a triple no accepted item names is in the table after the batch exactly when it was before |
| NilaiRoute.BatchKeepsOthers | routes/nilai.js:171-184 | the batch keeps every row of another subject, another user or a semester with no accepted item, and adds no such row |
| NilaiRoute.SaveBatch | routes/nilai.js:148-191 | a missing subject or list is rejected and a foreign subject is not found, changing nothing; otherwise the table is the in-order batch of the items and the constraints hold, and rows of triples no accepted item names are neither added nor removed |
| NilaiRoute.Delete | routes/nilai.js:194-209 | deleted exactly when the user owns that id, and then exactly that row goes; otherwise nothing changes |
| RekomendasiRoute.PassingGradeDescIsPreorder | routes/rekomendasi.js:50 | `ORDER BY passing_grade DESC` is a total preorder |
| RekomendasiRoute.EntryByPassingGradeDescIsPreorder | routes/rekomendasi.js:100 | the recommendation's order is a total preorder |
| RekomendasiRoute.TierBands | routes/rekomendasi.js:82-87 | `TierOf`, the CASE, splits passing grades into four bands with inclusive upper bounds avg, avg+5, avg+10 |
| RekomendasiRoute.TierNameInjective | routes/rekomendasi.js:106-109 | distinct tiers have distinct labels, so each label count counts one tier |
| RekomendasiRoute.TierBoundaryExamples | routes/rekomendasi.js:82-91 | for average 80: 80 Aman, 85 Rekomendasi, 90 Menantang, 95 Sangat Menantang, 95 kept and 96 excluded |
| RekomendasiRoute.CatalogCount | routes/rekomendasi.js:89-91 | a filtered catalog holds each passing listing as often as the join yields it |
| RekomendasiRoute.Candidates | routes/rekomendasi.js:80-98 | a row is a candidate exactly when it is a catalog row within avg + 15 passing the group filter, with its tier and `selisih`; each candidate occurs as often as its catalog row |
| RekomendasiRoute.CandidateCount | routes/rekomendasi.js:80-98 | a candidate occurs among the candidates as often as its pair occurs in the join |
| RekomendasiRoute.Ranking | routes/rekomendasi.js:100 | the first min(50, number of candidates) candidates by passing grade, highest first; a candidate left out means 50 rows at least as high; no row more often than the join yields it |
| RekomendasiRoute.StatsOf | routes/rekomendasi.js:105-110 | the four tier counts sum to the number of rows |
| RekomendasiRoute.TierCountsSum | routes/rekomendasi.js:105-110 | the four tier counts sum to the number of rows |
| RekomendasiRoute.Recommend | routes/rekomendasi.js:61-117 | no grades or an average of 0 gives the empty answer; otherwise the rows are candidates under the user's mean, highest passing grade first, min(50, number of candidates) of them; a candidate left out means 50 rows at least as high; no row more often than the join yields it; the stats are the tier counts |
| RekomendasiRoute.NoGradesNoRecommendation | routes/rekomendasi.js:66-77 | a user without grades gets no recommendation |
| RekomendasiRoute.RecommendComplete | routes/rekomendasi.js:100 | with fewer than 50 candidates every candidate is listed |
| RekomendasiRoute.TierMatchesSelisih | routes/rekomendasi.js:82-91 | a row's tier agrees with its `selisih`: at least 0 is Aman, [−5,0) Rekomendasi, [−10,−5) Menantang, below −10 Sangat Menantang, never below −15 |
| RekomendasiRoute.Search | routes/rekomendasi.js:125-142 | nothing for a missing or one-character query; otherwise matching catalog rows only, highest passing grade first, at most 20, any match left out means 20 rows at least as high; no row more often than the join yields it |
| RekomendasiRoute.SearchIgnoresCase | routes/rekomendasi.js:137-140 | an upper-cased query gives the same result |
| RekomendasiRoute.MatchingIgnoresNameCase | routes/rekomendasi.js:137 | a listing whose major and university names are upper-cased matches the same queries |
| RekomendasiRoute.ListJurusan | routes/rekomendasi.js:28-53 | exactly the catalog rows passing the present, non-empty `kelompok` and `ptn_id` filters, each as often as the join yields it, highest passing grade first |
| RekomendasiRoute.ListAllIsEmpty | routes/rekomendasi.js:40-43 | the listing gives `'all'` no special meaning, so it lists nothing |
| DashboardRoute.Chart | routes/dashboard.js:29-35 | one point per graded semester, strictly ascending, each the mean of that semester |
| DashboardRoute.ChartCovers | routes/dashboard.js:29-35 | every graded semester has a point |
| DashboardRoute.CountReachableSpec | routes/dashboard.js:50 | `CountReachablePtn`, `COUNT(DISTINCT ptn_id) … WHERE passing_grade <= t` is the number of universities with a major at or below t |
| DashboardRoute.ReachableMonotone | routes/dashboard.js:49-50 | a higher threshold never reaches fewer universities and never more than the catalog holds |
| DashboardRoute.AverageOrZero | routes/dashboard.js:49 | `average \|\| 0` is 0 without grades and the mean otherwise |
| DashboardRoute.TopSubjects | routes/dashboard.js:38-46 | at most five per-subject averages, highest first, a sub-bag of the per-subject averages; a subject left out means five shown, each at least as high |
| DashboardRoute.Stats | routes/dashboard.js:17-62 | subject and grade counts of the user, mean or 0, the chart of the user's grades (ascending), the top five of the user's subjects, and `jumlahPTN` counted at threshold average + 5 |
| DashboardRoute.NoGradesThreshold | routes/dashboard.js:49-50 | without grades the average is 0 and the count is of universities with a major at passing grade 5 or less |
| DashboardRoute.StatsReachable | routes/dashboard.js:48-50 | `jumlahPTN` is the number of universities with a major at or below the reported average + 5 |
| DashboardRoute.RecentNilai | routes/dashboard.js:73-80 | the `recentNilai` of `RecentActivity`: at most 10 of the user's joined grades, newest first, none more often than the join yields it; a grade left out means 10 listed, none older |
| DashboardRoute.RecentMapel | routes/dashboard.js:83-88 | the `recentMapel` of `RecentActivity`: at most 5 of the user's subjects, newest first, none more often than in the table; a subject left out means 5 listed, none older |
| DashboardRoute.GradedRows | routes/dashboard.js:73-77 | the joined, filtered rows are exactly the user's grades with their subjects |
| MapelRoute.MapelAverage | routes/mapel.js:21 | the subject's average is NULL exactly when it has no grade, otherwise the mean of its grades |
| MapelRoute.NamaMapelIsPreorder | routes/mapel.js:24 | `ORDER BY nama_mapel` is a total preorder |
| MapelRoute.Views | routes/mapel.js:19-25 | each subject carries its own average |
| MapelRoute.ListMapel | routes/mapel.js:17-32 | exactly the user's subjects, each with its average, ordered by name |
| MapelRoute.FindOwned | routes/mapel.js:37 | found exactly when the user owns a subject with that id |
| MapelRoute.GetMapel | routes/mapel.js:35-53 | not found unless owned; otherwise the subject and exactly its grades, each as often as in the table, ordered by semester |
| MapelRoute.Create | routes/mapel.js:56-76 | a name is required; `kategori` defaults to 'Wajib' and `semester_tersedia` to '1,2,3,4,5'; a category outside the CHECK fails; success appends one row with the next id and returns the stored values; a refusal changes nothing |
| MapelRoute.RewriteAt | routes/mapel.js:91 | with unique ids, `Rewrite` is the table with the one row holding the id given the new name, category and semesters in place |
| MapelRoute.RewriteMissing | routes/mapel.js:91 | `Rewrite` with an id no row holds changes nothing |
| MapelRoute.RewriteValid | routes/mapel.js:91 | an update keeps subject ids and owners, so the constraints hold |
| MapelRoute.Update | routes/mapel.js:79-101 | not found unless owned; a missing name or a bad category fails; otherwise the row is rewritten with the semesters defaulted and the category not defaulted; a refusal changes nothing |
| MapelRoute.RewriteOnlyTarget | routes/mapel.js:90-91 | other subjects are kept; the target gets the new values; an omitted category becomes NULL |
| MapelRoute.CascadeValid | config/database.js:83 | removing a subject and its grades keeps the constraints |
| MapelRoute.Delete | routes/mapel.js:104-123 | deleted exactly when owned; then that one subject row and all of its grades go; otherwise nothing changes |
| MapelRoute.CascadeRemovesExactly | config/database.js:83 | after the cascade, exactly the other subjects' grades remain and the deleted subject has no average |
| AuthRoute.FindByEmail | routes/auth.js:82 | the lookup finds a row with that email, or reports that none exists |
| AuthRoute.FindUnique | config/database.js:32 | with UNIQUE emails the lookup finds the one row with that email |
| AuthRoute.ReplaceUserAt | routes/auth.js:99 | with unique ids, `ReplaceUser` (`UPDATE users … WHERE id = ?`) is the table with the one row holding the id replaced in place |
| AuthRoute.ReplaceUserMissing | routes/auth.js:99 | `ReplaceUser` with an id no row holds changes nothing |
| AuthRoute.ReplaceKeepsKeys | routes/auth.js:99 | an update that touches no id or email leaves every id and email as it was |
| AuthRoute.ReplaceSpec | routes/auth.js:99 | such an update keeps the users constraints and the email then finds the new row |
| AuthRoute.OtpNumber | routes/auth.js:44 | `floor(100000 + random * 900000)` lies in [100000, 999999] |
| AuthRoute.DecimalString | routes/auth.js:44 | `toString()` gives decimal digits without a leading zero |
| AuthRoute.DecimalRoundTrip | routes/auth.js:44 | reading the digits back gives the number |
| AuthRoute.DecimalLength | routes/auth.js:44 | a number in [10^k, 10^(k+1)) has k+1 digits |
| AuthRoute.OtpOf | routes/auth.js:44 | the code has six digits, no leading zero, and its value is the drawn number in [100000, 999999] |
| AuthRoute.RegisterSpec | routes/auth.js:19-67 | for `RegisterStep`: a missing field or a taken email is refused with no change; otherwise the result is `Registered` and exactly one row is appended (next id, role 'user', unverified, hashed password, six-digit code, no reset data), constraints kept |
| AuthRoute.RegisterThenVerify | routes/auth.js:44-99 | the code a registration issues verifies the new account |
| AuthRoute.VerifySpec | routes/auth.js:70-113 | for `VerifyStep`: unknown email is 404; success exactly when that user holds that code, and then it is verified with the code cleared; any refusal changes nothing |
| AuthRoute.VerifyOnce | routes/auth.js:91-99 | a second verify with the same code gets 'Kode OTP salah' |
| AuthRoute.ForgotStep | routes/auth.js:116-145 | the answer is the same whether or not the email exists; an unknown email changes nothing |
| AuthRoute.ForgotSpec | routes/auth.js:131-135 | a known user gets a six-digit reset code expiring 15 minutes after `now`, constraints kept |
| AuthRoute.ResetSpec | routes/auth.js:148-174 | for `ResetStep`: success exactly when that user holds that code and the code is not `Expired` (expiry not before `now`); the new hash is stored and code and expiry are cleared; a refusal changes nothing |
| AuthRoute.ResetSingleUse | routes/auth.js:163-166 | a used reset code is refused afterwards |
| AuthRoute.ForgotThenReset | routes/auth.js:131-161 | an issued reset code works exactly up to and including 15 minutes after issue |
| AuthRoute.LoginSpec | routes/auth.js:177-239 | for `LoginOutcome`: unknown email and wrong password give the same refusal; `NotVerified` exactly for a matching unverified user; success only for a matching verified user, with its id, name and email |
| AuthRoute.RegisterThenLogin | routes/auth.js:207-216 | a newly registered account gets 403 until it is verified |
| AuthRoute.ResetThenLogin | routes/auth.js:163-221 | after a reset, the new password logs in (403 while still unverified) |
| AuthRoute.Session.constructor | server.js:17 | a new session has no user |
| AuthRoute.AuthRouter.constructor | routes/auth.js:8 | the router starts with the flag false and no initialisation run |
| AuthRoute.AuthRouter.EnsureDbInit | routes/auth.js:10-16 | the first call runs initialisation and sets the flag; later calls run nothing, so it runs exactly once |
| AuthRoute.AuthRouter.Register | routes/auth.js:19-67 | initialises, then the users table and response are those of `RegisterStep` |
| AuthRoute.AuthRouter.Verify | routes/auth.js:70-113 | initialises, then the users table and response are those of `VerifyStep` |
| AuthRoute.AuthRouter.ForgotPassword | routes/auth.js:116-145 | initialises, then the users table and response are those of `ForgotStep` |
| AuthRoute.AuthRouter.ResetPassword | routes/auth.js:148-174 | initialises, then the users table and response are those of `ResetStep` |
| AuthRoute.AuthRouter.Login | routes/auth.js:177-239 | initialises and answers `LoginOutcome`; only a success writes the session's user id, name and email |

## Left out

- Email sending is not modelled (`sendVerificationEmail`, `sendResetPasswordEmail` in utils/email.js).
  - Both catch every sending error and return false (utils/email.js:38-40, 70-72), and the handlers ignore the result (routes/auth.js:51, 137). A failed send therefore has no effect on the tables or the answer, which is what the model does.
  - The verification mail tells the user the code is valid for 10 minutes (utils/email.js:29), but `POST /verify` (routes/auth.js:91-99) never checks an expiry. `VerifyStep` follows the code: a verification code does not expire.
- Express and session wiring are not modelled (server.js). `requireAuth` becomes the `userId` parameter of each handler.
  - The session is modelled only for the fields `POST /login` writes.
- `POST /logout`, `GET /status` and `GET /me` (routes/auth.js:242-307) only read or destroy the session, and are not modelled.
- `GET /ptn` (routes/rekomendasi.js:17-25), a plain ordered listing of one table, is not modelled.
- Not modelled from config/database.js: the DDL, the `ALTER TABLE` migrations, and the seed rows of `initDatabase` and `seedPTNData`.
  - `Db`'s constructor takes the seeded catalog as parameters.
  - `AuthRouter.EnsureDbInit` counts runs of initialisation instead of performing it.
- bcrypt, `Math.random` and `Date.now` are parameters.
  - The draw is required to lie in [0, 1), as `Math.random` promises.
  - `RegisterThenLogin` and `ResetThenLogin` assume that a password matches its own hash.
- Request fields are typed. Each text field is `Option<string>`, where None is absent and `""` is falsy.
  - Consequence 1: an OTP sent as a JSON number, which never equals the stored text, is not modelled.
  - Consequence 2: a numeric `nilai` sent as a string, and JavaScript's comparison of it with 0 and 100, are not modelled.
  - In `POST /batch`, `parseFloat` is abstracted to "a number or NaN" (`RawScore`).
  - A `null` `nilai` in `POST /` passes the `=== undefined` check but breaks `NOT NULL`. That path is not modelled.
  - An item without a semester is not modelled either.
- IEEE floating point, `parseFloat(...).toFixed(2)` display formatting and rounding at tier boundaries are not modelled; reals are exact.
- SQL `LIKE` wildcards (`%`, `_`) inside the query and Unicode case folding are not modelled. The search folds ASCII letters only.
- RekomendasiRoute.Search: the minimum query length of 2 counts characters, while JavaScript's `q.length` counts UTF-16 code units. A query of one character outside the Basic Multilingual Plane (two code units) is searched by the source and refused by the model.
- Tie order among equal sort keys is left to the store, so the contracts state only non-increasing (or non-decreasing) order.
  - The model's own order is a stable insertion sort.
- `POST /batch` is not atomic in the source: each item is its own statement, so an error midway leaves the earlier items saved and answers 500. The model has no such error.
- `DATETIME` columns (`created_at`, `reset_expires`) are integers.
  - `reset_expires` holds `Date.now() + 15 min` in milliseconds, as the source writes it.
  - `created_at` is supplied as `now`.
- At most one grade per (subject, semester, user) is a property the handlers maintain, not a schema constraint. The model proves the handlers maintain it (`Db.Valid`).
- DashboardRoute.Stats: `rataRata` is the average as a number, not the two-decimal string the response carries. `jumlahPTN` is counted from that number plus 5, i.e. `Threshold`.
