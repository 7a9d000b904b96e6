# Photo contest: upload check, status sweep, vote admission and leaderboard

This project models, in Dafny, the logic of the photo-contest web application
that lives in its request handlers rather than in its stored procedures:

- **Upload check** (`Upload`): `allowed_file`, which accepts a file name when
  the text after its last dot, lower-cased, is one of `png`, `jpg`, `jpeg`,
  `gif`.
- **Status sweep** (`StatusSweep`): the `UPDATE Contest SET Status = CASE …`
  statement run by the home page and by the status-refresh endpoint. It moves
  every contest that is not Cancelled to Upcoming, Active or Completed from the
  current time and the contest's start and end. The comparisons follow SQL's
  three-valued logic: a NULL date makes only the arms that compare with it
  UNKNOWN, and the remaining arms still decide. With both dates NULL the
  status is kept.
- **Vote admission** (`Voting`): the vote route. It checks, in order, that the
  contest exists, that it is Active, that the photo has a submission to it,
  that the submission is Approved, and that the voter does not own the photo.
  Then it inserts the vote through the query helper, which turns any database
  error into "no result".
- **Leaderboard** (`Leaderboard`): the contest-page query. Each submission gets
  its vote count and a `RANK()` by descending count. Rows are listed Approved
  first, then by rank.

The database is an immutable value (`Domain.Db`). It holds contests by id,
photo owners, user ids, the submission table in storage order, and the vote
table as a set of (user, photo, contest) triples. The current time is a
parameter. Timestamps are integers.

Some consequences of the code that the model makes explicit:

- Completed is not terminal. The sweep rewrites every contest that is not
  Cancelled (app.py:134), so a Completed contest whose window still covers the
  current time goes back to Active (`StatusSweep.CompletedIsNotTerminal`).
- A repeated vote gets the generic error message (see Findings).
- Ranks include Pending and Rejected submissions, because the leaderboard
  query does not filter on status (app.py:309). An Approved photo can
  therefore be ranked 2 with no Approved photo ranked 1
  (`Leaderboard.PendingRowsTakeRanks`).
- Voting requires an Active contest and an Approved submission (app.py:424,
  app.py:440).

## Model

| member | source | states |
|---|---|---|
| `Upload.SplitAtLastDot` | app.py:114 | `rsplit('.', 1)`: no result exactly when the name has no dot; otherwise head + "." + tail is the name and the tail has no dot |
| `Upload.AllowedFile` | app.py:112-114 | accepted exactly when some position is the last dot of the name and the text after it, lower-cased, is one of the configured extensions |
| `Upload.NoDotRejected` | app.py:114 | a name without a dot is always rejected |
| `Upload.UpperCaseExtensionAccepted` | config.py:14 | `a.PNG` is accepted: the extension is compared after lower-casing |
| `Upload.DoubleExtensionRejected` | app.py:114 | `a.png.exe` is rejected: only the text after the last dot counts |
| `Upload.BareExtensionRejected` | app.py:114 | `noext` and `png` are rejected: a dot is required |
| `Upload.AllowedFileIgnoresPrefix` | app.py:114 | for a name that has a dot, putting any text in front of it never changes the verdict |
| `Upload.AllowedFileCaseInsensitive` | app.py:114 | lower-casing the whole name never changes the verdict |
| `StatusSweep.NewStatus` | app.py:128-133 | with both dates: Upcoming before the start, Active inside the window with both ends included, Completed after the end; a NULL start leaves only the Completed arm, a NULL end leaves only the Upcoming arm, both NULL keep the status |
| `StatusSweep.SweepContest` | app.py:126-135 | dates unchanged; a Cancelled contest is untouched; otherwise, with both dates the new status is the window status of the current time (Upcoming before, Active inside with both ends included, Completed after); a NULL start gives Completed exactly when the end has passed and keeps the status otherwise; a NULL end gives Upcoming exactly when the start is ahead and keeps the status otherwise; both NULL keep the contest as it is |
| `StatusSweep.Sweep` | app.py:730-739 | same contest ids; dates unchanged; Cancelled rows untouched and no other row becomes Cancelled; every other row gets the window status when both dates are present, and the NULL-date outcomes of the single-row sweep otherwise |
| `StatusSweep.ElseArmUnreachable` | app.py:128-133 | with both dates present the result is always Upcoming, Active or Completed, whatever the old status |
| `StatusSweep.InvertedWindowNeverActive` | app.py:129-131 | if the end is before the start, the contest is Upcoming before the start and Completed from then on; it is never Active |
| `StatusSweep.SweepForgetsOldStatus` | app.py:128-134 | two non-Cancelled contests with the same non-NULL dates get the same new status, whatever their old ones |
| `StatusSweep.SweepIdempotent` | app.py:126-135 | sweeping twice at the same time gives the same table as sweeping once |
| `StatusSweep.SweepMonotoneInTime` | app.py:129-131 | with fixed dates, present or NULL, a later sweep never moves a non-Cancelled contest back along Upcoming, Active, Completed |
| `StatusSweep.CompletedIsNotTerminal` | app.py:134 | a Completed contest inside its window is swept back to Active |
| `StatusSweep.CancelledOnlyFromCancelled` | app.py:134 | after the sweep a contest is Cancelled exactly when it was Cancelled before |
| `Voting.FirstSubmission` | app.py:429-434 | the index of the first submission of the photo to the contest, or none exactly when there is none |
| `Voting.FindSubmission` | app.py:429-438 | the fetched row exists exactly when the photo row exists and the photo has a submission to the contest; it carries that submission's status and the photo's owner |
| `Voting.Guard` | app.py:420-447 | the checks run in order and the first failure decides: contest missing, not Active, no submission, not Approved, own photo; none fails exactly when the vote is admissible |
| `Voting.InsertVote` | app.py:34-56 | the insert fails exactly when the triple is already in the table; on success it adds exactly that triple, one more row |
| `Voting.CastVote` | app.py:409-469 | the vote is cast exactly when it is admissible and new; an admissible repeat gives the generic error; the duplicate-vote message never occurs; a failing guard gives its own message; success adds exactly the triple; every other outcome leaves the database unchanged |
| `Voting.CastVoteReportingDuplicates` | app.py:462-466 | the intended route: an admissible repeated vote is reported as a duplicate, never as the generic error, with the same effect on the database |
| `Voting.CastVotePreservesIntegrity` | app.py:436-455 | if no vote is by its photo's owner and every vote is for an Approved submission, both still hold after the route |
| `Voting.SelfVoteNeverRecorded` | app.py:444-447 | a vote by the photo's owner is never cast and leaves the database unchanged |
| `Voting.RevoteReportsGenericError` | app.py:451-460 | repeating a vote that was just cast reports the generic error and changes nothing |
| `Voting.CastVoteIdempotent` | app.py:451-456 | casting the same vote twice leaves the same vote table as casting it once |
| `Voting.ReportingDuplicatesAgrees` | app.py:457-466 | the intended route changes the database as the written one does; the two differ only where the written one reports the generic error and the intended one the duplicate |
| `Leaderboard.VoteCount` | app.py:300-308 | the count of votes for a photo in a contest is 0 exactly when no vote names that photo and contest, as the LEFT JOIN gives, and at least 1 when some user's vote does |
| `Leaderboard.Collect` | app.py:304-311 | every row comes from a submission to the contest that joins its contest, photo and owner; each row appears exactly as many times as there are such submissions yielding it, so every joining submission yields exactly one row |
| `Leaderboard.Ranked` | app.py:303 | each row keeps its entry's photo, owner, status and count; its rank is one plus the number of entries with more votes, lies in 1..n, is strictly smaller for more votes, and is shared by equal counts |
| `Leaderboard.CountAboveStrict` | app.py:303 | a row whose count lies above one threshold and at most another makes the number of rows above the lower threshold strictly larger |
| `Leaderboard.Insert` | app.py:312 | inserting into rows in listing order keeps them in listing order and adds exactly that row |
| `Leaderboard.Sort` | app.py:312 | the result is in listing order (Approved first, then ascending rank) and is a permutation of the input |
| `Leaderboard.ContestLeaderboard` | app.py:290-313 | a permutation of the ranked rows, in listing order with all Approved rows first; each rank is one plus the number of the contest's rows with more votes, lies in 1..n, and is strictly smaller for more votes |
| `Leaderboard.VoteCastAddsOne` | app.py:300-308 | a cast vote raises the count of the photo voted for, in that contest, by exactly one and leaves every other count unchanged |
| `Leaderboard.TieExample` | app.py:303 | counts 5, 5, 2 rank 1, 1, 3 |
| `Leaderboard.DistinctCountsExample` | app.py:303 | counts 3, 5, 0 rank 2, 1, 3 |
| `Leaderboard.PendingRowsTakeRanks` | app.py:303-309 | a Pending row with more votes pushes the best Approved row to rank 2 |
| `Leaderboard.ApprovedListedFirstExample` | app.py:312 | an Approved row ranked 2 is listed before a Pending row ranked 1 |
| `Leaderboard.DescendingListingExample` | app.py:312 | counts 3, 5, 0 are listed as 5, 3, 0 with ranks 1, 2, 3 |

## Left out

- Submission with its entry-fee debit, prize payout and finalization, and the registration coin grant: they happen in stored procedures whose bodies are not part of this model.
- Routing, templates, flash messages and redirects, sessions, and the login and admin decorators: presentation and plumbing. Each message of the vote route becomes one `VoteOutcome` constructor, except the `Vote failed: …` message listed below.
- Password hashing, the admin secret, file saving and removal, `secure_filename` and timestamped file names: foreign library calls and file-system I/O.
- Connection failures: when the database cannot be reached the query helper returns no result, and the route then reports "contest not found". The model assumes a reachable database.
- The `Vote failed: …` message of the route's exception handler (app.py:467): the query helper catches every database error first (app.py:52-56), so that branch is never reached, like the duplicate-entry message beside it. Its message has no `VoteOutcome` constructor.
- Vote insert errors other than the unique key on (user, photo, contest), such as foreign-key failures or schema triggers: the schema is not part of this model.
- The number of rows the status-refresh endpoint reports: it comes from the driver's row count, which counts matched or changed rows depending on a connection flag.
- The other leaderboard columns (titles, file path, names, e-mail, submission time): they do not affect ranking or order. An owner is kept by user id.
- Dashboard, statistics and listing queries, and photo edit and delete: plain reads and writes over views this model does not include.
- Concurrency and row locking: the handlers hold no locks. Each operation is modelled as one sequential step.
- Upload.AllowedFile: lower-cases ASCII letters only, where Python's `str.lower` is Unicode-wide. No non-ASCII character lower-cases to a string in the extension set, so the verdict is the same.
- Leaderboard.ContestLeaderboard: SQL leaves the order of rows with the same key (status group and rank) unspecified. The model fixes one order and proves only the key order and the permutation.
- Leaderboard.Collect: yields one row per submission in the table. That is one row per (photo, contest) group because the table is unique on that pair; the model does not require the uniqueness.
- The sweep models dates as comparable integers. The column types are not part of this model, so MySQL's date-to-datetime conversion is not modelled.

## Findings

| source | as written | input that shows it | evidently intended | confidence | as-written member | corrected member |
|---|---|---|---|---|---|---|
| app.py:449-466 | The query helper catches the unique-key error of a repeated vote and returns no result. The route then reports "An error occurred while casting your vote." Its `except` branch with the "already voted" message is never reached. | Any admissible vote whose (user, photo, contest) row already exists, e.g. the same vote cast twice. | Report "You have already voted for this photo!" | high; not executed | `Voting.CastVote` (exhibited by `Voting.RevoteReportsGenericError`) | `Voting.CastVoteReportingDuplicates` |
