/**
 The vote route: the guard sequence a vote passes before its row is inserted,
 and the insert itself through the query helper that turns every database
 error into "no result".
 */
module Voting {
  import opened Domain

  /** The message the route flashes, one constructor per branch. */
  datatype VoteOutcome =
    | ContestNotFound    // no such contest
    | ContestNotActive   // the contest's status is not Active
    | PhotoNotInContest  // no submission of the photo to the contest
    | PhotoNotApproved   // the submission is not Approved
    | OwnPhoto           // the voter owns the photo
    | VoteCast           // the row was inserted
    | VoteError          // the insert returned no result: the generic error message
    | AlreadyVoted       // the duplicate-entry message

  /** What the route reports, and the database after it. */
  datatype VoteResult = VoteResult(outcome: VoteOutcome, db: Db)

  /** True when the submission row matches the photo and the contest. */
  predicate IsSubmissionOf(s: Submission, photo: int, contest: int) {
    s.photo == photo && s.contest == contest
  }

  /** The index of the first submission of `photo` to `contest` in storage order. */
  function FirstSubmission(subs: seq<Submission>, photo: int, contest: int): (k: Option<nat>)
    ensures k.None? <==> forall j :: 0 <= j < |subs| ==> !IsSubmissionOf(subs[j], photo, contest)
    ensures k.Some? ==> k.value < |subs| && IsSubmissionOf(subs[k.value], photo, contest)
    ensures k.Some? ==> forall j :: 0 <= j < k.value ==> !IsSubmissionOf(subs[j], photo, contest)
  {
    if |subs| == 0 then None
    else if IsSubmissionOf(subs[0], photo, contest) then Some(0)
    else match FirstSubmission(subs[1..], photo, contest)
      case None => None
      case Some(j) => Some(j + 1)
  }

  /**
   The row the submission query fetches first: the status of the photo's first
   submission to the contest and the photo's owner. The query joins the photo
   table, so a submission whose photo row is missing yields no row.
   */
  function FindSubmission(db: Db, photo: int, contest: int): (r: Option<(SubmissionStatus, int)>)
    ensures r.None? <==> photo !in db.photos || FirstSubmission(db.submissions, photo, contest).None?
    ensures r.Some? ==> r.value.1 == db.photos[photo]
    ensures r.Some? ==> exists k :: 0 <= k < |db.submissions| && db.submissions[k] == Submission(photo, contest, r.value.0)
  {
    match FirstSubmission(db.submissions, photo, contest)
    case None => None
    case Some(k) =>
      if photo in db.photos then
        assert db.submissions[k] == Submission(photo, contest, db.submissions[k].status);
        Some((db.submissions[k].status, db.photos[photo]))
      else None
  }

  /** The contest exists and its status is Active. */
  predicate ContestActive(db: Db, contest: int) {
    contest in db.contests && db.contests[contest].status == Active
  }

  /** Every guard of the route passes: the vote is one the route tries to insert. */
  predicate Admissible(db: Db, user: int, photo: int, contest: int) {
    && ContestActive(db, contest)
    && FindSubmission(db, photo, contest).Some?
    && FindSubmission(db, photo, contest).value.0 == Approved
    && FindSubmission(db, photo, contest).value.1 != user
  }

  /**
   The guard sequence of the route: the first check that fails decides the
   outcome; `None` when all pass.
   */
  function Guard(db: Db, user: int, photo: int, contest: int): (g: Option<VoteOutcome>)
    ensures g.None? <==> Admissible(db, user, photo, contest)
    ensures g == Some(ContestNotFound) <==> contest !in db.contests
    ensures g == Some(ContestNotActive) <==> contest in db.contests && !ContestActive(db, contest)
    ensures g == Some(PhotoNotInContest) <==>
      ContestActive(db, contest) && FindSubmission(db, photo, contest).None?
    ensures g == Some(PhotoNotApproved) <==>
      ContestActive(db, contest) && FindSubmission(db, photo, contest).Some? &&
      FindSubmission(db, photo, contest).value.0 != Approved
    ensures g == Some(OwnPhoto) <==>
      ContestActive(db, contest) && FindSubmission(db, photo, contest).Some? &&
      FindSubmission(db, photo, contest).value.0 == Approved && FindSubmission(db, photo, contest).value.1 == user
    ensures g.Some? ==> g.value !in {VoteCast, VoteError, AlreadyVoted}
  {
    if contest !in db.contests then Some(ContestNotFound)
    else if db.contests[contest].status != Active then Some(ContestNotActive)
    else match FindSubmission(db, photo, contest)
      case None => Some(PhotoNotInContest)
      case Some((status, owner)) =>
        if status != Approved then Some(PhotoNotApproved)
        else if owner == user then Some(OwnPhoto)
        else None
  }

  /**
   The INSERT through the query helper: the new vote table, or `None` when the
   database raises. The one error this model knows is the unique key on the
   triple; the helper catches it, rolls back and returns no result.
   */
  function InsertVote(votes: set<Vote>, v: Vote): (r: Option<set<Vote>>)
    ensures r.None? <==> v in votes
    ensures r.Some? ==> v !in votes && r.value == votes + {v} && |r.value| == |votes| + 1
  {
    if v in votes then None else Some(votes + {v})
  }

  /**
   The vote route as written. The insert's failure comes back as "no result",
   so a repeated vote is reported with the generic error message and the
   duplicate-entry handler is never reached.
   */
  function CastVote(db: Db, user: int, photo: int, contest: int): (r: VoteResult)
    ensures r.outcome == VoteCast <==> Admissible(db, user, photo, contest) && Vote(user, photo, contest) !in db.votes
    ensures r.outcome == VoteError <==> Admissible(db, user, photo, contest) && Vote(user, photo, contest) in db.votes
    ensures r.outcome != AlreadyVoted
    ensures !Admissible(db, user, photo, contest) ==> Some(r.outcome) == Guard(db, user, photo, contest)
    ensures r.outcome == VoteCast ==> r.db == db.(votes := db.votes + {Vote(user, photo, contest)})
    ensures r.outcome != VoteCast ==> r.db == db
  {
    match Guard(db, user, photo, contest)
    case Some(failure) => VoteResult(failure, db)
    case None =>
      match InsertVote(db.votes, Vote(user, photo, contest))
      case Some(votes) => VoteResult(VoteCast, db.(votes := votes))
      case None => VoteResult(VoteError, db)
  }

  /**
   The vote route as its exception handler intends it: a rejected insert of an
   existing triple is reported as a duplicate vote.
   */
  function CastVoteReportingDuplicates(db: Db, user: int, photo: int, contest: int): (r: VoteResult)
    ensures r.outcome == AlreadyVoted <==> Admissible(db, user, photo, contest) && Vote(user, photo, contest) in db.votes
    ensures r.outcome == VoteCast <==> Admissible(db, user, photo, contest) && Vote(user, photo, contest) !in db.votes
    ensures r.outcome != VoteError
    ensures !Admissible(db, user, photo, contest) ==> Some(r.outcome) == Guard(db, user, photo, contest)
    ensures r.outcome == VoteCast ==> r.db == db.(votes := db.votes + {Vote(user, photo, contest)})
    ensures r.outcome != VoteCast ==> r.db == db
  {
    match Guard(db, user, photo, contest)
    case Some(failure) => VoteResult(failure, db)
    case None =>
      match InsertVote(db.votes, Vote(user, photo, contest))
      case Some(votes) => VoteResult(VoteCast, db.(votes := votes))
      case None => VoteResult(AlreadyVoted, db)
  }

  /** No vote is cast by the owner of the photo it is for. */
  ghost predicate NoSelfVotes(db: Db) {
    forall v :: v in db.votes && v.photo in db.photos ==> db.photos[v.photo] != v.user
  }

  /** Every vote is for a photo with an Approved submission to that contest. */
  ghost predicate VotesOnApproved(db: Db) {
    forall v :: v in db.votes ==>
      exists k :: 0 <= k < |db.submissions| && db.submissions[k] == Submission(v.photo, v.contest, Approved)
  }

  /** The route keeps both vote invariants. */
  lemma CastVotePreservesIntegrity(db: Db, user: int, photo: int, contest: int)
    requires NoSelfVotes(db) && VotesOnApproved(db)
    ensures NoSelfVotes(CastVote(db, user, photo, contest).db)
    ensures VotesOnApproved(CastVote(db, user, photo, contest).db)
  {
  }

  /** A vote by the photo's owner never reaches the vote table. */
  lemma SelfVoteNeverRecorded(db: Db, user: int, photo: int, contest: int)
    requires photo in db.photos && db.photos[photo] == user
    ensures CastVote(db, user, photo, contest).db == db
    ensures CastVote(db, user, photo, contest).outcome != VoteCast
  {
  }

  /** Voting a second time leaves the table as it is and reports the generic error. */
  lemma RevoteReportsGenericError(db: Db, user: int, photo: int, contest: int)
    requires CastVote(db, user, photo, contest).outcome == VoteCast
    ensures CastVote(CastVote(db, user, photo, contest).db, user, photo, contest) ==
      VoteResult(VoteError, CastVote(db, user, photo, contest).db)
  {
  }

  /** Casting the same vote twice leaves the same vote table as casting it once. */
  lemma CastVoteIdempotent(db: Db, user: int, photo: int, contest: int)
    ensures CastVote(CastVote(db, user, photo, contest).db, user, photo, contest).db ==
      CastVote(db, user, photo, contest).db
  {
  }

  /** The intended route changes the database exactly as the written one and differs only in the message for a repeated vote. */
  lemma ReportingDuplicatesAgrees(db: Db, user: int, photo: int, contest: int)
    ensures CastVoteReportingDuplicates(db, user, photo, contest).db == CastVote(db, user, photo, contest).db
    ensures CastVote(db, user, photo, contest).outcome != VoteError ==>
      CastVoteReportingDuplicates(db, user, photo, contest).outcome == CastVote(db, user, photo, contest).outcome
    ensures CastVote(db, user, photo, contest).outcome == VoteError <==>
      CastVoteReportingDuplicates(db, user, photo, contest).outcome == AlreadyVoted
  {
  }
}
