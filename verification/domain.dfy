/**
 The rows of the photo-contest database that the request handlers read and
 write, as immutable values. Only the columns the modelled handlers look at
 are kept.
 */
module Domain {

  /** A nullable column or an optional query row: `None` is SQL NULL / no row. */
  datatype Option<+T> = None | Some(value: T)

  /** `Contest.Status`. */
  datatype ContestStatus = Upcoming | Active | Completed | Cancelled

  /** `PhotoContestSubmission.SubmissionStatus`, set by moderation. */
  datatype SubmissionStatus = Pending | Approved | Rejected

  /** A `Contest` row: its nullable start and end timestamps and its status. */
  datatype Contest = Contest(startDate: Option<int>, endDate: Option<int>, status: ContestStatus)

  /** A `PhotoContestSubmission` row binding a photo to a contest. */
  datatype Submission = Submission(photo: int, contest: int, status: SubmissionStatus)

  /** A `Votes` row; the table is unique on the whole triple. */
  datatype Vote = Vote(user: int, photo: int, contest: int)

  /**
   The database: contests by id, the owner of each photo by photo id, the
   user ids, the submission table in storage order, and the vote table.
   */
  datatype Db = Db(
    contests: map<int, Contest>,
    photos: map<int, int>,
    users: set<int>,
    submissions: seq<Submission>,
    votes: set<Vote>)
}
