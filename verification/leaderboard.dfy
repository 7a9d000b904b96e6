/**
 The leaderboard query of the contest page: one row per submission to the
 contest, its vote count, its `RANK() OVER (ORDER BY count DESC)` and the
 output order "Approved rows first, then by rank". The query has no filter on
 the submission status, so Pending and Rejected submissions are ranked
 together with Approved ones.
 */
module Leaderboard {
  import opened Domain
  import Voting

  /** One group of the query before ranking. */
  datatype Entry = Entry(photo: int, owner: int, status: SubmissionStatus, votes: nat)

  /** One output row. */
  datatype Row = Row(photo: int, owner: int, status: SubmissionStatus, votes: nat, rank: nat)

  /**
   `COUNT(DISTINCT v.VoteID)` under the LEFT JOIN on photo and contest: the
   number of votes for the photo in this contest, 0 when it has none.
   */
  function VoteCount(votes: set<Vote>, photo: int, contest: int): (n: nat)
    ensures n == 0 <==> forall v :: v in votes ==> !(v.photo == photo && v.contest == contest)
    ensures forall user :: Vote(user, photo, contest) in votes ==> n >= 1
  {
    var matching := set v | v in votes && v.photo == photo && v.contest == contest;
    assert forall v :: v in votes && v.photo == photo && v.contest == contest ==> v in matching;
    |matching|
  }

  /** The submission belongs to the contest and survives the inner joins with Contest, Photo and User. */
  predicate Joins(db: Db, s: Submission, contest: int) {
    s.contest == contest && contest in db.contests && s.photo in db.photos && db.photos[s.photo] in db.users
  }

  /** The group of the query for a submission that joins. */
  function EntryOf(db: Db, s: Submission): Entry
    requires s.photo in db.photos
  {
    Entry(s.photo, db.photos[s.photo], s.status, VoteCount(db.votes, s.photo, s.contest))
  }

  /** `e` is the group of some submission at position `from` or later that joins. */
  ghost predicate FromJoined(db: Db, subs: seq<Submission>, contest: int, from: nat, e: Entry) {
    exists k :: from <= k < |subs| && Joins(db, subs[k], contest) && e == EntryOf(db, subs[k])
  }

  /** The positions, from `from` on, of the submissions that join and whose group is `e`. */
  ghost function Positions(db: Db, subs: seq<Submission>, contest: int, from: nat, e: Entry): set<int> {
    set k | from <= k < |subs| && Joins(db, subs[k], contest) && EntryOf(db, subs[k]) == e
  }

  /** The positions of `e` from `from` on are those from `from + 1` on, plus `from` itself when that submission yields `e`. */
  lemma PositionsStep(db: Db, subs: seq<Submission>, contest: int, from: nat, e: Entry)
    requires from < |subs|
    ensures |Positions(db, subs, contest, from, e)| ==
      |Positions(db, subs, contest, from + 1, e)| +
      (if Joins(db, subs[from], contest) && EntryOf(db, subs[from]) == e then 1 else 0)
  {
    var later := Positions(db, subs, contest, from + 1, e);
    assert from !in later;
    if Joins(db, subs[from], contest) && EntryOf(db, subs[from]) == e {
      assert Positions(db, subs, contest, from, e) == later + {from};
    } else {
      assert Positions(db, subs, contest, from, e) == later;
    }
  }

  /**
   The groups for the submissions at position `from` and later that join, in
   table order: one group per such submission.
   */
  function Collect(db: Db, subs: seq<Submission>, contest: int, from: nat): (es: seq<Entry>)
    requires from <= |subs|
    ensures |es| <= |subs| - from
    ensures forall i :: 0 <= i < |es| ==> FromJoined(db, subs, contest, from, es[i])
    ensures forall k :: from <= k < |subs| && Joins(db, subs[k], contest) ==> EntryOf(db, subs[k]) in es
    ensures forall e :: multiset(es)[e] == |Positions(db, subs, contest, from, e)|
    decreases |subs| - from
  {
    if from == |subs| then
      assert forall e :: Positions(db, subs, contest, from, e) == {};
      []
    else
      var rest := Collect(db, subs, contest, from + 1);
      var es := if Joins(db, subs[from], contest) then [EntryOf(db, subs[from])] + rest else rest;
      assert forall i :: 0 <= i < |es| ==> FromJoined(db, subs, contest, from, es[i]) by {
        forall i | 0 <= i < |es| ensures FromJoined(db, subs, contest, from, es[i]) {
          if Joins(db, subs[from], contest) && i == 0 {
            assert Joins(db, subs[from], contest) && es[i] == EntryOf(db, subs[from]);
          } else {
            var j := if Joins(db, subs[from], contest) then i - 1 else i;
            assert es[i] == rest[j];
            assert FromJoined(db, subs, contest, from + 1, rest[j]);
          }
        }
      }
      assert forall e :: multiset(es)[e] == |Positions(db, subs, contest, from, e)| by {
        forall e ensures multiset(es)[e] == |Positions(db, subs, contest, from, e)| {
          PositionsStep(db, subs, contest, from, e);
          if Joins(db, subs[from], contest) {
            assert multiset(es) == multiset{EntryOf(db, subs[from])} + multiset(rest);
          }
        }
      }
      es
  }

  /** The groups of the leaderboard query for one contest. */
  function Entries(db: Db, contest: int): seq<Entry> {
    Collect(db, db.submissions, contest, 0)
  }

  /** The number of entries with strictly more than `n` votes. */
  function CountAbove(es: seq<Entry>, n: int): (c: nat)
    ensures c <= |es|
  {
    if |es| == 0 then 0
    else (if es[0].votes > n then 1 else 0) + CountAbove(es[1..], n)
  }

  /** An entry with at most `n` votes is not counted, so fewer than all entries are above `n`. */
  lemma {:induction false} CountAboveBelowLength(es: seq<Entry>, n: int, i: int)
    requires 0 <= i < |es| && es[i].votes <= n
    ensures CountAbove(es, n) < |es|
  {
    if i > 0 {
      CountAboveBelowLength(es[1..], n, i - 1);
    }
  }

  /** Raising the threshold never counts more entries. */
  lemma {:induction false} CountAboveAntitone(es: seq<Entry>, lo: int, hi: int)
    requires lo <= hi
    ensures CountAbove(es, hi) <= CountAbove(es, lo)
  {
    if |es| > 0 {
      CountAboveAntitone(es[1..], lo, hi);
    }
  }

  /** An entry with more than `lo` and at most `hi` votes makes the count above `lo` strictly larger. */
  lemma {:induction false} CountAboveStrict(es: seq<Entry>, lo: int, hi: int, i: int)
    requires 0 <= i < |es| && lo < es[i].votes <= hi
    ensures CountAbove(es, hi) < CountAbove(es, lo)
  {
    if i == 0 {
      CountAboveAntitone(es[1..], lo, hi);
    } else {
      CountAboveStrict(es[1..], lo, hi, i - 1);
    }
  }

  /**
   `RANK() OVER (ORDER BY count DESC)`, standard competition ranking: each
   entry becomes a row with its rank, one plus the number of entries with more
   votes.
   */
  function Ranked(es: seq<Entry>): (rs: seq<Row>)
    ensures |rs| == |es|
    ensures forall i :: 0 <= i < |es| ==>
      rs[i].photo == es[i].photo && rs[i].owner == es[i].owner && rs[i].status == es[i].status && rs[i].votes == es[i].votes
    ensures forall i :: 0 <= i < |es| ==> rs[i].rank == 1 + CountAbove(es, es[i].votes)
    ensures forall i :: 0 <= i < |es| ==> 1 <= rs[i].rank <= |es|
    ensures forall i, j :: 0 <= i < |es| && 0 <= j < |es| && es[i].votes > es[j].votes ==> rs[i].rank < rs[j].rank
    ensures forall i, j :: 0 <= i < |es| && 0 <= j < |es| && es[i].votes == es[j].votes ==> rs[i].rank == rs[j].rank
  {
    var rs := seq(|es|, i requires 0 <= i < |es| =>
      Row(es[i].photo, es[i].owner, es[i].status, es[i].votes, 1 + CountAbove(es, es[i].votes)));
    assert forall i :: 0 <= i < |es| ==> rs[i].rank <= |es| by {
      forall i | 0 <= i < |es| ensures rs[i].rank <= |es| {
        CountAboveBelowLength(es, es[i].votes, i);
      }
    }
    assert forall i, j :: 0 <= i < |es| && 0 <= j < |es| && es[i].votes > es[j].votes ==> rs[i].rank < rs[j].rank by {
      forall i, j | 0 <= i < |es| && 0 <= j < |es| && es[i].votes > es[j].votes
        ensures rs[i].rank < rs[j].rank
      {
        CountAboveStrict(es, es[j].votes, es[i].votes, i);
      }
    }
    rs
  }

  /** The ORDER BY of the query: Approved rows before the others, then ascending rank. */
  predicate Precedes(a: Row, b: Row) {
    if (a.status == Approved) != (b.status == Approved) then a.status == Approved
    else a.rank <= b.rank
  }

  /** The rows are in ORDER BY order. */
  predicate Ordered(s: seq<Row>) {
    forall i, j :: 0 <= i < j < |s| ==> Precedes(s[i], s[j])
  }

  /** Puts `x` into an ordered sequence after every row that precedes it. */
  function Insert(x: Row, s: seq<Row>): (r: seq<Row>)
    requires Ordered(s)
    ensures Ordered(r)
    ensures multiset(r) == multiset(s) + multiset{x}
  {
    if |s| == 0 then [x]
    else if Precedes(x, s[0]) then
      assert forall j :: 0 <= j < |s| ==> Precedes(x, s[j]);
      [x] + s
    else
      var tail := Insert(x, s[1..]);
      assert s == [s[0]] + s[1..];
      assert forall y :: y in multiset(tail) ==> Precedes(s[0], y) by {
        forall y | y in multiset(tail) ensures Precedes(s[0], y) {
          if y != x {
            assert y in multiset(s[1..]);
            assert y in s[1..];
          }
        }
      }
      forall j | 0 <= j < |tail| ensures Precedes(s[0], tail[j]) {
        assert tail[j] in multiset(tail);
      }
      [s[0]] + tail
  }

  /** Insertion sort into ORDER BY order. */
  function Sort(s: seq<Row>): (r: seq<Row>)
    ensures Ordered(r)
    ensures multiset(r) == multiset(s)
  {
    if |s| == 0 then []
    else
      assert s == [s[0]] + s[1..];
      Insert(s[0], Sort(s[1..]))
  }

  /** Every row of a reordering of the ranked entries keeps its rank facts. */
  lemma {:induction false} ReorderedRankFacts(es: seq<Entry>, out: seq<Row>)
    requires multiset(out) == multiset(Ranked(es))
    ensures |out| == |es|
    ensures forall i :: 0 <= i < |out| ==> 1 <= out[i].rank <= |out|
    ensures forall i :: 0 <= i < |out| ==> out[i].rank == 1 + CountAbove(es, out[i].votes)
    ensures forall i, j :: 0 <= i < |out| && 0 <= j < |out| && out[i].votes > out[j].votes ==> out[i].rank < out[j].rank
  {
    var rs := Ranked(es);
    assert |out| == |multiset(out)| == |multiset(rs)| == |rs|;
    forall i | 0 <= i < |out|
      ensures 1 <= out[i].rank <= |out| && out[i].rank == 1 + CountAbove(es, out[i].votes)
    {
      assert out[i] in multiset(rs);
      var k :| 0 <= k < |rs| && rs[k] == out[i];
    }
    forall i, j | 0 <= i < |out| && 0 <= j < |out| && out[i].votes > out[j].votes
      ensures out[i].rank < out[j].rank
    {
      assert out[i] in multiset(rs);
      var k :| 0 <= k < |rs| && rs[k] == out[i];
      CountAboveStrict(es, out[j].votes, out[i].votes, k);
    }
  }

  /**
   The leaderboard of a contest: every submission that joins, ranked across
   all statuses, listed Approved first and by rank within each group.
   */
  function ContestLeaderboard(db: Db, contest: int): (out: seq<Row>)
    ensures multiset(out) == multiset(Ranked(Entries(db, contest)))
    ensures |out| == |Entries(db, contest)|
    ensures Ordered(out)
    ensures forall i, j :: 0 <= i < j < |out| && out[j].status == Approved ==> out[i].status == Approved
    ensures forall i :: 0 <= i < |out| ==> out[i].rank == 1 + CountAbove(Entries(db, contest), out[i].votes)
    ensures forall i :: 0 <= i < |out| ==> 1 <= out[i].rank <= |out|
    ensures forall i, j :: 0 <= i < |out| && 0 <= j < |out| && out[i].votes > out[j].votes ==> out[i].rank < out[j].rank
  {
    var es := Entries(db, contest);
    var out := Sort(Ranked(es));
    ReorderedRankFacts(es, out);
    out
  }

  /** A successful vote adds one to the count of the photo voted for and leaves every other count alone. */
  lemma VoteCastAddsOne(db: Db, user: int, photo: int, contest: int, p: int, c: int)
    requires Voting.CastVote(db, user, photo, contest).outcome == Voting.VoteCast
    ensures VoteCount(Voting.CastVote(db, user, photo, contest).db.votes, p, c) ==
      VoteCount(db.votes, p, c) + (if p == photo && c == contest then 1 else 0)
  {
    var after := Voting.CastVote(db, user, photo, contest).db.votes;
    var v := Vote(user, photo, contest);
    var beforeSet := set x | x in db.votes && x.photo == p && x.contest == c;
    var afterSet := set x | x in after && x.photo == p && x.contest == c;
    if p == photo && c == contest {
      assert afterSet == beforeSet + {v};
    } else {
      assert afterSet == beforeSet;
    }
  }

  /** Ties share rank 1 and the next count skips to rank 3. */
  lemma TieExample()
    ensures var rs := Ranked([Entry(1, 10, Approved, 5), Entry(2, 11, Approved, 5), Entry(3, 12, Approved, 2)]);
      rs[0].rank == 1 && rs[1].rank == 1 && rs[2].rank == 3
  {
  }

  /** Three, five and no votes rank second, first and third. */
  lemma DistinctCountsExample()
    ensures var rs := Ranked([Entry(1, 10, Approved, 3), Entry(2, 11, Approved, 5), Entry(3, 12, Approved, 0)]);
      rs[0].rank == 2 && rs[1].rank == 1 && rs[2].rank == 3
  {
  }

  /** A Pending submission with more votes pushes the best Approved submission down to rank 2. */
  lemma PendingRowsTakeRanks()
    ensures Ranked([Entry(1, 10, Pending, 5), Entry(2, 11, Approved, 2)])[1].rank == 2
  {
  }

  /** The listing puts an Approved row ranked 2 before a Pending row ranked 1. */
  lemma ApprovedListedFirstExample()
    ensures Sort(Ranked([Entry(1, 10, Pending, 5), Entry(2, 11, Approved, 2)])) ==
      [Row(2, 11, Approved, 2, 2), Row(1, 10, Pending, 5, 1)]
  {
  }

  /** Five, three and no votes are listed in that order with ranks 1, 2, 3. */
  lemma DescendingListingExample()
    ensures Sort(Ranked([Entry(1, 10, Approved, 3), Entry(2, 11, Approved, 5), Entry(3, 12, Approved, 0)])) ==
      [Row(2, 11, Approved, 5, 1), Row(1, 10, Approved, 3, 2), Row(3, 12, Approved, 0, 3)]
  {
  }
}
