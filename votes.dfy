/**
 * The votes table: one row per (idea, user) pair, unique on that pair.
 *
 * The repository's `Idea::vote` and `Idea::removeVote` insert and delete a
 * row and signal `DuplicateVoteException` / `VoteNotFoundException` when the
 * row is already there / already gone. Here the table is a set of pairs and
 * the two exceptions are outcomes of the store operations.
 */
module Votes {

  type IdeaId = int
  type UserId = int

  /** One row of the votes table; the set semantics gives the uniqueness constraint on (idea, user). */
  datatype VoteRow = VoteRow(idea: IdeaId, user: UserId)

  /** What a store operation reports instead of throwing. */
  datatype StoreOutcome = Stored | Deleted | DuplicateVote | VoteNotFound

  /** The outcome of a store operation together with the table it leaves. */
  datatype StoreStep = StoreStep(outcome: StoreOutcome, votes: set<VoteRow>)

  /** `Idea::vote`: insert the row, or report a duplicate and leave the table alone. */
  function Cast(votes: set<VoteRow>, v: VoteRow): (r: StoreStep)
    ensures v in r.votes
    ensures forall w :: w != v ==> (w in r.votes <==> w in votes)
    ensures r.outcome == DuplicateVote <==> v in votes
    ensures r.outcome == Stored || r.outcome == DuplicateVote
    ensures r.outcome == DuplicateVote ==> r.votes == votes
  {
    if v in votes then StoreStep(DuplicateVote, votes) else StoreStep(Stored, votes + {v})
  }

  /** `Idea::removeVote`: delete the row, or report that it was not there and leave the table alone. */
  function Retract(votes: set<VoteRow>, v: VoteRow): (r: StoreStep)
    ensures v !in r.votes
    ensures forall w :: w != v ==> (w in r.votes <==> w in votes)
    ensures r.outcome == VoteNotFound <==> v !in votes
    ensures r.outcome == Deleted || r.outcome == VoteNotFound
    ensures r.outcome == VoteNotFound ==> r.votes == votes
  {
    if v in votes then StoreStep(Deleted, votes - {v}) else StoreStep(VoteNotFound, votes)
  }

  /** The authoritative vote count of an idea: the number of rows that name it. */
  function CountFor(votes: set<VoteRow>, idea: IdeaId): (n: nat)
    ensures n <= |votes|
    ensures n == 0 <==> forall w :: w in votes ==> w.idea != idea
  {
    var named := set w | w in votes && w.idea == idea;
    CountForFacts(votes, idea, named);
    |named|
  }

  /** The rows that name an idea are some of the table's rows, and there are none exactly when no row names it. */
  lemma CountForFacts(votes: set<VoteRow>, idea: IdeaId, named: set<VoteRow>)
    requires named == set w | w in votes && w.idea == idea
    ensures |named| <= |votes|
    ensures |named| == 0 <==> forall w :: w in votes ==> w.idea != idea
  {
    var rest := votes - named;
    assert votes == named + rest;
    assert named * rest == {};
    if w :| w in votes && w.idea == idea {
      assert w in named;
    } else {
      assert named == {};
    }
  }

  /** Casting a vote adds one to its idea's authoritative count exactly when the row was new, and leaves every other idea's count alone. */
  lemma CastCount(votes: set<VoteRow>, v: VoteRow, idea: IdeaId)
    ensures CountFor(Cast(votes, v).votes, idea) ==
            CountFor(votes, idea) + (if idea == v.idea && v !in votes then 1 else 0)
  {
    var before := set w | w in votes && w.idea == idea;
    var after := set w | w in Cast(votes, v).votes && w.idea == idea;
    if idea == v.idea && v !in votes {
      assert after == before + {v};
    } else {
      assert after == before;
    }
  }

  /** Retracting a vote takes one from its idea's authoritative count exactly when the row was there, and leaves every other idea's count alone. */
  lemma RetractCount(votes: set<VoteRow>, v: VoteRow, idea: IdeaId)
    ensures CountFor(Retract(votes, v).votes, idea) + (if idea == v.idea && v in votes then 1 else 0) ==
            CountFor(votes, idea)
  {
    var before := set w | w in votes && w.idea == idea;
    var after := set w | w in Retract(votes, v).votes && w.idea == idea;
    if idea == v.idea && v in votes {
      assert before == after + {v};
    } else {
      assert after == before;
    }
  }

  /** Retracting a freshly cast vote restores the table, and casting a just-retracted vote does too. */
  lemma CastRetractInverse(votes: set<VoteRow>, v: VoteRow)
    ensures v !in votes ==> Retract(Cast(votes, v).votes, v).votes == votes
    ensures v in votes ==> Cast(Retract(votes, v).votes, v).votes == votes
  {
  }

  /** The votes table as the database holds it; updated in place by the two store operations. */
  class VoteTable {
    var votes: set<VoteRow>

    constructor (initial: set<VoteRow>)
      ensures votes == initial
    {
      votes := initial;
    }

    /** `Idea::vote` applied to the table. */
    method Add(v: VoteRow) returns (outcome: StoreOutcome)
      modifies this
      ensures StoreStep(outcome, votes) == Cast(old(votes), v)
    {
      if v in votes {
        outcome := DuplicateVote;
      } else {
        votes := votes + {v};
        outcome := Stored;
      }
    }

    /** `Idea::removeVote` applied to the table. */
    method Remove(v: VoteRow) returns (outcome: StoreOutcome)
      modifies this
      ensures StoreStep(outcome, votes) == Retract(old(votes), v)
    {
      if v in votes {
        votes := votes - {v};
        outcome := Deleted;
      } else {
        outcome := VoteNotFound;
      }
    }
  }
}
