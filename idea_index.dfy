/**
 * The `IdeaIndex` Livewire component: a per-idea vote button that caches the
 * idea's vote count and whether the current viewer has voted, and toggles the
 * viewer's vote when clicked.
 *
 * `VoteStep` is the whole effect of one click as a function of the state
 * before it; the class `IdeaIndex` updates its fields and the votes table in
 * place and is proved to do exactly what `VoteStep` says. The properties the
 * component promises are lemmas about `VoteStep`.
 */
module Livewire {

  import opened Votes

  /** The idea the component is mounted with: its key and the per-viewer `voted_by_user` attribute loaded with it. */
  datatype Idea = Idea(id: IdeaId, votedByUser: bool)

  /** Who clicks: `auth()->guest()` holds exactly for `Guest`; otherwise `auth()->user()` is the member. */
  datatype Caller = Guest | Member(id: UserId)

  /** What `vote()` hands back to the framework: a redirect to the login page, or nothing. */
  datatype VoteResponse = RedirectToLogin | Done

  /** The two observable fields of the component. */
  datatype ViewState = ViewState(votesCount: int, hasVoted: bool)

  /** The effect of one click: the response, the component's new fields and the new votes table. */
  datatype Transition = Transition(response: VoteResponse, view: ViewState, votes: set<VoteRow>)

  /**
   * One call of `vote()` on the component for idea `idea`. The branch is
   * taken on the cached flag, not on the table; the duplicate and not-found
   * outcomes of the store are dropped and the flag and counter change anyway.
   */
  function VoteStep(idea: IdeaId, view: ViewState, votes: set<VoteRow>, caller: Caller): (t: Transition)
    ensures t.response == RedirectToLogin <==> caller.Guest?
    ensures caller.Guest? ==> t.view == view && t.votes == votes
    ensures caller.Member? ==>
      t.view.hasVoted == !view.hasVoted &&
      t.view.votesCount == view.votesCount + (if view.hasVoted then -1 else 1) &&
      (VoteRow(idea, caller.id) in t.votes <==> t.view.hasVoted)
    ensures forall w :: (caller.Guest? || w != VoteRow(idea, caller.id)) ==> (w in t.votes <==> w in votes)
  {
    match caller
    case Guest => Transition(RedirectToLogin, view, votes)
    case Member(u) =>
      if view.hasVoted then
        Transition(Done, ViewState(view.votesCount - 1, false), Retract(votes, VoteRow(idea, u)).votes)
      else
        Transition(Done, ViewState(view.votesCount + 1, true), Cast(votes, VoteRow(idea, u)).votes)
  }

  /** The cached flag tells the truth about the table for this idea and user. */
  predicate Agrees(idea: IdeaId, view: ViewState, votes: set<VoteRow>, u: UserId)
  {
    view.hasVoted <==> VoteRow(idea, u) in votes
  }

  /** A guest is sent to the login page and nothing else happens. */
  lemma GuestIsRedirected(idea: IdeaId, view: ViewState, votes: set<VoteRow>)
    ensures VoteStep(idea, view, votes, Guest).response == RedirectToLogin
    ensures VoteStep(idea, view, votes, Guest).view == view
    ensures VoteStep(idea, view, votes, Guest).votes == votes
  {
  }

  /** A member who has not voted (by the cached flag) ends up voted, with one more vote shown and the row in the table. */
  lemma MemberCastsVote(idea: IdeaId, view: ViewState, votes: set<VoteRow>, u: UserId)
    requires !view.hasVoted
    ensures var t := VoteStep(idea, view, votes, Member(u));
      t.response == Done && t.view.hasVoted && t.view.votesCount == view.votesCount + 1 &&
      VoteRow(idea, u) in t.votes
  {
  }

  /** A member who has voted (by the cached flag) ends up not voted, with one vote fewer shown and the row gone from the table. */
  lemma MemberRetractsVote(idea: IdeaId, view: ViewState, votes: set<VoteRow>, u: UserId)
    requires view.hasVoted
    ensures var t := VoteStep(idea, view, votes, Member(u));
      t.response == Done && !t.view.hasVoted && t.view.votesCount == view.votesCount - 1 &&
      VoteRow(idea, u) !in t.votes
  {
  }

  /**
   * The store's duplicate and not-found outcomes never reach the caller:
   * when the table is already in the state the click aims at, the store
   * reports it, the table stays as it was, and the flag and counter still move.
   */
  lemma BenignOutcomesSwallowed(idea: IdeaId, view: ViewState, votes: set<VoteRow>, u: UserId)
    requires view.hasVoted <==> VoteRow(idea, u) !in votes
    ensures var t := VoteStep(idea, view, votes, Member(u));
      t.response == Done &&
      t.votes == votes &&
      t.view.hasVoted == !view.hasVoted &&
      t.view.votesCount == view.votesCount + (if view.hasVoted then -1 else 1)
    ensures view.hasVoted ==> Retract(votes, VoteRow(idea, u)).outcome == VoteNotFound
    ensures !view.hasVoted ==> Cast(votes, VoteRow(idea, u)).outcome == DuplicateVote
  {
  }

  /**
   * After any member's click the flag tells the truth about the table for
   * that member, whether it did before or not: a stale flag is resynchronised.
   */
  lemma AgreesAfterVote(idea: IdeaId, view: ViewState, votes: set<VoteRow>, u: UserId)
    ensures var t := VoteStep(idea, view, votes, Member(u));
      Agrees(idea, t.view, t.votes, u)
  {
  }

  /** A click changes at most the clicking member's row for this idea; every other vote is left as it was. */
  lemma OnlyOwnRowChanges(idea: IdeaId, view: ViewState, votes: set<VoteRow>, caller: Caller, w: VoteRow)
    requires caller.Guest? || w != VoteRow(idea, caller.id)
    ensures w in VoteStep(idea, view, votes, caller).votes <==> w in votes
  {
  }

  /**
   * Two clicks by the same member restore the flag and the counter; they
   * restore the table too when the flag agreed with it at the start.
   */
  lemma VoteTwiceRestores(idea: IdeaId, view: ViewState, votes: set<VoteRow>, u: UserId)
    ensures var t1 := VoteStep(idea, view, votes, Member(u));
      VoteStep(idea, t1.view, t1.votes, Member(u)).view == view
    ensures var t1 := VoteStep(idea, view, votes, Member(u));
      Agrees(idea, view, votes, u) ==> VoteStep(idea, t1.view, t1.votes, Member(u)).votes == votes
  {
  }

  /**
   * When the flag agrees with the table and the cached count is the
   * authoritative count, a click keeps the cached count equal to it.
   */
  lemma CountStaysInStep(idea: IdeaId, view: ViewState, votes: set<VoteRow>, u: UserId)
    requires Agrees(idea, view, votes, u)
    requires view.votesCount == CountFor(votes, idea)
    ensures var t := VoteStep(idea, view, votes, Member(u));
      t.view.votesCount == CountFor(t.votes, idea)
  {
    if view.hasVoted {
      RetractCount(votes, VoteRow(idea, u), idea);
    } else {
      CastCount(votes, VoteRow(idea, u), idea);
    }
  }

  /**
   * With a stale flag the cached count drifts: the table, and so the
   * authoritative count, is unchanged while the cached count moves by one.
   */
  lemma StaleFlagDrifts(idea: IdeaId, view: ViewState, votes: set<VoteRow>, u: UserId)
    requires !Agrees(idea, view, votes, u)
    requires view.votesCount == CountFor(votes, idea)
    ensures var t := VoteStep(idea, view, votes, Member(u));
      CountFor(t.votes, idea) == CountFor(votes, idea) &&
      t.view.votesCount != CountFor(t.votes, idea)
  {
  }

  /** The component: the idea it shows and its two observable fields. */
  class IdeaIndex {
    var idea: Idea
    var votesCount: int
    var hasVoted: bool

    /** The observable fields as a value. */
    function State(): (s: ViewState)
      reads this
    {
      ViewState(votesCount, hasVoted)
    }

    /** `mount`: the flag comes from the idea's `voted_by_user`; the count is the `votesCount` mount parameter, which the framework assigns to the field of that name. */
    constructor (idea: Idea, votesCount: int)
      ensures this.idea == idea
      ensures this.votesCount == votesCount
      ensures hasVoted == idea.votedByUser
    {
      this.idea := idea;
      this.votesCount := votesCount;
      this.hasVoted := idea.votedByUser;
    }

    /** `vote()`: gate on authentication, then toggle the caller's vote by the cached flag. */
    method Vote(caller: Caller, table: VoteTable) returns (response: VoteResponse)
      modifies this, table
      ensures idea == old(idea)
      ensures Transition(response, State(), table.votes) ==
              VoteStep(idea.id, old(State()), old(table.votes), caller)
    {
      if caller.Guest? {
        response := RedirectToLogin;
        return;
      }
      var row := VoteRow(idea.id, caller.id);
      if hasVoted {
        var outcome := table.Remove(row);
        // VoteNotFound is ignored: the row is gone either way.
        hasVoted := false;
        votesCount := votesCount - 1;
      } else {
        var outcome := table.Add(row);
        // DuplicateVote is ignored: the row is there either way.
        hasVoted := true;
        votesCount := votesCount + 1;
      }
      response := Done;
    }
  }
}
