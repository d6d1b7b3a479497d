# Vote toggle of the idea board's `IdeaIndex` component

The idea board shows each idea with a vote button. The Livewire component
`IdeaIndex` (app/Http/Livewire/IdeaIndex.php) holds three things: the idea,
a cached `votesCount` and a `hasVoted` flag for the current viewer. `mount`
fills them from the idea's `voted_by_user` attribute and the `votesCount`
mount parameter. When `vote()` is called, a guest is redirected to the
login page. For a logged-in user, the component branches on its cached
flag. If `hasVoted` is set, it deletes the user's row from the votes table
and ignores `VoteNotFoundException`. Otherwise it inserts the row and
ignores `DuplicateVoteException`. In both cases it then flips the flag and
moves the counter by one.

The model has two modules:

- `Votes` (votes.dfy) models the votes table as a set of (idea, user)
  pairs. `Cast` and `Retract` stand for `Idea::vote` and `Idea::removeVote`.
  They return an outcome (`Stored`, `Deleted`, `DuplicateVote` or
  `VoteNotFound`) instead of throwing. The class `VoteTable` applies them to
  the table in place. `CountFor` is the authoritative count of an idea's
  rows.
- `Livewire` (idea_index.dfy) holds `VoteStep`, which describes one
  `vote()` call as a function of the state before it. It also holds the
  class `IdeaIndex`. Its constructor models `mount`. Its `Vote` method
  updates the fields and the table in place and is proved equal to
  `VoteStep`. The component's properties are lemmas about `VoteStep`.

`auth()` becomes a `Caller` parameter (`Guest` or `Member(id)`).
`redirectToLogin()` becomes the `RedirectToLogin` response.

The component branches on the cached flag, as the code at
app/Http/Livewire/IdeaIndex.php:34 does. It does not look the pair up in
the table before choosing between insert and delete, and neither does the
model. With a stale flag, the counter and flag still move while the table
stays as it was (`BenignOutcomesSwallowed`, `StaleFlagDrifts`).

## Model

| member | source | states |
|---|---|---|
| `Votes.Cast` | app/Http/Livewire/IdeaIndex.php:49-56 | After `Idea::vote`, the pair is in the table and no other row changed. `DuplicateVote` is reported exactly when the pair was already there, and then the table is untouched. |
| `Votes.Retract` | app/Http/Livewire/IdeaIndex.php:36-43 | After `Idea::removeVote`, the pair is absent and no other row changed. `VoteNotFound` is reported exactly when the pair was absent, and then the table is untouched. |
| `Votes.CountFor` | tests/Feature/VoteIndexPageTest.php:59-72 | The authoritative count of an idea is the number of table rows naming it, the figure the listing reports. It is at most the table's size, and it is zero exactly when no row names the idea. |
| `Votes.CastCount` | app/Http/Livewire/IdeaIndex.php:51 | Casting raises the idea's authoritative row count by one exactly when the row is new. Every other idea's count is unchanged. |
| `Votes.RetractCount` | app/Http/Livewire/IdeaIndex.php:38 | Retracting lowers the idea's authoritative row count by one exactly when the row existed. Every other idea's count is unchanged. |
| `Votes.CastRetractInverse` | app/Http/Livewire/IdeaIndex.php:38-51 | Retracting a freshly cast vote restores the table. Re-casting a just-retracted vote does too. |
| `Votes.VoteTable.Add` | app/Http/Livewire/IdeaIndex.php:51 | The in-place insert leaves exactly the outcome and table that `Cast` gives. |
| `Votes.VoteTable.Remove` | app/Http/Livewire/IdeaIndex.php:38 | The in-place delete leaves exactly the outcome and table that `Retract` gives. |
| `Livewire.VoteStep` | app/Http/Livewire/IdeaIndex.php:27-60 | One `vote()` call. The response is a redirect exactly for a guest, and a guest changes nothing. For a member, the branch follows the cached flag: it goes through `Retract` or `Cast`, flips the flag and moves the counter by -1 or +1. Afterwards the member's pair is in the table exactly when the new flag is set, and no other row changes. |
| `Livewire.IdeaIndex.constructor` | app/Http/Livewire/IdeaIndex.php:21-25 | `mount` stores the idea. `votesCount` is the supplied count. `hasVoted` is the idea's `voted_by_user` flag. |
| `Livewire.IdeaIndex.Vote` | app/Http/Livewire/IdeaIndex.php:27-60 | The returned response, the new fields and the new table are exactly those of `VoteStep`. The idea is unchanged. |
| `Livewire.GuestIsRedirected` | app/Http/Livewire/IdeaIndex.php:29-32 | A guest gets a redirect to login. The counter, the flag and the table are unchanged. |
| `Livewire.MemberCastsVote` | app/Http/Livewire/IdeaIndex.php:47-58 | With the flag clear, a member ends voted with the counter one higher and the pair in the table. |
| `Livewire.MemberRetractsVote` | app/Http/Livewire/IdeaIndex.php:34-46 | With the flag set, a member ends not voted with the counter one lower and the pair absent from the table. |
| `Livewire.BenignOutcomesSwallowed` | app/Http/Livewire/IdeaIndex.php:36-56 | If the table is already in the target state, the store reports `VoteNotFound` or `DuplicateVote`. The response is still `Done`, the table is unchanged, and the flag and counter still move. |
| `Livewire.AgreesAfterVote` | app/Http/Livewire/IdeaIndex.php:34-59 | After any member's vote, the flag is set exactly when the member's pair is in the table. This holds even if the flag was stale before. |
| `Livewire.OnlyOwnRowChanges` | app/Http/Livewire/IdeaIndex.php:38-51 | Every row other than (this idea, caller) is present after the call exactly when it was before. A guest changes no row. |
| `Livewire.VoteTwiceRestores` | app/Http/Livewire/IdeaIndex.php:34-59 | Two votes by the same member restore the flag and the counter. They restore the table too when the flag agreed with it at the start. |
| `Livewire.CountStaysInStep` | app/Http/Livewire/IdeaIndex.php:44-58 | Suppose the flag agrees with the table and the cached count equals the authoritative count. After a vote, the cached count still equals it. |
| `Livewire.StaleFlagDrifts` | app/Http/Livewire/IdeaIndex.php:34-59 | Suppose the flag disagrees with the table. A vote then leaves the authoritative count unchanged while the cached count moves, so a count that was right becomes wrong. |

## Left out

- `render()` and the "Vote"/"Voted" label are view output. The label only follows `hasVoted`.
- The `set-status` view is markup and client-side UI state with no logic of the component.
- `auth()` and the `WithAuthRedirects` trait's `redirectToLogin` are not part of this model. They become the `Caller` parameter and the `RedirectToLogin` response.
- The bodies of `Idea::vote` and `Idea::removeVote`, the ORM and the database are not part of this model. They are abstracted as set insert and delete with the duplicate and not-found outcomes. Other database failures, which would propagate out of `vote()`, are not modelled.
- Concurrent voters are not modelled. Calls are sequential, and a race shows up only as a flag that disagrees with the table.
- The listing component `IdeasIndex` and the `IdeaShow` component are not part of this model. `CountFor` stands for the aggregate count the listing reads.
- Livewire.IdeaIndex.constructor: `voted_by_user` is modelled as a boolean. PHP's loose truthiness of it (for example `1`) is not modelled.
- Livewire.IdeaIndex.Vote: `votesCount` is an unbounded integer. The overflow of PHP's `++` and `--` to float at the integer limit is not modelled.
