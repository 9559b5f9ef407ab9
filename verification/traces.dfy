/** Runs of the bot: any sequence of `poll` commands and handled
    interactions, each applied as one atomic step to the store. A failed
    interaction leaves the store as it was. */
module Traces {
  import opened Results
  import opened Polls
  import opened Handler

  datatype Command =
    | CreateCommand(message: MessageId, title: string, description: string,
                    reasonToVoteYes: string, reasonToVoteNo: string)
    | Deliver(event: Event, delivered: bool)

  function Apply(store: Store, c: Command): (s: Store)
    ensures store.Keys <= s.Keys
  {
    match c
    case CreateCommand(m, t, d, y, n) => CreatePoll(store, m, t, d, y, n)
    case Deliver(e, ok) =>
      match Handle(store, e, ok)
      case Ok(step) => step.store
      case Err(_) => store
  }

  function Run(store: Store, cmds: seq<Command>): (s: Store)
    ensures store.Keys <= s.Keys
    decreases |cmds|
  {
    if |cmds| == 0 then store else Run(Apply(store, cmds[0]), cmds[1..])
  }

  lemma ApplyKeepsSingleVote(store: Store, c: Command)
    requires StoreSingleVote(store)
    ensures StoreSingleVote(Apply(store, c))
  {
    match c
    case CreateCommand(m, t, d, y, n) =>
    case Deliver(e, ok) =>
      HandleKeepsSingleVote(store, e, ok);
  }

  lemma {:induction false} RunKeepsSingleVote(store: Store, cmds: seq<Command>)
    requires StoreSingleVote(store)
    ensures StoreSingleVote(Run(store, cmds))
    decreases |cmds|
  {
    if |cmds| > 0 {
      ApplyKeepsSingleVote(store, cmds[0]);
      RunKeepsSingleVote(Apply(store, cmds[0]), cmds[1..]);
    }
  }

  /** The single-vote invariant: after a poll is created and any sequence of
      commands and interactions follows, no user id occurs twice in
      `yesVotes ++ noVotes` of any saved poll. */
  lemma SingleVoteFromCreation(message: MessageId, title: string, description: string,
                               reasonToVoteYes: string, reasonToVoteNo: string, cmds: seq<Command>)
    ensures var s := Run(CreatePoll(map[], message, title, description, reasonToVoteYes, reasonToVoteNo), cmds);
      && Key(message) in s
      && (forall k :: k in s ==> Distinct(s[k].yesVotes + s[k].noVotes))
      && (forall u: UserId :: multiset(s[Key(message)].yesVotes + s[Key(message)].noVotes)[u] <= 1)
  {
    var s0 := CreatePoll(map[], message, title, description, reasonToVoteYes, reasonToVoteNo);
    assert StoreSingleVote(s0);
    RunKeepsSingleVote(s0, cmds);
    var s := Run(s0, cmds);
    forall k | k in s ensures Distinct(s[k].yesVotes + s[k].noVotes) {
      SingleVoteDistinct(s[k]);
    }
  }

  /** No `poll` command in `cmds` saves a fresh poll under `k`. */
  predicate NoCreationAt(cmds: seq<Command>, k: string) {
    forall i :: 0 <= i < |cmds| && cmds[i].CreateCommand? ==> Key(cmds[i].message) != k
  }

  /** A single command that does not create a poll under `k` can only
      change the poll at `k` as a handled interaction does. */
  lemma ApplyElsewhere(store: Store, c: Command, k: string)
    requires k in store
    requires c.CreateCommand? ==> Key(c.message) != k
    ensures Apply(store, c)[k] == store[k] || (c.Deliver? && Handle(store, c.event, c.delivered).Ok?)
  {
  }

  /** Unless a new poll is created under the same key, a vote once recorded
      stays as it is: `VotedYes` and `VotedNo` are final. */
  lemma {:induction false} VotesAreFinal(store: Store, cmds: seq<Command>, k: string, u: UserId)
    requires k in store && StateOf(store[k], u) != NotVoted
    requires NoCreationAt(cmds, k)
    ensures StateOf(Run(store, cmds)[k], u) == StateOf(store[k], u)
    decreases |cmds|
  {
    if |cmds| > 0 {
      var c := cmds[0];
      ApplyElsewhere(store, c, k);
      if c.Deliver? && Handle(store, c.event, c.delivered).Ok? {
        StateTransitions(store, c.event, c.delivered, k, u);
      }
      assert NoCreationAt(cmds[1..], k) by {
        forall i | 0 <= i < |cmds[1..]| && cmds[1..][i].CreateCommand? ensures Key(cmds[1..][i].message) != k {
          assert cmds[1..][i] == cmds[i + 1];
        }
      }
      VotesAreFinal(Apply(store, c), cmds[1..], k, u);
    }
  }

  /** Unless a new poll is created under the same key, the texts are never
      edited and no vote is removed or reordered. */
  lemma {:induction false} DeliveriesOnlyAppend(store: Store, cmds: seq<Command>, k: string)
    requires k in store
    requires NoCreationAt(cmds, k)
    ensures Grows(store[k], Run(store, cmds)[k])
    decreases |cmds|
  {
    if |cmds| > 0 {
      var s1 := Apply(store, cmds[0]);
      ApplyElsewhere(store, cmds[0], k);
      assert Grows(store[k], s1[k]);
      assert NoCreationAt(cmds[1..], k) by {
        forall i | 0 <= i < |cmds[1..]| && cmds[1..][i].CreateCommand? ensures Key(cmds[1..][i].message) != k {
          assert cmds[1..][i] == cmds[i + 1];
        }
      }
      DeliveriesOnlyAppend(s1, cmds[1..], k);
    }
  }
}
