/** The persisted `Poll` record, the "already voted" check, and the
    single-vote invariant the vote handler keeps. */
module Polls {

  /** Rust's `u64`: Discord user ids and message ids. */
  type U64 = x: nat | x < 0x1_0000_0000_0000_0000

  /** `PollVote(u64)`: the id of the user who cast a vote. */
  type UserId = U64

  datatype Poll = Poll(
    title: string,
    description: string,
    reasonToVoteYes: string,
    reasonToVoteNo: string,
    yesVotes: seq<UserId>,
    noVotes: seq<UserId>)

  /** Where one user stands in one poll. */
  datatype VoterState = NotVoted | VotedYes | VotedNo

  function StateOf(p: Poll, user: UserId): VoterState {
    if user in p.yesVotes then VotedYes
    else if user in p.noVotes then VotedNo
    else NotVoted
  }

  /** Every user id occurs at most once in `yesVotes ++ noVotes`. */
  ghost predicate SingleVote(p: Poll) {
    forall u: UserId :: multiset(p.yesVotes + p.noVotes)[u] <= 1
  }

  /** No two positions of `s` hold the same id. */
  ghost predicate Distinct(s: seq<UserId>) {
    forall i, j :: 0 <= i < j < |s| ==> s[i] != s[j]
  }

  /** `p'` keeps the texts of `p` and only appends to its vote lists. */
  ghost predicate Grows(p: Poll, p': Poll) {
    && p'.title == p.title && p'.description == p.description
    && p'.reasonToVoteYes == p.reasonToVoteYes && p'.reasonToVoteNo == p.reasonToVoteNo
    && p.yesVotes <= p'.yesVotes && p.noVotes <= p'.noVotes
  }

  /** The record the `poll` command saves: the four texts as given, no votes. */
  function NewPoll(title: string, description: string, reasonToVoteYes: string, reasonToVoteNo: string): (p: Poll)
    ensures p.title == title && p.description == description
    ensures p.reasonToVoteYes == reasonToVoteYes && p.reasonToVoteNo == reasonToVoteNo
    ensures |p.yesVotes| == 0 && |p.noVotes| == 0
    ensures SingleVote(p)
    ensures forall u: UserId :: StateOf(p, u) == NotVoted
  {
    Poll(title, description, reasonToVoteYes, reasonToVoteNo, [], [])
  }

  /** `votes.iter().any(|v| user == v.0)`, scanning from the front. */
  function Any(votes: seq<UserId>, user: UserId): (r: bool)
    ensures r <==> exists i :: 0 <= i < |votes| && votes[i] == user
    decreases |votes|
  {
    |votes| > 0 && (votes[0] == user || Any(votes[1..], user))
  }

  /** `get_voted`: whether `user` appears in either vote list. */
  function GetVoted(user: UserId, yesVotes: seq<UserId>, noVotes: seq<UserId>): (r: bool)
    ensures r <==> user in yesVotes || user in noVotes
    ensures r <==> multiset(yesVotes + noVotes)[user] > 0
  {
    Any(yesVotes, user) || Any(noVotes, user)
  }

  /** A user has voted exactly when their state is not `NotVoted`. */
  lemma GetVotedState(p: Poll, user: UserId)
    ensures GetVoted(user, p.yesVotes, p.noVotes) <==> StateOf(p, user) != NotVoted
  {
  }

  /** The single-vote invariant read per list: nobody is on both lists and
      nobody is twice on one. */
  lemma SingleVoteParts(p: Poll, user: UserId)
    requires SingleVote(p)
    ensures !(user in p.yesVotes && user in p.noVotes)
    ensures multiset(p.yesVotes)[user] <= 1 && multiset(p.noVotes)[user] <= 1
  {
    assert multiset(p.yesVotes + p.noVotes)[user] <= 1;
    assert multiset(p.yesVotes + p.noVotes) == multiset(p.yesVotes) + multiset(p.noVotes);
  }

  /** Counting occurrences and comparing positions say the same thing. */
  lemma {:induction false} DistinctIffAtMostOnce(s: seq<UserId>)
    ensures Distinct(s) <==> forall u: UserId :: multiset(s)[u] <= 1
    decreases |s|
  {
    if |s| > 0 {
      var x, t := s[0], s[1..];
      assert s == [x] + t;
      assert multiset(s) == multiset{x} + multiset(t);
      DistinctIffAtMostOnce(t);
      if Distinct(s) {
        assert Distinct(t) by {
          forall i, j | 0 <= i < j < |t| ensures t[i] != t[j] {
            assert t[i] == s[i + 1] && t[j] == s[j + 1];
          }
        }
        assert x !in t;
        forall u: UserId ensures multiset(s)[u] <= 1 {
          assert multiset(t)[u] <= 1;
        }
      }
      if forall u: UserId :: multiset(s)[u] <= 1 {
        assert multiset(s)[x] <= 1;
        assert x !in t;
        forall u: UserId ensures multiset(t)[u] <= 1 {
          assert multiset(s)[u] <= 1;
        }
        forall i, j | 0 <= i < j < |s| ensures s[i] != s[j] {
          if i == 0 {
            assert s[j] == t[j - 1];
          } else {
            assert s[i] == t[i - 1] && s[j] == t[j - 1];
          }
        }
      }
    }
  }

  /** The single-vote invariant stated by positions in `yesVotes ++ noVotes`. */
  lemma SingleVoteDistinct(p: Poll)
    ensures SingleVote(p) <==> Distinct(p.yesVotes + p.noVotes)
  {
    DistinctIffAtMostOnce(p.yesVotes + p.noVotes);
  }
}
