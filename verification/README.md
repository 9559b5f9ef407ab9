# Poise poll bot: vote handling, modelled in Dafny

The bot posts a yes/no poll as a Discord message with three buttons
(`poll_yes`, `poll_no`, `poll_view`) and saves a `Poll` record under the
message id. Each button press runs the `InteractionCreate` handler. The
handler loads the record, rejects foreign ids and users who already voted,
replies privately, appends the voter to one list, and saves the record back.

This model covers:

- the `Poll` record, the fresh record built by the `poll` command, and
  `get_voted` (module `Polls`);
- the private replies and the `"Yes: {} No: {}"` results text. The results
  text is built on a decimal renderer with a proved inverse (modules
  `Responses` and `Decimal`);
- the handler itself as a pure step function (module `Handler`). Its
  signature is `Handle(store, event, delivered) -> Result<Step, Fault>`. The
  persistence instance is a `map<string, Poll>`. Loading a missing key is
  the fault `LoadFailed`. `delivered` says whether the transport accepted the
  response sent by `eph_text`; when it did not, the handler fails with
  `DeliveryFailed`;
- runs of any length of `poll` commands and interactions (module `Traces`).
  These prove the single-vote invariant: no user id occurs twice in
  `yes_votes ++ no_votes`;
- a worked run of one poll (module `Scenarios`).

Behaviour of the code worth noting:

- The poll is loaded (src/main.rs:154) before the custom id is looked at
  (src/main.rs:156). A press on a message with no saved poll therefore
  fails, whatever its custom id.
- "Unknown id" is the answer to ids WITHOUT the `poll_` prefix
  (src/main.rs:156-158).
- A `poll_`-prefixed id that is none of the three buttons falls into
  `_ => {}` (src/main.rs:196). It sends no reply, and the unchanged poll is
  saved back (src/main.rs:199).
- The already-voted check (src/main.rs:160) runs before `poll_view` is
  handled (src/main.rs:184). A user who has voted therefore gets "You
  already voted!" and not the results.

## Model

| member | source | states |
|---|---|---|
| Polls.NewPoll | src/main.rs:85-92 | the new record keeps the four texts as given and has both vote lists empty; it satisfies the single-vote invariant and every user is `NotVoted` |
| Polls.Any | src/main.rs:118-123 | `iter().any` over a vote list is true exactly when some position holds the user's id |
| Polls.GetVoted | src/main.rs:113-124 | `get_voted` is true iff the user's id is in `yes_votes` or in `no_votes`, i.e. iff it occurs in `yes_votes ++ no_votes` |
| Polls.GetVotedState | src/main.rs:113-124 | `get_voted` is true exactly when the user's per-poll state is `VotedYes` or `VotedNo` |
| Polls.SingleVoteParts | src/main.rs:47-48 | under the single-vote invariant nobody is on both lists and nobody is on one list twice |
| Polls.SingleVoteDistinct | src/main.rs:47-48 | the invariant "every id occurs at most once in `yes_votes ++ no_votes`" is the same as "no two positions of `yes_votes ++ no_votes` hold the same id" |
| Decimal.Text | src/main.rs:188-190 | the rendered count is a non-empty run of digits with no leading zero, one digit exactly for numbers below ten |
| Decimal.ParseText | src/main.rs:84 | reading back the decimal text of a number gives that number |
| Decimal.TextOfValue | src/main.rs:84 | every digit string without a leading zero is the text of the number it denotes |
| Decimal.TextInjective | src/main.rs:153 | two numbers have the same text iff they are equal |
| Responses.ResultsText | src/main.rs:187-191 | the results reply reads back as exactly the two counts it was formatted from |
| Responses.ResultsTextDistinct | src/main.rs:185-194 | different counts give different results replies, and a results reply is never one of the four fixed replies |
| Handler.Key | src/main.rs:153 | the key of a poll is the decimal text of its message id and reads back as that id |
| Handler.KeyInjective | src/main.rs:84 | polls of different messages are saved under different keys |
| Handler.Classify | src/main.rs:169-196 | an id is `Unrecognized` exactly when it is none of `poll_yes`, `poll_no`, `poll_view`, and every recognised id is the id of the button it names |
| Handler.CustomId | src/main.rs:17-31 | each of the three buttons carries an id with the `poll_` prefix |
| Handler.ClassifyCustomId | src/main.rs:169-196 | the match recognises exactly `poll_yes`, `poll_no` and `poll_view`, and maps each button's id back to that button |
| Handler.CreatePoll | src/main.rs:83-93 | the `poll` command stores a fresh poll under the message's key, adds no other key and leaves every other saved record as it was |
| Handler.Handle | src/main.rs:145-200 | only a button press can fail; a handled interaction keeps the set of keys, touches no poll but the pressed one, never edits texts, only appends to vote lists, and adds at most one vote |
| Handler.IgnoresOtherEvents | src/main.rs:145-148 | events that are not component interactions get no reply and change nothing |
| Handler.MissingPollFails | src/main.rs:153-154 | a press on a message with no saved poll fails with a load error, whatever its custom id |
| Handler.ForeignIdRejected | src/main.rs:156-158 | an id without the `poll_` prefix gets "Unknown id" and the store is unchanged |
| Handler.AlreadyVotedRejected | src/main.rs:160-167 | a user already on either list gets "You already voted!" for every `poll_` id, `poll_view` included, and the store is unchanged |
| Handler.VoteYesRecorded | src/main.rs:170-176 | a first `poll_yes` replies "You voted yes!", appends the user once at the end of `yes_votes`, keeps everything else, and saves under the same key (line 199) |
| Handler.VoteNoRecorded | src/main.rs:177-183 | a first `poll_no` replies "You voted no!", appends the user once at the end of `no_votes`, keeps `yes_votes` and the texts |
| Handler.ViewReportsCounts | src/main.rs:184-195 | `poll_view` from a user who has not voted replies with exactly the lengths of both lists and does not change the store |
| Handler.UnrecognizedIdSavesUnchanged | src/main.rs:196-199 | a `poll_` id that is no button gets no reply, and the poll saved back is the one loaded |
| Handler.UndeliveredCommitsNothing | src/main.rs:171-182 | when the reply cannot be delivered, no vote is saved: the interaction fails or the store is unchanged |
| Handler.DeliveryFailureAborts | src/main.rs:156-195 | a failed delivery turns exactly the interactions that would reply into a `DeliveryFailed` error, before any save; interactions that send nothing end as they would have |
| Handler.AppendKeepsSingleVote | src/main.rs:174-182 | appending a user who is on neither list keeps the single-vote invariant |
| Handler.HandleKeepsSingleVote | src/main.rs:160-183 | every handled interaction keeps the single-vote invariant for every saved poll |
| Handler.StateTransitions | src/main.rs:160-196 | a user's state changes only for the presser, only on the pressed poll, only from `NotVoted`, only on a `poll_yes` or `poll_no` press (never on `poll_view` or an unrecognised id), and to the option of the button pressed |
| Handler.RepeatVoteRejected | src/main.rs:160-167 | after a recorded vote, any further `poll_` press by the same user is rejected and changes nothing |
| Traces.Apply | src/main.rs:145-200 | a command or interaction never removes a saved poll |
| Traces.Run | src/main.rs:145-200 | a run of commands and interactions never removes a saved poll |
| Traces.ApplyKeepsSingleVote | src/main.rs:83-93 | creating a poll or handling an interaction keeps the single-vote invariant of the store |
| Traces.RunKeepsSingleVote | src/main.rs:160-183 | every run from a store that satisfies the single-vote invariant ends in one that does |
| Traces.SingleVoteFromCreation | src/main.rs:113-124 | after a poll is created and any run follows, every id occurs at most once in `yes_votes ++ no_votes` of every saved poll |
| Traces.ApplyElsewhere | src/main.rs:83-93 | a command that creates no poll under a key changes the poll at that key only as a handled interaction does |
| Traces.VotesAreFinal | src/main.rs:160-167 | unless a new poll is created under the same key, a recorded `VotedYes` or `VotedNo` never changes |
| Traces.DeliveriesOnlyAppend | src/main.rs:174-182 | unless a new poll is created under the same key, its texts are never edited and no vote is removed or reordered |
| Scenarios.CreatedPollIsEmpty | src/main.rs:85-92 | a poll created with texts T, D, Y, N is stored with no votes |
| Scenarios.FirstVoteRecorded | src/main.rs:170-176 | user 42 pressing `poll_yes` gets "You voted yes!" and `yes_votes` becomes [42] |
| Scenarios.SecondVoteRejected | src/main.rs:160-167 | user 42 then pressing `poll_no` gets "You already voted!" and nothing changes |
| Scenarios.ViewShowsOneYes | src/main.rs:184-194 | user 7 pressing `poll_view` gets "Yes: 1 No: 0" and nothing changes |
| Scenarios.BogusPollIdSilent | src/main.rs:196-199 | user 9 pressing `poll_bogus` gets no reply and nothing changes |
| Scenarios.ForeignIdUnknown | src/main.rs:156-158 | user 9 pressing `bogus_token` gets "Unknown id" and nothing changes |

## Left out

- Discord plumbing is not modelled: the serenity/poise framework, slash-command registration, embed building and the `POLL_BUTTONS` row (src/main.rs:14-34, 126-219). Only the three button ids are kept. A reply is the value `Ephemeral(text)`.
- The `poll` command's own failure paths are not modelled: sending the message and fetching it back (src/main.rs:69-82). They are transport I/O. `CreatePoll` is the save that follows them.
- `shuttle_persist` and serde are not modelled. The store is a map, and a record that is present always decodes. A corrupt record and a failing `save` are therefore not represented.
- Concurrency is not modelled. Each interaction is one atomic step, so the lost update between two concurrent load-modify-save sequences on the same poll is not represented.
- Loading the `DISCORD_TOKEN` secret (src/main.rs:132-134) is not modelled. It is configuration I/O.
- Transport errors are reduced to one flag, `delivered`. The model does not say what the Discord client shows when no reply is sent.
