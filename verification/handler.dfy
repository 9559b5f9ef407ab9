/** The `poll` command's save and the `InteractionCreate` handler of the
    bot, with the persistence instance abstracted as a map from keys to
    saved polls. One call of `Handle` is one interaction, taken as a single
    atomic step. */
module Handler {
  import opened Results
  import opened Polls
  import opened Responses
  import Decimal

  type MessageId = U64

  /** The persisted records: `load` of a key that is absent fails. */
  type Store = map<string, Poll>

  /** `message.id.to_string()`: the key a poll is saved under. */
  function Key(id: MessageId): (k: string)
    ensures Decimal.Parse(k) == Some(id)
  {
    Decimal.ParseText(id);
    Decimal.Text(id)
  }

  /** Polls of different messages never share a key. */
  lemma KeyInjective(a: MessageId, b: MessageId)
    ensures Key(a) == Key(b) <==> a == b
  {
    Decimal.TextInjective(a, b);
  }

  // ---------------------------------------------------------------------
  // Buttons

  const PollPrefix := "poll_"
  const YesId := "poll_yes"
  const NoId := "poll_no"
  const ViewId := "poll_view"

  predicate StartsWith(s: string, prefix: string) {
    |prefix| <= |s| && s[..|prefix|] == prefix
  }

  /** The arms of the `match` on a custom id that has passed the prefix check. */
  datatype Button = VoteYes | VoteNo | ViewResults | Unrecognized

  function Classify(customId: string): (b: Button)
    ensures b == Unrecognized <==> customId !in {YesId, NoId, ViewId}
    ensures b != Unrecognized ==> CustomId(b) == customId
  {
    if customId == YesId then VoteYes
    else if customId == NoId then VoteNo
    else if customId == ViewId then ViewResults
    else Unrecognized
  }

  /** The custom id each button of the poll message carries. */
  function CustomId(b: Button): (id: string)
    requires b != Unrecognized
    ensures StartsWith(id, PollPrefix)
  {
    match b
    case VoteYes => YesId
    case VoteNo => NoId
    case ViewResults => ViewId
  }

  /** `Classify` and `CustomId` are inverse on the three buttons, and
      every other id is `Unrecognized`. */
  lemma ClassifyCustomId(b: Button, customId: string)
    ensures b != Unrecognized ==> Classify(CustomId(b)) == b
    ensures Classify(customId) != Unrecognized <==> customId in {YesId, NoId, ViewId}
    ensures Classify(customId) != Unrecognized ==> CustomId(Classify(customId)) == customId
  {
  }

  // ---------------------------------------------------------------------
  // Poll creation

  /** The save at the end of the `poll` command: a fresh poll under the key
      of the message that shows it (an existing record under that key is
      overwritten, as `save` does). */
  function CreatePoll(store: Store, message: MessageId, title: string, description: string,
                      reasonToVoteYes: string, reasonToVoteNo: string): (s: Store)
    ensures s.Keys == store.Keys + {Key(message)}
    ensures s[Key(message)] == NewPoll(title, description, reasonToVoteYes, reasonToVoteNo)
    ensures forall k :: k in store && k != Key(message) ==> s[k] == store[k]
    ensures forall m: MessageId :: m != message && Key(m) in store ==> s[Key(m)] == store[Key(m)]
  {
    forall m: MessageId | m != message ensures Key(m) != Key(message) {
      KeyInjective(m, message);
    }
    store[Key(message) := NewPoll(title, description, reasonToVoteYes, reasonToVoteNo)]
  }

  // ---------------------------------------------------------------------
  // Interactions

  datatype Interaction =
    | MessageComponent(message: MessageId, user: UserId, customId: string)
    | OtherInteraction

  datatype Event = InteractionCreate(interaction: Interaction) | OtherEvent

  /** Errors the handler propagates with `?`. */
  datatype Fault = LoadFailed(key: string) | DeliveryFailed

  /** The outcome of a handled interaction: what was sent back (if
      anything) and the store afterwards. */
  datatype Step = Step(reply: Option<Response>, store: Store)

  /** A button press on the poll of `message` by `user`. */
  function Press(message: MessageId, user: UserId, customId: string): Event {
    InteractionCreate(MessageComponent(message, user, customId))
  }

  predicate IsPress(event: Event) {
    event.InteractionCreate? && event.interaction.MessageComponent?
  }

  /** The key whose poll an event loads, if it loads one. */
  function Target(event: Event): Option<string> {
    if IsPress(event) then Some(Key(event.interaction.message)) else None
  }

  /** `return eph_text(..).await`: the reply, with the store as it was;
      `delivered` is whether the transport accepted the response. */
  function Reply(store: Store, text: string, delivered: bool): Result<Step, Fault> {
    if delivered then Ok(Step(Some(Ephemeral(text)), store)) else Err(DeliveryFailed)
  }

  /** `p'` grows `p` by at most one vote in all. */
  ghost predicate Extends(p: Poll, p': Poll) {
    Grows(p, p') && |p'.yesVotes| + |p'.noVotes| <= |p.yesVotes| + |p.noVotes| + 1
  }

  /** The body of the `InteractionCreate` handler. */
  function Handle(store: Store, event: Event, delivered: bool): (r: Result<Step, Fault>)
    ensures r.Err? ==> IsPress(event)
    ensures r.Ok? ==> r.value.store.Keys == store.Keys
    ensures r.Ok? ==> forall k :: k in store && Some(k) != Target(event) ==> r.value.store[k] == store[k]
    ensures r.Ok? ==> forall k :: k in store ==> Extends(store[k], r.value.store[k])
  {
    match event
    case OtherEvent => Ok(Step(None, store))
    case InteractionCreate(OtherInteraction) => Ok(Step(None, store))
    case InteractionCreate(MessageComponent(message, user, customId)) =>
      var key := Key(message);
      if key !in store then Err(LoadFailed(key))
      else
        var poll := store[key];
        if !StartsWith(customId, PollPrefix) then Reply(store, UnknownIdText, delivered)
        else if GetVoted(user, poll.yesVotes, poll.noVotes) then Reply(store, AlreadyVotedText, delivered)
        else
          match Classify(customId)
          case VoteYes =>
            if !delivered then Err(DeliveryFailed)
            else Ok(Step(Some(Ephemeral(VotedYesText)), store[key := poll.(yesVotes := poll.yesVotes + [user])]))
          case VoteNo =>
            if !delivered then Err(DeliveryFailed)
            else Ok(Step(Some(Ephemeral(VotedNoText)), store[key := poll.(noVotes := poll.noVotes + [user])]))
          case ViewResults =>
            Reply(store, ResultsText(|poll.yesVotes|, |poll.noVotes|), delivered)
          case Unrecognized =>
            Ok(Step(None, store[key := poll]))
  }

  // ---------------------------------------------------------------------
  // One lemma per branch of the handler

  /** Events other than a component interaction are ignored. */
  lemma IgnoresOtherEvents(store: Store, event: Event, delivered: bool)
    requires !IsPress(event)
    ensures Handle(store, event, delivered) == Ok(Step(None, store))
  {
  }

  /** The poll is loaded before anything else: a press on a message with no
      saved poll fails, whatever its custom id. */
  lemma MissingPollFails(store: Store, message: MessageId, user: UserId, customId: string, delivered: bool)
    requires Key(message) !in store
    ensures Handle(store, Press(message, user, customId), delivered) == Err(LoadFailed(Key(message)))
  {
  }

  /** A custom id without the `poll_` prefix gets "Unknown id" and nothing is saved. */
  lemma ForeignIdRejected(store: Store, message: MessageId, user: UserId, customId: string)
    requires Key(message) in store
    requires !StartsWith(customId, PollPrefix)
    ensures Handle(store, Press(message, user, customId), true) == Ok(Step(Some(Ephemeral(UnknownIdText)), store))
  {
  }

  /** A user who has voted gets "You already voted!" for every `poll_` id,
      `poll_view` included, and nothing is saved. */
  lemma AlreadyVotedRejected(store: Store, message: MessageId, user: UserId, customId: string)
    requires Key(message) in store
    requires StartsWith(customId, PollPrefix)
    requires StateOf(store[Key(message)], user) != NotVoted
    ensures Handle(store, Press(message, user, customId), true) == Ok(Step(Some(Ephemeral(AlreadyVotedText)), store))
  {
  }

  /** A first `poll_yes` appends the user once to the end of `yesVotes` and
      saves the poll back under the same key; nothing else changes. */
  lemma VoteYesRecorded(store: Store, message: MessageId, user: UserId)
    requires Key(message) in store
    requires StateOf(store[Key(message)], user) == NotVoted
    ensures var r := Handle(store, Press(message, user, YesId), true);
      var p, k := store[Key(message)], Key(message);
      && r.Ok? && r.value.reply == Some(Ephemeral(VotedYesText))
      && r.value.store.Keys == store.Keys
      && r.value.store[k] == p.(yesVotes := p.yesVotes + [user])
      && StateOf(r.value.store[k], user) == VotedYes
      && (forall k' :: k' in store && k' != k ==> r.value.store[k'] == store[k'])
  {
  }

  /** A first `poll_no` appends the user once to the end of `noVotes`. */
  lemma VoteNoRecorded(store: Store, message: MessageId, user: UserId)
    requires Key(message) in store
    requires StateOf(store[Key(message)], user) == NotVoted
    ensures var r := Handle(store, Press(message, user, NoId), true);
      var p, k := store[Key(message)], Key(message);
      && r.Ok? && r.value.reply == Some(Ephemeral(VotedNoText))
      && r.value.store.Keys == store.Keys
      && r.value.store[k] == p.(noVotes := p.noVotes + [user])
      && StateOf(r.value.store[k], user) == VotedNo
      && (forall k' :: k' in store && k' != k ==> r.value.store[k'] == store[k'])
  {
  }

  /** `poll_view` from a user who has not voted reports the two list
      lengths exactly and changes nothing. */
  lemma ViewReportsCounts(store: Store, message: MessageId, user: UserId)
    requires Key(message) in store
    requires StateOf(store[Key(message)], user) == NotVoted
    ensures var r := Handle(store, Press(message, user, ViewId), true);
      var p := store[Key(message)];
      && r == Ok(Step(Some(Ephemeral(ResultsText(|p.yesVotes|, |p.noVotes|))), store))
      && ParseResults(r.value.reply.value.text) == Some((|p.yesVotes|, |p.noVotes|))
  {
  }

  /** A `poll_` id that is none of the three buttons falls through the
      `match`: no reply is sent and the unchanged poll is saved. */
  lemma UnrecognizedIdSavesUnchanged(store: Store, message: MessageId, user: UserId, customId: string, delivered: bool)
    requires Key(message) in store
    requires StartsWith(customId, PollPrefix) && Classify(customId) == Unrecognized
    requires StateOf(store[Key(message)], user) == NotVoted
    ensures Handle(store, Press(message, user, customId), delivered) == Ok(Step(None, store))
  {
    assert store[Key(message) := store[Key(message)]] == store;
  }

  /** When the response cannot be delivered nothing is saved: the vote
      branches fail before their save, and the branch that sends nothing
      saves the poll unchanged. */
  lemma UndeliveredCommitsNothing(store: Store, event: Event)
    ensures var r := Handle(store, event, false);
      r.Ok? ==> r.value.store == store && r.value.reply == None
  {
  }

  /** A failed delivery aborts exactly the interactions that would reply:
      every branch that calls `eph_text` fails with `DeliveryFailed`, and
      the branches that send nothing are unaffected. */
  lemma DeliveryFailureAborts(store: Store, event: Event)
    ensures var t := Handle(store, event, true);
      Handle(store, event, false) == (if t.Ok? && t.value.reply.Some? then Err(DeliveryFailed) else t)
  {
  }

  // ---------------------------------------------------------------------
  // Properties of every step

  ghost predicate StoreSingleVote(store: Store) {
    forall k :: k in store ==> SingleVote(store[k])
  }

  /** Appending a user who is on neither list keeps the single-vote invariant. */
  lemma AppendKeepsSingleVote(p: Poll, user: UserId)
    requires SingleVote(p)
    requires !GetVoted(user, p.yesVotes, p.noVotes)
    ensures SingleVote(p.(yesVotes := p.yesVotes + [user]))
    ensures SingleVote(p.(noVotes := p.noVotes + [user]))
  {
    var all: seq<UserId> := p.yesVotes + p.noVotes;
    assert multiset(all)[user] == 0;
    assert multiset((p.yesVotes + [user]) + p.noVotes) == multiset(all) + multiset{user};
    assert multiset(p.yesVotes + (p.noVotes + [user])) == multiset(all) + multiset{user};
  }

  /** Every append is guarded by `get_voted`, so no handled interaction can
      give a user a second vote. */
  lemma HandleKeepsSingleVote(store: Store, event: Event, delivered: bool)
    requires StoreSingleVote(store)
    ensures var r := Handle(store, event, delivered);
      r.Ok? ==> StoreSingleVote(r.value.store)
  {
    var r := Handle(store, event, delivered);
    if r.Ok? && IsPress(event) && Key(event.interaction.message) in store {
      var key, user := Key(event.interaction.message), event.interaction.user;
      var p := store[key];
      if !GetVoted(user, p.yesVotes, p.noVotes) {
        AppendKeepsSingleVote(p, user);
      }
      assert r.value.store[key] in {p, p.(yesVotes := p.yesVotes + [user]), p.(noVotes := p.noVotes + [user])};
      forall k | k in r.value.store ensures SingleVote(r.value.store[k]) {
        if k != key {
          assert r.value.store[k] == store[k];
        }
      }
    }
  }

  /** The per-user state machine of one step: a state changes only for the
      user who pressed, only on the pressed poll, only from `NotVoted`, and
      only to the option of the button pressed. */
  lemma StateTransitions(store: Store, event: Event, delivered: bool, k: string, u: UserId)
    requires k in store
    requires Handle(store, event, delivered).Ok?
    ensures var s := Handle(store, event, delivered).value.store;
      StateOf(s[k], u) != StateOf(store[k], u) ==>
        && StateOf(store[k], u) == NotVoted
        && IsPress(event) && event.interaction.user == u && Some(k) == Target(event)
        && Classify(event.interaction.customId) in {VoteYes, VoteNo}
        && (Classify(event.interaction.customId) == VoteYes ==> StateOf(s[k], u) == VotedYes)
        && (Classify(event.interaction.customId) == VoteNo ==> StateOf(s[k], u) == VotedNo)
  {
  }

  /** Pressing a button again after a recorded vote, whatever `poll_` id,
      is rejected and leaves the store as the vote left it. */
  lemma RepeatVoteRejected(store: Store, message: MessageId, user: UserId, first: Button, customId: string)
    requires Key(message) in store
    requires first == VoteYes || first == VoteNo
    requires Handle(store, Press(message, user, CustomId(first)), true).Ok?
    requires StartsWith(customId, PollPrefix)
    ensures var s := Handle(store, Press(message, user, CustomId(first)), true).value.store;
      Handle(s, Press(message, user, customId), true) == Ok(Step(Some(Ephemeral(AlreadyVotedText)), s))
  {
    var s := Handle(store, Press(message, user, CustomId(first)), true).value.store;
    assert StateOf(s[Key(message)], user) != NotVoted;
  }
}
