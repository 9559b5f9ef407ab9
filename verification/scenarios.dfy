/** A worked run of one poll: creation, a vote, a repeated vote, a view,
    and two presses with ids that are not the poll's buttons. */
module Scenarios {
  import opened Results
  import opened Polls
  import opened Responses
  import opened Handler

  const Message: MessageId := 1001

  function Created(): Store {
    CreatePoll(map[], Message, "T", "D", "Y", "N")
  }

  /** The store after user 42 pressed "Yes!" on the new poll. */
  function AfterVote(): Store {
    match Handle(Created(), Press(Message, 42, YesId), true)
    case Ok(step) => step.store
    case Err(_) => Created()
  }

  lemma CreatedPollIsEmpty()
    ensures Created()[Key(Message)] == Poll("T", "D", "Y", "N", [], [])
  {
  }

  lemma FirstVoteRecorded()
    ensures Handle(Created(), Press(Message, 42, YesId), true).Ok?
    ensures Handle(Created(), Press(Message, 42, YesId), true).value.reply == Some(Ephemeral("You voted yes!"))
    ensures AfterVote()[Key(Message)] == Poll("T", "D", "Y", "N", [42], [])
  {
    VoteYesRecorded(Created(), Message, 42);
  }

  lemma SecondVoteRejected()
    ensures Handle(AfterVote(), Press(Message, 42, NoId), true) == Ok(Step(Some(Ephemeral("You already voted!")), AfterVote()))
  {
    FirstVoteRecorded();
    AlreadyVotedRejected(AfterVote(), Message, 42, NoId);
  }

  lemma ViewShowsOneYes()
    ensures Handle(AfterVote(), Press(Message, 7, ViewId), true) == Ok(Step(Some(Ephemeral("Yes: 1 No: 0")), AfterVote()))
  {
    FirstVoteRecorded();
    assert StateOf(AfterVote()[Key(Message)], 7) == NotVoted;
    ViewReportsCounts(AfterVote(), Message, 7);
    assert Decimal.Text(1) == "1" && Decimal.Text(0) == "0";
    assert ResultsText(1, 0) == "Yes: 1 No: 0";
  }

  lemma BogusPollIdSilent()
    ensures Handle(AfterVote(), Press(Message, 9, "poll_bogus"), true) == Ok(Step(None, AfterVote()))
  {
    FirstVoteRecorded();
    assert StateOf(AfterVote()[Key(Message)], 9) == NotVoted;
    UnrecognizedIdSavesUnchanged(AfterVote(), Message, 9, "poll_bogus", true);
  }

  lemma ForeignIdUnknown()
    ensures Handle(AfterVote(), Press(Message, 9, "bogus_token"), true) == Ok(Step(Some(Ephemeral("Unknown id")), AfterVote()))
  {
    FirstVoteRecorded();
    assert "bogus_token"[..|PollPrefix|] == "bogus";
    ForeignIdRejected(AfterVote(), Message, 9, "bogus_token");
  }
}
