/** What `eph_text` sends back: a private text, visible only to the user
    who pressed the button. */
module Responses {
  import opened Results
  import Decimal

  datatype Response = Ephemeral(text: string)

  const UnknownIdText := "Unknown id"
  const AlreadyVotedText := "You already voted!"
  const VotedYesText := "You voted yes!"
  const VotedNoText := "You voted no!"

  const YesLabel := "Yes: "
  const NoLabel := " No: "

  /** `format!("Yes: {} No: {}", yes, no)`: the reply reads back as
      exactly the two counts. */
  function ResultsText(yes: nat, no: nat): (t: string)
    ensures ParseResults(t) == Some((yes, no))
  {
    Decimal.ParseText(yes);
    Decimal.ParseText(no);
    ParseLayout(Decimal.Text(yes), Decimal.Text(no));
    YesLabel + Decimal.Text(yes) + NoLabel + Decimal.Text(no)
  }

  /** Index of the first space of `s`, or `|s|` when there is none. */
  function FirstSpace(s: string): (k: nat)
    ensures k <= |s|
    ensures forall i :: 0 <= i < k ==> s[i] != ' '
    ensures k < |s| ==> s[k] == ' '
    decreases |s|
  {
    if |s| == 0 || s[0] == ' ' then 0 else 1 + FirstSpace(s[1..])
  }

  /** Reads the two counts back out of a results text. */
  function ParseResults(t: string): Option<(nat, nat)> {
    if |t| < |YesLabel| || t[..|YesLabel|] != YesLabel then None
    else
      var rest := t[|YesLabel|..];
      var k := FirstSpace(rest);
      if |rest| < k + |NoLabel| || rest[k..k + |NoLabel|] != NoLabel then None
      else
        match (Decimal.Parse(rest[..k]), Decimal.Parse(rest[k + |NoLabel|..]))
        case (Some(y), Some(n)) => Some((y, n))
        case _ => None
  }

  /** Two digit runs laid out as a results text are read back as they were. */
  lemma ParseLayout(y: string, n: string)
    requires Decimal.Canonical(y) && Decimal.Canonical(n)
    ensures ParseResults(YesLabel + y + NoLabel + n) == Some((Decimal.Value(y), Decimal.Value(n)))
  {
    var t := YesLabel + y + NoLabel + n;
    var rest := y + NoLabel + n;
    assert t == YesLabel + rest;
    assert t[..|YesLabel|] == YesLabel && t[|YesLabel|..] == rest;
    var k := FirstSpace(rest);
    assert rest[|y|] == ' ';
    assert k == |y|;
    assert rest[..k] == y;
    assert rest[k..k + |NoLabel|] == NoLabel;
    assert rest[k + |NoLabel|..] == n;
  }

  /** Distinct counts give distinct texts, and a results text is never one
      of the fixed replies. */
  lemma ResultsTextDistinct(yes: nat, no: nat, yes': nat, no': nat)
    ensures ResultsText(yes, no) == ResultsText(yes', no') <==> yes == yes' && no == no'
    ensures ResultsText(yes, no) !in {UnknownIdText, AlreadyVotedText, VotedYesText, VotedNoText}
  {
    var t := ResultsText(yes, no);
    assert t[0] == 'Y';
    assert t[1] == 'e';
  }
}
