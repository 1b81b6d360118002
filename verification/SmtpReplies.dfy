/**
 The replies in the runs of the mail sender (libmailexchange/smtp.hpp). The dialogue goes on from a stage exactly when the
 reply has the code that the stage asks for, so that a success reported means that the server has answered every stage
 of one attempt with that code.
 */
module SmtpReplies {
  import opened Smtp
  import opened SmtpRun
  import opened SmtpGuard

  // ---------- one reply ----------

  /** The lines are the reply that a stage asks for. */
  ghost predicate Wanted(stage: Stage, lines: seq<string>)
  {
    match stage
    case Greeting => Accepts(lines, "220")
    case Ehlo => Accepts(lines, "250")
    case StartTls => Accepts(lines, "220")
    case Auth => Accepts(lines, "235")
    case MailFrom => Accepts(lines, "250")
    case Data => Accepts(lines, "354")
    case Mail => Accepts(lines, "250")
  }

  /** What has come, together with what was left over, is the reply that the stage asks for. */
  ghost predicate Accepted(s: State, e: Event, stage: Stage)
  {
    e.Completed? && Wanted(stage, Lines(s.buf + e.input))
  }

  ghost predicate RecipientAccepted(s: State, e: Event)
  {
    e.Completed? && Accepts(Lines(s.buf + e.input), "250")
  }

  /** The attempt has failed: a pause follows, or the caller is told. */
  predicate Stopped(phase: Phase)
  {
    phase == Paused || phase == Over(false)
  }

  lemma RetryStops(s: State)
    ensures Stopped(Retry(s).phase) && Retry(s).log == s.log
  {
  }

  lemma OfferGoesOn(c: Letter, s: State, who: nat)
    ensures var t := Offer(c, s, who);
            && s.log <= t.log && t.tls == s.tls && t.taken == s.taken && Agreed(MailFrom) !in t.log[|s.log|..]
            && Taken !in t.log[|s.log|..]
            && (Stopped(t.phase) || t.phase.Offering? || (t.phase == Writing(Data) && t.taken > 0))
  {
    hide LineText;
  }

  lemma ProceedGoesOn(c: Letter, s: State, stage: Stage)
    ensures var t := Proceed(c, s, stage);
            && s.log <= t.log && t.tls == s.tls && Agreed(stage) !in t.log[|s.log|..]
            && (stage == MailFrom || !Stopped(t.phase)) && Taken !in t.log[|s.log|..]
            && match stage {
              case Greeting => t.phase == Writing(Ehlo)
              case Ehlo => t.phase == Writing(if s.tls then StartTls else Auth)
              case StartTls => t.phase == Handshaking
              case Auth => t.phase == Writing(MailFrom)
              case MailFrom => t.taken == 0 && (Stopped(t.phase) || t.phase.Offering?)
              case Data => t.phase == Writing(Mail) && t.taken == s.taken
              case Mail => t.phase == Over(true) && t.taken == s.taken
            }
  {
    hide LineText, Offer;
    OfferGoesOn(c, s.(taken := 0, outcomes := []), 0);
  }

  lemma CodeWanted(s: State, stage: Stage, input: string)
    ensures Check(s.buf + input, Code(stage)).ok <==> Accepted(s, Completed(input), stage)
  {
    hide Check, Accepts, Lines;
    CheckIff(s.buf + input, Code(stage));
  }

  /**
   While a reply is read, the stage is agreed on if and only if the reply has come and has the code asked for. Otherwise
   nothing is recorded and the attempt is over.
   */
  lemma ReplyIff(c: Letter, events: seq<Event>, e: Event)
    requires Run(c, events).phase.Reading?
    ensures var s, t := Run(c, events), Run(c, events + [e]);
            var stage := s.phase.stage;
            && s.log <= t.log
            && (Agreed(stage) in t.log[|s.log|..] <==> Accepted(s, e, stage))
            && (if Accepted(s, e, stage) then s.log + [Agreed(stage)] <= t.log else t.log == s.log && Stopped(t.phase))
  {
    hide Run, Answer, Accepted;
    StepOf(c, events, e);
    var s := Run(c, events);
    RetryStops(s);
    if e.Completed? {
      AnswerIff(c, s, s.phase.stage, e.input);
    } else {
      FailedIsNoReply(s, e, s.phase.stage);
    }
  }

  lemma StepOf(c: Letter, events: seq<Event>, e: Event)
    ensures Run(c, events + [e]) == Step(c, Run(c, events), e)
  {
    hide Step;
    assert (events + [e])[..|events|] == events;
  }

  lemma FailedIsNoReply(s: State, e: Event, stage: Stage)
    requires e.Failed?
    ensures !Accepted(s, e, stage) && !RecipientAccepted(s, e)
  {
  }

  lemma AnswerIff(c: Letter, s: State, stage: Stage, input: string)
    ensures var t, ok := Answer(c, s, stage, input), Accepted(s, Completed(input), stage);
            && s.log <= t.log && (Agreed(stage) in t.log[|s.log|..] <==> ok)
            && (if ok then s.log + [Agreed(stage)] <= t.log else t.log == s.log && Stopped(t.phase))
  {
    hide Proceed, Retry, Check, Accepted;
    CodeWanted(s, stage, input);
    var s1 := Noticed(s, stage, Check(s.buf + input, Code(stage)));
    RetryStops(s1);
    var u := s1.(log := s1.log + [Agreed(stage)]);
    ProceedGoesOn(c, u, stage);
    assert u.log[|s.log|] == Agreed(stage);
  }

  /**
   While the reply about a recipient is read, the recipient is taken if and only if it has come and has the code 250.
   */
  lemma RecipientIff(c: Letter, events: seq<Event>, e: Event)
    requires Run(c, events).phase.Awaiting?
    ensures var s, t := Run(c, events), Run(c, events + [e]);
            && s.log <= t.log
            && (Taken in t.log[|s.log|..] <==> RecipientAccepted(s, e))
            && (e.Completed? ==> s.log + [if RecipientAccepted(s, e) then Taken else Refused] <= t.log)
            && t.taken == s.taken + (if RecipientAccepted(s, e) then 1 else 0)
  {
    hide Run, RecipientAnswer, RecipientAccepted, EndRecipients, RcptText, CutShort;
    StepOf(c, events, e);
    var s := Run(c, events);
    if e.Completed? {
      RecipientAnswerIff(c, s, s.phase.who, s.phase.angled, e.input);
    } else {
      FailedIsNoReply(s, e, Greeting);
      EndTakesNone(c, s, CutShort(c, s.tls, s.phase.who, s.phase.angled, |RcptText(c, s.phase.who, s.phase.angled)|));
    }
  }

  lemma EndTakesNone(c: Letter, s: State, cut: seq<Entry>)
    ensures var t := EndRecipients(c, s, cut);
            && s.log <= t.log && Taken !in t.log[|s.log|..] && t.taken == s.taken && t.tls == s.tls
            && (Stopped(t.phase) || (t.phase == Writing(Data) && t.taken > 0))
  {
    hide LineText;
  }

  lemma RecipientAnswerIff(c: Letter, s: State, who: nat, angled: bool, input: string)
    ensures var t, ok := RecipientAnswer(c, s, who, angled, input), RecipientAccepted(s, Completed(input));
            && s.log <= t.log && (Taken in t.log[|s.log|..] <==> ok)
            && s.log + [if ok then Taken else Refused] <= t.log
            && t.taken == s.taken + (if ok then 1 else 0) && t.tls == s.tls
            && (Stopped(t.phase) || t.phase.Offering? || (t.phase == Writing(Data) && t.taken > 0))
  {
    hide Offer, Check, Accepts, Lines;
    CheckIff(s.buf + input, "250");
    var r := Check(s.buf + input, "250");
    var s1 := s.(buf := r.rest);
    var outcome := if angled then Angled else AtOnce;
    var good := s1.(taken := s1.taken + 1, log := s1.log + [Taken], outcomes := s1.outcomes + [outcome]);
    var bad := s1.(log := s1.log + [Refused], outcomes := s1.outcomes + [Neither]);
    OfferGoesOn(c, good, who + 1);
    OfferGoesOn(c, bad, who + 1);
    if r.ok {
      assert good.log[|s.log|] == Taken;
      assert RecipientAnswer(c, s, who, angled, input).log[|s.log|] == Taken;
    }
  }

  // ---------- the replies of an attempt ----------

  /** The stages that an attempt has behind it; all of them when success is reported. */
  function Passed(phase: Phase, tls: bool): (stages: seq<Stage>)
  {
    var hello := [Greeting, Ehlo] + if tls then [StartTls] else [];
    match phase
    case Paused => []
    case Connecting => []
    case Writing(stage) => PassedBefore(stage, hello)
    case Reading(stage) => PassedBefore(stage, hello)
    case Handshaking => [Greeting, Ehlo, StartTls]
    case Offering(_, _) => hello + [Auth, MailFrom]
    case Awaiting(_, _) => hello + [Auth, MailFrom]
    case Over(ok) => if ok then hello + [Auth, MailFrom, Data, Mail] else []
  }

  function PassedBefore(stage: Stage, hello: seq<Stage>): (stages: seq<Stage>)
  {
    match stage
    case Greeting => []
    case Ehlo => [Greeting]
    case StartTls => [Greeting, Ehlo]
    case Auth => hello
    case MailFrom => hello + [Auth]
    case Data => hello + [Auth, MailFrom]
    case Mail => hello + [Auth, MailFrom, Data]
  }

  /** Whether recipients are offered, or have been. */
  predicate PastMailFrom(phase: Phase)
  {
    match phase
    case Writing(stage) => stage == Data || stage == Mail
    case Reading(stage) => stage == Data || stage == Mail
    case Offering(_, _) => true
    case Awaiting(_, _) => true
    case Over(ok) => ok
    case _ => false
  }

  predicate Got(s: State)
  {
    PastMailFrom(s.phase) && s.taken > 0
  }

  /** There is an encrypted stream where the dialogue uses it, and a recipient is taken where the mail follows. */
  ghost predicate Sound(s: State)
  {
    && (s.phase == Handshaking || s.phase == Reading(StartTls) || s.phase == Writing(StartTls) ==> s.tls)
    && (PastMailFrom(s.phase) && !s.phase.Offering? && !s.phase.Awaiting? ==> s.taken > 0)
  }

  /** How a step goes on with the attempt: it stays where it is, or has one more stage behind it. */
  ghost predicate GoesOn(s: State, e: Event, t: State)
  {
    && (|| Passed(t.phase, t.tls) == Passed(s.phase, s.tls)
        || (&& s.phase.Reading? && Accepted(s, e, s.phase.stage)
            && Passed(t.phase, t.tls) == Passed(s.phase, s.tls) + [s.phase.stage]))
    && (Got(t) ==> Got(s) || (s.phase.Awaiting? && RecipientAccepted(s, e)))
    && Sound(t) && (s.phase != Reading(Ehlo) ==> t.tls == s.tls)
  }

  lemma AnswerGoesOn(c: Letter, s: State, stage: Stage, input: string)
    requires Sound(s) && s.phase == Reading(stage) && !Stopped(Answer(c, s, stage, input).phase)
    ensures GoesOn(s, Completed(input), Answer(c, s, stage, input))
  {
    hide Proceed, Retry, Check, Accepted, RecipientAccepted;
    CodeWanted(s, stage, input);
    var s1 := Noticed(s, stage, Check(s.buf + input, Code(stage)));
    RetryStops(s1);
    ProceedGoesOn(c, s1.(log := s1.log + [Agreed(stage)]), stage);
  }

  lemma StepGoesOn(c: Letter, s: State, e: Event)
    requires Sound(s) && s.phase != Paused && !s.phase.Over? && !Stopped(Step(c, s, e).phase)
    ensures GoesOn(s, e, Step(c, s, e))
  {
    hide Answer, RecipientAnswer, EndRecipients, RcptText, CutShort, Retry, LineText, Accepted, RecipientAccepted;
    RetryStops(s);
    match s.phase
    case Offering(who, angled) =>
      if e.Failed? {
        var k := Partly(|RcptText(c, who, angled)|, e.sent);
        EndTakesNone(c, Offered(c, s, who, angled, k), CutShort(c, s.tls, who, angled, k));
      }
    case Awaiting(who, angled) =>
      if e.Failed? {
        EndTakesNone(c, s, CutShort(c, s.tls, who, angled, |RcptText(c, who, angled)|));
      } else {
        RecipientAnswerIff(c, s, who, angled, e.input);
      }
    case Writing(stage) =>
      if e.Failed? {
        RetryStops(Transfer(s, stage, Partly(|s.unsent|, e.sent)));
      }
    case Reading(stage) =>
      if e.Completed? {
        AnswerGoesOn(c, s, stage, e.input);
      }
    case _ =>
  }

  /** Event k has brought the reply that a stage asks for. */
  ghost predicate AnsweredAt(c: Letter, events: seq<Event>, k: nat, stage: Stage)
  {
    k < |events| && Run(c, events[..k]).phase == Reading(stage) && Accepted(Run(c, events[..k]), events[k], stage)
  }

  /** Event k has brought the reply 250 about a recipient. */
  ghost predicate TakenAt(c: Letter, events: seq<Event>, k: nat)
  {
    k < |events| && Run(c, events[..k]).phase.Awaiting? && RecipientAccepted(Run(c, events[..k]), events[k])
  }

  /** The replies to the given stages have come one after the other since event j. */
  ghost predicate Answers(c: Letter, events: seq<Event>, j: nat, stages: seq<Stage>, ks: seq<nat>)
  {
    && |ks| == |stages| && (forall i :: 0 <= i < |ks| ==> j < ks[i] && AnsweredAt(c, events, ks[i], stages[i]))
    && forall i, l :: 0 <= i < l < |ks| ==> ks[i] < ks[l]
  }

  /** And between those to MAIL FROM and DATA one about a recipient. */
  ghost predicate Recipient(c: Letter, events: seq<Event>, tls: bool, ks: seq<nat>, r: nat)
  {
    var m := if tls then 4 else 3;
    m < |ks| && ks[m] < r && TakenAt(c, events, r) && (m + 1 < |ks| ==> r < ks[m + 1])
  }

  lemma Earlier(c: Letter, events: seq<Event>, e: Event, j: nat, stages: seq<Stage>, ks: seq<nat>, tls: bool, r: nat)
    requires Answers(c, events, j, stages, ks)
    ensures Answers(c, events + [e], j, stages, ks)
    ensures Recipient(c, events, tls, ks, r) ==> Recipient(c, events + [e], tls, ks, r)
  {
    hide Run, Accepted, RecipientAccepted;
    forall i | 0 <= i < |ks|
      ensures AnsweredAt(c, events + [e], ks[i], stages[i])
    {
      assert AnsweredAt(c, events, ks[i], stages[i]);
      assert (events + [e])[..ks[i]] == events[..ks[i]];
    }
    if TakenAt(c, events, r) {
      assert (events + [e])[..r] == events[..r];
    }
  }

  lemma OneMoreAnswer(c: Letter, events: seq<Event>, e: Event, j: nat, stages: seq<Stage>, ks: seq<nat>)
    requires Answers(c, events, j, stages, ks) && j < |events|
    requires Run(c, events).phase.Reading? && Accepted(Run(c, events), e, Run(c, events).phase.stage)
    ensures Answers(c, events + [e], j, stages + [Run(c, events).phase.stage], ks + [|events|])
  {
    hide Run, Accepted;
    Earlier(c, events, e, j, stages, ks, false, 0);
    assert (events + [e])[..|events|] == events;
    assert forall i :: 0 <= i < |ks| ==> AnsweredAt(c, events, ks[i], stages[i]);
  }

  /** What every run keeps: the replies of the attempt at hand. */
  ghost predicate Kept(c: Letter, events: seq<Event>, j: nat, ks: seq<nat>, r: nat)
  {
    var s := Run(c, events);
    && Sound(s)
    && (!Stopped(s.phase) ==>
          && Begins(c, events, j) && Answers(c, events, j, Passed(s.phase, s.tls), ks)
          && (Got(s) ==> Recipient(c, events, s.tls, ks, r)))
  }

  lemma BeginsStill(c: Letter, events: seq<Event>, e: Event, j: nat)
    requires Begins(c, events, j) && Run(c, events).phase != Paused
    ensures Begins(c, events + [e], j)
  {
    hide Run;
    assert forall m :: 0 <= m <= |events| ==> (events + [e])[..m] == events[..m];
    assert events[..|events|] == events;
  }

  lemma KeptAtStart(c: Letter, events: seq<Event>, e: Event)
    requires Run(c, events).phase == Paused
    ensures Kept(c, events + [e], |events|, [], 0)
  {
    hide Run;
    StepOf(c, events, e);
    assert (events + [e])[..|events|] == events;
  }

  lemma KeptStopped(c: Letter, events: seq<Event>)
    requires Stopped(Run(c, events).phase)
    ensures Kept(c, events, 0, [], 0)
  {
    hide Run;
  }

  lemma KeptOver(c: Letter, events: seq<Event>, e: Event, j: nat, ks: seq<nat>, r: nat)
    requires Kept(c, events, j, ks, r) && Run(c, events).phase == Over(true)
    ensures Kept(c, events + [e], j, ks, r)
  {
    hide Run, Answers, Recipient, Begins;
    StepOf(c, events, e);
    var s := Run(c, events);
    BeginsStill(c, events, e, j);
    Earlier(c, events, e, j, Passed(s.phase, s.tls), ks, s.tls, r);
  }

  lemma RecipientNow(c: Letter, events: seq<Event>, e: Event, j: nat, stages: seq<Stage>, ks: seq<nat>, tls: bool)
    requires Answers(c, events, j, stages, ks) && |ks| == if tls then 5 else 4
    requires Run(c, events).phase.Awaiting? && RecipientAccepted(Run(c, events), e)
    ensures Recipient(c, events + [e], tls, ks, |events|)
  {
    hide Run, RecipientAccepted;
    assert (events + [e])[..|events|] == events;
    assert AnsweredAt(c, events, ks[|ks| - 1], stages[|ks| - 1]);
  }

  lemma RecipientBefore(c: Letter, events: seq<Event>, e: Event, tls: bool, ks: seq<nat>, r: nat)
    requires Recipient(c, events, tls, ks, r)
    ensures Recipient(c, events + [e], tls, ks, r) && Recipient(c, events + [e], tls, ks + [|events|], r)
  {
    hide Run, RecipientAccepted;
    assert (events + [e])[..r] == events[..r];
  }

  lemma KeptOn(c: Letter, events: seq<Event>, e: Event, j: nat, ks: seq<nat>, r: nat) returns (ks': seq<nat>, r': nat)
    requires Kept(c, events, j, ks, r) && !Stopped(Run(c, events).phase) && !Run(c, events).phase.Over?
    requires !Stopped(Run(c, events + [e]).phase)
    ensures Kept(c, events + [e], j, ks', r')
  {
    hide Run, Answers, Recipient, Begins, Accepted, RecipientAccepted, Step;
    StepOf(c, events, e);
    var s, t := Run(c, events), Run(c, events + [e]);
    StepGoesOn(c, s, e);
    BeginsStill(c, events, e, j);
    var stages := Passed(s.phase, s.tls);
    AnsweredBefore(c, events, j, stages, ks);
    Earlier(c, events, e, j, stages, ks, s.tls, r);
    ks', r' := ks, r;
    if Passed(t.phase, t.tls) != stages {
      OneMoreAnswer(c, events, e, j, stages, ks);
      ks' := ks + [|events|];
    }
    if Got(s) {
      RecipientBefore(c, events, e, s.tls, ks, r);
    } else if Got(t) {
      RecipientNow(c, events, e, j, stages, ks, s.tls);
      r' := |events|;
    }
  }

  lemma AnsweredBefore(c: Letter, events: seq<Event>, j: nat, stages: seq<Stage>, ks: seq<nat>)
    requires Answers(c, events, j, stages, ks) && Begins(c, events, j)
    ensures |ks| == |stages| && j < |events|
  {
  }

  lemma {:induction false} RunAnswers(c: Letter, events: seq<Event>) returns (j: nat, ks: seq<nat>, r: nat)
    ensures Kept(c, events, j, ks, r)
  {
    hide Kept, Step;
    if Stopped(Run(c, events).phase) {
      j, ks, r := 0, [], 0;
      KeptStopped(c, events);
    } else {
      var k := |events| - 1;
      var s := Run(c, events[..k]);
      assert events == events[..k] + [events[k]];
      if s.phase == Paused {
        j, ks, r := k, [], 0;
        KeptAtStart(c, events[..k], events[k]);
      } else {
        j, ks, r := RunAnswers(c, events[..k]);
        if s.phase == Over(true) {
          KeptOver(c, events[..k], events[k], j, ks, r);
        } else {
          NotRevived(c, s, events[k]);
          ks, r := KeptOn(c, events[..k], events[k], j, ks, r);
        }
      }
    }
  }

  lemma NotRevived(c: Letter, s: State, e: Event)
    ensures s.phase == Over(false) ==> Step(c, s, e).phase == Over(false)
  {
  }

  /**
   When success is reported, the server has answered the greeting with 220, EHLO with 250, STARTTLS, if there is an
   encrypted stream, with 220, AUTH with 235, MAIL FROM with 250, at least one recipient with 250, DATA with 354 and the
   mail with 250: in this order, and all within one attempt.
   */
  lemma SuccessReplies(c: Letter, events: seq<Event>) returns (j: nat, ks: seq<nat>, r: nat)
    requires true in Run(c, events).calls
    ensures var tls := Run(c, events).tls;
            var stages := [Greeting, Ehlo] + (if tls then [StartTls] else []) + [Auth, MailFrom, Data, Mail];
            Begins(c, events, j) && Answers(c, events, j, stages, ks) && Recipient(c, events, tls, ks, r)
  {
    hide Run, Answers, Recipient, Begins;
    j, ks, r := RunAnswers(c, events);
    RunAccounts(c, events);
    assert Run(c, events).phase == Over(true);
  }

  // ---------- the offer of encryption ----------

  lemma {:induction false} TextsIff(lines: seq<string>, code: string, t: string)
    ensures t in Texts(lines, code) <==> exists i :: 0 <= i < |lines| && lines[i] != "" && Text(lines[i], code) == t
  {
    hide Text;
    if lines != [] {
      TextsIff(lines[1..], code, t);
      if t in Texts(lines[1..], code) {
        var i :| 0 <= i < |lines[1..]| && lines[1..][i] != "" && Text(lines[1..][i], code) == t;
        assert lines[i + 1] == lines[1..][i];
      }
      if exists i :: 0 <= i < |lines| && lines[i] != "" && Text(lines[i], code) == t {
        var i :| 0 <= i < |lines| && lines[i] != "" && Text(lines[i], code) == t;
        if i > 0 {
          assert lines[1..][i - 1] == lines[i];
        }
      }
    }
  }

  /** A line of the reply to EHLO that still belongs to it names STARTTLS. */
  ghost predicate NamesTls(lines: seq<string>)
  {
    exists k :: 0 <= k < |lines| && (lines[k] == "250-STARTTLS" || lines[k] == "250 STARTTLS")
                && forall j :: 0 <= j < k ==> Smtp.Continues(lines[j], "250")
  }

  lemma NamedIff(line: string)
    ensures Marked(line, "250", '-') && Text(line, "250") == "STARTTLS" <==> line == "250-STARTTLS"
    ensures Marked(line, "250", ' ') && Text(line, "250") == "STARTTLS" <==> line == "250 STARTTLS"
  {
    TextIsBehind(line, "250", '-');
    TextIsBehind(line, "250", ' ');
    assert "250" + ['-'] + "STARTTLS" == "250-STARTTLS" && "250" + [' '] + "STARTTLS" == "250 STARTTLS";
    assert "250-STARTTLS"[4..] == "STARTTLS" && "250 STARTTLS"[4..] == "STARTTLS";
    assert "250-STARTTLS"[..3] == "250" && "250 STARTTLS"[..3] == "250";
  }

  lemma ReplyNamesTls(buf: string)
    ensures "STARTTLS" in Check(buf, "250").texts <==> NamesTls(Lines(buf))
  {
    hide Check, Lines, Marked, Text, Texts;
    var k := CheckStops(buf, "250");
    var lines, r := Lines(buf), Check(buf, "250");
    var front := lines[..k];
    TextsIff(front, "250", "STARTTLS");
    BlankUnmarked("250");
    forall line: string
      ensures Marked(line, "250", '-') && Text(line, "250") == "STARTTLS" <==> line == "250-STARTTLS"
      ensures Marked(line, "250", ' ') && Text(line, "250") == "STARTTLS" <==> line == "250 STARTTLS"
    {
      NamedIff(line);
    }
    if NamesTls(lines) {
      var i :| 0 <= i < |lines| && (lines[i] == "250-STARTTLS" || lines[i] == "250 STARTTLS")
               && forall j :: 0 <= j < i ==> Smtp.Continues(lines[j], "250");
      if i < k {
        assert front[i] == lines[i] && Smtp.Continues(lines[i], "250");
      }
    }
  }

  /**
   The reply to EHLO gives the run its encrypted stream if and only if it names STARTTLS, whether or not the rest of it
   has the code.
   */
  lemma OfferIff(c: Letter, events: seq<Event>, input: string)
    requires Run(c, events).phase == Reading(Ehlo)
    ensures var s, t := Run(c, events), Run(c, events + [Completed(input)]);
            && (t.tls <==> s.tls || NamesTls(Lines(s.buf + input)))
            && (t.offered <==> s.offered || NamesTls(Lines(s.buf + input)))
  {
    hide Run, Check, Lines, NamesTls, Proceed, Retry;
    StepOf(c, events, Completed(input));
    var s := Run(c, events);
    ReplyNamesTls(s.buf + input);
    var s1 := Noticed(s, Ehlo, Check(s.buf + input, "250"));
    KeepsStream(c, s1);
    KeepsStream(c, s1.(log := s1.log + [Agreed(Ehlo)]));
  }

  lemma KeepsStream(c: Letter, s: State)
    ensures Retry(s).tls == s.tls && Retry(s).offered == s.offered
    ensures Proceed(c, s, Ehlo).tls == s.tls && Proceed(c, s, Ehlo).offered == s.offered
  {
    hide LineText;
  }

  // ---------- the read buffer ----------

  /** What a reply leaves behind is what the reading of its lines leaves behind. */
  ghost function LeftBy(stage: Stage, buf: string): (rest: string)
  {
    match stage
    case Greeting => Check(buf, "220").rest
    case Ehlo => Check(buf, "250").rest
    case StartTls => Check(buf, "220").rest
    case Auth => Check(buf, "235").rest
    case MailFrom => Check(buf, "250").rest
    case Data => Check(buf, "354").rest
    case Mail => Check(buf, "250").rest
  }

  /** A new connection starts with an empty buffer, a reply leaves what follows it, and nothing else touches the buffer. */
  lemma BufferIs(c: Letter, events: seq<Event>, e: Event)
    ensures var s, t := Run(c, events), Run(c, events + [e]);
            t.buf == if e.Failed? then s.buf else match s.phase {
              case Connecting => ""
              case Reading(stage) => LeftBy(stage, s.buf + e.input)
              case Awaiting(_, _) => Check(s.buf + e.input, "250").rest
              case _ => s.buf
            }
  {
    hide Run, Check, Answer, RecipientAnswer, FailedOffer, EndRecipients, Issue, Retry, RcptText, CutShort, LineText;
    StepOf(c, events, e);
    var s := Run(c, events);
    KeepsBuffer(c, s, []);
    match s.phase
    case Offering(who, angled) =>
      if e.Failed? {
        FailedKeepsBuffer(c, s, who, angled, e.sent);
      }
    case Awaiting(who, angled) =>
      KeepsBuffer(c, s, CutShort(c, s.tls, who, angled, |RcptText(c, who, angled)|));
      if e.Completed? {
        RecipientLeaves(c, s, who, angled, e.input);
      }
    case Reading(stage) =>
      if e.Completed? {
        AnswerLeaves(c, s, stage, e.input);
      }
    case Writing(stage) =>
      KeepsBuffer(c, Transfer(s, stage, Partly(|s.unsent|, if e.Failed? then e.sent else 0)), []);
    case Handshaking =>
      IssueKeepsBuffer(c, s.(log := s.log + [Secured(s.offered)]), Auth);
    case _ =>
  }

  lemma IssueKeepsBuffer(c: Letter, s: State, stage: Stage)
    ensures Issue(c, s, stage).buf == s.buf
  {
  }

  lemma KeepsBuffer(c: Letter, s: State, cut: seq<Entry>)
    ensures Retry(s).buf == s.buf && EndRecipients(c, s, cut).buf == s.buf
  {
    hide LineText;
  }

  lemma OfferKeepsBuffer(c: Letter, s: State, who: nat)
    ensures Offer(c, s, who).buf == s.buf
  {
    hide EndRecipients;
    KeepsBuffer(c, s, []);
  }

  lemma FailedKeepsBuffer(c: Letter, s: State, who: nat, angled: bool, sent: nat)
    ensures FailedOffer(c, s, who, angled, sent).buf == s.buf
  {
    hide EndRecipients, RcptText, CutShort;
    var k := Partly(|RcptText(c, who, angled)|, sent);
    KeepsBuffer(c, Offered(c, s, who, angled, k), CutShort(c, s.tls, who, angled, k));
  }

  lemma RecipientLeaves(c: Letter, s: State, who: nat, angled: bool, input: string)
    ensures RecipientAnswer(c, s, who, angled, input).buf == Check(s.buf + input, "250").rest
  {
    hide Check, Offer;
    var s1 := s.(buf := Check(s.buf + input, "250").rest);
    var outcome := if angled then Angled else AtOnce;
    OfferKeepsBuffer(c, s1.(taken := s1.taken + 1, log := s1.log + [Taken], outcomes := s1.outcomes + [outcome]), who + 1);
    OfferKeepsBuffer(c, s1.(log := s1.log + [Refused], outcomes := s1.outcomes + [Neither]), who + 1);
  }

  lemma ProceedKeepsBuffer(c: Letter, s: State, stage: Stage)
    ensures Proceed(c, s, stage).buf == s.buf
  {
    hide Offer, LineText;
    OfferKeepsBuffer(c, s.(taken := 0, outcomes := []), 0);
  }

  lemma AnswerLeaves(c: Letter, s: State, stage: Stage, input: string)
    ensures Answer(c, s, stage, input).buf == LeftBy(stage, s.buf + input)
  {
    hide Check, Proceed, Retry;
    var s1 := Noticed(s, stage, Check(s.buf + input, Code(stage)));
    KeepsBuffer(c, s1, []);
    ProceedKeepsBuffer(c, s1.(log := s1.log + [Agreed(stage)]), stage);
  }
}
