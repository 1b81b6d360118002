/**
 Encryption in the runs of the mail sender (libmailexchange/smtp.hpp, smtp.cpp). The encrypted stream and the write
 buffer outlive an attempt. So STARTTLS may be sent to a server that does not offer it, and what a failed write has left
 in the buffer goes out in clear with the next EHLO. Both are stated exactly.
 */
module SmtpGuard {
  import opened Smtp
  import opened SmtpRun

  // ---------- what a step adds ----------

  /** What may be recorded by a step from s. */
  ghost predicate New(s: State, x: Entry)
  {
    match x
    case Wrote(octets, secure) =>
      || (s.phase.Writing? && octets <= s.unsent && secure == (Private(s.phase.stage) && s.tls))
      || (s.phase.Offering? && secure == s.tls)
    case Command(stage, _) => stage == StartTls ==> s.phase == Reading(Ehlo)
    case Agreed(stage) => s.phase == Reading(stage)
    case _ => true
  }

  /** In a step from s0, t continues s: the record grows, and at most a command is put into the write buffer. */
  ghost predicate Continues(c: Letter, s0: State, s: State, t: State)
  {
    && s.log <= t.log && (forall i :: |s.log| <= i < |t.log| ==> New(s0, t.log[i]))
    && t.carried == s.carried && t.tls == s.tls && t.offered == s.offered && t.gone == s.gone
    && if t.phase.Writing? then
         t.unsent == s.unsent + LineText(c, t.phase.stage) && t.written == s.written + LineText(c, t.phase.stage)
       else t.unsent == s.unsent && t.written == s.written
  }

  lemma RetryContinues(c: Letter, s0: State, s: State)
    ensures Continues(c, s0, s, Retry(s))
  {
  }

  lemma IssueContinues(c: Letter, s0: State, s: State, stage: Stage)
    requires stage == StartTls ==> s0.phase == Reading(Ehlo)
    ensures Continues(c, s0, s, Issue(c, s, stage))
  {
    hide LineText;
  }

  /** Something is recorded before. */
  lemma AfterEntry(c: Letter, s0: State, s: State, u: State, x: Entry, t: State)
    requires New(s0, x) && u.log == s.log + [x] && Continues(c, s0, u, t)
    requires u.carried == s.carried && u.tls == s.tls && u.offered == s.offered && u.gone == s.gone
    requires u.unsent == s.unsent && u.written == s.written
    ensures Continues(c, s0, s, t)
  {
    hide LineText, New;
    assert s.log <= u.log <= t.log;
  }

  lemma EndContinues(c: Letter, s0: State, s: State, cut: seq<Entry>)
    ensures Continues(c, s0, s, EndRecipients(c, s, cut))
  {
    hide Issue, Retry, LineText;
    RetryContinues(c, s0, s);
    IssueContinues(c, s0, s.(cut := cut), Data);
  }

  lemma OfferContinues(c: Letter, s0: State, s: State, who: nat)
    ensures Continues(c, s0, s, Offer(c, s, who))
  {
    hide EndRecipients, LineText;
    EndContinues(c, s0, s, []);
  }

  lemma ProceedContinues(c: Letter, s0: State, s: State, stage: Stage)
    requires s0.phase == Reading(stage)
    ensures Continues(c, s0, s, Proceed(c, s, stage))
  {
    hide Issue, Offer, LineText;
    OfferContinues(c, s0, s.(taken := 0, outcomes := []), 0);
    forall next: Stage | next == StartTls ==> stage == Ehlo
      ensures Continues(c, s0, s, Issue(c, s, next))
    {
      IssueContinues(c, s0, s, next);
    }
  }

  lemma AnswerContinues(c: Letter, s: State, stage: Stage, input: string)
    requires s.phase == Reading(stage)
    ensures Continues(c, s, Noticed(s, stage, Check(s.buf + input, Code(stage))), Answer(c, s, stage, input))
  {
    hide Proceed, Retry, Check, Continues;
    var s1 := Noticed(s, stage, Check(s.buf + input, Code(stage)));
    RetryContinues(c, s, s1);
    var u := s1.(log := s1.log + [Agreed(stage)]);
    ProceedContinues(c, s, u, stage);
    AfterEntry(c, s, s1, u, Agreed(stage), Proceed(c, u, stage));
  }

  lemma RecipientContinues(c: Letter, s: State, who: nat, angled: bool, input: string)
    ensures Continues(c, s, s, RecipientAnswer(c, s, who, angled, input))
  {
    hide Offer, Check, LineText;
    var r := Check(s.buf + input, "250");
    var s1 := s.(buf := r.rest);
    var outcome := if angled then Angled else AtOnce;
    var good := s1.(taken := s1.taken + 1, log := s1.log + [Taken], outcomes := s1.outcomes + [outcome]);
    var bad := s1.(log := s1.log + [Refused], outcomes := s1.outcomes + [Neither]);
    if r.ok {
      OfferContinues(c, s, good, who + 1);
      AfterEntry(c, s, s, good, Taken, Offer(c, good, who + 1));
    } else if angled {
      OfferContinues(c, s, bad, who + 1);
      AfterEntry(c, s, s, bad, Refused, Offer(c, bad, who + 1));
    }
  }

  lemma FailedContinues(c: Letter, s: State, who: nat, angled: bool, sent: nat)
    requires s.phase == Offering(who, angled)
    ensures Continues(c, s, s, FailedOffer(c, s, who, angled, sent))
  {
    hide EndRecipients, RcptText, CutShort, Continues;
    var k := Partly(|RcptText(c, who, angled)|, sent);
    var u := Offered(c, s, who, angled, k);
    EndContinues(c, s, u, CutShort(c, s.tls, who, angled, k));
    AfterEntry(c, s, s, u, Wrote(RcptText(c, who, angled)[..k], s.tls), FailedOffer(c, s, who, angled, sent));
  }

  /** The state whose record and buffer a step continues: a reply to EHLO may offer encryption. */
  ghost function Base(s: State, e: Event): (b: State)
  {
    if s.phase.Reading? && e.Completed? then
      Noticed(s, s.phase.stage, Check(s.buf + e.input, Code(s.phase.stage)))
    else s
  }

  lemma StepContinues(c: Letter, s: State, e: Event)
    requires s.phase != Paused && !s.phase.Over? && !s.phase.Writing?
    ensures Continues(c, s, Base(s, e), Step(c, s, e))
  {
    hide Answer, RecipientAnswer, EndRecipients, FailedOffer, Issue, Retry, LineText, RcptText, CutShort, Check,
         Noticed;
    RetryContinues(c, s, s);
    match s.phase
    case Offering(who, angled) =>
      if e.Failed? {
        FailedContinues(c, s, who, angled, e.sent);
      }
    case Awaiting(who, angled) =>
      EndContinues(c, s, s, CutShort(c, s.tls, who, angled, |RcptText(c, who, angled)|));
      if e.Completed? {
        RecipientContinues(c, s, who, angled, e.input);
      }
    case Reading(stage) =>
      if e.Completed? {
        AnswerContinues(c, s, stage, e.input);
      }
    case Handshaking =>
      var u := s.(log := s.log + [Secured(s.offered)]);
      IssueContinues(c, s, u, Auth);
      AfterEntry(c, s, s, u, Secured(s.offered), Issue(c, u, Auth));
    case _ =>
  }

  lemma SameBase(s: State, e: Event)
    ensures var b := Base(s, e);
            && b.log == s.log && b.carried == s.carried && b.gone == s.gone && b.unsent == s.unsent
            && b.written == s.written
            && (s.phase != Reading(Ehlo) ==> b.tls == s.tls && b.offered == s.offered)
            && (s.tls ==> b.tls) && (s.offered ==> b.offered) && (b.tls ==> s.tls || b.offered)
  {
    hide Check;
  }

  /** How every step but that from a pause treats the record. */
  lemma StepGrows(c: Letter, s: State, e: Event)
    requires s.phase != Paused
    ensures var t := Step(c, s, e);
            && s.log <= t.log && (forall i :: |s.log| <= i < |t.log| ==> New(s, t.log[i])) && t.carried == s.carried
            && (s.phase != Reading(Ehlo) ==> t.tls == s.tls && t.offered == s.offered)
            && (s.tls ==> t.tls) && (s.offered ==> t.offered) && (t.tls ==> s.tls || t.offered)
  {
    hide Base, LineText, New, Check, Answer, RecipientAnswer, EndRecipients, FailedOffer, Issue, RcptText, CutShort;
    if s.phase.Writing? {
      WriteGrows(c, s, e);
    } else if !s.phase.Over? {
      StepContinues(c, s, e);
      SameBase(s, e);
    }
  }

  /** How much a write transfers. */
  function Amount(s: State, e: Event): (k: nat)
    ensures k <= |s.unsent| && (e.Completed? ==> k == |s.unsent|) && (e.Failed? && s.unsent != [] ==> k < |s.unsent|)
  {
    if e.Failed? then Partly(|s.unsent|, e.sent) else |s.unsent|
  }

  lemma WriteGrows(c: Letter, s: State, e: Event)
    requires s.phase.Writing?
    ensures var t, k := Step(c, s, e), Amount(s, e);
            && t.carried == s.carried && t.tls == s.tls && t.offered == s.offered && t.written == s.written
            && t.unsent == s.unsent[k..] && t.gone == s.gone + k && !t.phase.Writing?
            && t.log == s.log + [Wrote(s.unsent[..k], Private(s.phase.stage) && s.tls)]
            && New(s, t.log[|s.log|])
  {
  }

  // ---------- STARTTLS ----------

  /** STARTTLS is sent in an attempt if and only if EHLO is agreed on and there is an encrypted stream. */
  ghost predicate TlsFollows(s: State)
  {
    Command(StartTls, false) in s.log <==> Agreed(Ehlo) in s.log && s.tls
  }

  lemma SameMembers(s: State, t: State)
    requires s.log <= t.log && (forall i :: |s.log| <= i < |t.log| ==> New(s, t.log[i])) && s.phase != Reading(Ehlo)
    ensures Agreed(Ehlo) in t.log <==> Agreed(Ehlo) in s.log
    ensures Command(StartTls, false) in t.log <==> Command(StartTls, false) in s.log
  {
    forall x | x in t.log && (x == Agreed(Ehlo) || x == Command(StartTls, false))
      ensures x in s.log
    {
      var i :| 0 <= i < |t.log| && t.log[i] == x;
      if i < |s.log| {
        assert s.log[i] == t.log[i];
      }
    }
  }

  lemma EhloFollowed(c: Letter, s: State, input: string)
    requires Logged(c, s) && s.phase == Reading(Ehlo)
    ensures TlsFollows(Answer(c, s, Ehlo, input))
  {
    hide Check, LineText, Exchanges, RecipientsDone;
    var r := Check(s.buf + input, Code(Ehlo));
    var s1 := Noticed(s, Ehlo, r);
    assert s.log == [Agreed(Greeting)] + [Command(Ehlo, false)] + [Wrote(Flushed(c, Of(s), Ehlo), false)];
    if r.ok {
      var log := s1.log + [Agreed(Ehlo)];
      var next := if s1.tls then StartTls else Auth;
      assert Answer(c, s, Ehlo, input).log == log + [Command(next, Private(next) && s1.tls)];
      assert (log + [Command(next, Private(next) && s1.tls)])[|log|] == Command(next, Private(next) && s1.tls);
      assert (log + [Command(next, Private(next) && s1.tls)])[|s1.log|] == Agreed(Ehlo);
    }
  }

  lemma StepFollows(c: Letter, s: State, e: Event)
    requires Logged(c, s) && TlsFollows(s)
    ensures TlsFollows(Step(c, s, e))
  {
    hide Logged, Answer, New, RecipientAnswer, EndRecipients, FailedOffer, Issue, RcptText, CutShort, Transfer;
    if s.phase != Paused {
      StepGrows(c, s, e);
      if s.phase != Reading(Ehlo) {
        SameMembers(s, Step(c, s, e));
      } else if e.Completed? {
        EhloFollowed(c, s, e.input);
      }
    }
  }

  /** In every state reached, STARTTLS was sent in the attempt if and only if EHLO was agreed on and a stream exists. */
  lemma {:induction false} StartTlsIff(c: Letter, events: seq<Event>)
    ensures var s := Run(c, events); Command(StartTls, false) in s.log <==> Agreed(Ehlo) in s.log && s.tls
  {
    hide Logged, Step;
    if events != [] {
      var k := |events| - 1;
      StartTlsIff(c, events[..k]);
      RunLogs(c, events[..k]);
      StepFollows(c, Run(c, events[..k]), events[k]);
    }
  }

  /** There is an encrypted stream if and only if a server has offered one at some point of the run. */
  lemma {:induction false} StreamIff(c: Letter, events: seq<Event>)
    ensures Run(c, events).tls <==> exists k :: 0 <= k <= |events| && Run(c, events[..k]).offered
  {
    hide Step;
    assert events[..|events|] == events;
    if events == [] {
      assert forall k :: 0 <= k <= |events| ==> events[..k] == [];
    } else {
      var m := |events| - 1;
      StreamIff(c, events[..m]);
      StepStream(c, Run(c, events[..m]), events[m]);
      RunAccounts(c, events);
      OfferNeedsStream(Run(c, events));
      forall k | 0 <= k <= m
        ensures events[..m][..k] == events[..k]
      {
      }
    }
  }

  lemma StepStream(c: Letter, s: State, e: Event)
    ensures (s.tls ==> Step(c, s, e).tls) && (Step(c, s, e).tls ==> s.tls || Step(c, s, e).offered)
  {
    hide New;
    if s.phase != Paused {
      StepGrows(c, s, e);
    }
  }

  lemma OfferNeedsStream(s: State)
    requires Accounted(s)
    ensures s.offered ==> s.tls
  {
  }

  /**
   STARTTLS is sent to a server that has not offered it in this attempt if and only if that server agreed to EHLO and a
   server has offered encryption at an earlier point of the run.
   */
  lemma StaleIff(c: Letter, events: seq<Event>)
    ensures var s := Run(c, events);
            Command(StartTls, false) in s.log && !s.offered
            <==> Agreed(Ehlo) in s.log && !s.offered && exists k :: 0 <= k < |events| && Run(c, events[..k]).offered
  {
    hide Run;
    StartTlsIff(c, events);
    StreamIff(c, events);
    assert events[..|events|] == events;
  }

  // ---------- the write buffer ----------

  ghost predicate HasSecret(octets: seq<Octet>)
  {
    exists i :: 0 <= i < |octets| && octets[i].secret
  }

  /** What is unsent is the end of all that was ever put into the buffer. */
  ghost predicate Buffered(s: State)
  {
    s.gone <= |s.written| && s.unsent == s.written[s.gone..]
  }

  lemma StepBuffers(c: Letter, s: State, e: Event)
    requires Buffered(s)
    ensures var t := Step(c, s, e); Buffered(t) && s.written <= t.written && s.gone <= t.gone
  {
    hide LineText, New, Check, Answer, RecipientAnswer, EndRecipients, FailedOffer, Issue, RcptText, CutShort, Base,
         Retry,
         Transfer;
    if s.phase.Writing? {
      WriteGrows(c, s, e);
    } else if s.phase != Paused && !s.phase.Over? {
      StepContinues(c, s, e);
      SameBase(s, e);
      MoreWritten(c, s, Step(c, s, e));
    }
  }

  lemma MoreWritten(c: Letter, s: State, t: State)
    requires Buffered(s) && t.gone == s.gone
    requires if t.phase.Writing? then
               t.unsent == s.unsent + LineText(c, t.phase.stage) && t.written == s.written + LineText(c, t.phase.stage)
             else t.unsent == s.unsent && t.written == s.written
    ensures Buffered(t) && s.written <= t.written
  {
    hide LineText;
    if t.phase.Writing? {
      assert (s.written + LineText(c, t.phase.stage))[s.gone..] == s.written[s.gone..] + LineText(c, t.phase.stage);
    }
  }

  lemma {:induction false} RunBuffers(c: Letter, events: seq<Event>, k: nat)
    requires k <= |events|
    ensures Buffered(Run(c, events)) && Run(c, events[..k]).written <= Run(c, events).written
    decreases |events|
  {
    hide Step;
    if k == |events| {
      assert events[..k] == events;
      if events != [] {
        var m := |events| - 1;
        RunBuffers(c, events[..m], m);
        StepBuffers(c, Run(c, events[..m]), events[m]);
      }
    } else {
      var m := |events| - 1;
      RunBuffers(c, events[..m], k);
      assert events[..m][..k] == events[..k];
      StepBuffers(c, Run(c, events[..m]), events[m]);
    }
  }

  predicate WritingPrivate(phase: Phase)
  {
    phase.Writing? && Private(phase.stage)
  }

  /** Event k has made the write of a private command fail, so that some of it stayed in the buffer. */
  ghost predicate LeftOver(c: Letter, events: seq<Event>, k: nat)
  {
    k < |events| && WritingPrivate(Run(c, events[..k]).phase) && events[k].Failed?
  }

  /** And less has been transferred since than was left: the end of that command is still in the buffer. */
  ghost predicate Stuck(c: Letter, events: seq<Event>, k: nat)
  {
    LeftOver(c, events, k) && Run(c, events).gone < |Run(c, events[..k]).written|
  }

  /** Octet i of all that was written comes from a private command whose write has failed. */
  ghost predicate Blamed(c: Letter, events: seq<Event>, i: nat)
  {
    exists k: nat :: LeftOver(c, events, k) && i < |Run(c, events[..k]).written|
  }

  lemma BlamedLater(c: Letter, events: seq<Event>, e: Event, i: nat)
    requires Blamed(c, events, i)
    ensures Blamed(c, events + [e], i)
  {
    hide Run;
    var k: nat :| LeftOver(c, events, k) && i < |Run(c, events[..k]).written|;
    assert (events + [e])[..k] == events[..k];
    assert LeftOver(c, events + [e], k);
  }

  lemma BlamedNow(c: Letter, events: seq<Event>, e: Event, i: nat)
    requires WritingPrivate(Run(c, events).phase) && e.Failed? && i < |Run(c, events).written|
    ensures Blamed(c, events + [e], i)
  {
    hide Run;
    assert (events + [e])[..|events|] == events;
    assert LeftOver(c, events + [e], |events|);
  }

  /** Whatever secret is in the buffer, unless it is being written, was left there by a failed write. */
  ghost predicate Explained(c: Letter, events: seq<Event>)
  {
    var s := Run(c, events);
    !WritingPrivate(s.phase) ==>
      forall i: nat :: s.gone <= i < |s.written| && s.written[i].secret ==> Blamed(c, events, i)
  }

  lemma StepExplained(c: Letter, events: seq<Event>, e: Event)
    requires Explained(c, events) && Buffered(Run(c, events))
    ensures Explained(c, events + [e])
  {
    hide Run, Blamed, LineText, New, Check, Answer, RecipientAnswer, EndRecipients, FailedOffer, Issue, RcptText,
         CutShort,
         Base, Retry, Transfer;
    var s, t := Run(c, events), Step(c, Run(c, events), e);
    OneMore(c, events, e);
    forall i: nat | t.gone <= i < |t.written| && t.written[i].secret && !WritingPrivate(t.phase)
      ensures Blamed(c, events + [e], i)
    {
      StepBuffers(c, s, e);
      if s.phase.Writing? {
        WriteGrows(c, s, e);
        if Private(s.phase.stage) {
          BlamedNow(c, events, e, i);
        } else {
          BlamedLater(c, events, e, i);
        }
      } else {
        OldSecret(c, s, e, i);
        BlamedLater(c, events, e, i);
      }
    }
  }

  lemma OldSecret(c: Letter, s: State, e: Event, i: nat)
    requires !s.phase.Writing? && Buffered(s)
    requires i < |Step(c, s, e).written| && Step(c, s, e).written[i].secret && !WritingPrivate(Step(c, s, e).phase)
    ensures Step(c, s, e).gone == s.gone && i < |s.written| && s.written[i].secret
  {
    hide New, Check, Answer, RecipientAnswer, EndRecipients, FailedOffer, Issue, RcptText, CutShort, Base, Retry;
    if s.phase != Paused && !s.phase.Over? {
      StepContinues(c, s, e);
      SameBase(s, e);
    }
  }

  lemma OneMore(c: Letter, events: seq<Event>, e: Event)
    ensures Run(c, events + [e]) == Step(c, Run(c, events), e)
  {
    hide Step;
    assert (events + [e])[..|events|] == events;
  }

  lemma {:induction false} RunExplained(c: Letter, events: seq<Event>)
    ensures Explained(c, events)
  {
    hide Step, Blamed;
    if events != [] {
      var k := |events| - 1;
      RunExplained(c, events[..k]);
      RunBuffers(c, events[..k], k);
      StepExplained(c, events[..k], events[k]);
      assert events[..k] + [events[k]] == events;
    }
  }

  /** A failed write leaves the last octet of its command. */
  lemma LastLeft(c: Letter, events: seq<Event>)
    requires WritingPrivate(Run(c, events).phase)
    ensures var w := Run(c, events).written; w != [] && w[|w| - 1].secret
  {
    hide Run, Before, Through, Exchanges, RecipientsDone;
    var s := Run(c, events);
    RunLogs(c, events);
    RunBuffers(c, events, 0);
    var text := LineText(c, s.phase.stage);
    assert s.unsent == [] + text == text;
    assert s.written[|s.written| - 1] == s.unsent[|s.unsent| - 1];
  }

  /**
   The write buffer holds a secret if and only if the write of a private command has failed and is not made up for.
   */
  lemma UnsentIff(c: Letter, events: seq<Event>)
    requires !WritingPrivate(Run(c, events).phase)
    ensures HasSecret(Run(c, events).unsent) <==> exists k: nat :: Stuck(c, events, k)
  {
    hide Run;
    var s := Run(c, events);
    RunExplained(c, events);
    RunBuffers(c, events, 0);
    if HasSecret(s.unsent) {
      var i :| 0 <= i < |s.unsent| && s.unsent[i].secret;
      assert s.written[s.gone + i] == s.unsent[i];
      assert Blamed(c, events, s.gone + i);
      var k: nat :| LeftOver(c, events, k) && s.gone + i < |Run(c, events[..k]).written|;
      assert Stuck(c, events, k);
    }
    if exists k: nat :: Stuck(c, events, k) {
      var k: nat :| Stuck(c, events, k);
      var w := Run(c, events[..k]).written;
      LastLeft(c, events[..k]);
      RunBuffers(c, events, k);
      assert s.unsent[|w| - 1 - s.gone] == s.written[|w| - 1] == w[|w| - 1];
    }
  }

  // ---------- what an attempt begins with ----------

  /** Event j ends the pause before the attempt that the record is about. */
  ghost predicate Begins(c: Letter, events: seq<Event>, j: nat)
  {
    && j < |events| && Run(c, events[..j]).phase == Paused
    && forall m :: j < m < |events| ==> Run(c, events[..m]).phase != Paused
  }

  lemma {:induction false} LastBegin(c: Letter, events: seq<Event>) returns (j: nat)
    requires events != []
    ensures Begins(c, events, j) && Run(c, events).carried == Run(c, events[..j]).unsent
    decreases |events|
  {
    hide Step;
    var m := |events| - 1;
    var s := Run(c, events[..m]);
    if s.phase == Paused {
      j := m;
      FromPause(c, s, events[m]);
    } else {
      FirstIsPause(c, events, m);
      j := LastBegin(c, events[..m]);
      assert forall k :: 0 <= k <= m ==> events[..m][..k] == events[..k];
      KeepsCarried(c, s, events[m]);
    }
  }

  lemma FirstIsPause(c: Letter, events: seq<Event>, m: nat)
    requires m <= |events| && Run(c, events[..m]).phase != Paused
    ensures m > 0
  {
  }

  lemma FromPause(c: Letter, s: State, e: Event)
    requires s.phase == Paused
    ensures Step(c, s, e).carried == s.unsent
  {
  }

  lemma KeepsCarried(c: Letter, s: State, e: Event)
    requires s.phase != Paused
    ensures Step(c, s, e).carried == s.carried
  {
    hide New;
    StepGrows(c, s, e);
  }

  /**
   The attempt began with something secret in the write buffer: before it, the write of a private command had failed,
   and less had been transferred since than was left of that command.
   */
  ghost predicate CarriesSecret(c: Letter, events: seq<Event>)
  {
    exists j: nat, k: nat :: Begins(c, events, j) && Stuck(c, events[..j], k)
  }

  lemma CarriedIff(c: Letter, events: seq<Event>)
    ensures HasSecret(Run(c, events).carried) <==> CarriesSecret(c, events)
  {
    hide Run, Stuck;
    if events == [] {
      NotBegun(c);
    } else {
      var j := LastBegin(c, events);
      UnsentIff(c, events[..j]);
      forall i: nat | Begins(c, events, i)
        ensures i == j
      {
      }
    }
  }

  // ---------- secrets on the wire ----------

  /** Secrets are transferred encrypted, behind a handshake of the attempt, or the server offers no encryption in it. */
  ghost predicate Guarded(s: State)
  {
    forall i :: 0 <= i < |s.log| && s.log[i].Wrote? && HasSecret(s.log[i].octets) ==>
      if s.log[i].secure then Secured(s.offered) in s.log[..i] else !s.offered
  }

  /** What holds without condition: a secret in clear, in spite of an offer, means that the attempt began with one. */
  ghost predicate NearlyGuarded(c: Letter, s: State)
  {
    && (forall i :: 0 <= i < |s.log| && s.log[i].Wrote? && HasSecret(s.log[i].octets) ==>
          if s.log[i].secure then Secured(s.offered) in s.log[..i] else !s.offered || HasSecret(s.carried))
    && (s.offered ==> Wrote(s.carried + LineText(c, Ehlo), false) in s.log)
  }

  lemma {:induction false} HandshakeSeen(c: Letter, a: Attempt, stage: Stage, r: seq<Entry>)
    requires a.tls && Private(stage)
    ensures Secured(a.own) in Before(c, a, stage, r) && Secured(a.own) in Through(c, a, stage, r)
    decreases Rank(stage)
  {
    hide LineText;
    var before := Before(c, a, stage, r);
    if stage == Auth {
      assert before[|before| - 1] == Secured(a.own);
    } else {
      HandshakeSeen(c, a, if stage == MailFrom then Auth else if stage == Data then MailFrom else Data, r);
    }
  }

  /** A new entry keeps to the rules. */
  lemma NewGuarded(c: Letter, s: State, x: Entry)
    requires Logged(c, s) && (s.offered ==> s.tls) && New(s, x) && x.Wrote? && HasSecret(x.octets)
    ensures if x.secure then Secured(s.offered) in s.log else !s.offered || HasSecret(s.carried)
  {
    hide Before, Through, Exchanges, RecipientsDone, CutShort, RcptText;
    if x.secure {
      HandshakeSeen(c, Of(s), if s.phase.Writing? then s.phase.stage else MailFrom, Recipients(c, s));
      HandshakeSeen(c, Of(s), MailFrom, []);
    } else if s.offered {
      assert x.octets <= Flushed(c, Of(s), s.phase.stage);
      var i :| 0 <= i < |x.octets| && x.octets[i].secret;
      assert Flushed(c, Of(s), s.phase.stage)[i].secret;
      assert i < |s.carried| && s.carried[i].secret;
    }
  }

  lemma EhloGuarded(c: Letter, s: State, input: string)
    requires Logged(c, s) && s.phase == Reading(Ehlo)
    ensures NearlyGuarded(c, Answer(c, s, Ehlo, input))
  {
    hide Check, Exchanges, RecipientsDone, Proceed, Retry, LineText;
    var t, w := Answer(c, s, Ehlo, input), Wrote(Flushed(c, Of(s), Ehlo), false);
    assert s.log == [Agreed(Greeting)] + [Command(Ehlo, false)] + [w];
    assert s.log[2] == w && w.octets == s.carried + LineText(c, Ehlo);
    AnswerContinues(c, s, Ehlo, input);
    assert t.log[2] == w;
    if HasSecret(w.octets) {
      CarriedSecret(c, s.carried);
    }
  }

  lemma CarriedSecret(c: Letter, carried: seq<Octet>)
    requires HasSecret(carried + LineText(c, Ehlo))
    ensures HasSecret(carried)
  {
    var all := carried + LineText(c, Ehlo);
    var i :| 0 <= i < |all| && all[i].secret;
    assert i < |carried| && carried[i].secret;
  }

  lemma StepGuarded(c: Letter, s: State, e: Event)
    requires Logged(c, s) && Accounted(s) && NearlyGuarded(c, s)
    ensures NearlyGuarded(c, Step(c, s, e))
  {
    hide Logged, Accounted, LineText, New, HasSecret, Answer, RecipientAnswer, EndRecipients, FailedOffer, Issue,
         RcptText,
         CutShort, Transfer;
    OfferNeedsStream(s);
    if s.phase == Reading(Ehlo) && e.Completed? {
      EhloGuarded(c, s, e.input);
    } else if s.phase != Paused {
      var t := Step(c, s, e);
      StepGrows(c, s, e);
      SameOffer(c, s, e);
      forall i | 0 <= i < |t.log| && t.log[i].Wrote? && HasSecret(t.log[i].octets)
        ensures if t.log[i].secure then Secured(t.offered) in t.log[..i] else !t.offered || HasSecret(t.carried)
      {
        if i < |s.log| {
          assert t.log[i] == s.log[i] && t.log[..i] == s.log[..i];
        } else {
          NewGuarded(c, s, t.log[i]);
          assert s.log <= t.log[..i];
        }
      }
    }
  }

  lemma SameOffer(c: Letter, s: State, e: Event)
    requires s.phase != Paused && !(s.phase == Reading(Ehlo) && e.Completed?)
    ensures Step(c, s, e).offered == s.offered
  {
    hide New;
    StepGrows(c, s, e);
  }

  lemma {:induction false} RunNearlyGuarded(c: Letter, events: seq<Event>)
    ensures NearlyGuarded(c, Run(c, events))
  {
    hide Step, Logged, Accounted, NearlyGuarded;
    if events == [] {
      NothingWritten(c);
    } else {
      var k := |events| - 1;
      RunNearlyGuarded(c, events[..k]);
      RunLogs(c, events[..k]);
      RunAccounts(c, events[..k]);
      StepGuarded(c, Run(c, events[..k]), events[k]);
    }
  }

  lemma NothingWritten(c: Letter)
    ensures NearlyGuarded(c, Run(c, []))
  {
  }

  /**
   In every reachable state: what belongs behind the handshake was transferred there in this attempt, or else the server
   offers no encryption in it, if and only if the attempt did not begin with a secret in the write buffer and meet a
   server that offers encryption. In other words, secrets go out in clear in spite of an offer exactly when the write of
   a private command failed earlier, its rest was still in the buffer when the attempt began, and EHLO was written.
   */
  lemma GuardedIff(c: Letter, events: seq<Event>)
    ensures Guarded(Run(c, events)) <==> !(Run(c, events).offered && CarriesSecret(c, events))
  {
    hide Run, CarriesSecret, LineText;
    var s := Run(c, events);
    RunNearlyGuarded(c, events);
    CarriedIff(c, events);
    if s.offered && HasSecret(s.carried) {
      var w := Wrote(s.carried + LineText(c, Ehlo), false);
      var i :| 0 <= i < |s.log| && s.log[i] == w;
      var k :| 0 <= k < |s.carried| && s.carried[k].secret;
      assert w.octets[k].secret;
    }
  }

  // ---------- two runs ----------

  /** The timer, the connection, a greeting, and EHLO written. */
  function Hello(): (events: seq<Event>)
  {
    [Completed(""), Completed(""), Completed("220 a\n"), Completed("")]
  }

  /** Connecting, being greeted, and sending EHLO with whatever was in the write buffer. */
  lemma Greeted(c: Letter, events: seq<Event>)
    requires Run(c, events).phase == Paused
    ensures var s, t := Run(c, events), Run(c, events + Hello());
            && t.phase == Reading(Ehlo) && t.buf == "" && t.tls == s.tls && !t.offered && t.retries == s.retries
            && t.unsent == []
            && t.log == [Agreed(Greeting)] + [Command(Ehlo, false)] + [Wrote(s.unsent + LineText(c, Ehlo), false)]
  {
    hide Check, Run, LineText;
    var go, hi := Completed(""), Completed("220 a\n");
    OneMore(c, events, go);
    OneMore(c, events + [go], go);
    OneLineReply("220", "a");
    assert "" + "220 a\n" == "220 a\n" == "220" + " " + "a" + "\n";
    OneMore(c, events + [go] + [go], hi);
    OneMore(c, events + [go] + [go] + [hi], go);
    var u := Run(c, events + [go] + [go] + [hi]);
    assert u.unsent[..|u.unsent|] == u.unsent;
    assert events + [go] + [go] + [hi] + [go] == events + Hello();
    assert [] + [Agreed(Greeting)] == [Agreed(Greeting)];
  }

  /** A server that answers EHLO with one line. */
  lemma Capable(c: Letter, events: seq<Event>, text: string)
    requires Run(c, events).phase == Reading(Ehlo) && Run(c, events).buf == ""
    requires text != [] && !White(text[|text| - 1]) && '\n' !in text
    ensures Run(c, events + [Completed("250 " + text + "\n")]) == Capabilities(c, Run(c, events), text == "STARTTLS")
  {
    hide Check, Run;
    OneLineReply("250", text);
    assert "" + ("250 " + text + "\n") == "250" + " " + text + "\n";
    OneMore(c, events, Completed("250 " + text + "\n"));
    assert "STARTTLS" in [text] <==> text == "STARTTLS";
  }

  function Capabilities(c: Letter, s: State, offers: bool): (s': State)
  {
    var s1 := s.(buf := "", tls := s.tls || offers, offered := s.offered || offers, log := s.log + [Agreed(Ehlo)]);
    Issue(c, s1, if s1.tls then StartTls else Auth)
  }

  /** A server that offered encryption once is sent STARTTLS again, although it no longer offers it. */
  lemma StaleStream(c: Letter) returns (events: seq<Event>)
    ensures Command(StartTls, false) in Run(c, events).log && !Run(c, events).offered
  {
    hide Check, Run, Hello, LineText;
    NotBegun(c);
    Greeted(c, []);
    var one := [] + Hello();
    Capable(c, one, "STARTTLS");
    var offer := Completed("250 " + "STARTTLS" + "\n");
    OneMore(c, one + [offer], Failed(0));
    var two := one + [offer] + [Failed(0)];
    Greeted(c, two);
    Capable(c, two + Hello(), "b");
    events := two + Hello() + [Completed("250 " + "b" + "\n")];
    var s := Run(c, events);
    assert s.log[|s.log| - 1] == Command(StartTls, false);
  }

  /** STARTTLS is agreed on and the handshake done; then the write of the credentials fails. */
  lemma AuthFails(c: Letter, events: seq<Event>)
    requires Run(c, events).phase == Writing(StartTls) && Run(c, events).buf == ""
             && Run(c, events).retries <= MAX_RETRY
    ensures var s := Run(c, events + [Completed(""), Completed("220 a\n"), Completed(""), Failed(0)]);
            s.phase == Paused && s.unsent == LineText(c, Auth)
  {
    hide Check, Run, LineText;
    var go, ok := Completed(""), Completed("220 a\n");
    OneMore(c, events, go);
    OneLineReply("220", "a");
    assert "" + "220 a\n" == "220 a\n" == "220" + " " + "a" + "\n";
    OneMore(c, events + [go], ok);
    OneMore(c, events + [go] + [ok], go);
    OneMore(c, events + [go] + [ok] + [go], Failed(0));
    assert events + [go] + [ok] + [go] + [Failed(0)] == events + [go, ok, go, Failed(0)];
    assert [] + LineText(c, Auth) == LineText(c, Auth);
  }

  /** The credentials of a failed write go out in clear with the next EHLO, to a server that offers encryption. */
  lemma ExposureExample(c: Letter) returns (events: seq<Event>)
    ensures var s := Run(c, events); s.offered && Wrote(LineText(c, Auth) + LineText(c, Ehlo), false) in s.log
    ensures !Guarded(Run(c, events))
  {
    hide Check, Run, Hello, LineText;
    NotBegun(c);
    Greeted(c, []);
    var one, offer := [] + Hello(), Completed("250 " + "STARTTLS" + "\n");
    Capable(c, one, "STARTTLS");
    AuthFails(c, one + [offer]);
    var two := one + [offer] + [Completed(""), Completed("220 a\n"), Completed(""), Failed(0)];
    Greeted(c, two);
    Capable(c, two + Hello(), "STARTTLS");
    events := two + Hello() + [offer];
    var s, w := Run(c, events), Wrote(LineText(c, Auth) + LineText(c, Ehlo), false);
    assert s.log[2] == w;
    AuthIsSecret(c);
    assert w.octets[0].secret;
  }

  lemma AuthIsSecret(c: Letter)
    ensures LineText(c, Auth) != [] && LineText(c, Auth)[0].secret
  {
  }
}
