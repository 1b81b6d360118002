/**
 Runs of the mail sender (libmailexchange/smtp.hpp, send_rcpt_tos_op and smtp). A state is what the continuations hold
 between two completions, together with a record of the current attempt: commands, replies, and the octets that were
 really transferred. Whatever the network does, the caller is told once, after a bounded number of completions, and told
 of success only when the server has agreed to every step.
 */
module SmtpRun {
  import opened Common
  import opened Smtp

  /** The exchanges of the dialogue, in order. */
  datatype Stage = Greeting | Ehlo | StartTls | Auth | MailFrom | Data | Mail

  /**
   What the network reports: an operation has completed, with what was read if it was a read, or it has failed, after
   some octets had been transferred if it was a write.
   */
  datatype Event = Completed(input: string) | Failed(sent: nat)

  /** What is to be sent: the names and texts that the commands carry. */
  datatype Letter = Letter(server: string, auth: string, from: string, text: string, rcpts: seq<string>)

  /** A character of a command; those of the commands that belong behind the handshake are secret. */
  datatype Octet = Octet(value: char, secret: bool)

  /** `Wrote` is what a write has transferred; a handshake has its own stream if this attempt has made it. */
  datatype Entry =
    | Command(stage: Stage, secure: bool)
    | Wrote(octets: seq<Octet>, secure: bool)
    | Agreed(stage: Stage)
    | Secured(own: bool)
    | RcptTo(who: nat, angled: bool)
    | Taken
    | Refused

  /** What came of a recipient: accepted at once, accepted in angle brackets, or not. */
  datatype Outcome = AtOnce | Angled | Neither

  datatype Phase =
    | Paused
    | Connecting
    | Writing(stage: Stage)
    | Reading(stage: Stage)
    | Handshaking
    | Offering(who: nat, angled: bool)
    | Awaiting(who: nat, angled: bool)
    | Over(ok: bool)

  /**
   `tls` is the encrypted stream that exists once a server has offered it, and outlives the attempt, as does the write
   buffer `unsent`; `taken` counts the recipients accepted. `offered`, `carried` (what the write buffer held when the
   attempt began), `log`, `outcomes` and `cut` record the current attempt. `written` is all that was ever put into the
   write buffer and `gone` how much of it has left; these, `pauses` and `calls` record the run.
   */
  datatype State = State(phase: Phase, retries: nat, tls: bool, buf: string, unsent: seq<Octet>, taken: nat,
                         offered: bool, carried: seq<Octet>, log: seq<Entry>, outcomes: seq<Outcome>, cut: seq<Entry>,
                         written: seq<Octet>, gone: nat, pauses: seq<nat>, calls: seq<bool>)

  const MAX_RETRY: nat := 20
  const ATTEMPTS: nat := 22

  function Start(): (s: State)
  {
    State(Paused, 0, false, "", [], 0, false, [], [], [], [], [], 0, [], [])
  }

  function Code(stage: Stage): (code: string)
  {
    match stage
    case Greeting => "220"
    case Ehlo => "250"
    case StartTls => "220"
    case Auth => "235"
    case MailFrom => "250"
    case Data => "354"
    case Mail => "250"
  }

  // ---------- commands ----------

  /** The commands that belong behind the handshake, and only they, use the encrypted stream if there is one. */
  predicate Private(stage: Stage)
  {
    stage == Auth || stage == MailFrom || stage == Data || stage == Mail
  }

  function Octets(text: string, secret: bool): (octets: seq<Octet>)
    ensures |octets| == |text| && forall i :: 0 <= i < |text| ==> octets[i] == Octet(text[i], secret)
  {
    seq(|text|, i requires 0 <= i < |text| => Octet(text[i], secret))
  }

  function Line(c: Letter, stage: Stage): (text: string)
    ensures stage != Greeting ==> text != ""
  {
    match stage
    case Greeting => ""
    case Ehlo => "EHLO " + c.server + "\r\n"
    case StartTls => "STARTTLS\r\n"
    case Auth => "AUTH PLAIN " + c.auth + "\r\n"
    case MailFrom => "MAIL FROM: <" + c.from + ">\r\n"
    case Data => "DATA\r\n"
    case Mail => c.text + "\r\n.\r\n"
  }

  function LineText(c: Letter, stage: Stage): (octets: seq<Octet>)
    ensures stage != Greeting ==> octets != []
    ensures forall i :: 0 <= i < |octets| ==> octets[i].secret == Private(stage)
  {
    Octets(Line(c, stage), Private(stage))
  }

  function RcptText(c: Letter, who: nat, angled: bool): (octets: seq<Octet>)
  {
    if who >= |c.rcpts| then []
    else Octets(if angled then "rcpt to: <" + c.rcpts[who] + ">\r\n" else "rcpt to: " + c.rcpts[who] + "\r\n", true)
  }

  // ---------- steps ----------

  /** The failure branch: pause and start again, or give up and tell the caller. */
  function Retry(s: State): (s': State)
  {
    if s.retries <= MAX_RETRY then
      s.(phase := Paused, retries := s.retries + 1, pauses := s.pauses + [(s.retries + 1) * 10 + 20])
    else s.(phase := Over(false), retries := s.retries + 1, calls := s.calls + [false])
  }

  /** A command is appended to the write buffer, which is then written. */
  function Issue(c: Letter, s: State, stage: Stage): (s': State)
  {
    s.(phase := Writing(stage), unsent := s.unsent + LineText(c, stage), written := s.written + LineText(c, stage),
       log := s.log + [Command(stage, Private(stage) && s.tls)])
  }

  /** How much of n octets a failed write has transferred: never all of them. */
  function Partly(n: nat, sent: nat): (k: nat)
    ensures k <= n && (n > 0 ==> k < n)
  {
    if n == 0 then 0 else if sent < n then sent else n - 1
  }

  /** The first k octets leave the write buffer. */
  function Transfer(s: State, stage: Stage, k: nat): (s': State)
    requires k <= |s.unsent|
  {
    s.(unsent := s.unsent[k..], gone := s.gone + k, log := s.log + [Wrote(s.unsent[..k], Private(stage) && s.tls)])
  }

  /** The recipients are done with: go on if one of them was accepted. */
  function EndRecipients(c: Letter, s: State, cut: seq<Entry>): (s': State)
  {
    if s.taken == 0 then Retry(s) else Issue(c, s.(cut := cut), Data)
  }

  /** The head of the loop over the recipients. */
  function Offer(c: Letter, s: State, who: nat): (s': State)
  {
    if who < |c.rcpts| then s.(phase := Offering(who, false), log := s.log + [RcptTo(who, false)])
    else EndRecipients(c, s, [])
  }

  /** The offer of a recipient has been transferred up to octet k; it is written from a buffer of its own. */
  function Offered(c: Letter, s: State, who: nat, angled: bool, k: nat): (s': State)
    requires k <= |RcptText(c, who, angled)|
  {
    s.(log := s.log + [Wrote(RcptText(c, who, angled)[..k], s.tls)])
  }

  /** What follows the right reply to a command. */
  function Proceed(c: Letter, s: State, stage: Stage): (s': State)
  {
    match stage
    case Greeting => Issue(c, s, Ehlo)
    case Ehlo => if s.tls then Issue(c, s, StartTls) else Issue(c, s, Auth)
    case StartTls => s.(phase := Handshaking)
    case Auth => Issue(c, s, MailFrom)
    case MailFrom => Offer(c, s.(taken := 0, outcomes := []), 0)
    case Data => Issue(c, s, Mail)
    case Mail => s.(phase := Over(true), calls := s.calls + [true])
  }

  /** A server that lists STARTTLS is given an encrypted stream, even if the rest of its reply is wrong. */
  function Noticed(s: State, stage: Stage, r: Reply): (s': State)
  {
    var offers := stage == Ehlo && "STARTTLS" in r.texts;
    s.(buf := r.rest, tls := s.tls || offers, offered := s.offered || offers)
  }

  function Answer(c: Letter, s: State, stage: Stage, input: string): (s': State)
  {
    var r := Check(s.buf + input, Code(stage));
    var s1 := Noticed(s, stage, r);
    if r.ok then Proceed(c, s1.(log := s1.log + [Agreed(stage)]), stage) else Retry(s1)
  }

  /** The reply to a recipient: count it, try again with angle brackets, or go on. */
  function RecipientAnswer(c: Letter, s: State, who: nat, angled: bool, input: string): (s': State)
  {
    var r := Check(s.buf + input, "250");
    var s1 := s.(buf := r.rest);
    if r.ok then
      var outcome := if angled then Angled else AtOnce;
      Offer(c, s1.(taken := s1.taken + 1, log := s1.log + [Taken], outcomes := s1.outcomes + [outcome]), who + 1)
    else if !angled then
      s1.(phase := Offering(who, true), log := s1.log + [Refused] + [RcptTo(who, true)])
    else
      Offer(c, s1.(log := s1.log + [Refused], outcomes := s1.outcomes + [Neither]), who + 1)
  }

  function FailedOffer(c: Letter, s: State, who: nat, angled: bool, sent: nat): (s': State)
  {
    var k := Partly(|RcptText(c, who, angled)|, sent);
    EndRecipients(c, Offered(c, s, who, angled, k), CutShort(c, s.tls, who, angled, k))
  }

  /** A completion resumes the coroutine that waits for it. */
  function Step(c: Letter, s: State, e: Event): (s': State)
  {
    match s.phase
    case Over(_) => s
    case Paused => s.(phase := Connecting, log := [], offered := false, carried := s.unsent)
    case Offering(who, angled) =>
      if e.Failed? then FailedOffer(c, s, who, angled, e.sent)
      else Offered(c, s, who, angled, |RcptText(c, who, angled)|).(phase := Awaiting(who, angled))
    case Awaiting(who, angled) =>
      if e.Failed? then EndRecipients(c, s, CutShort(c, s.tls, who, angled, |RcptText(c, who, angled)|))
      else RecipientAnswer(c, s, who, angled, e.input)
    case Connecting => if e.Failed? then Retry(s) else s.(phase := Reading(Greeting), buf := "")
    case Writing(stage) =>
      if e.Failed? then Retry(Transfer(s, stage, Partly(|s.unsent|, e.sent)))
      else Transfer(s, stage, |s.unsent|).(phase := Reading(stage))
    case Reading(stage) => if e.Failed? then Retry(s) else Answer(c, s, stage, e.input)
    case Handshaking => if e.Failed? then Retry(s) else Issue(c, s.(log := s.log + [Secured(s.offered)]), Auth)
  }

  function Run(c: Letter, events: seq<Event>): (s: State)
  {
    if events == [] then Start() else Step(c, Run(c, events[..|events| - 1]), events[|events| - 1])
  }

  // ---------- the coroutines ----------

  /** The two coroutines as they change their fields, with the history of the run beside them. */
  class Client {
    const c: Letter
    var phase: Phase
    var retries: nat
    var tls: bool
    var buf: string
    var unsent: seq<Octet>
    var taken: nat
    ghost var offered: bool
    ghost var carried: seq<Octet>
    ghost var log: seq<Entry>
    ghost var outcomes: seq<Outcome>
    ghost var cut: seq<Entry>
    ghost var written: seq<Octet>
    ghost var gone: nat
    ghost var pauses: seq<nat>
    ghost var calls: seq<bool>

    ghost function Now(): (s: State)
      reads this
    {
      State(phase, retries, tls, buf, unsent, taken, offered, carried, log, outcomes, cut, written, gone, pauses, calls)
    }

    constructor (c: Letter)
      ensures this.c == c && Now() == Start()
    {
      this.c := c;
      phase, retries, tls, buf, unsent, taken := Paused, 0, false, "", [], 0;
      offered, carried, log, outcomes, cut := false, [], [], [], [];
      written, gone, pauses, calls := [], 0, [], [];
    }

    method GiveUpOrRetry()
      modifies this
      ensures Now() == Retry(old(Now()))
    {
      var again := retries <= MAX_RETRY;
      retries := retries + 1;
      if again {
        phase := Paused;
        pauses := pauses + [retries * 10 + 20];
      } else {
        phase := Over(false);
        calls := calls + [false];
      }
    }

    method Send(stage: Stage)
      modifies this
      ensures Now() == Issue(c, old(Now()), stage)
    {
      hide LineText;
      phase := Writing(stage);
      unsent, written := unsent + LineText(c, stage), written + LineText(c, stage);
      log := log + [Command(stage, Private(stage) && tls)];
    }

    /** What a write has transferred leaves the buffer. */
    method Consume(stage: Stage, k: nat)
      requires k <= |unsent|
      modifies this
      ensures Now() == Transfer(old(Now()), stage, k)
    {
      log, gone := log + [Wrote(unsent[..k], Private(stage) && tls)], gone + k;
      unsent := unsent[k..];
    }

    method FinishRecipients(ghost short: seq<Entry>)
      modifies this
      ensures Now() == EndRecipients(c, old(Now()), short)
    {
      hide Retry, Issue;
      if taken == 0 {
        GiveUpOrRetry();
      } else {
        cut := short;
        Send(Data);
      }
    }

    method NextRecipient(who: nat)
      modifies this
      ensures Now() == Offer(c, old(Now()), who)
    {
      hide EndRecipients;
      if who < |c.rcpts| {
        phase := Offering(who, false);
        log := log + [RcptTo(who, false)];
      } else {
        FinishRecipients([]);
      }
    }

    method GoOn(stage: Stage)
      modifies this
      ensures Now() == Proceed(c, old(Now()), stage)
    {
      hide Issue, Offer;
      match stage
      case Greeting => Send(Ehlo);
      case Ehlo =>
        if tls {
          Send(StartTls);
        } else {
          Send(Auth);
        }
      case StartTls => phase := Handshaking;
      case Auth => Send(MailFrom);
      case MailFrom =>
        taken, outcomes := 0, [];
        NextRecipient(0);
      case Data => Send(Mail);
      case Mail =>
        phase := Over(true);
        calls := calls + [true];
    }

    method ReadReply(stage: Stage, input: string)
      modifies this
      ensures Now() == Answer(c, old(Now()), stage, input)
    {
      hide Proceed, Retry, Check;
      var r := CheckResponse(buf + input, Code(stage));
      buf := r.rest;
      if stage == Ehlo && "STARTTLS" in r.texts {
        tls, offered := true, true;
      }
      if r.ok {
        log := log + [Agreed(stage)];
        GoOn(stage);
      } else {
        GiveUpOrRetry();
      }
    }

    method ReadRecipientReply(who: nat, angled: bool, input: string)
      modifies this
      ensures Now() == RecipientAnswer(c, old(Now()), who, angled, input)
    {
      hide Offer, Check;
      var r := CheckResponse(buf + input, "250");
      buf := r.rest;
      if r.ok {
        taken := taken + 1;
        log, outcomes := log + [Taken], outcomes + [if angled then Angled else AtOnce];
        NextRecipient(who + 1);
      } else if !angled {
        phase := Offering(who, true);
        log := log + [Refused] + [RcptTo(who, true)];
      } else {
        log, outcomes := log + [Refused], outcomes + [Neither];
        NextRecipient(who + 1);
      }
    }

    method GiveUpOffer(who: nat, angled: bool, ghost sent: nat)
      modifies this
      ensures Now() == FailedOffer(c, old(Now()), who, angled, sent)
    {
      hide EndRecipients, CutShort, RcptText;
      ghost var k := Partly(|RcptText(c, who, angled)|, sent);
      log := log + [Wrote(RcptText(c, who, angled)[..k], tls)];
      FinishRecipients(CutShort(c, tls, who, angled, k));
    }

    /** What a completion makes the coroutines do. */
    method Resume(e: Event)
      modifies this
      ensures Now() == Step(c, old(Now()), e)
    {
      hide Retry, EndRecipients, Answer, RecipientAnswer, Issue, FailedOffer, CutShort, RcptText, Transfer;
      match phase
      case Over(_) =>
      case Paused =>
        phase, log, offered, carried := Connecting, [], false, unsent;
      case Offering(who, angled) =>
        if e.Failed? {
          GiveUpOffer(who, angled, e.sent);
        } else {
          log := log + [Wrote(RcptText(c, who, angled)[..|RcptText(c, who, angled)|], tls)];
          phase := Awaiting(who, angled);
        }
      case Awaiting(who, angled) =>
        if e.Failed? {
          FinishRecipients(CutShort(c, tls, who, angled, |RcptText(c, who, angled)|));
        } else {
          ReadRecipientReply(who, angled, e.input);
        }
      case Connecting =>
        if e.Failed? {
          GiveUpOrRetry();
        } else {
          phase, buf := Reading(Greeting), "";
        }
      case Writing(stage) =>
        if e.Failed? {
          Consume(stage, Partly(|unsent|, e.sent));
          GiveUpOrRetry();
        } else {
          Consume(stage, |unsent|);
          phase := Reading(stage);
        }
      case Reading(stage) =>
        if e.Failed? {
          GiveUpOrRetry();
        } else {
          ReadReply(stage, e.input);
        }
      case Handshaking =>
        if e.Failed? {
          GiveUpOrRetry();
        } else {
          log := log + [Secured(offered)];
          Send(Auth);
        }
    }

    /** A whole run. */
    method Play(events: seq<Event>)
      requires Now() == Start()
      modifies this
      ensures Now() == Run(c, events)
    {
      hide Step;
      assert events[..0] == [];
      for i := 0 to |events|
        invariant Now() == Run(c, events[..i])
      {
        assert events[..i + 1][..i] == events[..i];
        Resume(events[i]);
      }
      assert events[..|events|] == events;
    }
  }

  // ---------- the dialogue ----------

  /** A recipient is offered, and the offer transferred up to octet k. */
  function Tried(c: Letter, tls: bool, who: nat, angled: bool, k: nat): (log: seq<Entry>)
    requires k <= |RcptText(c, who, angled)|
  {
    [RcptTo(who, angled)] + [Wrote(RcptText(c, who, angled)[..k], tls)]
  }

  /** A second offer comes after a refused one. */
  function FirstTry(c: Letter, tls: bool, who: nat, angled: bool): (log: seq<Entry>)
  {
    if angled then Tried(c, tls, who, false, |RcptText(c, who, false)|) + [Refused] else []
  }

  /** An exchange that the network has cut short. */
  function CutShort(c: Letter, tls: bool, who: nat, angled: bool, k: nat): (log: seq<Entry>)
    requires k <= |RcptText(c, who, angled)|
  {
    FirstTry(c, tls, who, angled) + Tried(c, tls, who, angled, k)
  }

  function Exchange(c: Letter, tls: bool, who: nat, outcome: Outcome): (log: seq<Entry>)
  {
    var angled := outcome != AtOnce;
    CutShort(c, tls, who, angled, |RcptText(c, who, angled)|) + [if outcome == Neither then Refused else Taken]
  }

  /** The exchanges about the first recipients. */
  function Exchanges(c: Letter, tls: bool, outcomes: seq<Outcome>): (log: seq<Entry>)
  {
    if outcomes == [] then []
    else
      var k := |outcomes| - 1;
      Exchanges(c, tls, outcomes[..k]) + Exchange(c, tls, k, outcomes[k])
  }

  function Successes(outcomes: seq<Outcome>): (n: nat)
  {
    if outcomes == [] then 0
    else Successes(outcomes[..|outcomes| - 1]) + if outcomes[|outcomes| - 1] == Neither then 0 else 1
  }

  /** The offers were cut short at a recipient. */
  ghost predicate CutAt(c: Letter, tls: bool, who: nat, cut: seq<Entry>)
  {
    exists angled: bool, k: nat :: k <= |RcptText(c, who, angled)| && cut == CutShort(c, tls, who, angled, k)
  }

  /** All recipients have been offered, or the network has cut the offers short; one was accepted. */
  ghost predicate RecipientsDone(c: Letter, tls: bool, outcomes: seq<Outcome>, cut: seq<Entry>)
  {
    && |outcomes| <= |c.rcpts| && Successes(outcomes) > 0
    && ((cut == [] && |outcomes| == |c.rcpts|) || (|outcomes| < |c.rcpts| && CutAt(c, tls, |outcomes|, cut)))
  }

  /** What a dialogue depends on beside the letter: the encrypted stream, and what an earlier attempt left unsent. */
  datatype Attempt = Attempt(tls: bool, own: bool, carried: seq<Octet>)

  function Of(s: State): (a: Attempt)
  {
    Attempt(s.tls, s.offered, s.carried)
  }

  function Rank(stage: Stage): (n: nat)
  {
    match stage
    case Greeting => 0
    case Ehlo => 1
    case StartTls => 2
    case Auth => 3
    case MailFrom => 4
    case Data => 5
    case Mail => 6
  }

  /** What is transferred with a command: the first one takes with it whatever was left unsent before. */
  function Flushed(c: Letter, a: Attempt, stage: Stage): (octets: seq<Octet>)
  {
    (if stage == Ehlo then a.carried else []) + LineText(c, stage)
  }

  /** The dialogue up to the command of a stage; `recipients` is the part about the recipients. */
  function Before(c: Letter, a: Attempt, stage: Stage, recipients: seq<Entry>): (log: seq<Entry>)
    decreases Rank(stage), 0
  {
    match stage
    case Greeting => []
    case Ehlo => [Agreed(Greeting)]
    case StartTls => Through(c, a, Ehlo, recipients) + [Agreed(Ehlo)]
    case Auth =>
      if a.tls then Through(c, a, StartTls, recipients) + [Agreed(StartTls)] + [Secured(a.own)]
      else Through(c, a, Ehlo, recipients) + [Agreed(Ehlo)]
    case MailFrom => Through(c, a, Auth, recipients) + [Agreed(Auth)]
    case Data => Through(c, a, MailFrom, recipients) + [Agreed(MailFrom)] + recipients
    case Mail => Through(c, a, Data, recipients) + [Agreed(Data)]
  }

  /** The dialogue up to and with that command. */
  function Through(c: Letter, a: Attempt, stage: Stage, recipients: seq<Entry>): (log: seq<Entry>)
    decreases Rank(stage), 1
  {
    if stage == Greeting then []
    else
      Before(c, a, stage, recipients) + [Command(stage, Private(stage) && a.tls)]
      + [Wrote(Flushed(c, a, stage), Private(stage) && a.tls)]
  }

  function Dialogue(c: Letter, a: Attempt, recipients: seq<Entry>): (log: seq<Entry>)
  {
    Through(c, a, Mail, recipients) + [Agreed(Mail)]
  }

  function Recipients(c: Letter, s: State): (log: seq<Entry>)
  {
    Exchanges(c, s.tls, s.outcomes) + s.cut
  }

  // ---------- what every run keeps ----------

  /** The record of the attempt, and what is in the write buffer, belong to the phase. */
  ghost predicate Logged(c: Letter, s: State)
  {
    match s.phase
    case Paused => true
    case Connecting => s.log == [] && s.unsent == s.carried
    case Writing(stage) =>
      && stage != Greeting && Reached(c, s, stage) && s.unsent == Flushed(c, Of(s), stage)
      && s.log == Before(c, Of(s), stage, Recipients(c, s)) + [Command(stage, Private(stage) && s.tls)]
    case Reading(stage) =>
      && Reached(c, s, stage) && s.unsent == (if stage == Greeting then s.carried else [])
      && s.log == Through(c, Of(s), stage, Recipients(c, s))
    case Handshaking =>
      s.tls && s.unsent == [] && s.log == Through(c, Of(s), StartTls, Recipients(c, s)) + [Agreed(StartTls)]
    case Offering(who, angled) =>
      && AtRecipient(c, s, who)
      && s.log == Prelude(c, s) + (FirstTry(c, s.tls, who, angled) + [RcptTo(who, angled)])
    case Awaiting(who, angled) =>
      && AtRecipient(c, s, who)
      && s.log == Prelude(c, s) + CutShort(c, s.tls, who, angled, |RcptText(c, who, angled)|)
    case Over(ok) =>
      ok ==> RecipientsDone(c, s.tls, s.outcomes, s.cut) && s.log == Dialogue(c, Of(s), Recipients(c, s))
  }

  ghost predicate Reached(c: Letter, s: State, stage: Stage)
  {
    && (stage == StartTls ==> s.tls)
    && (stage == Data || stage == Mail ==> RecipientsDone(c, s.tls, s.outcomes, s.cut))
  }

  /** The dialogue up to the recipients at hand. */
  ghost function Prelude(c: Letter, s: State): (log: seq<Entry>)
  {
    Through(c, Of(s), MailFrom, []) + [Agreed(MailFrom)] + Exchanges(c, s.tls, s.outcomes)
  }

  ghost predicate AtRecipient(c: Letter, s: State, who: nat)
  {
    who == |s.outcomes| < |c.rcpts| && s.taken == Successes(s.outcomes) && s.unsent == []
  }

  /** The pauses of the first retries: ten seconds longer each time. */
  function Pauses(k: nat): (p: seq<nat>)
    ensures |p| == k && forall i :: 0 <= i < k ==> p[i] == 10 * i + 30
  {
    if k == 0 then [] else Pauses(k - 1) + [k * 10 + 20]
  }

  /** In the middle of the run. */
  ghost predicate Underway(s: State)
  {
    s.retries < ATTEMPTS && s.pauses == Pauses(s.retries) && s.calls == [] && (s.offered ==> s.tls)
  }

  /** The attempts, the pauses between them, and what the caller was told. */
  ghost predicate Accounted(s: State)
  {
    match s.phase
    case Over(ok) =>
      && (s.offered ==> s.tls) && s.calls == [ok]
      && (if ok then s.retries < ATTEMPTS && s.pauses == Pauses(s.retries)
          else s.retries == ATTEMPTS && s.pauses == Pauses(ATTEMPTS - 1))
    case _ => Underway(s)
  }

  lemma RetryAccounts(s: State)
    requires Underway(s)
    ensures Accounted(Retry(s))
  {
  }

  lemma OfferAccounts(c: Letter, s: State, who: nat, cut: seq<Entry>)
    requires Underway(s)
    ensures Accounted(Offer(c, s, who)) && Accounted(EndRecipients(c, s, cut))
  {
    hide Retry, Issue;
    RetryAccounts(s);
    IssueAccounts(c, s.(cut := cut), Data);
    IssueAccounts(c, s.(cut := []), Data);
  }

  lemma ProceedAccounts(c: Letter, s: State, stage: Stage)
    requires Underway(s)
    ensures Accounted(Proceed(c, s, stage))
  {
    hide Offer, Issue;
    OfferAccounts(c, s.(taken := 0, outcomes := []), 0, []);
    forall next: Stage
      ensures Accounted(Issue(c, s, next))
    {
      IssueAccounts(c, s, next);
    }
  }

  lemma AnswerAccounts(c: Letter, s: State, stage: Stage, input: string)
    requires Underway(s)
    ensures Accounted(Answer(c, s, stage, input))
  {
    hide Check, Proceed, Retry;
    var s1 := Noticed(s, stage, Check(s.buf + input, Code(stage)));
    ProceedAccounts(c, s1.(log := s1.log + [Agreed(stage)]), stage);
    RetryAccounts(s1);
  }

  lemma RecipientAccounts(c: Letter, s: State, who: nat, angled: bool, input: string)
    requires Underway(s)
    ensures Accounted(RecipientAnswer(c, s, who, angled, input))
  {
    hide Check, Offer;
    var s1 := s.(buf := Check(s.buf + input, "250").rest);
    var outcome := if angled then Angled else AtOnce;
    OfferAccounts(c, s1.(taken := s1.taken + 1, log := s1.log + [Taken], outcomes := s1.outcomes + [outcome]), who + 1,
                  []);
    OfferAccounts(c, s1.(log := s1.log + [Refused], outcomes := s1.outcomes + [Neither]), who + 1, []);
  }

  lemma StepAccounts(c: Letter, s: State, e: Event)
    requires Accounted(s)
    ensures Accounted(Step(c, s, e))
  {
    hide Pauses, Retry, Answer, RecipientAnswer, EndRecipients, CutShort, RcptText, Issue;
    if !s.phase.Over? {
      RetryAccounts(s);
      match s.phase
      case Offering(who, angled) =>
        if e.Failed? {
          var k := Partly(|RcptText(c, who, angled)|, e.sent);
          OfferAccounts(c, Offered(c, s, who, angled, k), who, CutShort(c, s.tls, who, angled, k));
        }
      case Awaiting(who, angled) =>
        OfferAccounts(c, s, who, CutShort(c, s.tls, who, angled, |RcptText(c, who, angled)|));
        if e.Completed? {
          RecipientAccounts(c, s, who, angled, e.input);
        }
      case Reading(stage) =>
        if e.Completed? {
          AnswerAccounts(c, s, stage, e.input);
        }
      case Writing(stage) =>
        if e.Failed? {
          RetryAccounts(Transfer(s, stage, Partly(|s.unsent|, e.sent)));
        }
      case Handshaking => IssueAccounts(c, s.(log := s.log + [Secured(s.offered)]), Auth);
      case _ =>
    }
  }

  lemma IssueAccounts(c: Letter, s: State, stage: Stage)
    requires Underway(s)
    ensures Accounted(Issue(c, s, stage))
  {
    hide LineText, Pauses;
  }

  lemma {:induction false} RunAccounts(c: Letter, events: seq<Event>)
    ensures Accounted(Run(c, events))
  {
    if events != [] {
      var k := |events| - 1;
      RunAccounts(c, events[..k]);
      StepAccounts(c, Run(c, events[..k]), events[k]);
    }
  }

  // ---------- the record of an attempt ----------

  /** The dialogue before the recipients does not depend on them, and before the handshake not on the stream. */
  lemma SameStart(c: Letter, a: Attempt, b: Attempt, stage: Stage, r: seq<Entry>, q: seq<Entry>)
    requires a.carried == b.carried && Rank(stage) <= 4 && (Rank(stage) > 1 ==> a == b)
    ensures Before(c, a, stage, r) == Before(c, b, stage, q) && Through(c, a, stage, r) == Through(c, b, stage, q)
    decreases Rank(stage)
  {
    hide LineText;
    if Rank(stage) > 1 {
      SameStart(c, a, b, Ehlo, r, q);
      if Rank(stage) > 2 {
        SameStart(c, a, b, StartTls, r, q);
        if Rank(stage) > 3 {
          SameStart(c, a, b, Auth, r, q);
        }
      }
    }
  }

  lemma IssueLogs(c: Letter, s: State, stage: Stage)
    requires stage != Greeting && Reached(c, s, stage) && s.unsent == (if stage == Ehlo then s.carried else [])
    requires s.log == Before(c, Of(s), stage, Recipients(c, s))
    ensures Logged(c, Issue(c, s, stage))
  {
    hide LineText, Before, Exchanges, RecipientsDone;
  }

  lemma EndLogs(c: Letter, s: State, cut: seq<Entry>)
    requires s.taken == Successes(s.outcomes) && |s.outcomes| <= |c.rcpts| && s.unsent == []
    requires s.taken > 0 ==> RecipientsDone(c, s.tls, s.outcomes, cut)
    requires s.log == Prelude(c, s) + cut
    ensures Logged(c, EndRecipients(c, s, cut))
  {
    hide Through, Exchanges, RecipientsDone, Issue, Retry;
    if s.taken > 0 {
      var r := Exchanges(c, s.tls, s.outcomes) + cut;
      SameStart(c, Of(s), Of(s), MailFrom, r, []);
      assert Through(c, Of(s), MailFrom, []) + [Agreed(MailFrom)] + Exchanges(c, s.tls, s.outcomes) + cut
          == Through(c, Of(s), MailFrom, []) + [Agreed(MailFrom)] + r;
      IssueLogs(c, s.(cut := cut), Data);
    } else {
      RetryLogs(c, s);
    }
  }

  lemma RetryLogs(c: Letter, s: State)
    ensures Logged(c, Retry(s))
  {
  }

  lemma OfferLogs(c: Letter, s: State)
    requires s.taken == Successes(s.outcomes) && |s.outcomes| <= |c.rcpts| && s.unsent == []
    requires s.log == Prelude(c, s)
    ensures Logged(c, Offer(c, s, |s.outcomes|))
  {
    hide Through, Exchanges, EndRecipients;
    var who := |s.outcomes|;
    if who == |c.rcpts| {
      assert Prelude(c, s) + [] == Prelude(c, s);
      EndLogs(c, s, []);
    } else {
      assert [] + [RcptTo(who, false)] == [RcptTo(who, false)];
    }
  }

  /** The state in which the right reply to a command has just been read. */
  ghost predicate Answered(c: Letter, s: State, stage: Stage)
  {
    && Reached(c, s, stage) && s.unsent == (if stage == Greeting then s.carried else [])
    && s.log == Through(c, Of(s), stage, Recipients(c, s)) + [Agreed(stage)]
  }

  lemma ProceedLogs(c: Letter, s: State, stage: Stage)
    requires Answered(c, s, stage)
    ensures Logged(c, Proceed(c, s, stage))
  {
    hide Through, Exchanges, RecipientsDone, Issue, Offer;
    match stage
    case Greeting =>
      NothingSaid(c, Of(s), Recipients(c, s));
      IssueLogs(c, s, Ehlo);
    case Ehlo =>
      if s.tls {
        IssueLogs(c, s, StartTls);
      } else {
        IssueLogs(c, s, Auth);
      }
    case Auth => IssueLogs(c, s, MailFrom);
    case MailFrom =>
      NoExchanges(c, s.tls);
      SameStart(c, Of(s), Of(s), MailFrom, Recipients(c, s), []);
      OfferLogs(c, s.(taken := 0, outcomes := []));
    case Data => IssueLogs(c, s, Mail);
    case _ =>
  }

  lemma NothingSaid(c: Letter, a: Attempt, recipients: seq<Entry>)
    ensures Through(c, a, Greeting, recipients) + [Agreed(Greeting)] == [Agreed(Greeting)]
  {
  }

  lemma NoExchanges(c: Letter, tls: bool)
    ensures Exchanges(c, tls, []) == [] && Successes([]) == 0
  {
  }

  lemma AnswerLogs(c: Letter, s: State, stage: Stage, input: string)
    requires Logged(c, s) && s.phase == Reading(stage)
    ensures Logged(c, Answer(c, s, stage, input))
  {
    hide Through, Exchanges, RecipientsDone, Proceed, Check, Retry;
    var s1 := Noticed(s, stage, Check(s.buf + input, Code(stage)));
    if stage == Ehlo {
      SameStart(c, Of(s), Of(s1), Ehlo, Recipients(c, s), Recipients(c, s1));
    }
    RetryLogs(c, s1);
    ProceedLogs(c, s1.(log := s1.log + [Agreed(stage)]), stage);
  }

  lemma MoreExchanges(c: Letter, tls: bool, outcomes: seq<Outcome>, outcome: Outcome)
    ensures Exchanges(c, tls, outcomes + [outcome])
         == Exchanges(c, tls, outcomes) + Exchange(c, tls, |outcomes|, outcome)
    ensures Successes(outcomes + [outcome]) == Successes(outcomes) + if outcome == Neither then 0 else 1
  {
    assert (outcomes + [outcome])[..|outcomes|] == outcomes;
  }

  /** A recipient is done with. */
  lemma NextLogs(c: Letter, s: State, outcome: Outcome)
    requires |s.outcomes| < |c.rcpts| && s.unsent == []
    requires s.taken == Successes(s.outcomes) + if outcome == Neither then 0 else 1
    requires s.log == Prelude(c, s) + Exchange(c, s.tls, |s.outcomes|, outcome)
    ensures Logged(c, Offer(c, s.(outcomes := s.outcomes + [outcome]), |s.outcomes| + 1))
  {
    hide Through, Exchanges, Exchange, Successes, Offer;
    MoreExchanges(c, s.tls, s.outcomes, outcome);
    assert Prelude(c, s) + Exchange(c, s.tls, |s.outcomes|, outcome)
        == Through(c, Of(s), MailFrom, []) + [Agreed(MailFrom)]
           + (Exchanges(c, s.tls, s.outcomes) + Exchange(c, s.tls, |s.outcomes|, outcome));
    OfferLogs(c, s.(outcomes := s.outcomes + [outcome]));
  }

  lemma RecipientLogs(c: Letter, s: State, who: nat, angled: bool, input: string)
    requires Logged(c, s) && s.phase == Awaiting(who, angled)
    ensures Logged(c, RecipientAnswer(c, s, who, angled, input))
  {
    hide Prelude, CutShort, RcptText, Successes, Offer, Check;
    var r := Check(s.buf + input, "250");
    var s1 := s.(buf := r.rest);
    SamePrelude(c, s, s1);
    if r.ok {
      var s2 := s1.(taken := s1.taken + 1, log := s1.log + [Taken]);
      SamePrelude(c, s, s2);
      NextLogs(c, s2, if angled then Angled else AtOnce);
    } else if angled {
      var s2 := s1.(log := s1.log + [Refused]);
      SamePrelude(c, s, s2);
      NextLogs(c, s2, Neither);
    } else {
      SecondTry(c, s, who);
      SamePrelude(c, s, s1.(phase := Offering(who, true), log := s1.log + [Refused] + [RcptTo(who, true)]));
    }
  }

  lemma SamePrelude(c: Letter, s: State, t: State)
    requires Of(s) == Of(t) && s.outcomes == t.outcomes
    ensures Prelude(c, s) == Prelude(c, t)
  {
  }

  lemma SecondTry(c: Letter, s: State, who: nat)
    ensures Prelude(c, s) + CutShort(c, s.tls, who, false, |RcptText(c, who, false)|) + [Refused] + [RcptTo(who, true)]
         == Prelude(c, s) + (FirstTry(c, s.tls, who, true) + [RcptTo(who, true)])
  {
    hide Prelude, RcptText;
    assert [] + Tried(c, s.tls, who, false, |RcptText(c, who, false)|)
           == Tried(c, s.tls, who, false, |RcptText(c, who, false)|);
  }

  /** The offer of a recipient has been transferred, in whole or in part. */
  lemma OfferedLogs(c: Letter, s: State, who: nat, angled: bool, k: nat)
    requires Logged(c, s) && s.phase == Offering(who, angled) && k <= |RcptText(c, who, angled)|
    ensures Offered(c, s, who, angled, k).log == Prelude(c, s) + CutShort(c, s.tls, who, angled, k)
  {
    hide Prelude, RcptText, FirstTry;
  }

  lemma EndCut(c: Letter, s: State, who: nat, angled: bool, k: nat)
    requires AtRecipient(c, s, who) && k <= |RcptText(c, who, angled)|
    requires s.log == Prelude(c, s) + CutShort(c, s.tls, who, angled, k)
    ensures Logged(c, EndRecipients(c, s, CutShort(c, s.tls, who, angled, k)))
  {
    hide Prelude, CutShort, RcptText, EndRecipients;
    EndLogs(c, s, CutShort(c, s.tls, who, angled, k));
  }

  lemma WriteLogs(c: Letter, s: State, stage: Stage)
    requires Logged(c, s) && s.phase == Writing(stage)
    ensures Logged(c, Transfer(s, stage, |s.unsent|).(phase := Reading(stage)))
  {
    hide Before, Flushed, Exchanges, RecipientsDone;
    assert s.unsent[..|s.unsent|] == s.unsent;
  }

  lemma StepLogs(c: Letter, s: State, e: Event)
    requires Logged(c, s)
    ensures Logged(c, Step(c, s, e))
  {
    hide Through, Prelude, CutShort, RcptText, Answer, RecipientAnswer, EndRecipients, Issue, Retry, Transfer;
    match s.phase
    case Paused =>
    case Over(_) =>
    case Connecting =>
      RetryLogs(c, s);
      NothingSaid(c, Of(s), Recipients(c, s));
    case Offering(who, angled) =>
      if e.Failed? {
        var k := Partly(|RcptText(c, who, angled)|, e.sent);
        OfferedLogs(c, s, who, angled, k);
        SamePrelude(c, s, Offered(c, s, who, angled, k));
        EndCut(c, Offered(c, s, who, angled, k), who, angled, k);
      } else {
        var k := |RcptText(c, who, angled)|;
        OfferedLogs(c, s, who, angled, k);
        SamePrelude(c, s, Offered(c, s, who, angled, k).(phase := Awaiting(who, angled)));
      }
    case Awaiting(who, angled) =>
      if e.Failed? {
        EndCut(c, s, who, angled, |RcptText(c, who, angled)|);
      } else {
        RecipientLogs(c, s, who, angled, e.input);
      }
    case Writing(stage) =>
      if e.Failed? {
        RetryLogs(c, Transfer(s, stage, Partly(|s.unsent|, e.sent)));
      } else {
        WriteLogs(c, s, stage);
      }
    case Reading(stage) =>
      RetryLogs(c, s);
      if e.Completed? {
        AnswerLogs(c, s, stage, e.input);
      }
    case Handshaking =>
      RetryLogs(c, s);
      IssueLogs(c, s.(log := s.log + [Secured(s.offered)]), Auth);
  }

  lemma {:induction false} RunLogs(c: Letter, events: seq<Event>)
    ensures Logged(c, Run(c, events))
  {
    hide Logged, Step;
    if events == [] {
      NotBegun(c);
    } else {
      var k := |events| - 1;
      RunLogs(c, events[..k]);
      StepLogs(c, Run(c, events[..k]), events[k]);
    }
  }

  lemma NotBegun(c: Letter)
    ensures Run(c, []) == Start() && Logged(c, Start())
  {
  }

  // ---------- the results ----------

  /**
   Success is reported only after the whole dialogue: the greeting, EHLO, STARTTLS and the handshake if there is an
   encrypted stream, AUTH, MAIL FROM, the recipients in order with one accepted, DATA and the mail itself, each with its
   own reply. Each command is transferred in full and nothing else is, save that EHLO takes with it what an earlier
   attempt has left in the write buffer; from the handshake on everything is encrypted.
   */
  lemma SuccessDialogue(c: Letter, events: seq<Event>)
    requires true in Run(c, events).calls
    ensures var s := Run(c, events);
            && s.log == Dialogue(c, Of(s), Exchanges(c, s.tls, s.outcomes) + s.cut)
            && RecipientsDone(c, s.tls, s.outcomes, s.cut)
            && s.retries < 22 && s.pauses == Pauses(s.retries)
  {
    hide Dialogue, Exchanges, RecipientsDone, Run;
    RunAccounts(c, events);
    RunLogs(c, events);
  }

  /** Failure is reported only after 22 attempts, with pauses of 30, 40 and so on up to 230 seconds between them. */
  lemma FailureExhausts(c: Letter, events: seq<Event>)
    requires false in Run(c, events).calls
    ensures Run(c, events).retries == 22 && Run(c, events).pauses == Pauses(21)
  {
    hide Run;
    RunAccounts(c, events);
  }

  /** The caller is told at most once: at the end of the run, after which nothing happens any more. */
  lemma {:induction false} ToldOnce(c: Letter, events: seq<Event>, more: seq<Event>)
    ensures var s := Run(c, events); s.calls == match s.phase case Over(ok) => [ok] case _ => []
    ensures Run(c, events).calls != [] ==> Run(c, events + more) == Run(c, events)
  {
    RunAccounts(c, events);
    if more == [] {
      assert events + more == events;
    } else {
      var k := |more| - 1;
      ToldOnce(c, events, more[..k]);
      assert (events + more)[..|events + more| - 1] == events + more[..k];
    }
  }

  /** How many completions the attempt at hand can still take. */
  function AttemptLeft(n: nat, phase: Phase): (k: int)
  {
    match phase
    case Paused => 4 * n + 16
    case Connecting => 4 * n + 15
    case Writing(stage) => StageLeft(n, stage) + 1
    case Reading(stage) => StageLeft(n, stage)
    case Handshaking => 4 * n + 9
    case Offering(who, angled) => 4 * (n - who) + (if angled then 2 else 4)
    case Awaiting(who, angled) => 4 * (n - who) + (if angled then 1 else 3)
    case Over(_) => 0
  }

  function StageLeft(n: nat, stage: Stage): (k: nat)
  {
    match stage
    case Greeting => 4 * n + 14
    case Ehlo => 4 * n + 12
    case StartTls => 4 * n + 10
    case Auth => 4 * n + 7
    case MailFrom => 4 * n + 5
    case Data => 3
    case Mail => 1
  }

  /** How many completions the run can still take. */
  function Left(n: nat, s: State): (k: int)
  {
    if s.phase.Over? || s.retries >= ATTEMPTS then 0
    else Times(ATTEMPTS - 1 - s.retries, 4 * n + 16) + AttemptLeft(n, s.phase)
  }

  lemma TimesStep(a: nat, b: nat)
    ensures Times(a + 1, b) == Times(a, b) + b
  {
  }

  lemma RetryShortens(c: Letter, s: State)
    requires s.retries < ATTEMPTS
    ensures Left(|c.rcpts|, Retry(s)) <= Times(ATTEMPTS - 1 - s.retries, 4 * |c.rcpts| + 16)
  {
    hide Times;
    if s.retries < ATTEMPTS - 1 {
      TimesStep(ATTEMPTS - 2 - s.retries, 4 * |c.rcpts| + 16);
    }
  }

  lemma OfferShortens(c: Letter, s: State, who: nat, cut: seq<Entry>)
    requires s.retries < ATTEMPTS && who <= |c.rcpts|
    ensures Left(|c.rcpts|, EndRecipients(c, s, cut)) <= Times(ATTEMPTS - 1 - s.retries, 4 * |c.rcpts| + 16) + 4
    ensures Left(|c.rcpts|, Offer(c, s, who))
         <= Times(ATTEMPTS - 1 - s.retries, 4 * |c.rcpts| + 16) + 4 * (|c.rcpts| - who) + 4
  {
    hide Times, Retry, Issue;
    RetryShortens(c, s);
    IssueShortens(c, s.(cut := cut), Data);
    IssueShortens(c, s.(cut := []), Data);
  }

  lemma IssueShortens(c: Letter, s: State, stage: Stage)
    requires s.retries < ATTEMPTS
    ensures Left(|c.rcpts|, Issue(c, s, stage))
         == Times(ATTEMPTS - 1 - s.retries, 4 * |c.rcpts| + 16) + StageLeft(|c.rcpts|, stage) + 1
  {
    hide Times, LineText;
  }

  lemma ProceedShortens(c: Letter, s: State, stage: Stage)
    requires s.retries < ATTEMPTS
    ensures Left(|c.rcpts|, Proceed(c, s, stage))
          < Times(ATTEMPTS - 1 - s.retries, 4 * |c.rcpts| + 16) + StageLeft(|c.rcpts|, stage)
  {
    hide Times, Offer, Issue;
    OfferShortens(c, s.(taken := 0, outcomes := []), 0, []);
    forall next: Stage
      ensures Left(|c.rcpts|, Issue(c, s, next))
           == Times(ATTEMPTS - 1 - s.retries, 4 * |c.rcpts| + 16) + StageLeft(|c.rcpts|, next) + 1
    {
      IssueShortens(c, s, next);
    }
  }

  lemma AnswerShortens(c: Letter, s: State, stage: Stage, input: string)
    requires s.retries < ATTEMPTS
    ensures Left(|c.rcpts|, Answer(c, s, stage, input))
          < Times(ATTEMPTS - 1 - s.retries, 4 * |c.rcpts| + 16) + StageLeft(|c.rcpts|, stage)
  {
    hide Times, Check, Proceed, Retry, Left;
    var s1 := Noticed(s, stage, Check(s.buf + input, Code(stage)));
    ProceedShortens(c, s1.(log := s1.log + [Agreed(stage)]), stage);
    RetryShortens(c, s1);
  }

  lemma RecipientShortens(c: Letter, s: State, who: nat, angled: bool, input: string)
    requires s.retries < ATTEMPTS && who < |c.rcpts|
    ensures Left(|c.rcpts|, RecipientAnswer(c, s, who, angled, input))
          < Times(ATTEMPTS - 1 - s.retries, 4 * |c.rcpts| + 16) + AttemptLeft(|c.rcpts|, Awaiting(who, angled))
  {
    hide Times, Check, Offer;
    var s1 := s.(buf := Check(s.buf + input, "250").rest);
    var outcome := if angled then Angled else AtOnce;
    OfferShortens(c, s1.(taken := s1.taken + 1, log := s1.log + [Taken], outcomes := s1.outcomes + [outcome]), who + 1,
                  []);
    OfferShortens(c, s1.(log := s1.log + [Refused], outcomes := s1.outcomes + [Neither]), who + 1, []);
  }

  /** Every completion brings the end nearer. */
  lemma StepShortens(c: Letter, s: State, e: Event)
    requires Logged(c, s) && Accounted(s) && !s.phase.Over?
    ensures 0 <= Left(|c.rcpts|, Step(c, s, e)) < Left(|c.rcpts|, s)
  {
    hide Times, Answer, RecipientAnswer, EndRecipients, Retry, Through, Before, Exchanges, Pauses, CutShort, RcptText,
         Issue, Transfer, Prelude;
    StepLogs(c, s, e);
    NotNegative(c, Step(c, s, e));
    RetryShortens(c, s);
    match s.phase
    case Offering(who, angled) =>
      if e.Failed? {
        var k := Partly(|RcptText(c, who, angled)|, e.sent);
        OfferShortens(c, Offered(c, s, who, angled, k), who, CutShort(c, s.tls, who, angled, k));
      }
    case Awaiting(who, angled) =>
      OfferShortens(c, s, who, CutShort(c, s.tls, who, angled, |RcptText(c, who, angled)|));
      if e.Completed? {
        RecipientShortens(c, s, who, angled, e.input);
      }
    case Reading(stage) =>
      if e.Completed? {
        AnswerShortens(c, s, stage, e.input);
      }
    case Writing(stage) =>
      TransferShortens(c, s, stage, Partly(|s.unsent|, if e.Failed? then e.sent else 0));
    case Handshaking => IssueShortens(c, s.(log := s.log + [Secured(s.offered)]), Auth);
    case _ =>
  }

  lemma TransferShortens(c: Letter, s: State, stage: Stage, k: nat)
    requires k <= |s.unsent| && s.retries < ATTEMPTS
    ensures Left(|c.rcpts|, Retry(Transfer(s, stage, k))) <= Times(ATTEMPTS - 1 - s.retries, 4 * |c.rcpts| + 16)
    ensures Left(|c.rcpts|, Transfer(s, stage, |s.unsent|).(phase := Reading(stage)))
         == Times(ATTEMPTS - 1 - s.retries, 4 * |c.rcpts| + 16) + StageLeft(|c.rcpts|, stage)
  {
    hide Times, Retry;
    RetryShortens(c, Transfer(s, stage, k));
  }

  lemma NotNegative(c: Letter, s: State)
    requires Logged(c, s)
    ensures Left(|c.rcpts|, s) >= 0
  {
    hide Times, Through, Before, Exchanges, Prelude, CutShort, RcptText;
  }

  lemma {:induction false} RunShortens(c: Letter, events: seq<Event>)
    ensures 0 <= Left(|c.rcpts|, Run(c, events))
    ensures Run(c, events).phase.Over?
         || Left(|c.rcpts|, Run(c, events)) + |events| <= Times(ATTEMPTS, 4 * |c.rcpts| + 16)
  {
    hide Times, Left, Step;
    RunLogs(c, events);
    NotNegative(c, Run(c, events));
    if events == [] {
      AtStart(c);
    } else {
      var k := |events| - 1;
      var s := Run(c, events[..k]);
      RunShortens(c, events[..k]);
      RunLogs(c, events[..k]);
      RunAccounts(c, events[..k]);
      if s.phase.Over? {
        StaysOver(c, s, events[k]);
      } else {
        StepShortens(c, s, events[k]);
      }
    }
  }

  lemma AtStart(c: Letter)
    ensures Left(|c.rcpts|, Start()) == Times(ATTEMPTS, 4 * |c.rcpts| + 16)
  {
    hide Times;
    TimesStep(ATTEMPTS - 1, 4 * |c.rcpts| + 16);
  }

  lemma StaysOver(c: Letter, s: State, e: Event)
    requires s.phase.Over?
    ensures Step(c, s, e) == s
  {
  }

  /** Whatever the network does, the caller is told after at most 22 times 4n + 16 completions, for n recipients. */
  lemma ToldInTime(c: Letter, events: seq<Event>)
    requires |events| >= 22 * (4 * |c.rcpts| + 16)
    ensures |Run(c, events).calls| == 1
  {
    hide Run, Left;
    RunShortens(c, events);
    RunAccounts(c, events);
    TimesIs(ATTEMPTS, 4 * |c.rcpts| + 16);
    OverBeforeZero(c, events);
  }

  /** A run that is not over has something left to do. */
  lemma OverBeforeZero(c: Letter, events: seq<Event>)
    ensures Run(c, events).phase.Over? || Left(|c.rcpts|, Run(c, events)) >= 1
  {
    hide Run, Times, Through, Before, Exchanges, Prelude, CutShort, RcptText, Pauses;
    RunAccounts(c, events);
    RunLogs(c, events);
  }
}
