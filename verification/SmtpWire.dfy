/**
 What a mail sender that reports success has put on the wire (libmailexchange/smtp.hpp, smtp.cpp), character by character
 and stream by stream.
 */
module SmtpWire {
  import opened SmtpRun

  function Chars(octets: seq<Octet>): (text: string)
    ensures |text| == |octets|
  {
    seq(|octets|, i requires 0 <= i < |octets| => octets[i].value)
  }

  lemma CharsConcat(a: seq<Octet>, b: seq<Octet>)
    ensures Chars(a + b) == Chars(a) + Chars(b)
  {
  }

  lemma CharsOf(text: string, secret: bool)
    ensures Chars(Octets(text, secret)) == text
  {
  }

  /** What the record says was transferred in clear, or encrypted. */
  function Sent(log: seq<Entry>, secure: bool): (text: string)
  {
    if log == [] then ""
    else
      var x := log[|log| - 1];
      Sent(log[..|log| - 1], secure) + if x.Wrote? && x.secure == secure then Chars(x.octets) else ""
  }

  lemma SentOne(log: seq<Entry>, x: Entry, secure: bool)
    ensures Sent(log + [x], secure)
         == Sent(log, secure) + if x.Wrote? && x.secure == secure then Chars(x.octets) else ""
  {
    assert (log + [x])[..|log|] == log;
  }

  lemma {:induction false} SentConcat(a: seq<Entry>, b: seq<Entry>, secure: bool)
    ensures Sent(a + b, secure) == Sent(a, secure) + Sent(b, secure)
  {
    hide Sent, Chars;
    if b == [] {
      assert a + b == a;
      SentNone(secure);
    } else {
      var front, x := b[..|b| - 1], b[|b| - 1];
      SentConcat(a, front, secure);
      SentOne(a + front, x, secure);
      SentOne(front, x, secure);
      assert a + b == a + front + [x] && b == front + [x];
    }
  }

  // ---------- the recipients ----------

  /** The offers of a recipient: plain, and once more in angle brackets unless it was accepted at once. */
  function OfferText(name: string, outcome: Outcome): (text: string)
  {
    "rcpt to: " + name + "\r\n" + if outcome == AtOnce then "" else "rcpt to: <" + name + ">\r\n"
  }

  function OfferTexts(names: seq<string>, outcomes: seq<Outcome>): (text: string)
    requires |outcomes| <= |names|
  {
    if outcomes == [] then ""
    else
      var k := |outcomes| - 1;
      OfferTexts(names, outcomes[..k]) + OfferText(names[k], outcomes[k])
  }

  /** The offers to a recipient were sent up to some character before the network failed. */
  ghost predicate PartOfOffer(name: string, text: string)
  {
    text <= "rcpt to: " + name + "\r\n" + "rcpt to: <" + name + ">\r\n"
  }

  lemma RcptChars(c: Letter, who: nat, angled: bool, k: nat)
    requires who < |c.rcpts| && k <= |RcptText(c, who, angled)|
    ensures Chars(RcptText(c, who, angled)[..k])
         == (if angled then "rcpt to: <" + c.rcpts[who] + ">\r\n" else "rcpt to: " + c.rcpts[who] + "\r\n")[..k]
  {
  }

  lemma SentTried(c: Letter, tls: bool, who: nat, angled: bool, k: nat, secure: bool)
    requires who < |c.rcpts| && k <= |RcptText(c, who, angled)|
    ensures Sent(Tried(c, tls, who, angled, k), secure)
         == if secure == tls then Chars(RcptText(c, who, angled)[..k]) else ""
  {
    hide Chars, RcptText;
    SentOne([RcptTo(who, angled)], Wrote(RcptText(c, who, angled)[..k], tls), secure);
    SentOne([], RcptTo(who, angled), secure);
    assert [] + [RcptTo(who, angled)] == [RcptTo(who, angled)];
  }

  lemma SentCut(c: Letter, tls: bool, who: nat, angled: bool, k: nat, secure: bool)
    requires who < |c.rcpts| && k <= |RcptText(c, who, angled)|
    ensures Sent(CutShort(c, tls, who, angled, k), secure)
         == if secure != tls then ""
            else
              var name := c.rcpts[who];
              if angled then "rcpt to: " + name + "\r\n" + ("rcpt to: <" + name + ">\r\n")[..k]
              else ("rcpt to: " + name + "\r\n")[..k]
  {
    hide Sent, Tried, FirstTry, Chars, RcptText;
    RcptChars(c, who, angled, k);
    SentTried(c, tls, who, angled, k, secure);
    SentFirst(c, tls, who, angled, secure);
    SentConcat(FirstTry(c, tls, who, angled), Tried(c, tls, who, angled, k), secure);
  }

  lemma SentFirst(c: Letter, tls: bool, who: nat, angled: bool, secure: bool)
    requires who < |c.rcpts|
    ensures Sent(FirstTry(c, tls, who, angled), secure)
         == if secure == tls && angled then "rcpt to: " + c.rcpts[who] + "\r\n" else ""
  {
    hide Sent, Tried, Chars;
    var n := |RcptText(c, who, false)|;
    RcptChars(c, who, false, n);
    assert ("rcpt to: " + c.rcpts[who] + "\r\n")[..n] == "rcpt to: " + c.rcpts[who] + "\r\n";
    SentTried(c, tls, who, false, n, secure);
    SentOne(Tried(c, tls, who, false, n), Refused, secure);
    SentNone(secure);
  }

  lemma SentNone(secure: bool)
    ensures Sent([], secure) == ""
  {
  }

  lemma SentExchange(c: Letter, tls: bool, who: nat, outcome: Outcome, secure: bool)
    requires who < |c.rcpts|
    ensures Sent(Exchange(c, tls, who, outcome), secure) == if secure == tls then OfferText(c.rcpts[who], outcome) else ""
  {
    hide Sent, CutShort;
    var angled, name := outcome != AtOnce, c.rcpts[who];
    var n := |RcptText(c, who, angled)|;
    SentCut(c, tls, who, angled, n, secure);
    SentOne(CutShort(c, tls, who, angled, n), if outcome == Neither then Refused else Taken, secure);
    var line := if angled then "rcpt to: <" + name + ">\r\n" else "rcpt to: " + name + "\r\n";
    assert line[..n] == line;
  }

  lemma {:induction false} SentExchanges(c: Letter, tls: bool, outcomes: seq<Outcome>, secure: bool)
    requires |outcomes| <= |c.rcpts|
    ensures Sent(Exchanges(c, tls, outcomes), secure) == if secure == tls then OfferTexts(c.rcpts, outcomes) else ""
  {
    hide Sent, Exchange, OfferText;
    if outcomes == [] {
      SentNone(secure);
    } else {
      var k := |outcomes| - 1;
      SentExchanges(c, tls, outcomes[..k], secure);
      SentExchange(c, tls, k, outcomes[k], secure);
      SentConcat(Exchanges(c, tls, outcomes[..k]), Exchange(c, tls, k, outcomes[k]), secure);
    }
  }

  // ---------- the dialogue ----------

  /** What a stage adds on its stream. */
  function Added(c: Letter, a: Attempt, stage: Stage, secure: bool): (text: string)
  {
    if secure == (Private(stage) && a.tls) then Chars(Flushed(c, a, stage)) else ""
  }

  lemma SentThrough(c: Letter, a: Attempt, stage: Stage, recipients: seq<Entry>, secure: bool)
    requires stage != Greeting
    ensures Sent(Through(c, a, stage, recipients), secure)
         == Sent(Before(c, a, stage, recipients), secure) + Added(c, a, stage, secure)
  {
    hide Sent, Chars, Before, Flushed, Private;
    var before, command := Before(c, a, stage, recipients), Command(stage, Private(stage) && a.tls);
    SentOne(before, command, secure);
    SentOne(before + [command], Wrote(Flushed(c, a, stage), Private(stage) && a.tls), secure);
  }

  lemma FlushedChars(c: Letter, a: Attempt, stage: Stage)
    ensures Chars(Flushed(c, a, stage)) == (if stage == Ehlo then Chars(a.carried) else "") + Line(c, stage)
  {
    hide Line;
    CharsConcat(if stage == Ehlo then a.carried else [], LineText(c, stage));
    CharsOf(Line(c, stage), Private(stage));
    assert Chars([]) == "";
  }

  lemma SentEhlo(c: Letter, a: Attempt, recipients: seq<Entry>, secure: bool)
    ensures Sent(Through(c, a, Ehlo, recipients) + [Agreed(Ehlo)], secure)
         == if secure then "" else Chars(a.carried) + ("EHLO " + c.server + "\r\n")
  {
    hide Sent, Chars, Through, Flushed;
    SentNone(secure);
    SentOne([], Agreed(Greeting), secure);
    assert [] + [Agreed(Greeting)] == [Agreed(Greeting)];
    SentThrough(c, a, Ehlo, recipients, secure);
    FlushedChars(c, a, Ehlo);
    SentOne(Through(c, a, Ehlo, recipients), Agreed(Ehlo), secure);
  }

  lemma SentStartTls(c: Letter, a: Attempt, recipients: seq<Entry>, secure: bool)
    ensures Sent(Through(c, a, StartTls, recipients) + [Agreed(StartTls)] + [Secured(a.own)], secure)
         == Sent(Through(c, a, Ehlo, recipients) + [Agreed(Ehlo)], secure) + if secure then "" else "STARTTLS\r\n"
  {
    hide Sent, Chars, Through, Flushed;
    SentThrough(c, a, StartTls, recipients, secure);
    FlushedChars(c, a, StartTls);
    var log := Through(c, a, StartTls, recipients);
    SentOne(log, Agreed(StartTls), secure);
    SentOne(log + [Agreed(StartTls)], Secured(a.own), secure);
  }

  /** The commands before the handshake, with what an earlier attempt has left. */
  lemma SentHello(c: Letter, a: Attempt, recipients: seq<Entry>, secure: bool)
    ensures Sent(Before(c, a, Auth, recipients), secure)
         == if secure then ""
            else Chars(a.carried) + "EHLO " + c.server + "\r\n" + if a.tls then "STARTTLS\r\n" else ""
  {
    hide Sent, Chars, Through;
    SentEhlo(c, a, recipients, secure);
    SentStartTls(c, a, recipients, secure);
    assert Chars(a.carried) + ("EHLO " + c.server + "\r\n") == Chars(a.carried) + "EHLO " + c.server + "\r\n";
  }

  /** From AUTH on, every command adds to what was sent. */
  lemma SentRest(c: Letter, a: Attempt, recipients: seq<Entry>, secure: bool)
    ensures Sent(Before(c, a, Data, recipients), secure)
         == Sent(Before(c, a, Auth, recipients), secure) + Added(c, a, Auth, secure) + Added(c, a, MailFrom, secure)
            + Sent(recipients, secure)
    ensures Sent(Dialogue(c, a, recipients), secure)
         == Sent(Before(c, a, Data, recipients), secure) + Added(c, a, Data, secure) + Added(c, a, Mail, secure)
  {
    hide Sent, Chars, Through, Flushed, Added;
    SentThrough(c, a, Auth, recipients, secure);
    SentOne(Through(c, a, Auth, recipients), Agreed(Auth), secure);
    SentThrough(c, a, MailFrom, recipients, secure);
    SentOne(Through(c, a, MailFrom, recipients), Agreed(MailFrom), secure);
    SentConcat(Through(c, a, MailFrom, recipients) + [Agreed(MailFrom)], recipients, secure);
    SentThrough(c, a, Data, recipients, secure);
    SentOne(Through(c, a, Data, recipients), Agreed(Data), secure);
    SentThrough(c, a, Mail, recipients, secure);
    SentOne(Through(c, a, Mail, recipients), Agreed(Mail), secure);
  }

  /** They are all on one stream. */
  lemma AddedPrivate(c: Letter, a: Attempt, secure: bool)
    ensures secure != a.tls ==>
              && Added(c, a, Auth, secure) == Added(c, a, MailFrom, secure) == ""
              && Added(c, a, Data, secure) == Added(c, a, Mail, secure) == ""
    ensures secure == a.tls ==>
              && Added(c, a, Auth, secure) == "AUTH PLAIN " + c.auth + "\r\n"
              && Added(c, a, MailFrom, secure) == "MAIL FROM: <" + c.from + ">\r\n"
              && Added(c, a, Data, secure) == "DATA\r\n" && Added(c, a, Mail, secure) == c.text + "\r\n.\r\n"
  {
    hide Chars, Flushed;
    FlushedChars(c, a, Auth);
    FlushedChars(c, a, MailFrom);
    FlushedChars(c, a, Data);
    FlushedChars(c, a, Mail);
  }

  /** The commands that belong behind the handshake, in order. */
  function Confidential(c: Letter, offers: string): (text: string)
  {
    "AUTH PLAIN " + c.auth + "\r\n" + "MAIL FROM: <" + c.from + ">\r\n" + offers + "DATA\r\n"
    + c.text + "\r\n.\r\n"
  }

  lemma SentConfidential(c: Letter, a: Attempt, recipients: seq<Entry>, secure: bool, offers: string)
    requires Sent(recipients, secure) == if secure == a.tls then offers else ""
    ensures Sent(Dialogue(c, a, recipients), secure)
         == Sent(Before(c, a, Auth, recipients), secure) + if secure == a.tls then Confidential(c, offers) else ""
  {
    hide Sent, Before, Added, Dialogue;
    SentRest(c, a, recipients, secure);
    AddedPrivate(c, a, secure);
    if secure == a.tls {
      Associate(Sent(Before(c, a, Auth, recipients), secure), "AUTH PLAIN " + c.auth + "\r\n",
                "MAIL FROM: <" + c.from + ">\r\n", offers, "DATA\r\n", c.text, "\r\n.\r\n");
      AssociateFront("AUTH PLAIN " + c.auth + "\r\n", "MAIL FROM: <", c.from, ">\r\n", offers);
    }
  }

  lemma Associate(z: string, a: string, b: string, o: string, d: string, t: string, e: string)
    ensures z + a + b + o + d + (t + e) == z + (a + b + o + d + t + e)
  {
    var all := a + b + o + d;
    assert z + a + b + o + d == z + all;
    assert z + all + (t + e) == z + (all + t + e);
  }

  lemma AssociateFront(a: string, m: string, f: string, g: string, o: string)
    ensures a + m + f + g + o == a + (m + f + g) + o
  {
    assert a + m + f + g == a + (m + f + g);
  }

  /** Of the recipients that were not dealt with, the first may have been offered in part. */
  ghost predicate EndOfOffers(names: seq<string>, done: nat, text: string)
  {
    (done == |names| && text == "") || (done < |names| && PartOfOffer(names[done], text))
  }

  lemma SentCutAt(c: Letter, tls: bool, outcomes: seq<Outcome>, cut: seq<Entry>) returns (text: string)
    requires RecipientsDone(c, tls, outcomes, cut)
    ensures EndOfOffers(c.rcpts, |outcomes|, text)
    ensures Sent(cut, tls) == text && Sent(cut, !tls) == ""
  {
    hide Sent, CutShort, RcptText;
    SentNone(tls);
    SentNone(!tls);
    if |outcomes| == |c.rcpts| {
      text := "";
    } else {
      var who := |outcomes|;
      var angled: bool, k: nat :| k <= |RcptText(c, who, angled)| && cut == CutShort(c, tls, who, angled, k);
      RcptLength(c, who, angled);
      SentCut(c, tls, who, angled, k, tls);
      SentCut(c, tls, who, angled, k, !tls);
      text := Sent(cut, tls);
      var name := c.rcpts[who];
      var line, second := "rcpt to: " + name + "\r\n", "rcpt to: <" + name + ">\r\n";
      assert line + "rcpt to: <" + name + ">\r\n" == line + second;
      assert line + second[..if angled then k else 0] <= line + second;
    }
  }

  lemma RcptLength(c: Letter, who: nat, angled: bool)
    requires who < |c.rcpts|
    ensures |RcptText(c, who, angled)| == |if angled then "rcpt to: <" + c.rcpts[who] + ">\r\n"
                                          else "rcpt to: " + c.rcpts[who] + "\r\n"|
  {
  }

  /**
   All that an attempt with success has transferred. With an encrypted stream only EHLO and STARTTLS are in clear, behind
   what an earlier attempt has left in the write buffer, and all the rest is encrypted; without one all is in clear.
   */
  lemma SuccessWire(c: Letter, events: seq<Event>) returns (cut: string)
    requires true in Run(c, events).calls
    ensures |Run(c, events).outcomes| <= |c.rcpts| && EndOfOffers(c.rcpts, |Run(c, events).outcomes|, cut)
    ensures var s := Run(c, events);
            var hello := Chars(s.carried) + "EHLO " + c.server + "\r\n";
            var offers := OfferTexts(c.rcpts, s.outcomes) + cut;
            && Sent(s.log, false) == hello + (if s.tls then "STARTTLS\r\n" else Confidential(c, offers))
            && Sent(s.log, true) == if s.tls then Confidential(c, offers) else ""
  {
    hide Run, Sent, Before, Dialogue, Exchanges, OfferTexts, Confidential, EndOfOffers, CutAt, Chars, Successes;
    SuccessDialogue(c, events);
    var s := Run(c, events);
    cut := SentCutAt(c, s.tls, s.outcomes, s.cut);
    var recipients, offers := Exchanges(c, s.tls, s.outcomes) + s.cut, OfferTexts(c.rcpts, s.outcomes) + cut;
    forall secure: bool
      ensures Sent(recipients, secure) == if secure == s.tls then offers else ""
    {
      SentExchanges(c, s.tls, s.outcomes, secure);
      SentConcat(Exchanges(c, s.tls, s.outcomes), s.cut, secure);
    }
    SentHello(c, Of(s), recipients, false);
    SentHello(c, Of(s), recipients, true);
    SentConfidential(c, Of(s), recipients, false, offers);
    SentConfidential(c, Of(s), recipients, true, offers);
  }
}
