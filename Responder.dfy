/**
 The polling loop of `main` in code.py: each poll reads the latest SMS, acts
 on it only if its `received` value differs from the last one seen, and
 either waits for the trigger word (no trusted number yet) or answers only
 the trusted number. Answering means getting a GPS fix and, if there is one,
 sending the `b64_encode`d coordinates back to the sender.

 The Termux calls are inputs: the list `latest_sms` returned, the string
 `get_location` returned (or `None`), and what `send_sms` returned.
 */
module Responder {

  import opened Options
  import opened Base64Url
  import opened Obfuscator

  // ---------------------------------------------------------------------
  // The trigger word
  // ---------------------------------------------------------------------

  /** The pattern searched for, case-insensitively, in the body of a message. */
  const Trigger: string := "ccbaba"

  /**
   Lower-casing of ASCII letters. For the letters of `Trigger` (a, b, c) no
   other character folds to them, so this is all `re.IGNORECASE` does here.
   */
  function FoldCase(c: char): char {
    if 'A' <= c <= 'Z' then (c as int - 'A' as int + 'a' as int) as char else c
  }

  /** The trigger occurs in `body` starting at index `j`, ignoring case. */
  predicate MatchesAt(body: string, j: int) {
    0 <= j && j + |Trigger| <= |body| &&
    forall k :: 0 <= k < |Trigger| ==> FoldCase(body[j + k]) == Trigger[k]
  }

  // Left-to-right search for a match starting at `i` or later.
  function SearchFrom(body: string, i: nat): (found: bool)
    ensures found <==> exists j :: i <= j && MatchesAt(body, j)
    decreases |body| - i
  {
    if i + |Trigger| > |body| then false
    else if MatchesAt(body, i) then true
    else SearchFrom(body, i + 1)
  }

  /** `re.search(r"ccbaba", body, re.IGNORECASE)` finds a match. */
  function ContainsTrigger(body: string): (found: bool)
    ensures found <==> exists j :: MatchesAt(body, j)
  {
    SearchFrom(body, 0)
  }

  // ---------------------------------------------------------------------
  // Messages and state
  // ---------------------------------------------------------------------

  /**
   One entry of the JSON list printed by `termux-sms-list`; each field may be
   missing.
   */
  datatype Message = Message(received: Option<string>, number: Option<string>, body: Option<string>)

  /** `msg.get("number", "")`: the number when present, the empty string otherwise. */
  function Sender(m: Message): (r: string)
    ensures m.number.Some? ==> r == m.number.value
    ensures m.number.None? ==> r == ""
  {
    m.number.GetOr("")
  }

  /** `msg.get("body", "")`: the body when present, the empty string otherwise. */
  function Body(m: Message): (r: string)
    ensures m.body.Some? ==> r == m.body.value
    ensures m.body.None? ==> r == ""
  {
    m.body.GetOr("")
  }

  /** One `send_sms(number, text)` call. */
  datatype Sms = Sms(number: string, text: string)

  /** The two variables of `main`: `last_received` and `trusted_number`. */
  datatype State = State(lastReceived: Option<string>, trustedNumber: Option<string>)

  /** Both start as `None`. */
  const Initial: State := State(None, None)

  /** What the external tools answered during one iteration of the loop. */
  datatype PollInput = PollInput(items: seq<Message>, fix: Option<string>, sendOk: bool)

  /** The state after a poll and the messages it sent, in order. */
  datatype Outcome = Outcome(state: State, sent: seq<Sms>)

  /**
   `if loc:` holds: `get_location` returned a string, and not an empty one;
   both `None` and `""` are false in Python.
   */
  function HasFix(fix: Option<string>): (b: bool)
    ensures fix == None ==> !b
    ensures fix == Some("") ==> !b
    ensures b <==> fix.Some? && |fix.value| > 0
  {
    fix.Some? && fix.value != ""
  }

  /**
   `b64_encode(loc)`: the payload sent for a fix. It is never empty, and
   swapping its blocks back and decoding gives the bytes of the fix.
   */
  function Payload(fix: Option<string>): (r: string)
    requires HasFix(fix)
    ensures |r| >= 4
    ensures Decode(SwapBlocks(r)) == Some(Utf8(fix.value))
  {
    var r := B64Encode(fix.value);
    assert (|Utf8(fix.value)| + 2) / 3 >= 1;
    r
  }

  /**
   `if items:` and `rec != last_received`: the latest message is there and its
   `received` value is not the last one seen.
   */
  function IsNovel(s: State, items: seq<Message>): (b: bool)
    ensures items == [] ==> !b
    ensures items != [] ==> (b <==> items[0].received != s.lastReceived)
  {
    items != [] && items[0].received != s.lastReceived
  }

  /**
   One iteration of the `while True` loop. A message is acted on only when it
   is novel, and `last_received` then takes its `received` value whatever
   happens next. The trusted number is set at most once, only from `None`, only
   for a matching body with a fix, and never depends on `sendOk`. At most one
   SMS goes out: to the sender of the latest message, with the payload of the
   fix.
   */
  function Next(s: State, items: seq<Message>, fix: Option<string>, sendOk: bool): (o: Outcome)
    ensures !IsNovel(s, items) ==> o == Outcome(s, [])
    ensures IsNovel(s, items) ==> o.state.lastReceived == items[0].received
    ensures s.trustedNumber.Some? ==> o.state.trustedNumber == s.trustedNumber
    ensures o.state.trustedNumber != s.trustedNumber ==>
      && s.trustedNumber == None && IsNovel(s, items) && ContainsTrigger(Body(items[0])) && HasFix(fix)
      && o.state.trustedNumber == Some(Sender(items[0]))
    ensures |o.sent| <= 1
    ensures o.sent != [] ==> IsNovel(s, items) && HasFix(fix) && o.sent == [Sms(Sender(items[0]), Payload(fix))]
  {
    if items == [] then Outcome(s, [])
    else
      var msg := items[0];
      var rec, sender, body := msg.received, Sender(msg), Body(msg);
      if rec == s.lastReceived then Outcome(s, [])
      else
        var seen := s.(lastReceived := rec);
        match s.trustedNumber
        case None =>
          if ContainsTrigger(body) && HasFix(fix) then
            Outcome(seen.(trustedNumber := Some(sender)), [Sms(sender, Payload(fix))])
          else
            Outcome(seen, [])
        case Some(trusted) =>
          if sender == trusted && HasFix(fix) then
            Outcome(seen, [Sms(sender, Payload(fix))])
          else
            Outcome(seen, [])
  }

  /**
   A finite run of the loop: one `Next` per poll, the sent messages
   concatenated. Each poll sends at most one SMS.
   */
  function Run(s: State, polls: seq<PollInput>): (o: Outcome)
    ensures |o.sent| <= |polls|
    ensures polls == [] ==> o == Outcome(s, [])
    decreases |polls|
  {
    if polls == [] then Outcome(s, [])
    else
      var first := Next(s, polls[0].items, polls[0].fix, polls[0].sendOk);
      var rest := Run(first.state, polls[1..]);
      Outcome(rest.state, first.sent + rest.sent)
  }

  /** The run from poll `i` on is poll `i` followed by the run from poll `i + 1` on. */
  lemma RunFrom(s: State, polls: seq<PollInput>, i: nat)
    requires i < |polls|
    ensures var first := Next(s, polls[i].items, polls[i].fix, polls[i].sendOk);
      var rest := Run(first.state, polls[i + 1..]);
      Run(s, polls[i..]) == Outcome(rest.state, first.sent + rest.sent)
  {
    assert polls[i..][0] == polls[i];
    assert polls[i..][1..] == polls[i + 1..];
  }

  // ---------------------------------------------------------------------
  // The responder as the source runs it
  // ---------------------------------------------------------------------

  class Responder {
    var lastReceived: Option<string>
    var trustedNumber: Option<string>

    function Current(): State
      reads this
    {
      State(lastReceived, trustedNumber)
    }

    /** `last_received = None; trusted_number = None` */
    constructor ()
      ensures Current() == Initial
    {
      lastReceived := None;
      trustedNumber := None;
    }

    /** The body of the `while True` loop, given what the tools answered. */
    method Poll(items: seq<Message>, fix: Option<string>, sendOk: bool) returns (sent: seq<Sms>)
      modifies this
      ensures Current() == Next(old(Current()), items, fix, sendOk).state
      ensures sent == Next(old(Current()), items, fix, sendOk).sent
    {
      sent := [];
      if items != [] {
        var msg := items[0];
        var rec, sender, body := msg.received, Sender(msg), Body(msg);
        if rec != lastReceived {
          lastReceived := rec;
          if trustedNumber == None {
            if ContainsTrigger(body) {
              if HasFix(fix) {
                var encoded := B64Encode(fix.value);
                sent := sent + [Sms(sender, encoded)];
                trustedNumber := Some(sender);
              }
            }
          } else {
            if Some(sender) == trustedNumber {
              if HasFix(fix) {
                var encoded := B64Encode(fix.value);
                sent := sent + [Sms(sender, encoded)];
              }
            }
          }
        }
      }
    }

    /** The loop itself, over a finite sequence of polls. */
    method RunPolls(polls: seq<PollInput>) returns (sent: seq<Sms>)
      modifies this
      ensures Current() == Run(old(Current()), polls).state
      ensures sent == Run(old(Current()), polls).sent
    {
      ghost var start := Current();
      sent := [];
      var i := 0;
      assert polls[0..] == polls;
      while i < |polls|
        invariant 0 <= i <= |polls|
        invariant RunSoFar(start, polls, i, Current(), sent)
      {
        ghost var before := Current();
        var out := Poll(polls[i].items, polls[i].fix, polls[i].sendOk);
        RunSoFarStep(start, polls, i, before, sent, out);
        sent := sent + out;
        i := i + 1;
      }
      assert polls[i..] == [];
    }
  }

  /**
   After the first `i` polls of a run from `start`, the state is `now` and
   `sent` has gone out: what remains of the run finishes it.
   */
  predicate RunSoFar(start: State, polls: seq<PollInput>, i: nat, now: State, sent: seq<Sms>)
    requires i <= |polls|
  {
    var rest := Run(now, polls[i..]);
    Run(start, polls) == Outcome(rest.state, sent + rest.sent)
  }

  /** One more poll keeps `RunSoFar`. */
  lemma RunSoFarStep(start: State, polls: seq<PollInput>, i: nat, now: State, sent: seq<Sms>, out: seq<Sms>)
    requires i < |polls| && RunSoFar(start, polls, i, now, sent)
    requires out == Next(now, polls[i].items, polls[i].fix, polls[i].sendOk).sent
    ensures RunSoFar(start, polls, i + 1, Next(now, polls[i].items, polls[i].fix, polls[i].sendOk).state, sent + out)
  {
    var next := Next(now, polls[i].items, polls[i].fix, polls[i].sendOk);
    var whole := Run(now, polls[i..]);
    var rest := Run(next.state, polls[i + 1..]);
    RunFrom(now, polls, i);
    assert whole.state == rest.state && whole.sent == out + rest.sent;
    assert sent + whole.sent == (sent + out) + rest.sent;
  }

  // ---------------------------------------------------------------------
  // One poll
  // ---------------------------------------------------------------------

  /** An empty inbox or an already-seen `received` changes nothing and sends nothing. */
  lemma NothingNewNothingDone(s: State, items: seq<Message>, fix: Option<string>, sendOk: bool)
    requires items == [] || items[0].received == s.lastReceived
    ensures Next(s, items, fix, sendOk) == Outcome(s, [])
  {
  }

  /**
   At start-up a message without a `received` field compares equal to the
   initial `None` and is treated as already seen.
   */
  lemma MissingReceiptAtStartIsIgnored(m: Message, rest: seq<Message>, fix: Option<string>, sendOk: bool)
    requires m.received == None
    ensures Next(Initial, [m] + rest, fix, sendOk) == Outcome(Initial, [])
  {
  }

  /** Unarmed, a body without the trigger sends nothing and trusts no one. */
  lemma UnarmedIgnoresOtherBodies(s: State, items: seq<Message>, fix: Option<string>, sendOk: bool)
    requires s.trustedNumber == None && IsNovel(s, items) && !ContainsTrigger(Body(items[0]))
    ensures Next(s, items, fix, sendOk) == Outcome(s.(lastReceived := items[0].received), [])
  {
  }

  /** Unarmed, a triggering message with a fix is answered once and its sender becomes trusted. */
  lemma UnarmedTriggerWithFix(s: State, items: seq<Message>, fix: Option<string>, sendOk: bool)
    requires s.trustedNumber == None && IsNovel(s, items) && ContainsTrigger(Body(items[0]))
    requires HasFix(fix)
    ensures var o := Next(s, items, fix, sendOk);
      && o.state == State(items[0].received, Some(Sender(items[0])))
      && o.sent == [Sms(Sender(items[0]), B64Encode(fix.value))]
  {
  }

  /** Unarmed, a triggering message without a fix sends nothing and trusts no one. */
  lemma UnarmedTriggerWithoutFix(s: State, items: seq<Message>, fix: Option<string>, sendOk: bool)
    requires s.trustedNumber == None && IsNovel(s, items) && !HasFix(fix)
    ensures Next(s, items, fix, sendOk) == Outcome(s.(lastReceived := items[0].received), [])
  {
  }

  /** Armed, a message from any other number is ignored whatever its body. */
  lemma ArmedIgnoresOthers(s: State, items: seq<Message>, fix: Option<string>, sendOk: bool)
    requires s.trustedNumber.Some? && items != [] && Sender(items[0]) != s.trustedNumber.value
    ensures Next(s, items, fix, sendOk).sent == []
    ensures Next(s, items, fix, sendOk).state.trustedNumber == s.trustedNumber
  {
  }

  /** Armed, a novel message from the trusted number is answered exactly when there is a fix. */
  lemma ArmedAnswersTrusted(s: State, items: seq<Message>, fix: Option<string>, sendOk: bool)
    requires s.trustedNumber.Some? && IsNovel(s, items) && Sender(items[0]) == s.trustedNumber.value
    ensures var o := Next(s, items, fix, sendOk);
      && (o.sent != [] <==> HasFix(fix))
      && (HasFix(fix) ==> o.sent == [Sms(s.trustedNumber.value, B64Encode(fix.value))])
      && o.state == s.(lastReceived := items[0].received)
  {
  }

  /** The result of `send_sms` changes neither the state nor what is sent. */
  lemma SendResultIsIgnored(s: State, items: seq<Message>, fix: Option<string>)
    ensures Next(s, items, fix, true) == Next(s, items, fix, false)
  {
  }

  /**
   Polling the same latest message again, whatever the tools answer the second
   time, does nothing: the first poll recorded its `received` value.
   */
  lemma RepeatedPollIsIdempotent(s: State, items: seq<Message>, fix: Option<string>, ok: bool,
                                 fix': Option<string>, ok': bool)
    ensures var first := Next(s, items, fix, ok);
      Next(first.state, items, fix', ok') == Outcome(first.state, [])
  {
  }

  // ---------------------------------------------------------------------
  // Many polls
  // ---------------------------------------------------------------------

  /** Once a number is trusted it stays trusted for the rest of the run. */
  lemma {:induction false} TrustIsPermanent(s: State, polls: seq<PollInput>)
    requires s.trustedNumber.Some?
    ensures Run(s, polls).state.trustedNumber == s.trustedNumber
    decreases |polls|
  {
    if polls != [] {
      var first := Next(s, polls[0].items, polls[0].fix, polls[0].sendOk);
      TrustIsPermanent(first.state, polls[1..]);
    }
  }

  /** Once a number is trusted, every SMS of the rest of the run goes to it. */
  lemma {:induction false} OnlyTrustedIsAnswered(s: State, polls: seq<PollInput>)
    requires s.trustedNumber.Some?
    ensures forall m :: m in Run(s, polls).sent ==> m.number == s.trustedNumber.value
    decreases |polls|
  {
    if polls != [] {
      var first := Next(s, polls[0].items, polls[0].fix, polls[0].sendOk);
      OnlyTrustedIsAnswered(first.state, polls[1..]);
    }
  }

  /**
   In the run from `s`, poll `k` met a novel message from `t` whose body
   matched the trigger, and `get_location` gave a fix.
   */
  predicate TriggeredAt(s: State, polls: seq<PollInput>, k: int, t: string) {
    && 0 <= k < |polls|
    && IsNovel(Run(s, polls[..k]).state, polls[k].items)
    && Sender(polls[k].items[0]) == t
    && ContainsTrigger(Body(polls[k].items[0]))
    && HasFix(polls[k].fix)
  }

  /** A poll that triggers in the run from the next state also triggers, one later, in the run from `s`. */
  lemma TriggeredAtShift(s: State, polls: seq<PollInput>, k: nat, t: string)
    requires polls != []
    requires TriggeredAt(Next(s, polls[0].items, polls[0].fix, polls[0].sendOk).state, polls[1..], k, t)
    ensures TriggeredAt(s, polls, k + 1, t)
  {
    assert polls[..k + 1][0] == polls[0];
    assert polls[..k + 1][1..] == polls[1..][..k];
    assert polls[k + 1] == polls[1..][k];
  }

  /** A first poll that sets the trusted number to `t` triggers. */
  lemma TriggeredAtFirst(s: State, polls: seq<PollInput>, t: string)
    requires polls != [] && s.trustedNumber == None
    requires Next(s, polls[0].items, polls[0].fix, polls[0].sendOk).state.trustedNumber == Some(t)
    ensures TriggeredAt(s, polls, 0, t)
  {
    assert polls[..0] == [];
  }

  /**
   A run that starts with no trusted number and ends with one saw, in some
   poll, a novel message from that number whose body matched the trigger,
   together with a fix.
   */
  lemma {:induction false} TrustNeedsTriggerAndFix(s: State, polls: seq<PollInput>, t: string)
    requires s.trustedNumber == None && Run(s, polls).state.trustedNumber == Some(t)
    ensures exists k :: TriggeredAt(s, polls, k, t)
    decreases |polls|
  {
    if polls == [] {
      assert false;
    }
    var first := Next(s, polls[0].items, polls[0].fix, polls[0].sendOk);
    if first.state.trustedNumber == None {
      TrustNeedsTriggerAndFix(first.state, polls[1..], t);
      var k :| TriggeredAt(first.state, polls[1..], k, t);
      TriggeredAtShift(s, polls, k, t);
    } else {
      TrustIsPermanent(first.state, polls[1..]);
      TriggeredAtFirst(s, polls, t);
    }
  }

  /** Every SMS of a run carries the payload of a fix obtained in some poll. */
  lemma {:induction false} SentPayloadsComeFromFixes(s: State, polls: seq<PollInput>)
    ensures forall m :: m in Run(s, polls).sent ==>
      exists k :: 0 <= k < |polls| && HasFix(polls[k].fix) && m.text == B64Encode(polls[k].fix.value)
    decreases |polls|
  {
    if polls != [] {
      var first := Next(s, polls[0].items, polls[0].fix, polls[0].sendOk);
      var rest := Run(first.state, polls[1..]);
      SentPayloadsComeFromFixes(first.state, polls[1..]);
      forall m | m in Run(s, polls).sent
        ensures exists k :: 0 <= k < |polls| && HasFix(polls[k].fix) && m.text == B64Encode(polls[k].fix.value)
      {
        if m in first.sent {
          assert HasFix(polls[0].fix) && m.text == B64Encode(polls[0].fix.value);
        } else {
          assert m in rest.sent;
          var k :| 0 <= k < |polls[1..]| && HasFix(polls[1..][k].fix) && m.text == B64Encode(polls[1..][k].fix.value);
          assert polls[k + 1] == polls[1..][k];
        }
      }
    }
  }

  /**
   The two-message scenario: a message containing the trigger in mixed case,
   with a fix, is answered and its sender trusted; a later message from
   another number, even one containing the trigger, is not answered.
   */
  lemma TrustedScenario(loc: string)
    requires loc != ""
    ensures var first := Next(Initial, [Message(Some("T1"), Some("+1555"), Some("please CcBaBa now"))], Some(loc), true);
      && first == Outcome(State(Some("T1"), Some("+1555")), [Sms("+1555", B64Encode(loc))])
      && Next(first.state, [Message(Some("T2"), Some("+1999"), Some("ccbaba"))], Some(loc), true)
         == Outcome(State(Some("T2"), Some("+1555")), [])
  {
    assert MatchesAt("please CcBaBa now", 7);
  }
}
