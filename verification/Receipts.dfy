/**
  Waiting for delivery receipts: any number of connection goroutines offering receipts
  to a bounded channel without blocking, and one loop that receives until a receipt
  decides the outcome or the deadline passes.
 */
module Receipts {
  import opened Text

  /** Capacity of the channel. */
  const CAPACITY: nat := 16

  datatype Receipt = Receipt(status: string, origMsgID: string)

  /** A receipt offered to the channel, and whether there was room for it. */
  datatype Offer = Offer(r: Receipt, accepted: bool)

  datatype State = State(
    queue: seq<Receipt>,
    exit: Option<nat>,
    // What has happened so far.
    log: seq<Offer>,
    consumed: seq<Receipt>)

  const START: State := State([], None, [], [])

  /** One atomic step of some goroutine. */
  datatype Event = Arrive(r: Receipt) | Receive | Deadline

  predicate Held(r: Receipt) { r.status == "held" }

  /** The exit code a receipt that is not held decides. */
  function Code(r: Receipt): nat {
    if r.status == "denied" || r.status == "expired" then 2 else 0
  }

  /** A receipt that settles what became of the message with id `sent`. */
  predicate Settles(r: Receipt, sent: string) {
    r.origMsgID == sent && (r.status == "denied" || r.status == "expired" || r.status == "delivered")
  }

  /** The state after a step; None when the step cannot be taken. */
  function Next(s: State, e: Event): Option<State> {
    match e
    case Arrive(r) =>
      if |s.queue| < CAPACITY
      then Some(s.(queue := s.queue + [r], log := s.log + [Offer(r, true)]))
      else Some(s.(log := s.log + [Offer(r, false)]))
    case Receive =>
      if s.exit.Some? || s.queue == [] then None
      else
        var r := s.queue[0];
        Some(s.(queue := s.queue[1..], consumed := s.consumed + [r],
                exit := if Held(r) then None else Some(Code(r))))
    case Deadline =>
      if s.exit.Some? then None else Some(s.(exit := Some(3)))
  }

  function Run(s: State, es: seq<Event>): Option<State>
    decreases es
  {
    if es == [] then Some(s)
    else
      match Next(s, es[0])
      case None => None
      case Some(t) => Run(t, es[1..])
  }

  // ----------------------------------------------------- what was offered and kept

  /** The receipts offered, in order. */
  function Offered(log: seq<Offer>): seq<Receipt> {
    if log == [] then [] else Offered(log[..|log| - 1]) + [log[|log| - 1].r]
  }

  /** The offered receipts that found room, or that did not. */
  function Taken(log: seq<Offer>, accepted: bool): seq<Receipt> {
    if log == [] then []
    else
      Taken(log[..|log| - 1], accepted)
      + if log[|log| - 1].accepted == accepted then [log[|log| - 1].r] else []
  }

  function Accepted(s: State): seq<Receipt> { Taken(s.log, true) }

  function Dropped(s: State): seq<Receipt> { Taken(s.log, false) }

  predicate AllHeld(rs: seq<Receipt>) { forall i | 0 <= i < |rs| :: Held(rs[i]) }

  /** The first receipt that is not held: what decides, if it gets through. */
  function FirstDecisive(rs: seq<Receipt>): (d: Option<Receipt>)
    ensures d.None? <==> AllHeld(rs)
    ensures d.Some? ==> d.value in rs && !Held(d.value)
  {
    if rs == [] then None
    else
      var d := FirstDecisive(rs[..|rs| - 1]);
      if d.Some? then d else if Held(rs[|rs| - 1]) then None else Some(rs[|rs| - 1])
  }

  /** What was dropped before the first accepted receipt that is not held. */
  function Missed(log: seq<Offer>): seq<Receipt> {
    if log == [] then []
    else
      var before, last := log[..|log| - 1], log[|log| - 1];
      Missed(before)
      + if FirstDecisive(Taken(before, true)).None? && !last.accepted then [last.r] else []
  }

  /** What was offered after the first accepted receipt that is not held. */
  function Later(log: seq<Offer>): seq<Receipt> {
    if log == [] then []
    else
      var before, last := log[..|log| - 1], log[|log| - 1];
      Later(before) + if FirstDecisive(Taken(before, true)).Some? then [last.r] else []
  }

  /** The receipts that settle what became of `sent`. */
  function Settling(rs: seq<Receipt>, sent: string): seq<Receipt> {
    if rs == [] then []
    else Settling(rs[..|rs| - 1], sent) + if Settles(rs[|rs| - 1], sent) then [rs[|rs| - 1]] else []
  }

  /** What these receipts say became of `sent`, as an exit code: the first that settles it counts. */
  function Verdict(rs: seq<Receipt>, sent: string): Option<nat> {
    var about := Settling(rs, sent);
    if about == [] then None else Some(Code(about[0]))
  }

  /** The receipts of a schedule's arrivals. */
  function Arrivals(es: seq<Event>): seq<Receipt> {
    if es == [] then [] else (if es[0].Arrive? then [es[0].r] else []) + Arrivals(es[1..])
  }

  /** Every arrival of a run is offered, in the order of the schedule. */
  lemma {:induction false} EveryArrivalIsOffered(s: State, es: seq<Event>)
    requires Run(s, es).Some?
    ensures Offered(Run(s, es).value.log) == Offered(s.log) + Arrivals(es)
    decreases es
  {
    if es != [] {
      var t := Next(s, es[0]).value;
      if es[0].Arrive? {
        TakenAppend(s.log, t.log[|s.log|], true);
      }
      EveryArrivalIsOffered(t, es[1..]);
    }
  }

  /** Every receipt offered is either accepted or dropped, once. */
  lemma {:induction false} Conservation(log: seq<Offer>)
    ensures multiset(Offered(log)) == multiset(Taken(log, true)) + multiset(Taken(log, false))
    ensures |Offered(log)| == |log|
  {
    if log != [] {
      Conservation(log[..|log| - 1]);
    }
  }

  // -------------------------------------------------------------------- invariant

  /** What every interleaving keeps. */
  predicate Inv(s: State) {
    && |s.queue| <= CAPACITY
    && s.consumed + s.queue == Accepted(s)
    && (s.exit.None? || s.exit == Some(3) ==> AllHeld(s.consumed))
    && (s.exit.Some? && s.exit != Some(3) ==>
          && s.consumed != []
          && AllHeld(s.consumed[..|s.consumed| - 1])
          && !Held(s.consumed[|s.consumed| - 1])
          && s.exit == Some(Code(s.consumed[|s.consumed| - 1])))
    && (Dropped(s) != [] ==> |s.log| > CAPACITY)
  }

  lemma {:induction false} TakenIsNoLonger(log: seq<Offer>, accepted: bool)
    ensures |Taken(log, accepted)| <= |log|
  {
    if log != [] {
      TakenIsNoLonger(log[..|log| - 1], accepted);
    }
  }

  lemma TakenAppend(log: seq<Offer>, o: Offer, accepted: bool)
    ensures Taken(log + [o], accepted) == Taken(log, accepted) + if o.accepted == accepted then [o.r] else []
    ensures Offered(log + [o]) == Offered(log) + [o.r]
  {
    assert (log + [o])[..|log|] == log;
  }

  lemma ArriveKeepsInv(s: State, r: Receipt)
    requires Inv(s)
    ensures Inv(Next(s, Arrive(r)).value)
  {
    hide Taken;
    var o := Offer(r, |s.queue| < CAPACITY);
    TakenAppend(s.log, o, true);
    TakenAppend(s.log, o, false);
    TakenIsNoLonger(s.log, true);
    ConcatAssoc(s.consumed, s.queue, [r]);
    assert Accepted(s) + [] == Accepted(s) && Dropped(s) + [] == Dropped(s);
  }

  lemma NextKeepsInv(s: State, e: Event)
    requires Inv(s) && Next(s, e).Some?
    ensures Inv(Next(s, e).value)
    ensures s.exit.Some? ==> Next(s, e).value.exit == s.exit && Next(s, e).value.consumed == s.consumed
  {
    hide Taken;
    match e
    case Arrive(r) =>
      ArriveKeepsInv(s, r);
    case Receive =>
      var t := Next(s, e).value;
      assert s.queue == [s.queue[0]] + s.queue[1..];
      assert t.consumed[..|t.consumed| - 1] == s.consumed;
    case Deadline =>
  }

  lemma {:induction false} RunKeepsInv(s: State, es: seq<Event>)
    requires Inv(s) && Run(s, es).Some?
    ensures Inv(Run(s, es).value)
    ensures s.exit.Some? ==> Run(s, es).value.exit == s.exit
    decreases es
  {
    hide Inv;
    hide Next;
    if es != [] {
      NextKeepsInv(s, es[0]);
      RunKeepsInv(Next(s, es[0]).value, es[1..]);
    }
  }

  lemma StartIsInv()
    ensures Inv(START)
  {
  }

  lemma {:induction false} FirstDecisiveOfConcat(a: seq<Receipt>, b: seq<Receipt>)
    ensures FirstDecisive(a + b) == if FirstDecisive(a).Some? then FirstDecisive(a) else FirstDecisive(b)
  {
    if b == [] {
      assert a + b == a;
    } else {
      var n := |b| - 1;
      assert (a + b)[..|a| + n] == a + b[..n];
      FirstDecisiveOfConcat(a, b[..n]);
    }
  }

  // ------------------------------------------------------------- what an exit means

  /**
    In every interleaving the loop consumes the accepted receipts in the order they were
    accepted; exit 0 or 2 is the verdict of the first accepted receipt that is not held;
    exit 3, or no exit yet, means that every receipt consumed was held.  The verdict is 2
    exactly when that receipt says denied or expired.
   */
  lemma Outcome(es: seq<Event>)
    requires Run(START, es).Some?
    ensures var s := Run(START, es).value;
            && |s.queue| <= CAPACITY
            && s.consumed + s.queue == Accepted(s)
            && (s.exit.None? || s.exit.value in {0, 2, 3})
            && (s.exit == Some(0) || s.exit == Some(2) ==>
                  && s.consumed != []
                  && FirstDecisive(Accepted(s)) == Some(s.consumed[|s.consumed| - 1])
                  && var r := s.consumed[|s.consumed| - 1];
                     && r.status != "held"
                     && (s.exit == Some(2) <==> r.status == "denied" || r.status == "expired")
                     && forall i | 0 <= i < |s.consumed| - 1 :: s.consumed[i].status == "held")
            && (s.exit.None? || s.exit == Some(3) ==>
                  && (forall i | 0 <= i < |s.consumed| :: s.consumed[i].status == "held")
                  && FirstDecisive(Accepted(s)) == FirstDecisive(s.queue))
  {
    StartIsInv();
    RunKeepsInv(START, es);
    var s := Run(START, es).value;
    hide Run;
    FirstDecisiveOfConcat(s.consumed, s.queue);
    if s.exit.Some? && s.exit != Some(3) {
      HeldUntilLast(s);
    }
  }

  lemma HeldUntilLast(s: State)
    requires Inv(s) && s.exit.Some? && s.exit != Some(3)
    ensures forall i | 0 <= i < |s.consumed| - 1 :: s.consumed[i].status == "held"
  {
    var before := s.consumed[..|s.consumed| - 1];
    assert forall i | 0 <= i < |before| :: Held(before[i]) && before[i] == s.consumed[i];
  }

  /** The first deciding receipt offered is the first one missed, or else the first one accepted. */
  lemma {:induction false} FirstOfferedDecision(log: seq<Offer>)
    ensures FirstDecisive(Offered(log)) ==
            if AllHeld(Missed(log)) then FirstDecisive(Taken(log, true)) else FirstDecisive(Missed(log))
  {
    if log != [] {
      var before, last := log[..|log| - 1], log[|log| - 1];
      FirstOfferedDecision(before);
      FirstDecisiveOfConcat(Offered(before), [last.r]);
      FirstDecisiveOfConcat(Taken(before, true), if last.accepted then [last.r] else []);
      FirstDecisiveOfConcat(Missed(before), Missed(log)[|Missed(before)|..]);
      assert Missed(log) == Missed(before) + Missed(log)[|Missed(before)|..];
      Single(last.r);
    }
  }

  lemma Single(r: Receipt)
    ensures FirstDecisive([r]) == if Held(r) then None else Some(r)
    ensures FirstDecisive([]) == None
  {
    assert [r][..0] == [];
  }

  /**
    Exit 0 or 2 is the code of the first deciding receipt that was offered at all exactly
    when nothing but held receipts was dropped before the first accepted deciding one, or
    the first such receipt dropped has the same code.
   */
  lemma VerdictIsOfFirstOfferedIff(es: seq<Event>)
    requires Run(START, es).Some? && Run(START, es).value.exit.Some? && Run(START, es).value.exit != Some(3)
    ensures var s := Run(START, es).value;
            && FirstDecisive(Offered(s.log)).Some? && FirstDecisive(Accepted(s)).Some?
            && (s.exit == Some(Code(FirstDecisive(Offered(s.log)).value)) <==>
                  || AllHeld(Missed(s.log))
                  || Code(FirstDecisive(Missed(s.log)).value) == Code(FirstDecisive(Accepted(s)).value))
  {
    Outcome(es);
    FirstOfferedDecision(Run(START, es).value.log);
  }

  /**
    When the deadline passes, no deciding receipt had been offered, which is what exit 3 is
    documented to mean, exactly when only held receipts wait in the channel and only held
    ones were dropped; and nothing had been offered that settles a given message exactly
    when nothing waiting and nothing dropped settles it.
   */
  lemma DeadlineMeansNoVerdictIff(es: seq<Event>, sent: string)
    requires Run(START, es).Some? && Run(START, es).value.exit.None?
    ensures var s := Run(START, es).value;
            && Next(s, Deadline).Some? && Next(s, Deadline).value.exit == Some(3)
            && (AllHeld(Offered(s.log)) <==> AllHeld(s.queue) && AllHeld(Dropped(s)))
            && (Verdict(Offered(s.log), sent).None? <==>
                  Verdict(s.queue, sent).None? && Verdict(Dropped(s), sent).None?)
  {
    Outcome(es);
    var s := Run(START, es).value;
    Conservation(s.log);
    hide Run;
    hide Taken;
    hide Offered;
    var parts := s.consumed + s.queue + Dropped(s);
    SameMembersSameHeld(Offered(s.log), parts);
    FirstDecisiveOfConcat(s.consumed + s.queue, Dropped(s));
    SameMembersSameVerdict(Offered(s.log), parts, sent);
    SettlingOfConcat(s.consumed + s.queue, Dropped(s), sent);
    SettlingOfConcat(s.consumed, s.queue, sent);
    HeldSettlesNothing(s.consumed, sent);
  }

  lemma SameMembersSameHeld(a: seq<Receipt>, b: seq<Receipt>)
    requires multiset(a) == multiset(b)
    ensures AllHeld(a) <==> AllHeld(b)
  {
    assert forall r :: r in a <==> r in multiset(a);
    assert forall r :: r in b <==> r in multiset(b);
    assert AllHeld(a) <==> forall r | r in a :: Held(r);
    assert AllHeld(b) <==> forall r | r in b :: Held(r);
  }

  lemma {:induction false} SettlingMembers(rs: seq<Receipt>, sent: string)
    ensures Verdict(rs, sent).None? <==> forall r | r in rs :: !Settles(r, sent)
  {
    if rs != [] {
      var n := |rs| - 1;
      SettlingMembers(rs[..n], sent);
      assert rs == rs[..n] + [rs[n]];
    }
  }

  lemma SameMembersSameVerdict(a: seq<Receipt>, b: seq<Receipt>, sent: string)
    requires multiset(a) == multiset(b)
    ensures Verdict(a, sent).None? <==> Verdict(b, sent).None?
  {
    hide Verdict;
    SettlingMembers(a, sent);
    SettlingMembers(b, sent);
    assert forall r :: r in a <==> r in multiset(a);
    assert forall r :: r in b <==> r in multiset(b);
  }

  lemma HeldSettlesNothing(rs: seq<Receipt>, sent: string)
    requires AllHeld(rs)
    ensures Settling(rs, sent) == []
  {
    SettlingMembers(rs, sent);
  }

  lemma {:induction false} SettlingOfConcat(a: seq<Receipt>, b: seq<Receipt>, sent: string)
    ensures Settling(a + b, sent) == Settling(a, sent) + Settling(b, sent)
  {
    if b == [] {
      assert a + b == a;
    } else {
      var n := |b| - 1;
      assert (a + b)[..|a| + n] == a + b[..n];
      SettlingOfConcat(a, b[..n], sent);
    }
  }

  lemma SettlingOne(r: Receipt, sent: string)
    ensures Settling([r], sent) == if Settles(r, sent) then [r] else []
    ensures Settling([], sent) == []
  {
    assert [r][..0] == [];
  }

  /** What the first accepted deciding receipt says of `sent`. */
  function SettlingDecision(log: seq<Offer>, sent: string): seq<Receipt> {
    var d := FirstDecisive(Taken(log, true));
    if d.Some? && Settles(d.value, sent) then [d.value] else []
  }

  /**
    What settles a message was missed, or is the first accepted deciding receipt, or came
    later: what was accepted before is held.
   */
  lemma {:induction false} WhatSettles(log: seq<Offer>, sent: string)
    ensures Settling(Offered(log), sent)
         == Settling(Missed(log), sent) + SettlingDecision(log, sent) + Settling(Later(log), sent)
  {
    if log != [] {
      WhatSettles(log[..|log| - 1], sent);
      assert log == log[..|log| - 1] + [log[|log| - 1]];
      WhatOneMoreSettles(log[..|log| - 1], log[|log| - 1], sent);
    }
  }

  lemma WhatOneMoreSettles(log: seq<Offer>, o: Offer, sent: string)
    requires Settling(Offered(log), sent)
          == Settling(Missed(log), sent) + SettlingDecision(log, sent) + Settling(Later(log), sent)
    ensures Settling(Offered(log + [o]), sent)
         == Settling(Missed(log + [o]), sent) + SettlingDecision(log + [o], sent) + Settling(Later(log + [o]), sent)
  {
    var r := Settling([o.r], sent);
    TakenAppend(log, o, true);
    SettlingOfConcat(Offered(log), [o.r], sent);
    if FirstDecisive(Taken(log, true)).Some? {
      OfferAfterDecision(log, o, sent);
      hide *;
      ConcatAssoc(Settling(Missed(log), sent) + SettlingDecision(log, sent), Settling(Later(log), sent), r);
    } else {
      OfferBeforeDecision(log, o, sent);
      hide *;
      assert Settling(Offered(log), sent) == Settling(Missed(log), sent);
      assert Settling(Offered(log + [o]), sent) == Settling(Missed(log), sent) + r;
    }
  }

  lemma OfferAfterDecision(log: seq<Offer>, o: Offer, sent: string)
    requires FirstDecisive(Taken(log, true)).Some?
    ensures Missed(log + [o]) == Missed(log)
    ensures SettlingDecision(log + [o], sent) == SettlingDecision(log, sent)
    ensures Settling(Later(log + [o]), sent) == Settling(Later(log), sent) + Settling([o.r], sent)
  {
    assert (log + [o])[..|log|] == log;
    TakenAppend(log, o, true);
    FirstDecisiveOfConcat(Taken(log, true), if o.accepted then [o.r] else []);
    SettlingOfConcat(Later(log), [o.r], sent);
    hide Settling;
    hide FirstDecisive;
    hide Taken;
    hide Settles;
    assert Missed(log) + [] == Missed(log);
  }

  lemma OfferBeforeDecision(log: seq<Offer>, o: Offer, sent: string)
    requires FirstDecisive(Taken(log, true)).None?
    ensures SettlingDecision(log, sent) == [] && Settling(Later(log), sent) == []
    ensures Settling(Later(log + [o]), sent) == []
    ensures Settling(Missed(log + [o]), sent) + SettlingDecision(log + [o], sent)
         == Settling(Missed(log), sent) + Settling([o.r], sent)
  {
    assert (log + [o])[..|log|] == log;
    NothingIsLater(log);
    TakenAppend(log, o, true);
    FirstDecisiveOfConcat(Taken(log, true), if o.accepted then [o.r] else []);
    Single(o.r);
    SettlingOne(o.r, sent);
    SettlingOfConcat(Missed(log), [o.r], sent);
    hide Settling;
    hide FirstDecisive;
    hide Taken;
    assert Missed(log) + [] == Missed(log);
  }

  lemma {:induction false} NothingIsLater(log: seq<Offer>)
    requires FirstDecisive(Taken(log, true)).None?
    ensures Later(log) == []
  {
    if log != [] {
      var before, last := log[..|log| - 1], log[|log| - 1];
      FirstDecisiveOfConcat(Taken(before, true), if last.accepted then [last.r] else []);
      NothingIsLater(before);
    }
  }

  /**
    Exit 0 or 2 says what became of the message sent, as far as any receipt offered did,
    exactly when the first dropped receipt that settles it, if one came before the accepted
    deciding receipt, has that receipt's code; or, if there is none, the deciding receipt
    itself settles the message sent, or the first later one to do so happens to agree.
   */
  lemma CodeIsOfMessageSentIff(es: seq<Event>, sent: string)
    requires Run(START, es).Some? && Run(START, es).value.exit.Some? && Run(START, es).value.exit != Some(3)
    ensures var s := Run(START, es).value;
            && FirstDecisive(Accepted(s)).Some?
            && var d := FirstDecisive(Accepted(s)).value;
               (s.exit == Verdict(Offered(s.log), sent) <==>
                  if Verdict(Missed(s.log), sent).Some? then Verdict(Missed(s.log), sent) == Some(Code(d))
                  else Settles(d, sent) || Verdict(Later(s.log), sent) == Some(Code(d)))
  {
    Outcome(es);
    VerdictOfOffered(Run(START, es).value.log, sent);
    hide *;
  }

  /** The verdict of everything offered, part by part. */
  lemma VerdictOfOffered(log: seq<Offer>, sent: string)
    requires FirstDecisive(Taken(log, true)).Some?
    ensures var d := FirstDecisive(Taken(log, true)).value;
            Verdict(Offered(log), sent)
            == if Verdict(Missed(log), sent).Some? then Verdict(Missed(log), sent)
               else if Settles(d, sent) then Some(Code(d))
               else Verdict(Later(log), sent)
  {
    WhatSettles(log, sent);
    hide Settling;
    hide Offered;
    hide Missed;
    hide Later;
    hide Taken;
    hide FirstDecisive;
  }

  /** A receipt about the message sent, with a status the protocol has. */
  predicate Proper(r: Receipt, sent: string) { r.origMsgID == sent && (Held(r) || Settles(r, sent)) }

  predicate AllProper(rs: seq<Receipt>, sent: string) { forall i | 0 <= i < |rs| :: Proper(rs[i], sent) }

  /**
    As long as no more receipts arrive than the channel has room for, all about the message
    sent and of a known status, exit 0 or 2 is always what the first one that settles it
    said, and at a deadline none had come exactly when none waits in the channel.
   */
  lemma ProperReceiptsDecide(es: seq<Event>, sent: string)
    requires Run(START, es).Some? && |Arrivals(es)| <= 16 && AllProper(Arrivals(es), sent)
    ensures var s := Run(START, es).value;
            && (s.exit == Some(0) || s.exit == Some(2) ==>
                  && s.exit == Verdict(Arrivals(es), sent)
                  && Settling(Arrivals(es), sent) != []
                  && var first := Settling(Arrivals(es), sent)[0].status;
                     && (s.exit == Some(2) <==> first == "denied" || first == "expired")
                     && (s.exit == Some(0) <==> first == "delivered"))
            && (s.exit.None? ==> (Verdict(Arrivals(es), sent).None? <==> AllHeld(s.queue)))
  {
    FewReceiptsAreNeverDropped(es);
    FirstSettles(Arrivals(es), sent);
    SettlingSettles(Arrivals(es), sent);
    var about := Settling(Arrivals(es), sent);
    assert about != [] ==> about[0] in about;
    hide Arrivals;
    hide Run;
    hide Settling;
  }

  lemma {:induction false} SettlingSettles(rs: seq<Receipt>, sent: string)
    ensures forall r | r in Settling(rs, sent) :: Settles(r, sent) && r in rs
  {
    if rs != [] {
      SettlingSettles(rs[..|rs| - 1], sent);
    }
  }

  lemma {:induction false} FirstSettles(rs: seq<Receipt>, sent: string)
    requires AllProper(rs, sent)
    ensures FirstDecisive(rs).Some? ==> Verdict(rs, sent) == Some(Code(FirstDecisive(rs).value))
    ensures FirstDecisive(rs).None? ==> Settling(rs, sent) == []
  {
    if rs != [] {
      assert forall i | 0 <= i < |rs| - 1 :: rs[..|rs| - 1][i] == rs[i];
      FirstSettles(rs[..|rs| - 1], sent);
    }
  }

  /**
    As long as no more receipts arrive than the channel has room for, none is dropped;
    then exit 0 or 2 is always the verdict of the first deciding receipt that arrived, and
    exit 3 is taken with one of them pending only if it waits in the channel.
   */
  lemma FewReceiptsAreNeverDropped(es: seq<Event>)
    requires Run(START, es).Some? && |Arrivals(es)| <= 16
    ensures var s := Run(START, es).value;
            && Dropped(s) == [] && Accepted(s) == Arrivals(es)
            && (s.exit == Some(0) || s.exit == Some(2) ==>
                  && FirstDecisive(Arrivals(es)).Some?
                  && s.exit == Some(Code(FirstDecisive(Arrivals(es)).value)))
            && (s.exit.None? ==> (AllHeld(Arrivals(es)) <==> AllHeld(s.queue)))
  {
    StartIsInv();
    RunKeepsInv(START, es);
    EveryArrivalIsOffered(START, es);
    Outcome(es);
    var s := Run(START, es).value;
    hide Run;
    hide Arrivals;
    assert Offered(START.log) + Arrivals(es) == Arrivals(es);
    Conservation(s.log);
    NothingDropped(s.log);
    FirstDecisiveOfConcat(s.consumed, s.queue);
  }

  lemma {:induction false} NothingDropped(log: seq<Offer>)
    requires Taken(log, false) == []
    ensures Taken(log, true) == Offered(log)
  {
    if log != [] {
      NothingDropped(log[..|log| - 1]);
    }
  }

  // ---------------------------------------------------- inputs that break the promise

  function Times(e: Event, n: nat): seq<Event> { if n == 0 then [] else [e] + Times(e, n - 1) }

  function Copies<T>(x: T, n: nat): (xs: seq<T>)
    ensures |xs| == n && forall i | 0 <= i < n :: xs[i] == x
  {
    seq(n, _ => x)
  }

  lemma {:induction false} RunOfConcat(s: State, a: seq<Event>, b: seq<Event>)
    ensures Run(s, a + b) == if Run(s, a).Some? then Run(Run(s, a).value, b) else None
    decreases a
  {
    hide Next;
    if a == [] {
      assert a + b == b;
    } else {
      assert (a + b)[1..] == a[1..] + b;
      if Next(s, a[0]).Some? {
        RunOfConcat(Next(s, a[0]).value, a[1..], b);
      }
    }
  }

  /** Offering held receipts into an open channel queues them all. */
  lemma {:induction false} Fill(s: State, h: Receipt, n: nat)
    requires |s.queue| + n <= CAPACITY
    ensures Run(s, Times(Arrive(h), n))
         == Some(s.(queue := s.queue + Copies(h, n), log := s.log + Copies(Offer(h, true), n)))
    decreases n
  {
    if n == 0 {
      assert s.queue + Copies(h, 0) == s.queue && s.log + Copies(Offer(h, true), 0) == s.log;
    } else {
      var es := Times(Arrive(h), n);
      var t := Next(s, Arrive(h)).value;
      assert es[0] == Arrive(h) && es[1..] == Times(Arrive(h), n - 1);
      Fill(t, h, n - 1);
      assert t.queue + Copies(h, n - 1) == s.queue + Copies(h, n);
      assert t.log + Copies(Offer(h, true), n - 1) == s.log + Copies(Offer(h, true), n);
    }
  }

  /** Receiving held receipts consumes them without an exit. */
  lemma {:induction false} Drain(s: State, n: nat)
    requires s.exit.None? && n <= |s.queue| && AllHeld(s.queue[..n])
    ensures Run(s, Times(Receive, n))
         == Some(s.(queue := s.queue[n..], consumed := s.consumed + s.queue[..n]))
    decreases n
  {
    if n == 0 {
      assert s.queue[0..] == s.queue && s.consumed + s.queue[..0] == s.consumed;
    } else {
      var es := Times(Receive, n);
      assert es[0] == Receive && es[1..] == Times(Receive, n - 1);
      assert Held(s.queue[..n][0]);
      var t := Next(s, Receive).value;
      assert t.queue[..n - 1] == s.queue[..n][1..];
      Drain(t, n - 1);
      assert t.queue[n - 1..] == s.queue[n..];
      assert t.consumed + t.queue[..n - 1] == s.consumed + s.queue[..n];
    }
  }

  /** Sixteen held receipts fill the channel and the next receipt is dropped. */
  function FullThenDropped(h: Receipt, d: Receipt): State {
    State(Copies(h, CAPACITY), None, Copies(Offer(h, true), CAPACITY) + [Offer(d, false)], [])
  }

  lemma RunToFull(h: Receipt, d: Receipt)
    ensures Run(START, Times(Arrive(h), CAPACITY) + [Arrive(d)]) == Some(FullThenDropped(h, d))
    ensures Dropped(FullThenDropped(h, d)) == [d]
    ensures Offered(FullThenDropped(h, d).log) == Copies(h, CAPACITY) + [d]
  {
    Fill(START, h, CAPACITY);
    RunOfConcat(START, Times(Arrive(h), CAPACITY), [Arrive(d)]);
    var s := Run(START, Times(Arrive(h), CAPACITY)).value;
    assert s.queue == Copies(h, CAPACITY) && s.log == Copies(Offer(h, true), CAPACITY);
    assert [Arrive(d)][1..] == [];
    var log := FullThenDropped(h, d).log;
    assert log[..CAPACITY] == Copies(Offer(h, true), CAPACITY);
    OfferedCopies(h, CAPACITY);
  }

  lemma {:induction false} OfferedCopies(h: Receipt, n: nat)
    ensures Offered(Copies(Offer(h, true), n)) == Copies(h, n)
    ensures Taken(Copies(Offer(h, true), n), false) == []
  {
    if n > 0 {
      assert Copies(Offer(h, true), n)[..n - 1] == Copies(Offer(h, true), n - 1);
      OfferedCopies(h, n - 1);
      assert Copies(h, n) == Copies(h, n - 1) + [h];
    }
  }

  /** A receipt that is not held, about any message and of any status, decides the exit code. */
  lemma RunOfOne(r: Receipt)
    requires !Held(r)
    ensures var s := Run(START, [Arrive(r), Receive]);
            s == Some(State([], Some(Code(r)), [Offer(r, true)], [r]))
  {
    var s1 := Next(START, Arrive(r)).value;
    assert s1 == State([r], None, [Offer(r, true)], []);
    assert Next(s1, Receive).value.queue == [];
    assert [Arrive(r), Receive][1..] == [Receive];
    assert Run(START, [Arrive(r), Receive]) == Run(s1, [Receive]);
    RunOne(s1, Receive);
  }

  lemma LogOfOne(r: Receipt)
    ensures var log := [Offer(r, true)];
            Offered(log) == [r] && Taken(log, false) == [] && Missed(log) == []
  {
    assert [Offer(r, true)][..0] == [];
  }

  /** A denial of another message makes the exit code 2, though nothing was dropped or missed. */
  lemma OtherMessageDecides(sent: string, other: string)
    requires sent != other
    ensures var s := Run(START, [Arrive(Receipt("denied", other)), Receive]);
            && s.Some? && s.value.exit == Some(2)
            && Dropped(s.value) == [] && Missed(s.value.log) == []
            && Verdict(Offered(s.value.log), sent) == None
  {
    var r := Receipt("denied", other);
    RunOfOne(r);
    LogOfOne(r);
    SettlingOne(r, sent);
  }

  /** A receipt of an unknown status makes the exit code 0, though it settles nothing. */
  lemma UnknownStatusIsSuccess(status: string, sent: string)
    requires status !in {"held", "denied", "expired", "delivered"}
    ensures var s := Run(START, [Arrive(Receipt(status, sent)), Receive]);
            && s.Some? && s.value.exit == Some(0)
            && Dropped(s.value) == [] && Missed(s.value.log) == []
            && Verdict(Offered(s.value.log), sent) == None
  {
    var r := Receipt(status, sent);
    RunOfOne(r);
    LogOfOne(r);
    SettlingOne(r, sent);
  }

  /** Exit 3 can be taken while a deciding receipt waits in the channel. */
  lemma DeadlineCanOvertakeVerdict(r: Receipt)
    requires !Held(r)
    ensures var s := Run(START, [Arrive(r), Deadline]);
            s.Some? && s.value.exit == Some(3) && s.value.queue == [r]
  {
    var s1 := Next(START, Arrive(r)).value;
    assert [Arrive(r), Deadline][1..] == [Deadline];
    assert [Deadline][1..] == [];
    assert s1.queue == [r];
    assert Run(s1, [Deadline]) == Run(Next(s1, Deadline).value, []);
  }

  /** Exit 3 can be taken with an empty channel although a denial, say, was offered: it was dropped. */
  lemma DroppedVerdictEndsInDeadline(h: Receipt, d: Receipt)
    requires Held(h) && !Held(d)
    ensures var s := Run(START, Times(Arrive(h), CAPACITY) + [Arrive(d)] + Times(Receive, CAPACITY) + [Deadline]);
            s.Some? && s.value.exit == Some(3) && s.value.queue == [] && !AllHeld(Offered(s.value.log))
  {
    hide Run;
    var a := Times(Arrive(h), CAPACITY) + [Arrive(d)];
    var b := Times(Receive, CAPACITY);
    var s := FullThenDropped(h, d);
    RunToFull(h, d);
    Drain(s, CAPACITY);
    var t := s.(queue := s.queue[CAPACITY..], consumed := s.consumed + s.queue[..CAPACITY]);
    RunOfConcat(START, a, b);
    RunOfConcat(START, a + b, [Deadline]);
    RunOne(t, Deadline);
    assert Offered(s.log)[CAPACITY] == d;
  }

  lemma RunOne(s: State, e: Event)
    ensures Run(s, [e]) == Next(s, e)
  {
    assert [e][1..] == [];
  }

  /** Exit 0 can follow although the first deciding receipt offered was a denial: it was dropped. */
  lemma DroppedDenialEndsInSuccess(h: Receipt, d: Receipt, g: Receipt)
    requires Held(h) && !Held(d) && Code(d) == 2 && !Held(g) && Code(g) == 0
    ensures var s := Run(START, Times(Arrive(h), CAPACITY) + [Arrive(d)]
                                + [Receive] + [Arrive(g)] + Times(Receive, CAPACITY - 1) + [Receive]);
            s.Some? && s.value.exit == Some(0) && FirstDecisive(Offered(s.value.log)) == Some(d)
  {
    hide Run;
    var a := Times(Arrive(h), CAPACITY) + [Arrive(d)];
    var s := FullThenDropped(h, d);
    RunToFull(h, d);
    var s1 := Next(s, Receive).value;
    RunOfConcat(START, a, [Receive]);
    RunOne(s, Receive);
    var s2 := Next(s1, Arrive(g)).value;
    RunOfConcat(START, a + [Receive], [Arrive(g)]);
    RunOne(s1, Arrive(g));
    var rest := Times(Receive, CAPACITY - 1);
    assert forall i | 0 <= i < CAPACITY - 1 :: s2.queue[i] == h;
    assert s2.queue[CAPACITY - 1] == g;
    Drain(s2, CAPACITY - 1);
    RunOfConcat(START, a + [Receive] + [Arrive(g)], rest);
    var s3 := s2.(queue := s2.queue[CAPACITY - 1..], consumed := s2.consumed + s2.queue[..CAPACITY - 1]);
    RunOfConcat(START, a + [Receive] + [Arrive(g)] + rest, [Receive]);
    RunOne(s3, Receive);
    assert s2.log[..|s.log|] == s.log && Offered(s2.log) == Offered(s.log) + [g];
    var held := Copies(h, CAPACITY);
    assert AllHeld(held);
    FirstDecisiveOfConcat(held, [d]);
    FirstDecisiveOfConcat(held + [d], [g]);
    Single(d);
  }
}
