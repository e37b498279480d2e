/**
  The expiration notification background service: the seven-day window
  query, the recipient gate and message body, one check cycle, and the
  `ExecuteAsync` loop that repeats the cycle every 24 hours until
  cancellation.

  The clock is the parameter `now` (ticks, read once per query), date
  formatting (`{ExpirationDate:d}`) is the parameter `fmt`, and the outcome
  of handing the message to SMTP is the parameter `transport`.
*/
module ExpirationNotification {
  import opened Wrappers
  import opened FoodModel

  /** The look-ahead of the query, `AddDays(7)`. */
  const Week: int := 7 * TicksPerDay
  /** `_checkInterval`, `TimeSpan.FromHours(24)`. */
  const CheckInterval: int := 24 * TicksPerHour

  const Header: string := "The following food items are about to expire within a week:\n\n"
  const Sender: string := "no-reply@foodtracker.com"
  const Subject: string := "Food Expiration Notification"

  /** The query's `Where` predicate: `now <= date <= now + 7 days`, both ends included. */
  predicate InWindow(item: FoodItem, now: int)
    ensures item.ExpirationDate == now || item.ExpirationDate == now + Week ==> InWindow(item, now)
    ensures item.ExpirationDate < now || now + Week < item.ExpirationDate ==> !InWindow(item, now)
  {
    now <= item.ExpirationDate <= now + Week
  }

  /** The soon-to-expire query: the stored items inside the window, in store order. */
  function Window(items: seq<FoodItem>, now: int): (r: seq<FoodItem>)
    ensures forall x :: x in r <==> x in items && InWindow(x, now)
    decreases |items|
  {
    if items == [] then []
    else
      assert items == [items[0]] + items[1..];
      var rest := Window(items[1..], now);
      if InWindow(items[0], now) then [items[0]] + rest else rest
  }

  /** The query keeps every copy of an item inside the window and no copy of any other. */
  lemma {:induction false} WindowCounts(items: seq<FoodItem>, now: int)
    ensures forall x :: multiset(Window(items, now))[x] == if InWindow(x, now) then multiset(items)[x] else 0
    decreases |items|
  {
    if items != [] {
      WindowCounts(items[1..], now);
      assert items == [items[0]] + items[1..];
    }
  }

  /** The query result is a sub-multiset of the store. */
  lemma WindowIsSubMultiset(items: seq<FoodItem>, now: int)
    ensures multiset(Window(items, now)) <= multiset(items)
  {
    WindowCounts(items, now);
  }

  /** The window's ends: `now` and `now + 7 days` are in; one tick before `now` or after `now + 7 days` is out. */
  lemma WindowBounds(id: int, name: Option<string>, now: int)
    ensures Window([FoodItem(id, name, now)], now) == [FoodItem(id, name, now)]
    ensures Window([FoodItem(id, name, now + Week)], now) == [FoodItem(id, name, now + Week)]
    ensures Window([FoodItem(id, name, now - 1)], now) == []
    ensures Window([FoodItem(id, name, now + Week + 1)], now) == []
  {
  }

  /** Items expiring in 3 days, in 10 days and one day ago: only the first is reported. */
  lemma WindowScenario(a: FoodItem, b: FoodItem, c: FoodItem, now: int)
    requires a.ExpirationDate == now + 3 * TicksPerDay
    requires b.ExpirationDate == now + 10 * TicksPerDay
    requires c.ExpirationDate == now - TicksPerDay
    ensures Window([a, b, c], now) == [a]
  {
    assert Window([c], now) == [] by {
      assert [c][1..] == [];
    }
    assert Window([b, c], now) == [] by {
      assert [b, c][1..] == [c];
    }
    assert [a, b, c][1..] == [b, c];
  }

  /** `string.Join(sep, parts)`. */
  function Join(parts: seq<string>, sep: string): (r: string)
    ensures parts == [] ==> r == ""
    ensures |parts| > 0 ==> parts[0] <= r
    decreases |parts|
  {
    if parts == [] then ""
    else if |parts| == 1 then parts[0]
    else parts[0] + sep + Join(parts[1..], sep)
  }

  /**
    The inverse of `Join`, used only to state that the mail body reads back
    as one line per item: the pieces between separators, empty pieces kept.
  */
  function Split(s: string, sep: char): (r: seq<string>)
    ensures |r| >= 1
    decreases |s|
  {
    if s == [] then [""]
    else
      var rest := Split(s[1..], sep);
      if s[0] == sep then [""] + rest else [[s[0]] + rest[0]] + rest[1..]
  }

  lemma {:induction false} SplitPiece(a: string, sep: char, more: string)
    requires sep !in a
    ensures var tail := Split(more, sep);
      Split(a + more, sep) == [a + tail[0]] + tail[1..]
    decreases |a|
  {
    var tail := Split(more, sep);
    if a == [] {
      assert a + more == more;
      assert a + tail[0] == tail[0];
    } else {
      assert (a + more)[1..] == a[1..] + more;
      SplitPiece(a[1..], sep, more);
      assert [a[0]] + (a[1..] + tail[0]) == a + tail[0];
    }
  }

  /** Joining lines free of the separator and splitting the result gives back the lines. */
  lemma {:induction false} SplitJoin(parts: seq<string>, sep: char)
    requires |parts| >= 1
    requires forall i :: 0 <= i < |parts| ==> sep !in parts[i]
    ensures Split(Join(parts, [sep]), sep) == parts
    decreases |parts|
  {
    if |parts| == 1 {
      SplitPiece(parts[0], sep, "");
      assert parts[0] + "" == parts[0];
    } else {
      var tail := Join(parts[1..], [sep]);
      SplitJoin(parts[1..], sep);
      assert ([sep] + tail)[1..] == tail;
      assert Split([sep] + tail, sep) == [""] + parts[1..];
      SplitPiece(parts[0], sep, [sep] + tail);
      assert parts[0] + [sep] + tail == parts[0] + ([sep] + tail);
      assert parts[0] + "" == parts[0];
      assert parts == [parts[0]] + parts[1..];
    }
  }

  /** A null name interpolates as the empty string. */
  function NameText(name: Option<string>): string {
    if name.Some? then name.value else ""
  }

  /** `$"{i.Name} - {i.ExpirationDate:d}"`. */
  function Line(item: FoodItem, fmt: int -> string): (r: string)
    ensures item.Name.None? ==> r == " - " + fmt(item.ExpirationDate)
    ensures NameText(item.Name) <= r
    ensures '\n' !in NameText(item.Name) && '\n' !in fmt(item.ExpirationDate) ==> '\n' !in r
  {
    NameText(item.Name) + " - " + fmt(item.ExpirationDate)
  }

  function Lines(items: seq<FoodItem>, fmt: int -> string): seq<string> {
    seq(|items|, k requires 0 <= k < |items| => Line(items[k], fmt))
  }

  /** The mail body: the fixed header, then the item lines joined by line breaks. */
  function Body(items: seq<FoodItem>, fmt: int -> string): (r: string)
    ensures Header <= r
    ensures items == [] ==> r == Header
    ensures |items| == 1 ==> r == Header + Line(items[0], fmt)
  {
    Header + Join(Lines(items, fmt), "\n")
  }

  /**
    When no name and no formatted date contains a line break, the body is
    the header followed by exactly one line per item, in query order, each
    `Name - date`.
  */
  lemma BodyLines(items: seq<FoodItem>, fmt: int -> string)
    requires |items| >= 1
    requires forall k :: 0 <= k < |items| ==> '\n' !in NameText(items[k].Name) && '\n' !in fmt(items[k].ExpirationDate)
    ensures Body(items, fmt)[..|Header|] == Header
    ensures var lines := Split(Body(items, fmt)[|Header|..], '\n');
      && |lines| == |items|
      && forall k :: 0 <= k < |items| ==> lines[k] == NameText(items[k].Name) + " - " + fmt(items[k].ExpirationDate)
  {
    var ls := Lines(items, fmt);
    forall k | 0 <= k < |ls| ensures '\n' !in ls[k] {
      assert ls[k] == NameText(items[k].Name) + " - " + fmt(items[k].ExpirationDate);
    }
    SplitJoin(ls, '\n');
    assert Body(items, fmt)[|Header|..] == Join(ls, "\n");
  }

  /** `string.IsNullOrEmpty(_notificationEmail)` negated. */
  predicate HasRecipient(recipient: Option<string>) {
    recipient.Some? && recipient.value != ""
  }

  datatype Message = Message(from: string, to: string, subject: string, body: string)

  /** What the SMTP client did with the message; every failure inside the `try` is `Failed`. */
  datatype SendOutcome = Sent | Failed

  /** A send that was attempted, and whether it went through. */
  datatype Attempt = Attempt(message: Message, delivered: bool)

  /** `SendNotificationEmailAsync`: no attempt without a recipient; otherwise one message, its failure caught. */
  function SendNotificationEmail(recipient: Option<string>, items: seq<FoodItem>, fmt: int -> string, transport: SendOutcome): (r: Option<Attempt>)
    ensures r.None? <==> !HasRecipient(recipient)
    ensures recipient == None || recipient == Some("") ==> r.None?
    ensures r.Some? ==>
      && r.value.message == Message(Sender, recipient.value, Subject, Body(items, fmt))
      && (r.value.delivered <==> transport == Sent)
  {
    if !HasRecipient(recipient) then None
    else Some(Attempt(Message(Sender, recipient.value, Subject, Body(items, fmt)), transport == Sent))
  }

  /** How one check ended: the query threw (nothing catches it), or it completed with at most one send attempt. */
  datatype CycleOutcome = Faulted | Completed(attempt: Option<Attempt>)

  /** The service's configuration: `_notificationEmail` and the `{ExpirationDate:d}` formatter. */
  datatype Settings = Settings(recipient: Option<string>, fmt: int -> string)

  /**
    When, if at all, cancellation is requested in a round. During the check
    (which does not take the token) or during the delay, `Task.Delay` ends
    early with no completed wait. After the delay, the wait has completed
    and the `while` test then sees the request.
  */
  datatype CancelPoint = NoCancel | DuringCheck | DuringDelay | AfterDelay

  /** Whether the round's 24-hour delay runs to completion. */
  predicate DelayCompletes(p: CancelPoint) {
    p.NoCancel? || p.AfterDelay?
  }

  /** One round of the environment: the clock, the store contents, whether the query throws, what SMTP does, and when cancellation is requested. */
  datatype Round = Round(now: int, stored: seq<FoodItem>, queryFails: bool, transport: SendOutcome, cancel: CancelPoint)

  /** `CheckExpirationsAsync`: query the window; only a non-empty result reaches the sender. */
  function CheckExpirations(round: Round, cfg: Settings): (r: CycleOutcome)
    ensures r.Faulted? <==> round.queryFails
    ensures r.Completed? && r.attempt.Some? <==>
      !round.queryFails && |Window(round.stored, round.now)| > 0 && HasRecipient(cfg.recipient)
    ensures r.Completed? && r.attempt.Some? ==>
      r.attempt.value.message.to == cfg.recipient.value
      && r.attempt.value.message.body == Body(Window(round.stored, round.now), cfg.fmt)
  {
    if round.queryFails then Faulted
    else
      var soon := Window(round.stored, round.now);
      if |soon| > 0 then Completed(SendNotificationEmail(cfg.recipient, soon, cfg.fmt, round.transport))
      else Completed(None)
  }

  /** A failed send never turns a check into a fault: only the query can. */
  lemma SendFailureIsContained(round: Round, cfg: Settings)
    requires !round.queryFails
    ensures CheckExpirations(round, cfg).Completed?
    ensures CheckExpirations(round.(transport := Failed), cfg).Completed?
  {
  }

  /**
    The checks `ExecuteAsync` runs from round `i` on, once running: one per
    round, ending with a faulted check or with the round in which
    cancellation was requested.
  */
  function Trace(rounds: seq<Round>, cfg: Settings, i: nat): (t: seq<CycleOutcome>)
    requires i <= |rounds|
    ensures |t| <= |rounds| - i
    decreases |rounds| - i
  {
    if i == |rounds| then []
    else
      var o := CheckExpirations(rounds[i], cfg);
      if o.Faulted? || rounds[i].cancel != NoCancel then [o]
      else [o] + Trace(rounds, cfg, i + 1)
  }

  /** Every check in the trace is the cycle of its own round. */
  lemma {:induction false} TraceIsChecks(rounds: seq<Round>, cfg: Settings, i: nat, k: nat)
    requires i <= |rounds| && k < |Trace(rounds, cfg, i)|
    ensures i + k < |rounds| && Trace(rounds, cfg, i)[k] == CheckExpirations(rounds[i + k], cfg)
    decreases k
  {
    if k > 0 {
      TraceIsChecks(rounds, cfg, i + 1, k - 1);
    }
  }

  /** No check starts after the round in which cancellation was requested. */
  lemma {:induction false} NoCheckAfterCancellation(rounds: seq<Round>, cfg: Settings, i: nat, k: nat)
    requires i <= k < |rounds| && rounds[k].cancel != NoCancel
    ensures |Trace(rounds, cfg, i)| <= k - i + 1
    decreases k - i
  {
    if i < k {
      NoCheckAfterCancellation(rounds, cfg, i + 1, k);
    }
  }

  /** A faulted check is the last one: the query's exception ends `ExecuteAsync`. */
  lemma {:induction false} FaultEndsTheLoop(rounds: seq<Round>, cfg: Settings, i: nat, k: nat)
    requires i <= |rounds| && k < |Trace(rounds, cfg, i)| && rounds[i + k].queryFails
    ensures |Trace(rounds, cfg, i)| == k + 1
    ensures Trace(rounds, cfg, i)[k] == Faulted
    decreases k
  {
    if k > 0 {
      FaultEndsTheLoop(rounds, cfg, i + 1, k - 1);
    }
  }

  /** Failed sends do not stop the loop: while no query fails and no cancellation arrives, every round gets its check. */
  lemma {:induction false} LoopSurvivesSendFailures(rounds: seq<Round>, cfg: Settings, i: nat, n: nat)
    requires i + n < |rounds|
    requires forall k :: i <= k < i + n ==> !rounds[k].queryFails && rounds[k].cancel == NoCancel
    ensures |Trace(rounds, cfg, i)| > n
    decreases n
  {
    if n > 0 {
      LoopSurvivesSendFailures(rounds, cfg, i + 1, n - 1);
    }
  }

  /** `Trace` accumulated the way the loop runs it: `done` holds the checks already run. */
  function RunFrom(rounds: seq<Round>, cfg: Settings, i: nat, done: seq<CycleOutcome>): seq<CycleOutcome>
    requires i <= |rounds|
    decreases |rounds| - i
  {
    if i == |rounds| then done
    else
      var o := CheckExpirations(rounds[i], cfg);
      if o.Faulted? || rounds[i].cancel != NoCancel then done + [o]
      else RunFrom(rounds, cfg, i + 1, done + [o])
  }

  lemma {:induction false} RunFromIsTrace(rounds: seq<Round>, cfg: Settings, i: nat, done: seq<CycleOutcome>)
    requires i <= |rounds|
    ensures RunFrom(rounds, cfg, i, done) == done + Trace(rounds, cfg, i)
    decreases |rounds| - i
  {
    if i < |rounds| {
      var o := CheckExpirations(rounds[i], cfg);
      if !(o.Faulted? || rounds[i].cancel != NoCancel) {
        RunFromIsTrace(rounds, cfg, i + 1, done + [o]);
        assert done + [o] + Trace(rounds, cfg, i + 1) == done + ([o] + Trace(rounds, cfg, i + 1));
      }
    } else {
      assert done + [] == done;
    }
  }

  /** Why `ExecuteAsync` returned. */
  datatype Stop = Cancellation | CheckFault

  /**
    `ExecuteAsync`: check at once, then wait `CheckInterval`, and repeat
    while cancellation has not been requested. A cancellation during the
    check or the delay ends the loop without a further check and without
    completing that delay; one after the delay ends it at the `while` test.
    A query failure ends it at once. The schedule is finite and ends with a
    cancellation request.
  */
  method ExecuteAsync(cfg: Settings, cancelledAtStart: bool, rounds: seq<Round>)
      returns (checks: nat, outcomes: seq<CycleOutcome>, delays: nat, waited: int, stop: Stop)
    requires cancelledAtStart || (|rounds| > 0 && rounds[|rounds| - 1].cancel != NoCancel)
    ensures outcomes == if cancelledAtStart then [] else Trace(rounds, cfg, 0)
    ensures checks == |outcomes| <= |rounds|
    ensures stop == CheckFault <==> checks > 0 && outcomes[checks - 1].Faulted?
    ensures delays == if checks == 0 then 0
      else if stop == Cancellation && DelayCompletes(rounds[checks - 1].cancel) then checks
      else checks - 1
    ensures waited == delays * CheckInterval
  {
    checks, outcomes, delays, waited, stop := 0, [], 0, 0, Cancellation;
    ghost var full := RunFrom(rounds, cfg, 0, []);
    RunFromIsTrace(rounds, cfg, 0, []);
    var cancelled := cancelledAtStart;
    while !cancelled
      invariant checks <= |rounds| && |outcomes| == checks
      invariant !cancelled ==> !cancelledAtStart && checks < |rounds|
      invariant !cancelled ==> RunFrom(rounds, cfg, checks, outcomes) == full
      invariant cancelled ==> outcomes == if cancelledAtStart then [] else full
      invariant cancelled && checks > 0 ==> !outcomes[checks - 1].Faulted?
      invariant !cancelled ==> delays == checks
      invariant cancelled ==> delays == if checks == 0 then 0
        else if DelayCompletes(rounds[checks - 1].cancel) then checks
        else checks - 1
      invariant waited == delays * CheckInterval && stop == Cancellation
      decreases |rounds| - checks
    {
      var round := rounds[checks];
      var outcome := CheckExpirations(round, cfg);
      outcomes := outcomes + [outcome];
      checks := checks + 1;
      if outcome.Faulted? {
        stop := CheckFault;
        return;
      }
      if DelayCompletes(round.cancel) {
        delays := delays + 1;
        waited := waited + CheckInterval;
      }
      cancelled := round.cancel != NoCancel;
    }
  }
}
