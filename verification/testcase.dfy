/**
 One test case: the poll loop with its break and collect responses, the timeout, the
 verdict with its reversal, and the response list it writes.
 */
module TestCase {
  import opened Wrappers
  import opened DatastoreModel

  /** A response specification; loading and matching it is the poll's business. */
  datatype Spec = Spec(id: nat)

  /** responsesEqual: an error, or a verdict. */
  datatype Match = Fails | Differs | Equals

  /** collect_response: not given, impossible to load, or the entries still to be matched. */
  datatype Collect = Absent | Unloadable | Entries(list: seq<Spec>)

  /** What one turn of the loop meets; `elapsed` is the time since the start in nanoseconds. */
  datatype Poll =
    | Unsent
    | Answered(json: string, expected: Match, verdict: Spec -> Match, elapsed: int)

  datatype Config = Config(timeoutMs: int, breaks: seq<Spec>, reverse: bool)

  datatype Status = Polling | Ended(success: bool, failed: bool)

  const ERROR := Ended(false, true)

  // ---------- one turn ----------

  /** The break responses are tried in order, up to the first that matches or fails. */
  ghost function BreakCheck(breaks: seq<Spec>, verdict: Spec -> Match): Match {
    if breaks == [] then Differs
    else if verdict(breaks[0]) != Differs then verdict(breaks[0])
    else BreakCheck(breaks[1..], verdict)
  }

  /** An entry stays while it does not match, or while it matches if the result is reversed. */
  ghost predicate Stays(e: Spec, verdict: Spec -> Match, reverse: bool) {
    (verdict(e) == Equals) == reverse
  }

  ghost function KeepIf(list: seq<Spec>, keep: Spec -> bool): (kept: seq<Spec>) {
    if list == [] then []
    else
      var front := KeepIf(list[..|list| - 1], keep);
      if keep(list[|list| - 1]) then front + [list[|list| - 1]] else front
  }

  ghost predicate Loads(list: seq<Spec>, verdict: Spec -> Match) {
    forall i :: 0 <= i < |list| ==> verdict(list[i]) != Fails
  }

  /** The entries left after a check; None when an entry fails to load or match. */
  ghost function CollectCheck(c: Collect, verdict: Spec -> Match, reverse: bool): Option<Collect> {
    match c
    case Absent => Some(Absent)
    case Unloadable => None
    case Entries(list) =>
      if Loads(list, verdict) then Some(Entries(KeepIf(list, e => Stays(e, verdict, reverse)))) else None
  }

  ghost predicate TimedOut(config: Config, elapsed: int) {
    elapsed > config.timeoutMs * 1_000_000 && config.timeoutMs != -1
  }

  ghost function Turn(config: Config, c: Collect, poll: Poll): (Status, Collect) {
    match poll
    case Unsent => (ERROR, c)
    case Answered(_, expected, verdict, elapsed) =>
      var equal := expected == Equals;
      if expected == Fails then (ERROR, c)
      else if equal && c.Absent? then (Ended(true, false), c)
      else if BreakCheck(config.breaks, verdict) != Differs then (ERROR, c)
      else
        match CollectCheck(c, verdict, config.reverse)
        case None => (ERROR, c)
        case Some(left) =>
          if left == Entries([]) then (Ended(equal, false), left)
          else if TimedOut(config, elapsed) then (Ended(equal && config.timeoutMs <= 0, false), left)
          else (Polling, left)
  }

  /** Status and collect list after the first n polls. */
  ghost function After(config: Config, c: Collect, polls: seq<Poll>, n: nat): (Status, Collect)
    requires n <= |polls|
  {
    if n == 0 then (Polling, c)
    else
      var (status, left) := After(config, c, polls, n - 1);
      if status.Polling? then Turn(config, left, polls[n - 1]) else (status, left)
  }

  ghost function StatusAfter(config: Config, c: Collect, polls: seq<Poll>, n: nat): Status
    requires n <= |polls|
  {
    After(config, c, polls, n).0
  }

  // ---------- what every run keeps ----------

  ghost predicate Unmatched(e: Spec, polls: seq<Poll>, n: nat, reverse: bool)
    requires n <= |polls|
  {
    forall j :: 0 <= j < n && polls[j].Answered? ==>
      if reverse then polls[j].verdict(e) == Equals else polls[j].verdict(e) != Equals
  }

  lemma {:induction false} KeepTwice(list: seq<Spec>, p: Spec -> bool, q: Spec -> bool, both: Spec -> bool)
    requires forall e :: both(e) <==> p(e) && q(e)
    ensures KeepIf(KeepIf(list, p), q) == KeepIf(list, both)
  {
    if list != [] {
      var front, last := list[..|list| - 1], list[|list| - 1];
      KeepTwice(front, p, q, both);
      var kept := KeepIf(front, p);
      assert (kept + [last])[..|kept|] == kept;
    }
  }

  lemma {:induction false} KeepAll(list: seq<Spec>, keep: Spec -> bool)
    requires forall e :: keep(e)
    ensures KeepIf(list, keep) == list
  {
    if list != [] {
      KeepAll(list[..|list| - 1], keep);
      assert list == list[..|list| - 1] + [list[|list| - 1]];
    }
  }

  lemma {:induction false} KeepMembers(list: seq<Spec>, keep: Spec -> bool, e: Spec)
    ensures e in KeepIf(list, keep) <==> e in list && keep(e)
  {
    if list != [] {
      KeepMembers(list[..|list| - 1], keep, e);
    }
  }

  lemma KeepNext(list: seq<Spec>, polls: seq<Poll>, n: nat, reverse: bool)
    requires n < |polls| && polls[n].Answered?
    ensures KeepIf(KeepIf(list, e => Unmatched(e, polls, n, reverse)), e => Stays(e, polls[n].verdict, reverse)) ==
      KeepIf(list, e => Unmatched(e, polls, n + 1, reverse))
  {
    KeepTwice(list, e => Unmatched(e, polls, n, reverse), e => Stays(e, polls[n].verdict, reverse),
              e => Unmatched(e, polls, n + 1, reverse));
  }

  /**
   While the loop goes on, what remains to be collected are, in their original order,
   exactly the entries no poll has struck off.
   */
  lemma {:induction false} RemainingEntries(config: Config, list: seq<Spec>, polls: seq<Poll>, n: nat)
    requires n <= |polls| && StatusAfter(config, Entries(list), polls, n).Polling?
    ensures forall j :: 0 <= j < n ==> polls[j].Answered?
    ensures After(config, Entries(list), polls, n).1 ==
      Entries(KeepIf(list, e => Unmatched(e, polls, n, config.reverse)))
  {
    if n == 0 {
      KeepAll(list, e => Unmatched(e, polls, 0, config.reverse));
    } else {
      RemainingEntries(config, list, polls, n - 1);
      KeepNext(list, polls, n - 1, config.reverse);
    }
  }

  /** f gives the positions in `whole` of the elements of `part`, in increasing order. */
  ghost predicate Positions(f: seq<nat>, part: seq<Spec>, whole: seq<Spec>) {
    && |f| == |part|
    && (forall i, j :: 0 <= i < j < |f| ==> f[i] < f[j])
    && (forall i :: 0 <= i < |f| ==> f[i] < |whole| && whole[f[i]] == part[i])
  }

  ghost predicate Sublist(part: seq<Spec>, whole: seq<Spec>) {
    exists f :: Positions(f, part, whole)
  }

  lemma PositionsNext(f: seq<nat>, kept: seq<Spec>, list: seq<Spec>, e: Spec)
    requires Positions(f, kept, list)
    ensures Positions(f, kept, list + [e]) && Positions(f + [|list|], kept + [e], list + [e])
  {
  }

  lemma {:induction false} KeptPositions(list: seq<Spec>, keep: Spec -> bool) returns (f: seq<nat>)
    ensures Positions(f, KeepIf(list, keep), list)
  {
    if list == [] {
      f := [];
    } else {
      var n := |list| - 1;
      f := KeptPositions(list[..n], keep);
      PositionsNext(f, KeepIf(list[..n], keep), list[..n], list[n]);
      assert list == list[..n] + [list[n]];
      if keep(list[n]) {
        f := f + [n];
      }
    }
  }

  /** Each poll, also the one that ends the run, leaves an order-preserving sublist of the entries left before it. */
  lemma RemainingShrinks(config: Config, list: seq<Spec>, polls: seq<Poll>, n: nat)
    requires n < |polls| && StatusAfter(config, Entries(list), polls, n).Polling?
    ensures var before, after := After(config, Entries(list), polls, n).1, After(config, Entries(list), polls, n + 1).1;
      before.Entries? && after.Entries? && Sublist(after.list, before.list)
  {
    RemainingEntries(config, list, polls, n);
    var before, after := After(config, Entries(list), polls, n).1, After(config, Entries(list), polls, n + 1).1;
    if after == before {
      var f := KeptPositions(before.list, e => true);
      KeepAll(before.list, e => true);
    } else {
      var f := KeptPositions(before.list, e => Stays(e, polls[n].verdict, config.reverse));
    }
  }

  // ---------- what a success means ----------

  lemma {:induction false} BreakCheckDiffers(breaks: seq<Spec>, verdict: Spec -> Match)
    ensures BreakCheck(breaks, verdict) == Differs <==> forall i :: 0 <= i < |breaks| ==> verdict(breaks[i]) == Differs
  {
    if breaks != [] {
      BreakCheckDiffers(breaks[1..], verdict);
      assert forall i :: 0 < i < |breaks| ==> breaks[1..][i - 1] == breaks[i];
    }
  }

  ghost predicate NoBreak(config: Config, poll: Poll) {
    poll.Answered? && forall b :: b in config.breaks ==> poll.verdict(b) == Differs
  }

  lemma {:induction false} PollingMeetsNoBreak(config: Config, c: Collect, polls: seq<Poll>, n: nat)
    requires n <= |polls| && StatusAfter(config, c, polls, n).Polling?
    ensures forall j :: 0 <= j < n ==> NoBreak(config, polls[j])
    ensures c.Absent? <==> After(config, c, polls, n).1.Absent?
    ensures c.Unloadable? ==> n == 0
  {
    if n > 0 {
      PollingMeetsNoBreak(config, c, polls, n - 1);
      BreakCheckDiffers(config.breaks, polls[n - 1].verdict);
    }
  }

  /** The poll at which a run ends. */
  ghost predicate EndsAt(config: Config, c: Collect, polls: seq<Poll>, n: nat, end: Status) {
    && n < |polls|
    && StatusAfter(config, c, polls, n).Polling?
    && StatusAfter(config, c, polls, n + 1) == end
    && end.Ended?
  }

  /** Whoever ends with success matched the expected response last, and met no break response on the way. */
  lemma SuccessMatched(config: Config, c: Collect, polls: seq<Poll>, n: nat)
    requires EndsAt(config, c, polls, n, Ended(true, false))
    ensures polls[n].Answered? && polls[n].expected == Equals
    ensures forall j :: 0 <= j < n ==> NoBreak(config, polls[j])
    ensures !c.Absent? ==> NoBreak(config, polls[n])
  {
    PollingMeetsNoBreak(config, c, polls, n);
    BreakCheckDiffers(config.breaks, polls[n].verdict);
  }

  ghost predicate Collected(e: Spec, polls: seq<Poll>, n: nat)
    requires n <= |polls|
  {
    exists j :: 0 <= j < n && polls[j].Answered? && polls[j].verdict(e) == Equals
  }

  /** With a timeout above 0, or none at all (-1), a success has collected every entry. */
  lemma SuccessCollected(config: Config, list: seq<Spec>, polls: seq<Poll>, n: nat)
    requires EndsAt(config, Entries(list), polls, n, Ended(true, false))
    requires !config.reverse && (config.timeoutMs > 0 || config.timeoutMs == -1)
    ensures forall e :: e in list ==> Collected(e, polls, n + 1)
  {
    EndSuccess(config, Entries(list), polls, n, Ended(true, false));
    forall e | e in list ensures Collected(e, polls, n + 1) {
      assert !Unmatched(e, polls, n + 1, false);
    }
  }

  ghost predicate CollectGuaranteed(config: Config, list: seq<Spec>) {
    forall polls, n: nat :: EndsAt(config, Entries(list), polls, n, Ended(true, false)) ==>
      forall e :: e in list ==> Collected(e, polls, n + 1)
  }

  /**
   A success guarantees the collect responses exactly with a timeout above 0 or of -1: with
   0, which is the default, or another negative value the loop is left as if it had matched.
   */
  lemma CollectGuaranteedIff(config: Config, list: seq<Spec>)
    requires !config.reverse && list != []
    ensures CollectGuaranteed(config, list) <==> config.timeoutMs > 0 || config.timeoutMs == -1
  {
    if config.timeoutMs > 0 || config.timeoutMs == -1 {
      forall polls, n: nat | EndsAt(config, Entries(list), polls, n, Ended(true, false))
        ensures forall e :: e in list ==> Collected(e, polls, n + 1)
      {
        SuccessCollected(config, list, polls, n);
      }
    } else {
      var verdict := (e: Spec) => Differs;
      var poll := Answered("", Equals, verdict, 1);
      BreakCheckDiffers(config.breaks, verdict);
      KeepAll(list, e => Stays(e, verdict, false));
      assert CollectCheck(Entries(list), verdict, false) == Some(Entries(list));
      assert Turn(config, Entries(list), poll) == (Ended(true, false), Entries(list));
      assert StatusAfter(config, Entries(list), [poll], 0) == Polling;
      assert EndsAt(config, Entries(list), [poll], 0, Ended(true, false));
      assert list[0] in list && !Collected(list[0], [poll], 1);
    }
  }

  // ---------- the verdict of the case ----------

  /** runAPITestCase after the run: an error counts as no success, then the result is reversed if asked for. */
  function CaseVerdict(end: Status, reverse: bool): bool
    requires end.Ended?
  {
    var success := end.success && !end.failed;
    if reverse then !success else success
  }

  /** An entry that fails to load or match, met before it is struck off. */
  ghost predicate SomeFails(list: seq<Spec>, polls: seq<Poll>, n: nat, reverse: bool)
    requires n < |polls| && polls[n].Answered?
  {
    exists e :: e in list && Unmatched(e, polls, n, reverse) && polls[n].verdict(e) == Fails
  }

  ghost predicate AllStruck(list: seq<Spec>, polls: seq<Poll>, n: nat, reverse: bool)
    requires n <= |polls|
  {
    forall e :: e in list ==> !Unmatched(e, polls, n, reverse)
  }

  /**
   What makes the run that ends at poll n a success: the expected response; and with collect
   responses, no break response, none that fails, and all struck off, or a timeout of 0 or
   a negative one but -1.
   */
  ghost predicate Succeeds(config: Config, c: Collect, polls: seq<Poll>, n: nat)
    requires n < |polls|
  {
    && polls[n].Answered? && polls[n].expected == Equals
    && (c.Absent? ||
        (&& NoBreak(config, polls[n]) && c.Entries? && !SomeFails(c.list, polls, n, config.reverse)
         && (AllStruck(c.list, polls, n + 1, config.reverse)
             || (polls[n].elapsed > config.timeoutMs * 1_000_000 && config.timeoutMs <= 0 && config.timeoutMs != -1))))
  }

  lemma {:induction false} KeepNone(list: seq<Spec>, keep: Spec -> bool)
    ensures KeepIf(list, keep) == [] <==> forall e :: e in list ==> !keep(e)
  {
    if list != [] {
      KeepNone(list[..|list| - 1], keep);
      assert forall e :: e in list <==> e in list[..|list| - 1] || e == list[|list| - 1];
    }
  }

  /** The check of poll n fails exactly on an entry not struck off before, and leaves nothing if all are struck off. */
  lemma CheckOf(config: Config, list: seq<Spec>, polls: seq<Poll>, n: nat)
    requires n < |polls| && polls[n].Answered? && StatusAfter(config, Entries(list), polls, n).Polling?
    ensures var check := CollectCheck(After(config, Entries(list), polls, n).1, polls[n].verdict, config.reverse);
      && (check.None? <==> SomeFails(list, polls, n, config.reverse))
      && (check.Some? ==> (check.value == Entries([]) <==> AllStruck(list, polls, n + 1, config.reverse)))
  {
    RemainingEntries(config, list, polls, n);
    var before := KeepIf(list, e => Unmatched(e, polls, n, config.reverse));
    forall e ensures e in before <==> e in list && Unmatched(e, polls, n, config.reverse) {
      KeepMembers(list, e => Unmatched(e, polls, n, config.reverse), e);
    }
    assert Loads(before, polls[n].verdict) <==> forall e :: e in before ==> polls[n].verdict(e) != Fails;
    KeepNext(list, polls, n, config.reverse);
    KeepNone(list, e => Unmatched(e, polls, n + 1, config.reverse));
  }

  lemma EndSuccess(config: Config, c: Collect, polls: seq<Poll>, n: nat, end: Status)
    requires EndsAt(config, c, polls, n, end)
    ensures end.success && !end.failed <==> Succeeds(config, c, polls, n)
  {
    PollingMeetsNoBreak(config, c, polls, n);
    if polls[n].Answered? {
      BreakCheckDiffers(config.breaks, polls[n].verdict);
      if c.Entries? {
        RemainingEntries(config, c.list, polls, n);
        CheckOf(config, c.list, polls, n);
      }
    }
  }

  /** What makes a poll an error of the run: it gets no answer, or something cannot be matched, or a break response is met. */
  ghost predicate PollFails(config: Config, c: Collect, polls: seq<Poll>, n: nat)
    requires n < |polls|
  {
    || polls[n].Unsent?
    || polls[n].expected == Fails
    || (!(polls[n].expected == Equals && c.Absent?) &&
        (|| (exists b :: b in config.breaks && polls[n].verdict(b) != Differs)
         || c.Unloadable?
         || (c.Entries? && SomeFails(c.list, polls, n, config.reverse))))
  }

  /** What leaves something to wait for after a poll without error. */
  ghost predicate Waits(config: Config, c: Collect, polls: seq<Poll>, n: nat)
    requires n < |polls|
  {
    && !(c.Absent? && polls[n].Answered? && polls[n].expected == Equals)
    && !(c.Entries? && AllStruck(c.list, polls, n + 1, config.reverse))
    && (polls[n].Answered? ==> config.timeoutMs == -1 || polls[n].elapsed <= config.timeoutMs * 1_000_000)
  }

  /**
   The loop goes on after a poll iff the poll is no error and leaves something to wait for;
   it ends with an error exactly on one.
   */
  lemma GoesOnIff(config: Config, c: Collect, polls: seq<Poll>, n: nat)
    requires n < |polls| && StatusAfter(config, c, polls, n).Polling?
    ensures StatusAfter(config, c, polls, n + 1).Polling? <==> !PollFails(config, c, polls, n) && Waits(config, c, polls, n)
    ensures var next := StatusAfter(config, c, polls, n + 1);
      next.Ended? ==> (next.failed <==> PollFails(config, c, polls, n))
  {
    PollingMeetsNoBreak(config, c, polls, n);
    if polls[n].Answered? {
      BreakCheckDiffers(config.breaks, polls[n].verdict);
      assert forall b :: b in config.breaks <==> exists i :: 0 <= i < |config.breaks| && config.breaks[i] == b;
      if c.Entries? {
        RemainingEntries(config, c.list, polls, n);
        CheckOf(config, c.list, polls, n);
      }
    }
  }

  /** A case passes iff its run succeeds, or iff it does not when the result is reversed: then also on an error. */
  lemma PassesIff(config: Config, c: Collect, polls: seq<Poll>, n: nat, end: Status)
    requires EndsAt(config, c, polls, n, end)
    ensures CaseVerdict(end, config.reverse) <==> Succeeds(config, c, polls, n) != config.reverse
  {
    EndSuccess(config, c, polls, n, end);
  }

  // ---------- the responses stored ----------

  /** One run's effect on the response list: the first answer is appended, later ones overwrite it. */
  ghost function StoredBy(responses: seq<string>, polls: seq<Poll>, n: nat): seq<string>
    requires n <= |polls|
  {
    if n == 0 then responses
    else if polls[n - 1].Unsent? then StoredBy(responses, polls, n - 1)
    else responses + [polls[n - 1].json]
  }

  lemma StoredNext(responses: seq<string>, polls: seq<Poll>, n: nat)
    requires n < |polls| && polls[n].Answered? && (n > 0 ==> polls[n - 1].Answered?)
    ensures var stored := StoredBy(responses, polls, n);
      && (n > 0 ==> stored != [])
      && StoredBy(responses, polls, n + 1) ==
           if n == 0 then stored + [polls[n].json] else stored[|stored| - 1 := polls[n].json]
  {
  }

  /** The loop of `run`. It returns Polling when the polls given do not end it. */
  method Run(config: Config, collectResponse: Collect, polls: seq<Poll>, store: Datastore)
    returns (status: Status, used: nat)
    modifies store`responseJson
    ensures used <= |polls|
    ensures status.Polling? ==> used == |polls| && StatusAfter(config, collectResponse, polls, used).Polling?
    ensures status.Ended? ==> used > 0 && EndsAt(config, collectResponse, polls, used - 1, status)
    ensures store.responseJson == StoredBy(old(store.responseJson), polls, used)
  {
    var collect := collectResponse;
    var collectPresent := !collectResponse.Absent?;
    var requestCounter := 0;
    while requestCounter < |polls|
      invariant requestCounter <= |polls|
      invariant After(config, collectResponse, polls, requestCounter) == (Polling, collect)
      invariant collectPresent <==> !collect.Absent?
      invariant store.responseJson == StoredBy(old(store.responseJson), polls, requestCounter)
      invariant requestCounter > 0 ==> polls[requestCounter - 1].Answered?
    {
      var poll := polls[requestCounter];
      ghost var turn := Turn(config, collect, poll);
      assert After(config, collectResponse, polls, requestCounter + 1) == turn;
      if poll.Unsent? {
        return ERROR, requestCounter + 1;
      }
      StoredNext(old(store.responseJson), polls, requestCounter);
      if requestCounter == 0 {
        store.AppendResponse(poll.json);
      } else {
        store.UpdateLastResponse(poll.json);
      }
      if poll.expected == Fails {
        return ERROR, requestCounter + 1;
      }
      var responsesMatch := poll.expected == Equals;
      if responsesMatch && !collectPresent {
        return Ended(true, false), requestCounter + 1;
      }
      var breakPresent := BreakResponseIsPresent(config.breaks, poll.verdict);
      if breakPresent != Differs {
        return ERROR, requestCounter + 1;
      }
      var left := CheckCollectResponse(collect, poll.verdict, config.reverse);
      if left.None? {
        return ERROR, requestCounter + 1;
      }
      collect := left.value;
      if collectPresent && |collect.list| == 0 {
        return Ended(responsesMatch, false), requestCounter + 1;
      }
      var timedOut := poll.elapsed > config.timeoutMs * 1_000_000;
      if timedOut && config.timeoutMs != -1 {
        var timedOutFlag := config.timeoutMs > 0;
        return Ended(responsesMatch && !timedOutFlag, false), requestCounter + 1;
      }
      requestCounter := requestCounter + 1;
    }
    return Polling, requestCounter;
  }

  method BreakResponseIsPresent(breaks: seq<Spec>, verdict: Spec -> Match) returns (present: Match)
    ensures present == BreakCheck(breaks, verdict)
  {
    for i := 0 to |breaks|
      invariant BreakCheck(breaks, verdict) == BreakCheck(breaks[i..], verdict)
    {
      if verdict(breaks[i]) != Differs {
        return verdict(breaks[i]);
      }
    }
    return Differs;
  }

  method CheckCollectResponse(collect: Collect, verdict: Spec -> Match, reverse: bool) returns (left: Option<Collect>)
    ensures left == CollectCheck(collect, verdict, reverse)
  {
    match collect {
      case Absent => return Some(Absent);
      case Unloadable => return None;
      case Entries(list) =>
        ghost var keep := e => Stays(e, verdict, reverse);
        var leftResponses := [];
        for i := 0 to |list|
          invariant Loads(list[..i], verdict)
          invariant leftResponses == KeepIf(list[..i], keep)
        {
          var v := list[i];
          if verdict(v) == Fails {
            return None;
          }
          assert list[..i + 1][..i] == list[..i];
          if (verdict(v) != Equals && !reverse) || (verdict(v) == Equals && reverse) {
            leftResponses := leftResponses + [v];
          }
        }
        assert list[..|list|] == list;
        return Some(Entries(leftResponses));
    }
  }

  // ---------- runs sharing one response list ----------

  /** A stored poll of a run of a case; the runs of parallel clones store in an arbitrary interleaving. */
  datatype Stored = Stored(run: nat, json: string)

  ghost function Storers(events: seq<Stored>): set<nat> {
    set i | 0 <= i < |events| :: events[i].run
  }

  /** The runs in the order in which they appended their responses. */
  ghost function Owners(events: seq<Stored>): seq<nat> {
    if events == [] then []
    else
      var front, last := events[..|events| - 1], events[|events| - 1];
      if last.run in Storers(front) then Owners(front) else Owners(front) + [last.run]
  }

  /** What the first n polls of a run store. */
  ghost function EventsOf(run: nat, polls: seq<Poll>, n: nat): seq<Stored>
    requires n <= |polls|
  {
    if n == 0 then []
    else if polls[n - 1].Unsent? then EventsOf(run, polls, n - 1)
    else EventsOf(run, polls, n - 1) + [Stored(run, polls[n - 1].json)]
  }

  /** The list after the events; None if a run would update an empty list, which panics. */
  ghost function Shared(responses: seq<string>, events: seq<Stored>): Option<seq<string>> {
    if events == [] then Some(responses)
    else
      var front, last := events[..|events| - 1], events[|events| - 1];
      match Shared(responses, front)
      case None => None
      case Some(list) =>
        if last.run !in Storers(front) then Some(list + [last.json])
        else if list == [] then None
        else Some(list[|list| - 1 := last.json])
  }

  /**
   Under every interleaving each run adds one response and no update meets an empty list;
   the responses from before the call stay as they were.
   */
  lemma {:induction false} OneResponsePerRun(responses: seq<string>, events: seq<Stored>)
    ensures Shared(responses, events).Some?
    ensures |Shared(responses, events).value| == |responses| + |Owners(events)|
    ensures forall i :: i in Owners(events) <==> i in Storers(events)
    ensures forall p, q :: 0 <= p < q < |Owners(events)| ==> Owners(events)[p] != Owners(events)[q]
    ensures responses <= Shared(responses, events).value
  {
    if events != [] {
      var front, last := events[..|events| - 1], events[|events| - 1];
      OneResponsePerRun(responses, front);
      assert Storers(events) == Storers(front) + {last.run};
      if last.run in Storers(front) {
        assert last.run in Owners(front);
      }
    }
  }

  lemma StorersAppend(events: seq<Stored>, e: Stored)
    ensures Storers(events + [e]) == Storers(events) + {e.run}
  {
    var longer := events + [e];
    assert longer[|events|] == e;
    assert forall i :: 0 <= i < |events| ==> longer[i] == events[i];
  }

  /** The run that appended last. */
  ghost predicate Newest(events: seq<Stored>, run: nat) {
    var owners := Owners(events);
    owners != [] && owners[|owners| - 1] == run
  }

  /**
   A later answer of a run overwrites the newest response, which the run that appended
   last owns.
   */
  lemma UpdateHitsNewest(responses: seq<string>, events: seq<Stored>, e: Stored)
    requires e.run in Storers(events)
    ensures var before, after, owners := Shared(responses, events), Shared(responses, events + [e]), Owners(events);
      && before.Some? && after.Some? && owners != [] && |before.value| == |responses| + |owners|
      && after.value == before.value[|before.value| - 1 := e.json]
      && Owners(events + [e]) == owners
  {
    OneResponsePerRun(responses, events);
    assert (events + [e])[..|events|] == events;
    assert e.run in Owners(events);
  }

  // ---------- when each run keeps its own response ----------

  /** Every later answer of a run comes while that run is the one that appended last. */
  ghost predicate OwnOnly(events: seq<Stored>) {
    events == [] ||
    (var front, last := events[..|events| - 1], events[|events| - 1];
     OwnOnly(front) && (last.run in Storers(front) ==> Newest(front, last.run)))
  }

  /** The last answer of a run. */
  ghost function LastAnswer(events: seq<Stored>, run: nat): string
    requires run in Storers(events)
  {
    var front, last := events[..|events| - 1], events[|events| - 1];
    if last.run == run then last.json
    else
      StorersAppend(front, last);
      assert events == front + [last];
      LastAnswer(front, run)
  }

  /** Each run's response in the list is its own last answer. */
  ghost predicate Kept(responses: seq<string>, events: seq<Stored>) {
    forall p :: 0 <= p < |Owners(events)| ==>
      && Shared(responses, events).Some? && |responses| + p < |Shared(responses, events).value|
      && Owners(events)[p] in Storers(events)
      && Shared(responses, events).value[|responses| + p] == LastAnswer(events, Owners(events)[p])
  }

  /** The same runs store in the same order, whatever they store. */
  ghost predicate SameRuns(events: seq<Stored>, other: seq<Stored>) {
    |events| == |other| && forall i :: 0 <= i < |events| ==> events[i].run == other[i].run
  }

  lemma {:induction false} SameStorers(events: seq<Stored>, other: seq<Stored>)
    requires SameRuns(events, other)
    ensures Storers(events) == Storers(other)
  {
    if events != [] {
      var n := |events| - 1;
      SameStorers(events[..n], other[..n]);
      StorersAppend(events[..n], events[n]);
      StorersAppend(other[..n], other[n]);
      assert events == events[..n] + [events[n]] && other == other[..n] + [other[n]];
    }
  }

  lemma {:induction false} SameOwners(events: seq<Stored>, other: seq<Stored>)
    requires SameRuns(events, other)
    ensures Storers(events) == Storers(other) && Owners(events) == Owners(other) && (OwnOnly(events) <==> OwnOnly(other))
  {
    SameStorers(events, other);
    if events != [] {
      SameOwners(events[..|events| - 1], other[..|other| - 1]);
    }
  }

  lemma {:induction false} OwnOnlyKeeps(responses: seq<string>, events: seq<Stored>)
    requires OwnOnly(events)
    ensures Kept(responses, events)
  {
    OneResponsePerRun(responses, events);
    if events != [] {
      var front, last := events[..|events| - 1], events[|events| - 1];
      assert events == front + [last];
      OwnOnlyKeeps(responses, front);
      OneResponsePerRun(responses, front);
      StorersAppend(front, last);
      forall p | 0 <= p < |Owners(events)|
        ensures Shared(responses, events).value[|responses| + p] == LastAnswer(events, Owners(events)[p])
      {
        if p < |Owners(front)| && Owners(front)[p] != last.run {
          assert Shared(responses, events).value[|responses| + p] == Shared(responses, front).value[|responses| + p];
        }
      }
    }
  }

  /** A run that answers although another one has appended since. */
  lemma {:induction false} Intrusion(events: seq<Stored>) returns (v: nat)
    requires !OwnOnly(events)
    ensures v < |events| && events[v].run in Storers(events[..v]) && !Newest(events[..v], events[v].run)
  {
    var n := |events| - 1;
    if OwnOnly(events[..n]) {
      v := n;
    } else {
      v := Intrusion(events[..n]);
      assert events[..n][..v] == events[..v];
    }
  }

  /** The same runs, with one text before v and another from v on. */
  function Retold(events: seq<Stored>, v: nat): (other: seq<Stored>)
    ensures SameRuns(events, other)
  {
    seq(|events|, i requires 0 <= i < |events| => Stored(events[i].run, if i < v then "early" else "late"))
  }

  /** All responses stored before v hold the early text. */
  lemma {:induction false} AllEarly(responses: seq<string>, events: seq<Stored>)
    requires forall i :: 0 <= i < |events| ==> events[i].json == "early"
    ensures Shared(responses, events).Some? && |Shared(responses, events).value| == |responses| + |Owners(events)|
    ensures forall q :: |responses| <= q < |Shared(responses, events).value| ==> Shared(responses, events).value[q] == "early"
  {
    OneResponsePerRun(responses, events);
    if events != [] {
      AllEarly(responses, events[..|events| - 1]);
    }
  }

  /** A response stays as it is once another run has appended. */
  lemma {:induction false} EntryStays(responses: seq<string>, events: seq<Stored>, v: nat, p: nat)
    requires v <= |events| && p + 1 < |Owners(events[..v])|
    ensures Owners(events[..v]) <= Owners(events)
    ensures Shared(responses, events).Some? && Shared(responses, events[..v]).Some?
    ensures |responses| + p < |Shared(responses, events).value| && |responses| + p < |Shared(responses, events[..v]).value|
    ensures Shared(responses, events).value[|responses| + p] == Shared(responses, events[..v]).value[|responses| + p]
  {
    OneResponsePerRun(responses, events);
    OneResponsePerRun(responses, events[..v]);
    if v == |events| {
      assert events[..v] == events;
    } else {
      var front := events[..|events| - 1];
      assert front[..v] == events[..v];
      EntryStays(responses, front, v, p);
      OneResponsePerRun(responses, front);
    }
  }

  lemma {:induction false} LateAnswer(events: seq<Stored>, v: nat, n: nat)
    requires v < n <= |events| && forall i :: v <= i < |events| ==> events[i].json == "late"
    ensures events[v].run in Storers(events[..n]) && LastAnswer(events[..n], events[v].run) == "late"
    decreases n
  {
    var run := events[v].run;
    assert events[..n][v] == events[v];
    assert events[..n][..n - 1] == events[..n - 1];
    if events[n - 1].run != run {
      LateAnswer(events, v, n - 1);
    }
  }

  /** An intruder owns a response before the newest. */
  lemma IntruderPosition(events: seq<Stored>, run: nat) returns (p: nat)
    requires run in Storers(events) && !Newest(events, run)
    ensures p + 1 < |Owners(events)| && Owners(events)[p] == run
  {
    OneResponsePerRun([], events);
    p :| 0 <= p < |Owners(events)| && Owners(events)[p] == run;
  }

  lemma EarlyStays(responses: seq<string>, events: seq<Stored>, v: nat, p: nat)
    requires v <= |events| && p + 1 < |Owners(events[..v])|
    requires forall i :: 0 <= i < v ==> events[i].json == "early"
    ensures Owners(events[..v]) <= Owners(events) && p < |Owners(events)|
    ensures Shared(responses, events).Some? && |responses| + p < |Shared(responses, events).value|
    ensures Shared(responses, events).value[|responses| + p] == "early"
  {
    AllEarly(responses, events[..v]);
    EntryStays(responses, events, v, p);
  }

  /** An intruder's own response is not its last answer. */
  lemma IntruderLoses(responses: seq<string>, events: seq<Stored>, v: nat)
    requires v < |events| && events[v].run in Storers(events[..v]) && !Newest(events[..v], events[v].run)
    ensures !Kept(responses, Retold(events, v))
  {
    var other := Retold(events, v);
    assert SameRuns(events[..v], other[..v]);
    SameOwners(events[..v], other[..v]);
    var p := IntruderPosition(other[..v], other[v].run);
    EarlyStays(responses, other, v, p);
    LateAnswer(other, v, |other|);
    assert other[..|other|] == other;
    assert Owners(other)[p] == other[v].run;
  }

  /**
   Each run's response is its own last answer, whatever the answers are, iff no run
   answers again after another one has appended.
   */
  lemma KeptIff(responses: seq<string>, events: seq<Stored>)
    ensures OwnOnly(events) <==> forall other :: SameRuns(events, other) ==> Kept(responses, other)
  {
    if OwnOnly(events) {
      forall other | SameRuns(events, other) ensures Kept(responses, other) {
        SameOwners(events, other);
        OwnOnlyKeeps(responses, other);
      }
    } else {
      var v := Intrusion(events);
      IntruderLoses(responses, events, v);
    }
  }

  lemma SharedAppend(responses: seq<string>, front: seq<Stored>, e: Stored)
    requires Shared(responses, front).Some? && (e.run in Storers(front) ==> Shared(responses, front).value != [])
    ensures var list := Shared(responses, front).value;
      Shared(responses, front + [e]) ==
        Some(if e.run in Storers(front) then list[|list| - 1 := e.json] else list + [e.json])
  {
    assert (front + [e])[..|front|] == front;
  }

  /** Two runs, the first of which answers again: the second one's response is lost. */
  lemma OverwrittenResponse(a: string, b: string, c: string)
    ensures Shared([], [Stored(0, a), Stored(1, b), Stored(0, c)]) == Some([a, c])
  {
    var e, f, g := Stored(0, a), Stored(1, b), Stored(0, c);
    var none: seq<Stored>, empty: seq<string> := [], [];
    assert empty + [a] == [a] && [a] + [b] == [a, b] && [a, b][1 := c] == [a, c];
    assert Shared(empty, none) == Some(empty);
    assert Storers(none) == {} && none + [e] == [e] && [e] + [f] == [e, f] && [e, f] + [g] == [e, f, g];
    StorersAppend(none, e);
    StorersAppend([e], f);
    SharedAppend([], none, e);
    assert Shared([], [e]) == Some([a]);
    SharedAppend([], [e], f);
    assert Shared([], [e, f]) == Some([a, b]);
    SharedAppend([], [e, f], g);
  }

  // ---------- one run alone ----------

  lemma StoreAlone(responses: seq<string>, front: seq<Stored>, e: Stored, before: seq<string>)
    requires Shared(responses, front) == Some(before) && (Storers(front) == {} || Storers(front) == {e.run})
    requires if Storers(front) == {} then before == responses else exists t :: before == responses + [t]
    ensures Shared(responses, front + [e]) == Some(responses + [e.json])
    ensures Storers(front + [e]) == {e.run}
  {
    assert (front + [e])[..|front|] == front;
    StorersAppend(front, e);
    if Storers(front) != {} {
      assert e.run in Storers(front);
      assert before[|before| - 1 := e.json] == responses + [e.json];
    }
  }

  /** Some of the first n polls is answered. */
  ghost predicate Answers(polls: seq<Poll>, n: nat)
    requires n <= |polls|
  {
    n > 0 && (polls[n - 1].Answered? || Answers(polls, n - 1))
  }

  /** Alone, a run leaves what its poll loop leaves. */
  lemma {:induction false} AloneAsRun(responses: seq<string>, run: nat, polls: seq<Poll>, n: nat)
    requires n <= |polls|
    ensures Shared(responses, EventsOf(run, polls, n)) == Some(StoredBy(responses, polls, n))
    ensures Storers(EventsOf(run, polls, n)) == if Answers(polls, n) then {run} else {}
    ensures if Answers(polls, n) then exists t :: StoredBy(responses, polls, n) == responses + [t]
      else StoredBy(responses, polls, n) == responses
  {
    if n > 0 {
      AloneAsRun(responses, run, polls, n - 1);
      if polls[n - 1].Answered? {
        var front, e := EventsOf(run, polls, n - 1), Stored(run, polls[n - 1].json);
        StoreAlone(responses, front, e, StoredBy(responses, polls, n - 1));
      } else {
        assert Answers(polls, n) <==> Answers(polls, n - 1);
      }
    } else {
      assert Storers([]) == {};
    }
  }
}
