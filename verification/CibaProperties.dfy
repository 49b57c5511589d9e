/** What every run of `ciba_await` guarantees: the deadline, the schedule, the budget, and
    how it may end. */
module CibaProperties {
  import opened Wrappers
  import opened CibaErrors
  import opened CibaAwait

  // ---- The deadline -----------------------------------------------------------------------

  lemma {:induction false} PollSendsBeforeDeadline(w: World, deadline: real, now: real, k: nat, attempt: nat, i: nat)
    requires 1 <= attempt <= Attempts(w) && now < deadline
    requires i < |PollFrom(w, deadline, now, k, attempt).sends|
    ensures now <= PollFrom(w, deadline, now, k, attempt).sends[i] < deadline
    decreases Attempts(w) - attempt
  {
    var after := now + w.duration(k);
    if i > 0 {
      var wait := DelayMs(attempt, AttemptOf(w.answers(k)).failure, w.jitter(k)) / 1000.0;
      PollSendsBeforeDeadline(w, deadline, after + wait, k + 1, attempt + 1, i - 1);
    }
  }

  ghost predicate GoesOn(poll: Poll) { poll.result.Failed? && PollStep(poll.result.failure) != Terminal }

  /** The run after a first poll that goes on. */
  ghost function RestOf(w: World, deadline: real, interval: int, poll: Poll): Run
    requires interval > 0 && GoesOn(poll)
  {
    var f := poll.result.failure;
    AwaitFrom(w, deadline, NextInterval(interval, f), NextFloor(f), poll.now, poll.next)
  }

  /** `run` is `round` followed by `rest`. */
  ghost predicate Continues(run: Run, round: Round, rest: Run) {
    run == Run([round] + rest.rounds, rest.end, rest.now, rest.next)
  }

  /** `run` is `round` alone: it ended with that poll. */
  ghost predicate Stops(run: Run, round: Round) {
    var poll := round.poll;
    run == Run([round], if poll.result.Got? then TokenSet else Raised(poll.result.failure), poll.now, poll.next)
  }

  lemma Turn(w: World, deadline: real, interval: int, floor: NonNegReal, now: real, k: nat)
      returns (run: Run, round: Round)
    requires interval > 0 && now + WaitFor(interval, floor) < deadline
    ensures var start := now + WaitFor(interval, floor);
            round == Round(interval, floor, start, PollAt(w, deadline, start, k))
    ensures run == AwaitFrom(w, deadline, interval, floor, now, k)
    ensures if GoesOn(round.poll) then Continues(run, round, RestOf(w, deadline, interval, round.poll))
            else Stops(run, round)
  {
    run := AwaitFrom(w, deadline, interval, floor, now, k);
    var start := now + WaitFor(interval, floor);
    round := Round(interval, floor, start, PollAt(w, deadline, start, k));
  }

  ghost predicate SentWithin(rounds: seq<Round>, from: real, deadline: real) {
    forall i, j | 0 <= i < |rounds| && 0 <= j < |rounds[i].poll.sends| :: from < rounds[i].poll.sends[j] < deadline
  }

  lemma FirstSentWithin(round: Round, rest: seq<Round>, from: real, later: real, deadline: real)
    requires from <= later && SentWithin(rest, later, deadline)
    requires forall j | 0 <= j < |round.poll.sends| :: from < round.poll.sends[j] < deadline
    ensures SentWithin([round] + rest, from, deadline)
  {
    var all := [round] + rest;
    forall i, j | 0 <= i < |all| && 0 <= j < |all[i].poll.sends| ensures from < all[i].poll.sends[j] < deadline {
      if i > 0 { assert all[i] == rest[i - 1]; }
    }
  }

  /** No token request, first of a poll or retried inside one, is sent at or after the deadline. */
  lemma {:induction false} SendsBeforeDeadline(w: World, deadline: real, interval: int, floor: NonNegReal, now: real,
      k: nat)
    requires interval > 0
    ensures SentWithin(AwaitFrom(w, deadline, interval, floor, now, k).rounds, now, deadline)
    decreases deadline - now
  {
    var start := now + WaitFor(interval, floor);
    if start < deadline {
      var run, round := Turn(w, deadline, interval, floor, now, k);
      forall j | 0 <= j < |round.poll.sends| ensures now < round.poll.sends[j] < deadline {
        if w.open(start) { PollSendsBeforeDeadline(w, deadline, start, k, 1, j); }
      }
      if GoesOn(round.poll) {
        var f := round.poll.result.failure;
        SendsBeforeDeadline(w, deadline, NextInterval(interval, f), NextFloor(f), round.poll.now, round.poll.next);
        FirstSentWithin(round, RestOf(w, deadline, interval, round.poll).rounds, now, round.poll.now, deadline);
      } else {
        FirstSentWithin(round, [], now, now, deadline);
        assert [round] + [] == [round];
      }
    }
  }

  // ---- The schedule -------------------------------------------------------------------------

  predicate SlowedDown(r: Round) { r.poll.result.Failed? && PollStep(r.poll.result.failure) == SlowDown }

  function SlowDowns(rounds: seq<Round>): nat {
    if rounds == [] then 0 else (if SlowedDown(rounds[0]) then 1 else 0) + SlowDowns(rounds[1..])
  }

  /** The Retry-After, in seconds, of a failure that is neither terminal nor a slow_down. */
  ghost predicate LeavesFloor(r: Round, floor: real) {
    match r.poll.result
    case Got => false
    case Failed(f) =>
      match RetryAfterOf(f)
      case Some(ms) => if PollStep(f) == SlowDown then floor == 0.0 else floor == ms / 1000.0
      case None => floor == 0.0
  }

  /** Round i waited for the larger of the base interval plus 5 s per slow_down seen so far and the
      Retry-After of the round just before it, counted from that round's end, and then polled, if the client was
      open. */
  ghost predicate Scheduled(w: World, rounds: seq<Round>, i: nat, base: int, floor: real, now: real)
    requires i < |rounds|
  {
    var earliest := if i == 0 then now else rounds[i - 1].poll.now;
    rounds[i].interval == base + SLOW_DOWN_INCREMENT * SlowDowns(rounds[..i]) &&
    (if i == 0 then rounds[i].floor == floor else LeavesFloor(rounds[i - 1], rounds[i].floor)) &&
    rounds[i].start == earliest + Max(rounds[i].interval as real, rounds[i].floor) &&
    (if w.open(rounds[i].start) then |rounds[i].poll.sends| > 0 && rounds[i].poll.sends[0] == rounds[i].start
     else rounds[i].poll.sends == [])
  }

  lemma ScheduledLater(w: World, round: Round, rest: seq<Round>, i: nat, base: int, floor: real, now: real)
    requires 0 < i <= |rest| && GoesOn(round.poll)
    requires var f := round.poll.result.failure;
             Scheduled(w, rest, i - 1, NextInterval(base, f), NextFloor(f), round.poll.now)
    ensures Scheduled(w, [round] + rest, i, base, floor, now)
  {
    var all := [round] + rest;
    assert all[..i] == [round] + rest[..i - 1] && all[..i][1..] == rest[..i - 1];
    assert all[i] == rest[i - 1] && all[i - 1] == if i == 1 then round else rest[i - 2];
  }

  lemma {:induction false} Schedule(
      w: World, deadline: real, base: int, floor: NonNegReal, now: real, k: nat, i: nat)
    requires base > 0
    requires i < |AwaitFrom(w, deadline, base, floor, now, k).rounds|
    ensures Scheduled(w, AwaitFrom(w, deadline, base, floor, now, k).rounds, i, base, floor, now)
    decreases i
  {
    var run, round := Turn(w, deadline, base, floor, now, k);
    if i > 0 {
      var f := round.poll.result.failure;
      Schedule(w, deadline, NextInterval(base, f), NextFloor(f), round.poll.now, round.poll.next, i - 1);
      ScheduledLater(w, round, RestOf(w, deadline, base, round.poll).rounds, i, base, floor, now);
    }
  }

  // ---- The budget ---------------------------------------------------------------------------

  function TotalIntervals(rounds: seq<Round>): int {
    if rounds == [] then 0 else rounds[0].interval + TotalIntervals(rounds[1..])
  }

  lemma {:induction false} IntervalsFit(w: World, deadline: real, interval: int, floor: NonNegReal, now: real, k: nat)
    requires interval > 0
    ensures var rounds := AwaitFrom(w, deadline, interval, floor, now, k).rounds;
            rounds != [] ==> now + TotalIntervals(rounds) as real < deadline
    decreases deadline - now
  {
    var run := AwaitFrom(w, deadline, interval, floor, now, k);
    if run.rounds != [] && run.rounds[1..] != [] {
      var poll := PollAt(w, deadline, now + WaitFor(interval, floor), k);
      var f := poll.result.failure;
      IntervalsFit(w, deadline, NextInterval(interval, f), NextFloor(f), poll.now, poll.next);
      assert run.rounds[1..] ==
             AwaitFrom(w, deadline, NextInterval(interval, f), NextFloor(f), poll.now, poll.next).rounds;
    } else if run.rounds != [] {
      assert TotalIntervals(run.rounds) == interval + TotalIntervals([]);
    }
  }

  ghost predicate AllEarlierSlowDowns(rounds: seq<Round>) {
    forall i | 0 <= i < |rounds| - 1 :: SlowedDown(rounds[i])
  }

  lemma SlowDownsCount(rounds: seq<Round>)
    requires forall i | 0 <= i < |rounds| :: SlowedDown(rounds[i])
    ensures SlowDowns(rounds) == |rounds|
  {}

  lemma TotalIntervalsSnoc(rounds: seq<Round>, last: Round)
    ensures TotalIntervals(rounds + [last]) == TotalIntervals(rounds) + last.interval
  {
    if rounds != [] {
      assert (rounds + [last])[1..] == rounds[1..] + [last];
    }
  }

  lemma NextTriangle(m: int, base: int, total: int)
    requires 2 * total == m * (2 * base) + 5 * (m * (m - 1))
    ensures 2 * (total + base + 5 * m) == (m + 1) * (2 * base) + 5 * ((m + 1) * m)
  {}

  lemma {:induction false} TotalOfSlowDowns(rounds: seq<Round>, base: int)
    requires AllEarlierSlowDowns(rounds)
    requires forall i | 0 <= i < |rounds| :: rounds[i].interval == base + SLOW_DOWN_INCREMENT * SlowDowns(rounds[..i])
    ensures 2 * TotalIntervals(rounds) == |rounds| * (2 * base) + 5 * (|rounds| * (|rounds| - 1))
  {
    if rounds == [] {
    } else {
      var n := |rounds| - 1;
      var init := rounds[..n];
      forall i | 0 <= i < n ensures init[i].interval == base + SLOW_DOWN_INCREMENT * SlowDowns(init[..i]) {
        assert init[..i] == rounds[..i];
      }
      TotalOfSlowDowns(init, base);
      SlowDownsCount(init);
      TotalIntervalsSnoc(init, rounds[n]);
      assert rounds == init + [rounds[n]];
      NextTriangle(n, base, TotalIntervals(init));
    }
  }

  lemma WithinExpiry(total: int, now: real, receivedAt: real, expiresIn: int)
    requires receivedAt <= now && now + total as real < receivedAt + expiresIn as real
    ensures total < expiresIn
  {}

  lemma IntervalsFollowSlowDowns(w: World, deadline: real, base: int, now: real, k: nat)
    requires base > 0
    ensures var rounds := AwaitFrom(w, deadline, base, 0.0, now, k).rounds;
            forall i | 0 <= i < |rounds| :: rounds[i].interval == base + SLOW_DOWN_INCREMENT * SlowDowns(rounds[..i])
  {
    var rounds := AwaitFrom(w, deadline, base, 0.0, now, k).rounds;
    forall i | 0 <= i < |rounds| ensures rounds[i].interval == base + SLOW_DOWN_INCREMENT * SlowDowns(rounds[..i]) {
      Schedule(w, deadline, base, 0.0, now, k, i);
    }
  }

  /** The polls of a run called at or after `receivedAt` fit into `expires_in`: their intervals sum to
      less than it, and so n polls each slowed down satisfy n*base + 5n(n-1)/2 < expires_in. */
  lemma Budget(w: World, receivedAt: real, expiresIn: int, initiated: int, now: real, k: nat)
    requires receivedAt <= now
    ensures var rounds := Await(w, receivedAt, expiresIn, initiated, now, k).rounds;
            var n, base := |rounds|, EffectiveInterval(initiated);
            n > 0 ==>
              TotalIntervals(rounds) < expiresIn &&
              (AllEarlierSlowDowns(rounds) ==> n * (2 * base) + 5 * (n * (n - 1)) < 2 * expiresIn)
  {
    var deadline, base := receivedAt + expiresIn as real, EffectiveInterval(initiated);
    IntervalsFit(w, deadline, base, 0.0, now, k);
    var rounds := Await(w, receivedAt, expiresIn, initiated, now, k).rounds;
    if rounds != [] { WithinExpiry(TotalIntervals(rounds), now, receivedAt, expiresIn); }
    if AllEarlierSlowDowns(rounds) {
      IntervalsFollowSlowDowns(w, deadline, base, now, k);
      TotalOfSlowDowns(rounds, base);
    }
  }

  // ---- How a run ends -------------------------------------------------------------------------

  ghost predicate IsFatal(a: Answer) { !Benign(a) && !Succeeds(a) }

  /** A poll uses up answers k .. next-1. All but its last are benign; the last one decides. */
  ghost predicate Decides(w: World, k: nat, next: nat, result: PollResult)
    requires k < next
  {
    (forall j | k <= j < next - 1 :: Benign(w.answers(j))) &&
    (result.Got? <==> Succeeds(w.answers(next - 1))) &&
    (result.Failed? ==> (PollStep(result.failure) == Terminal <==> IsFatal(w.answers(next - 1))))
  }

  lemma OneAnswerDecides(w: World, k: nat, result: PollResult)
    requires match AttemptOf(w.answers(k))
             case Tokens => result == Got
             case Decisive(f) => result == Failed(f)
             case Retryable(f) => result == Failed(f)
    ensures Decides(w, k, k + 1, result)
  {
    VerdictTable(w.answers(k));
  }

  lemma EarlierAnswerDefers(w: World, k: nat, next: nat, result: PollResult)
    requires k + 1 < next && AttemptOf(w.answers(k)).Retryable? && Decides(w, k + 1, next, result)
    ensures Decides(w, k, next, result)
  {
    VerdictTable(w.answers(k));
    forall j | k <= j < next - 1 ensures Benign(w.answers(j)) {
      if j > k { assert Benign(w.answers(j)); }
    }
  }

  lemma {:induction false} LastAnswerDecidesPoll(w: World, deadline: real, now: real, k: nat, attempt: nat)
    requires 1 <= attempt <= Attempts(w)
    ensures var p := PollFrom(w, deadline, now, k, attempt); Decides(w, k, p.next, p.result)
    decreases Attempts(w) - attempt
  {
    var p := PollFrom(w, deadline, now, k, attempt);
    if p.next > k + 1 {
      var after := now + w.duration(k);
      var wait := DelayMs(attempt, AttemptOf(w.answers(k)).failure, w.jitter(k)) / 1000.0;
      LastAnswerDecidesPoll(w, deadline, after + wait, k + 1, attempt + 1);
      EarlierAnswerDefers(w, k, p.next, p.result);
    } else {
      OneAnswerDecides(w, k, p.result);
    }
  }

  /** A run that used answers k .. next-1 ended on the last of them or expired: every earlier answer was
      benign, tokens come back exactly when the last one succeeds, and an error is raised exactly when
      the last one is fatal. Local expiry happens exactly when no fatal or successful answer was met. */
  ghost predicate EndsAsAnswered(w: World, k: nat, run: Run) {
    k <= run.next &&
    (forall j | k <= j < run.next - 1 :: Benign(w.answers(j))) &&
    (run.end.TokenSet? <==> k < run.next && Succeeds(w.answers(run.next - 1))) &&
    (run.end.Raised? <==> k < run.next && IsFatal(w.answers(run.next - 1)))
  }

  /** A poll that sent nothing goes on; any other is decided by its last answer. */
  ghost predicate Settles(w: World, k: nat, poll: Poll) {
    k <= poll.next && (if poll.next == k then GoesOn(poll) else Decides(w, k, poll.next, poll.result))
  }

  lemma StopEnds(w: World, k: nat, run: Run, round: Round)
    requires Settles(w, k, round.poll) && !GoesOn(round.poll) && Stops(run, round)
    ensures EndsAsAnswered(w, k, run)
  {}

  lemma RestEnds(w: World, k: nat, run: Run, round: Round, rest: Run)
    requires Settles(w, k, round.poll) && GoesOn(round.poll)
    requires Continues(run, round, rest) && EndsAsAnswered(w, round.poll.next, rest)
    ensures EndsAsAnswered(w, k, run)
  {
    var next := round.poll.next;
    if k < next {
      assert Benign(w.answers(next - 1)) && !Succeeds(w.answers(next - 1));
      forall j | k <= j < run.next - 1 ensures Benign(w.answers(j)) {
        if j >= next { assert Benign(w.answers(j)); }
      }
    }
  }

  lemma RoundEnds(w: World, k: nat, run: Run, round: Round, rest: Run)
    requires Settles(w, k, round.poll)
    requires if GoesOn(round.poll) then Continues(run, round, rest) && EndsAsAnswered(w, round.poll.next, rest)
             else Stops(run, round)
    ensures EndsAsAnswered(w, k, run)
  {
    if GoesOn(round.poll) { RestEnds(w, k, run, round, rest); } else { StopEnds(w, k, run, round); }
  }

  lemma RoundSettles(w: World, deadline: real, start: real, k: nat, poll: Poll)
    requires poll == PollAt(w, deadline, start, k)
    ensures Settles(w, k, poll)
  {
    if w.open(start) { LastAnswerDecidesPoll(w, deadline, start, k, 1); }
  }

  lemma {:induction false} RunEndsAsAnswered(
      w: World, deadline: real, interval: int, floor: NonNegReal, now: real, k: nat)
    requires interval > 0
    ensures EndsAsAnswered(w, k, AwaitFrom(w, deadline, interval, floor, now, k))
    decreases deadline - now
  {
    var start := now + WaitFor(interval, floor);
    if start < deadline {
      var run, round := Turn(w, deadline, interval, floor, now, k);
      var rest := run;
      RoundSettles(w, deadline, start, k, round.poll);
      if GoesOn(round.poll) {
        var f := round.poll.result.failure;
        rest := RestOf(w, deadline, interval, round.poll);
        RunEndsAsAnswered(w, deadline, NextInterval(interval, f), NextFloor(f), round.poll.now, round.poll.next);
      }
      RoundEnds(w, k, run, round, rest);
    }
  }

  /** A client that is closed before the first poll, and stays closed, is not told: the call keeps waiting, sends
      nothing, and ends in local expiry. */
  lemma {:induction false} ClosedClientWaitsForExpiry(
      w: World, deadline: real, interval: int, floor: NonNegReal, now: real, k: nat)
    requires interval > 0 && forall t | t >= now :: !w.open(t)
    ensures var run := AwaitFrom(w, deadline, interval, floor, now, k);
            run.end == LocalExpiry && run.next == k && Sends(run.rounds) == [] &&
            run.now + WaitFor(interval, floor) >= deadline
    decreases deadline - now
  {
    var start := now + WaitFor(interval, floor);
    if start < deadline {
      var run, round := Turn(w, deadline, interval, floor, now, k);
      assert !w.open(start);
      ClosedClientWaitsForExpiry(w, deadline, interval, 0.0, start, k);
      assert run.rounds[1..] == RestOf(w, deadline, interval, round.poll).rounds;
    }
  }

  /** With benign answers only, a run never ends in a server error, whatever the timing. */
  lemma BenignAnswersNeverRaise(w: World, receivedAt: real, expiresIn: int, initiated: int, now: real, k: nat)
    requires forall j: nat | j >= k :: Benign(w.answers(j))
    ensures !Await(w, receivedAt, expiresIn, initiated, now, k).end.Raised?
  {
    RunEndsAsAnswered(w, receivedAt + expiresIn as real, EffectiveInterval(initiated), 0.0, now, k);
  }

  /** The first answer that is not benign is the last one asked for: a success ends the run with tokens and
      anything else, any redirect and any unreadable 2xx included, ends it with that error. */
  lemma FirstDecisiveAnswerEnds(w: World, receivedAt: real, expiresIn: int, initiated: int, now: real, k: nat, j: nat)
    requires k <= j < Await(w, receivedAt, expiresIn, initiated, now, k).next && !Benign(w.answers(j))
    ensures var run := Await(w, receivedAt, expiresIn, initiated, now, k);
            j == run.next - 1 && (if Succeeds(w.answers(j)) then run.end.TokenSet? else run.end.Raised?)
  {
    RunEndsAsAnswered(w, receivedAt + expiresIn as real, EffectiveInterval(initiated), 0.0, now, k);
    VerdictTable(w.answers(j));
  }

  /** The next wait, floor included, would reach the deadline. */
  ghost predicate OutOfTime(run: Run, interval: int, floor: real, deadline: real, left: real) {
    (if run.rounds == [] then left == floor else LeavesFloor(run.rounds[|run.rounds| - 1], left)) &&
    run.now + Max((interval + SLOW_DOWN_INCREMENT * SlowDowns(run.rounds)) as real, left) >= deadline
  }

  lemma AddRound(run: Run, round: Round, rest: Run, interval: int, floor: real, deadline: real, left: real)
    requires GoesOn(round.poll) && Continues(run, round, rest)
    requires var f := round.poll.result.failure;
             OutOfTime(rest, NextInterval(interval, f), NextFloor(f), deadline, left)
    ensures OutOfTime(run, interval, floor, deadline, left)
  {
    assert run.rounds[1..] == rest.rounds;
  }

  /** Local expiry is declared only when the next wait, floor included, would reach the deadline. */
  lemma {:induction false} ExpiresOnlyOutOfTime(w: World, deadline: real, interval: int, floor: NonNegReal, now: real,
      k: nat)
      returns (left: NonNegReal)
    requires interval > 0
    requires AwaitFrom(w, deadline, interval, floor, now, k).end.LocalExpiry?
    ensures OutOfTime(AwaitFrom(w, deadline, interval, floor, now, k), interval, floor, deadline, left)
    decreases deadline - now
  {
    left := floor;
    if now + WaitFor(interval, floor) < deadline {
      var run, round := Turn(w, deadline, interval, floor, now, k);
      var f := round.poll.result.failure;
      left := ExpiresOnlyOutOfTime(w, deadline, NextInterval(interval, f), NextFloor(f), round.poll.now,
          round.poll.next);
      AddRound(run, round, RestOf(w, deadline, interval, round.poll), interval, floor, deadline, left);
    }
  }
}
