/** `ciba_await`: poll until the request is decided or expires, and the bounded retry inside
    each poll. The wire and the clock are a `World`; what a run does is the function
    `AwaitFrom`, and the loops are methods proved against it. */
module CibaAwait {
  import opened Wrappers
  import opened CibaErrors

  const DEFAULT_INTERVAL := 5
  const SLOW_DOWN_INCREMENT := 5
  const MAX_ATTEMPTS := 3
  const BASE_DELAY_MS := 200.0
  const MAX_DELAY_MS := 5000.0
  const MAX_RETRY_AFTER_MS := 3600000.0

  /** Everything outside the client: the answer, the duration and the jitter draw of the k-th
      token request ever sent, whether retries are switched on, and when the client is open. */
  datatype World = World(
    answers: nat -> Answer, duration: nat -> NonNegReal, jitter: nat -> real, retryEnabled: bool, open: real -> bool)

  // ---- The retry policy ----------------------------------------------------------------

  function Max(a: real, b: real): real { if a < b then b else a }
  function Min(a: real, b: real): real { if a < b then a else b }

  function Attempts(w: World): nat { if w.retryEnabled then MAX_ATTEMPTS else 1 }

  function PowerOfTwo(n: nat): nat { if n == 0 then 1 else 2 * PowerOfTwo(n - 1) }

  function BackoffMs(attempt: nat): (backoff: real)
    requires attempt >= 1
    ensures 0.0 <= backoff <= MAX_DELAY_MS
  {
    Min(MAX_DELAY_MS, BASE_DELAY_MS * PowerOfTwo(attempt - 1) as real)
  }

  lemma AtMostWhole(whole: real, part: real)
    requires 0.0 <= whole && 0.0 <= part <= 1.0
    ensures 0.0 <= whole * part <= whole && (part == 1.0 ==> whole * part == whole)
  {
    assert whole * (1.0 - part) >= 0.0;
  }

  /** Full jitter. */
  function Jitter(backoff: real, fraction: real): (jittered: real)
    requires 0.0 <= backoff
    ensures 0.0 <= jittered <= backoff && (fraction >= 1.0 ==> jittered == backoff)
  {
    var part := Min(Max(fraction, 0.0), 1.0);
    AtMostWhole(backoff, part);
    backoff * part
  }

  /** Full jitter, raised to the (capped) Retry-After. */
  function DelayMs(attempt: nat, f: Failure, fraction: real): (wait: real)
    requires attempt >= 1
    ensures 0.0 <= wait
  {
    var jittered := Jitter(BackoffMs(attempt), fraction);
    match RetryAfterOf(f)
    case None => jittered
    case Some(ms) => Max(jittered, Min(ms, MAX_RETRY_AFTER_MS))
  }

  /** The wait lies between the capped Retry-After and the backoff, or on the former where that is longer; without a
      Retry-After it is at most the backoff, and all of it for a draw of 1. */
  lemma DelayBounds(attempt: nat, f: Failure, fraction: real)
    requires attempt >= 1
    ensures RetryAfterOf(f).None? ==>
              0.0 <= DelayMs(attempt, f, fraction) <= BackoffMs(attempt) <= MAX_DELAY_MS &&
              (fraction >= 1.0 ==> DelayMs(attempt, f, fraction) == BackoffMs(attempt))
    ensures RetryAfterOf(f).Some? ==>
              var floor := Min(RetryAfterOf(f).value, MAX_RETRY_AFTER_MS);
              floor <= DelayMs(attempt, f, fraction) <= Max(BackoffMs(attempt), floor)
  {
    FloorBounds(Jitter(BackoffMs(attempt), fraction), BackoffMs(attempt));
  }

  lemma FloorBounds(jittered: real, backoff: real)
    requires jittered <= backoff
    ensures forall floor :: floor <= Max(jittered, floor) <= Max(backoff, floor)
  {}

  // ---- What a poll and a run do ----------------------------------------------------------

  datatype PollResult = Got | Failed(failure: Failure)

  /** The outcome of one poll, the clock after it, the index of the next token request,
      and when each request of the poll was sent. */
  datatype Poll = Poll(result: PollResult, now: real, next: nat, sends: seq<real>)

  function PollFrom(w: World, deadline: real, now: real, k: nat, attempt: nat): (p: Poll)
    requires 1 <= attempt <= Attempts(w)
    ensures now <= p.now && k < p.next
    decreases Attempts(w) - attempt
  {
    var after := now + w.duration(k);
    match AttemptOf(w.answers(k))
    case Tokens => Poll(Got, after, k + 1, [now])
    case Decisive(f) => Poll(Failed(f), after, k + 1, [now])
    case Retryable(f) =>
      if attempt == Attempts(w) then Poll(Failed(f), after, k + 1, [now])
      else
        var wait := DelayMs(attempt, f, w.jitter(k)) / 1000.0;
        if wait >= deadline - after then Poll(Failed(f), after, k + 1, [now])
        else
          var rest := PollFrom(w, deadline, after + wait, k + 1, attempt + 1);
          rest.(sends := [now] + rest.sends)
  }

  /** A poll made at `now`: on a closed client it fails like a lost connection, and no request is sent. */
  function PollAt(w: World, deadline: real, now: real, k: nat): (p: Poll)
    ensures now <= p.now && k <= p.next
  {
    if w.open(now) then PollFrom(w, deadline, now, k, 1) else Poll(Failed(Network(None, false)), now, k, [])
  }

  /** One turn of the loop: the interval and floor it waited for, when it polled, the answer. */
  datatype Round = Round(interval: int, floor: NonNegReal, start: real, poll: Poll)

  datatype End = TokenSet | Raised(failure: Failure) | LocalExpiry

  datatype Run = Run(rounds: seq<Round>, end: End, now: real, next: nat)

  /** A slow_down raises the interval for good; nothing lowers it. */
  function NextInterval(interval: int, f: Failure): int {
    if PollStep(f) == SlowDown then interval + SLOW_DOWN_INCREMENT else interval
  }

  /** The floor a failure leaves for the next wait only. */
  function NextFloor(f: Failure): NonNegReal {
    if PollStep(f) != SlowDown && RetryAfterOf(f).Some? then RetryAfterOf(f).value / 1000.0 else 0.0
  }

  function WaitFor(interval: int, floor: real): real { Max(interval as real, floor) }

  function AwaitFrom(w: World, deadline: real, interval: int, floor: NonNegReal, now: real, k: nat): Run
    requires interval > 0
    decreases deadline - now
  {
    var wait := WaitFor(interval, floor);
    if now + wait >= deadline then Run([], LocalExpiry, now, k)
    else
      var poll := PollAt(w, deadline, now + wait, k);
      var round := Round(interval, floor, now + wait, poll);
      if poll.result.Got? then Run([round], TokenSet, poll.now, poll.next)
      else
        var f := poll.result.failure;
        if PollStep(f) == Terminal then Run([round], Raised(f), poll.now, poll.next)
        else
          var rest := AwaitFrom(w, deadline, NextInterval(interval, f), NextFloor(f), poll.now, poll.next);
          Run([round] + rest.rounds, rest.end, rest.now, rest.next)
  }

  function EffectiveInterval(initiated: int): int { if initiated > 0 then initiated else DEFAULT_INTERVAL }

  /** The run `ciba_await` makes for a request received at `receivedAt`, called at `now`. */
  function Await(w: World, receivedAt: real, expiresIn: int, interval: int, now: real, k: nat): Run {
    AwaitFrom(w, receivedAt + expiresIn as real, EffectiveInterval(interval), 0.0, now, k)
  }

  // ---- The loops ---------------------------------------------------------------------------

  /** The injected clock. */
  class Tick {
    var now: real

    constructor (start: real) ensures now == start { now := start; }

    method Sleep(seconds: real)
      requires 0.0 <= seconds
      modifies this
      ensures now == old(now) + seconds
    { now := now + seconds; }
  }

  /** The token endpoint: counts the requests sent and records when each one left. */
  class Wire {
    const world: World
    var next: nat
    var sends: seq<real>

    constructor (w: World) ensures world == w && next == 0 && sends == [] { world := w; next := 0; sends := []; }

    method Send(tick: Tick) returns (a: Answer, fraction: real)
      modifies this, tick
      ensures a == world.answers(old(next)) && fraction == world.jitter(old(next))
      ensures next == old(next) + 1 && sends == old(sends) + [old(tick.now)]
      ensures tick.now == old(tick.now) + world.duration(old(next))
    {
      sends := sends + [tick.now];
      a, fraction := world.answers(next), world.jitter(next);
      tick.now := tick.now + world.duration(next);
      next := next + 1;
    }
  }

  /** A poll interrupted after `sent`, with `rest` still to happen. */
  ghost predicate PollResumes(whole: Poll, all: seq<real>, rest: Poll, sent: seq<real>) {
    rest.result == whole.result && rest.now == whole.now && rest.next == whole.next && sent + rest.sends == all
  }

  /** A poll that is over, having sent `sent`. */
  ghost predicate PollOver(whole: Poll, all: seq<real>, result: PollResult, now: real, next: nat, sent: seq<real>) {
    result == whole.result && now == whole.now && next == whole.next && sent == all
  }

  /** One attempt, for a caller that knows only the answer. */
  lemma OneAttempt(w: World, deadline: real, now: real, k: nat, attempt: nat, sent: seq<real>, whole: Poll,
      all: seq<real>)
    requires 1 <= attempt <= Attempts(w) && PollResumes(whole, all, PollFrom(w, deadline, now, k, attempt), sent)
    ensures var after := now + w.duration(k);
            match AttemptOf(w.answers(k))
            case Tokens => PollOver(whole, all, Got, after, k + 1, sent + [now])
            case Decisive(f) => PollOver(whole, all, Failed(f), after, k + 1, sent + [now])
            case Retryable(f) =>
              if attempt == Attempts(w) || DelayMs(attempt, f, w.jitter(k)) / 1000.0 >= deadline - after
              then PollOver(whole, all, Failed(f), after, k + 1, sent + [now])
              else
                var wait := DelayMs(attempt, f, w.jitter(k)) / 1000.0;
                PollResumes(whole, all, PollFrom(w, deadline, after + wait, k + 1, attempt + 1), sent + [now])
  {
    var after := now + w.duration(k);
    var poll := PollFrom(w, deadline, now, k, attempt);
    if poll.next > k + 1 {
      var wait := DelayMs(attempt, AttemptOf(w.answers(k)).failure, w.jitter(k)) / 1000.0;
      var rest := PollFrom(w, deadline, after + wait, k + 1, attempt + 1);
      assert sent + ([now] + rest.sends) == sent + [now] + rest.sends;
    }
  }

  /** `_ciba_poll`: the check that the client is open, and the retry loop around its attempts. */
  method CibaPoll(wire: Wire, tick: Tick, deadline: real) returns (result: PollResult)
    modifies wire, tick
    ensures var p := PollAt(wire.world, deadline, old(tick.now), old(wire.next));
            result == p.result && tick.now == p.now && wire.next == p.next &&
            wire.sends == old(wire.sends) + p.sends
  {
    if !wire.world.open(tick.now) { return Failed(Network(None, false)); }
    ghost var w := wire.world;
    ghost var whole := PollFrom(w, deadline, tick.now, wire.next, 1);
    ghost var all := wire.sends + whole.sends;
    var attempt := 1;
    while true
      invariant 1 <= attempt <= Attempts(w) && w == wire.world
      invariant PollResumes(whole, all, PollFrom(w, deadline, tick.now, wire.next, attempt), wire.sends)
      decreases Attempts(w) - attempt
    {
      OneAttempt(w, deadline, tick.now, wire.next, attempt, wire.sends, whole, all);
      var answer, fraction := wire.Send(tick);
      match AttemptOf(answer)
      case Tokens => return Got;
      case Decisive(f) => return Failed(f);
      case Retryable(f) =>
        if attempt == Attempts(wire.world) { return Failed(f); }
        var wait := DelayMs(attempt, f, fraction);
        if wait / 1000.0 >= deadline - tick.now { return Failed(f); }
        tick.Sleep(wait / 1000.0);
        attempt := attempt + 1;
    }
  }

  /** When every request of a run was sent, in order. */
  ghost function Sends(rounds: seq<Round>): seq<real> {
    if rounds == [] then [] else rounds[0].poll.sends + Sends(rounds[1..])
  }

  /** A run interrupted after `sent`, with `rest` still to happen. */
  ghost predicate Resumes(whole: Run, all: seq<real>, rest: Run, sent: seq<real>) {
    rest.end == whole.end && rest.now == whole.now && rest.next == whole.next && sent + Sends(rest.rounds) == all
  }

  /** A run that is over, having sent `sent`. */
  ghost predicate RunOver(whole: Run, all: seq<real>, end: End, now: real, next: nat, sent: seq<real>) {
    end == whole.end && now == whole.now && next == whole.next && sent == all
  }

  /** What one poll, started by a turn that waited, leaves of the run; `rest` is what follows if it goes on. */
  ghost predicate TurnLeaves(whole: Run, all: seq<real>, poll: Poll, rest: Run, sent: seq<real>) {
    match poll.result
    case Got => RunOver(whole, all, TokenSet, poll.now, poll.next, sent)
    case Failed(f) =>
      if PollStep(f) == Terminal then RunOver(whole, all, Raised(f), poll.now, poll.next, sent)
      else Resumes(whole, all, rest, sent)
  }

  lemma LastRoundOver(whole: Run, all: seq<real>, run: Run, round: Round, sent: seq<real>)
    requires Resumes(whole, all, run, sent) && run.rounds == [round]
    ensures RunOver(whole, all, run.end, run.now, run.next, sent + round.poll.sends)
  {
    assert Sends([round]) == round.poll.sends + Sends([]);
  }

  lemma RoundsResume(whole: Run, all: seq<real>, run: Run, round: Round, rest: Run, sent: seq<real>)
    requires Resumes(whole, all, run, sent) && run == Run([round] + rest.rounds, rest.end, rest.now, rest.next)
    ensures Resumes(whole, all, rest, sent + round.poll.sends)
  {
    assert run.rounds[1..] == rest.rounds;
  }

  /** One turn of the loop, for a caller that knows only the poll's outcome. */
  lemma OneTurn(w: World, deadline: real, interval: int, floor: NonNegReal, now: real, k: nat, run: Run,
                sent: seq<real>, whole: Run, all: seq<real>) returns (poll: Poll, rest: Run)
    requires interval > 0 && run == AwaitFrom(w, deadline, interval, floor, now, k)
    requires Resumes(whole, all, run, sent) && now + WaitFor(interval, floor) < deadline
    ensures poll == PollAt(w, deadline, now + WaitFor(interval, floor), k)
    ensures TurnLeaves(whole, all, poll, rest, sent + poll.sends)
    ensures poll.result.Failed? && PollStep(poll.result.failure) != Terminal ==>
              var f := poll.result.failure;
              rest == AwaitFrom(w, deadline, NextInterval(interval, f), NextFloor(f), poll.now, poll.next)
  {
    poll := PollAt(w, deadline, now + WaitFor(interval, floor), k);
    var round := Round(interval, floor, now + WaitFor(interval, floor), poll);
    rest := run;
    if poll.result.Got? || PollStep(poll.result.failure) == Terminal {
      LastRoundOver(whole, all, run, round, sent);
    } else {
      var f := poll.result.failure;
      rest := AwaitFrom(w, deadline, NextInterval(interval, f), NextFloor(f), poll.now, poll.next);
      RoundsResume(whole, all, run, round, rest, sent);
    }
  }

  /** What the loop does with a failed poll: raise it, or wait again, longer or with a floor. */
  method Classify(f: Failure, interval: int) returns (decided: bool, nextInterval: int, nextFloor: NonNegReal)
    ensures decided <==> PollStep(f) == Terminal
    ensures !decided ==> nextInterval == NextInterval(interval, f) && nextFloor == NextFloor(f)
  {
    decided, nextInterval, nextFloor := false, interval, 0.0;
    var step := PollStep(f);
    if step == SlowDown {
      nextInterval := interval + SLOW_DOWN_INCREMENT;
    } else if step == Terminal {
      decided := true;
    } else if RetryAfterOf(f).Some? {
      nextFloor := RetryAfterOf(f).value / 1000.0;
    }
  }

  /** One turn of the loop: expire, or wait and poll. */
  method AwaitTurn(
      wire: Wire, tick: Tick, deadline: real, interval: int, floor: NonNegReal,
      ghost run: Run, ghost whole: Run, ghost all: seq<real>)
      returns (end: Option<End>, nextInterval: int, nextFloor: NonNegReal, ghost rest: Run)
    requires interval > 0 && run == AwaitFrom(wire.world, deadline, interval, floor, tick.now, wire.next)
    requires Resumes(whole, all, run, wire.sends)
    modifies wire, tick
    ensures end.Some? ==> RunOver(whole, all, end.value, tick.now, wire.next, wire.sends)
    ensures end.None? ==>
              nextInterval > 0 && old(tick.now) < deadline && old(tick.now) + 1.0 <= tick.now &&
              rest == AwaitFrom(wire.world, deadline, nextInterval, nextFloor, tick.now, wire.next) &&
              Resumes(whole, all, rest, wire.sends)
  {
    var wait := WaitFor(interval, floor);
    nextInterval, nextFloor, rest := interval, 0.0, run;
    if tick.now + wait >= deadline { return Some(LocalExpiry), interval, 0.0, run; }
    ghost var poll;
    poll, rest := OneTurn(wire.world, deadline, interval, floor, tick.now, wire.next, run, wire.sends, whole, all);
    tick.Sleep(wait);
    var result := CibaPoll(wire, tick, deadline);
    if result.Got? { return Some(TokenSet), interval, 0.0, rest; }
    var decided;
    decided, nextInterval, nextFloor := Classify(result.failure, interval);
    end := if decided then Some(Raised(result.failure)) else None;
  }

  method CibaAwait(wire: Wire, tick: Tick, receivedAt: real, expiresIn: int, initiatedInterval: int)
      returns (end: End)
    modifies wire, tick
    ensures var run := Await(wire.world, receivedAt, expiresIn, initiatedInterval, old(tick.now), old(wire.next));
            RunOver(run, old(wire.sends) + Sends(run.rounds), end, tick.now, wire.next, wire.sends)
  {
    var deadline := receivedAt + expiresIn as real;
    var interval := if initiatedInterval > 0 then initiatedInterval else DEFAULT_INTERVAL;
    var floor: NonNegReal := 0.0;
    ghost var whole := Await(wire.world, receivedAt, expiresIn, initiatedInterval, tick.now, wire.next);
    ghost var all, rest := wire.sends + Sends(whole.rounds), whole;
    while true
      invariant interval > 0
      invariant rest == AwaitFrom(wire.world, deadline, interval, floor, tick.now, wire.next)
      invariant Resumes(whole, all, rest, wire.sends)
      decreases deadline - tick.now
    {
      var over;
      over, interval, floor, rest := AwaitTurn(wire, tick, deadline, interval, floor, rest, whole, all);
      if over.Some? { return over.value; }
    }
  }
}
