/** Sign-in on top of the lockout: what sequences of logins, and of overlapping calls, can reach. */
module LoginLockout {
  import opened Basics
  import opened Lockout

  /** What the account lookup and the password check say about one attempt. */
  datatype Verdict = NoAccount | WrongPassword | Inactive | Good

  datatype Outcome = LOCKED_OUT | WRONG_CREDENTIALS | ACCOUNT_INACTIVE | SUCCESS

  /** One login: the clock at the lockout check, the clock at the decision, and the verdict. */
  datatype Attempt = Attempt(checkedAt: int, decidedAt: int, nonce: string, verdict: Verdict)

  function LoginOutcome(history: seq<Failure>, a: Attempt): Outcome {
    if Locked(history, a.checkedAt) then LOCKED_OUT
    else match a.verdict
      case NoAccount => WRONG_CREDENTIALS
      case WrongPassword => WRONG_CREDENTIALS
      case Inactive => ACCOUNT_INACTIVE
      case Good => SUCCESS
  }

  function LoginHistory(history: seq<Failure>, a: Attempt): seq<Failure> {
    match LoginOutcome(history, a)
    case LOCKED_OUT => history
    case SUCCESS => []
    case _ => Recorded(history, a.nonce, a.decidedAt)
  }

  /** What a login answers and leaves, told from its verdict and the recorded failures: only a right password on an
      active, unlocked account gets in, and every other verdict on an unlocked account is recorded. */
  lemma VerdictDecides(history: seq<Failure>, a: Attempt)
    requires Ordered(history) && a.checkedAt <= a.decidedAt
    ensures LoginOutcome(history, a) == LOCKED_OUT <==> FiveRecent(history, a.checkedAt)
    ensures LoginOutcome(history, a) == WRONG_CREDENTIALS
       <==> !FiveRecent(history, a.checkedAt) && (a.verdict.NoAccount? || a.verdict.WrongPassword?)
    ensures LoginOutcome(history, a) == ACCOUNT_INACTIVE <==> !FiveRecent(history, a.checkedAt) && a.verdict.Inactive?
    ensures LoginOutcome(history, a) == SUCCESS <==> !FiveRecent(history, a.checkedAt) && a.verdict.Good?
    ensures !FiveRecent(history, a.checkedAt) ==> !FiveRecent(history, a.decidedAt)
    ensures LoginHistory(history, a) ==
      if FiveRecent(history, a.checkedAt) then history
      else if a.verdict.Good? then []
      else history + [Failure(a.nonce, a.decidedAt)]
  {
    LockedExactly(history, a.checkedAt);
    LockedExactly(history, a.decidedAt);
    if !Locked(history, a.checkedAt) { UnlockedStaysUnlocked(history, a.checkedAt, a.decidedAt); }
    hide Locked, FiveRecent;
  }

  class AuthService {
    const lockout: LockoutService
    var attempts: seq<Outcome>

    constructor (lockout: LockoutService)
      ensures this.lockout == lockout && attempts == []
    {
      this.lockout := lockout;
      attempts := [];
    }

    method Login(a: Attempt) returns (r: Outcome)
      requires lockout.Valid() && lockout.clock <= a.checkedAt <= a.decidedAt
      requires forall i :: 0 <= i < |lockout.history| ==> lockout.history[i].nonce != a.nonce
      modifies this, lockout, lockout.redis
      ensures lockout.Valid()
      ensures r == LOCKED_OUT <==> FiveRecent(old(lockout.history), a.checkedAt)
      ensures r == WRONG_CREDENTIALS <==> !FiveRecent(old(lockout.history), a.checkedAt) && (a.verdict.NoAccount? || a.verdict.WrongPassword?)
      ensures r == ACCOUNT_INACTIVE <==> !FiveRecent(old(lockout.history), a.checkedAt) && a.verdict.Inactive?
      ensures r == SUCCESS <==> !FiveRecent(old(lockout.history), a.checkedAt) && a.verdict.Good?
      ensures lockout.history ==
        if FiveRecent(old(lockout.history), a.checkedAt) then old(lockout.history)
        else if a.verdict.Good? then []
        else old(lockout.history) + [Failure(a.nonce, a.decidedAt)]
      ensures r == LoginOutcome(old(lockout.history), a) && lockout.history == LoginHistory(old(lockout.history), a)
      ensures attempts == old(attempts) + [r]
    {
      VerdictDecides(lockout.history, a);
      hide Represents, Locked, Recorded, LoginOutcome, LoginHistory, FiveRecent;
      var locked := lockout.IsLockedOut(a.checkedAt);
      if locked {
        r := LOCKED_OUT;
      } else if a.verdict.NoAccount? {
        lockout.RecordFailure(a.nonce, a.decidedAt);
        r := WRONG_CREDENTIALS;
      } else if a.verdict.WrongPassword? {
        lockout.RecordFailure(a.nonce, a.decidedAt);
        r := WRONG_CREDENTIALS;
      } else if a.verdict.Inactive? {
        lockout.RecordFailure(a.nonce, a.decidedAt);
        r := ACCOUNT_INACTIVE;
      } else {
        lockout.ClearOnSuccess(a.decidedAt);
        r := SUCCESS;
      }
      attempts := attempts + [r];
    }
  }

  // ---- Sequential logins ------------------------------------------------------------------------------

  /** One login after the other, the clock never going back, every attempt with a nonce of its own. */
  predicate Sequential(run: seq<Attempt>) {
    && (forall i :: 0 <= i < |run| ==> run[i].checkedAt <= run[i].decidedAt)
    && (forall i, j :: 0 <= i < j < |run| ==> run[i].decidedAt <= run[j].checkedAt && run[i].nonce != run[j].nonce)
  }

  function HistoryAfter(run: seq<Attempt>): seq<Failure> {
    if run == [] then [] else LoginHistory(HistoryAfter(run[..|run| - 1]), run[|run| - 1])
  }

  function OutcomeOf(run: seq<Attempt>, i: nat): Outcome
    requires i < |run|
  {
    LoginOutcome(HistoryAfter(run[..i]), run[i])
  }

  /** The failed password checks since the last right one, read off the verdicts alone: an attempt with five such
      failures in the fifteen minutes before it is not checked. */
  ghost function FailedChecks(run: seq<Attempt>): seq<Failure> {
    if run == [] then [] else OneCheckMore(FailedChecks(run[..|run| - 1]), run[|run| - 1])
  }

  ghost function OneCheckMore(failed: seq<Failure>, a: Attempt): seq<Failure> {
    if FiveRecent(failed, a.checkedAt) then failed
    else if a.verdict.Good? then []
    else failed + [Failure(a.nonce, a.decidedAt)]
  }

  /** Any six consecutive failures span more than one window. */
  predicate Spread(history: seq<Failure>) {
    forall i :: 0 <= i < |history| - FAILS_THRESHOLD ==> history[i + FAILS_THRESHOLD].time - history[i].time > WINDOW_MS
  }

  predicate NoLaterThan(history: seq<Failure>, t: int) {
    forall i :: 0 <= i < |history| ==> history[i].time <= t
  }

  /** Every recorded nonce belongs to one of the first n attempts. */
  predicate NoncesFrom(history: seq<Failure>, run: seq<Attempt>, n: nat)
    requires n <= |run|
  {
    forall i :: 0 <= i < |history| ==> exists j :: 0 <= j < n && history[i].nonce == run[j].nonce
  }

  lemma UnlockedStaysUnlocked(history: seq<Failure>, t: int, u: int)
    requires Ordered(history) && t <= u && !Locked(history, t)
    ensures !Locked(history, u)
  {
    var later := FirstSince(history, u - WINDOW_MS);
    if later < FirstSince(history, t - WINDOW_MS) { SinceIsSuffix(history, u - WINDOW_MS, later); }
  }

  /** A login that passed the lockout check and then failed is always recorded: the second check inside
      `recordFailure` cannot turn it away. */
  lemma PassedFailureIsRecorded(history: seq<Failure>, a: Attempt)
    requires Ordered(history) && a.checkedAt <= a.decidedAt
    requires !FiveRecent(history, a.checkedAt) && !a.verdict.Good?
    ensures !FiveRecent(history, a.decidedAt)
    ensures LoginHistory(history, a) == history + [Failure(a.nonce, a.decidedAt)]
  {
    VerdictDecides(history, a);
    hide FiveRecent, LoginHistory, LoginOutcome;
  }

  lemma RecordedKeepsSpread(history: seq<Failure>, nonce: string, now: int)
    requires Ordered(history) && Spread(history) && !Locked(history, now)
    ensures Spread(history + [Failure(nonce, now)])
  {
    var longer := history + [Failure(nonce, now)];
    var i := |history| - FAILS_THRESHOLD;
    if 0 <= i {
      SinceIsSuffix(history, now - WINDOW_MS, i);
    }
  }

  lemma LoginKeepsHistory(history: seq<Failure>, a: Attempt)
    requires Ordered(history) && Spread(history) && NoLaterThan(history, a.checkedAt) && a.checkedAt <= a.decidedAt
    requires forall i :: 0 <= i < |history| ==> history[i].nonce != a.nonce
    ensures Ordered(LoginHistory(history, a)) && Spread(LoginHistory(history, a)) && NoLaterThan(LoginHistory(history, a), a.decidedAt)
    ensures LoginHistory(history, a) == OneCheckMore(history, a)
  {
    VerdictDecides(history, a);
    LockedExactly(history, a.decidedAt);
    if !FiveRecent(history, a.checkedAt) && !a.verdict.Good? {
      RecordedKeepsSpread(history, a.nonce, a.decidedAt);
      OrderedAppend(history, Failure(a.nonce, a.decidedAt));
    }
    hide LoginOutcome, LoginHistory, FiveRecent, Locked;
  }

  lemma RunNext(run: seq<Attempt>, n: nat)
    requires 0 < n <= |run|
    ensures HistoryAfter(run[..n]) == LoginHistory(HistoryAfter(run[..n - 1]), run[n - 1])
    ensures FailedChecks(run[..n]) == OneCheckMore(FailedChecks(run[..n - 1]), run[n - 1])
  {
    assert run[..n][..n - 1] == run[..n - 1];
    hide LoginOutcome, LoginHistory, Locked, OneCheckMore;
  }

  lemma NoncesNext(history: seq<Failure>, run: seq<Attempt>, n: nat)
    requires 0 < n <= |run| && NoncesFrom(history, run, n - 1)
    ensures NoncesFrom(OneCheckMore(history, run[n - 1]), run, n)
  {
  }

  lemma NonceIsNew(history: seq<Failure>, run: seq<Attempt>, n: nat)
    requires 0 < n <= |run| && Sequential(run) && NoncesFrom(history, run, n - 1)
    ensures forall i :: 0 <= i < |history| ==> history[i].nonce != run[n - 1].nonce
  {
  }

  lemma RunStart(run: seq<Attempt>)
    ensures HistoryAfter(run[..0]) == [] && FailedChecks(run[..0]) == []
  {
  }

  /** What holds of the history after the first `n` attempts. */
  ghost predicate Sound(history: seq<Failure>, run: seq<Attempt>, n: nat)
    requires n <= |run|
  {
    && Ordered(history) && Spread(history) && NoncesFrom(history, run, n)
    && (n > 0 ==> NoLaterThan(history, run[n - 1].decidedAt))
  }

  lemma LoginKeepsSound(history: seq<Failure>, run: seq<Attempt>, n: nat)
    requires Sequential(run) && 0 < n <= |run| && Sound(history, run, n - 1)
    ensures Sound(LoginHistory(history, run[n - 1]), run, n)
    ensures LoginHistory(history, run[n - 1]) == OneCheckMore(history, run[n - 1])
  {
    var last := run[n - 1];
    NonceIsNew(history, run, n);
    NoncesNext(history, run, n);
    assert NoLaterThan(history, last.checkedAt) && last.checkedAt <= last.decidedAt;
    hide LoginOutcome, LoginHistory, Ordered, Spread, NoncesFrom, NoLaterThan, Sequential, OneCheckMore;
    LoginKeepsHistory(history, last);
  }

  lemma {:induction false} SequentialHistory(run: seq<Attempt>, n: nat)
    requires Sequential(run) && n <= |run|
    ensures Sound(HistoryAfter(run[..n]), run, n)
    ensures HistoryAfter(run[..n]) == FailedChecks(run[..n])
  {
    RunStart(run);
    assert Sound([], run, 0);
    hide HistoryAfter, FailedChecks, Sound, LoginOutcome, LoginHistory, OneCheckMore, Sequential;
    if n > 0 {
      SequentialHistory(run, n - 1);
      RunNext(run, n);
      LoginKeepsSound(HistoryAfter(run[..n - 1]), run, n);
    }
  }

  /** The answer to each attempt of a run, from its own verdict and the failed checks before it. */
  lemma OutcomesByVerdict(run: seq<Attempt>, i: nat)
    requires Sequential(run) && i < |run|
    ensures OutcomeOf(run, i) == LOCKED_OUT <==> FiveRecent(FailedChecks(run[..i]), run[i].checkedAt)
    ensures OutcomeOf(run, i) == WRONG_CREDENTIALS
       <==> !FiveRecent(FailedChecks(run[..i]), run[i].checkedAt) && (run[i].verdict.NoAccount? || run[i].verdict.WrongPassword?)
    ensures OutcomeOf(run, i) == ACCOUNT_INACTIVE <==> !FiveRecent(FailedChecks(run[..i]), run[i].checkedAt) && run[i].verdict.Inactive?
    ensures OutcomeOf(run, i) == SUCCESS <==> !FiveRecent(FailedChecks(run[..i]), run[i].checkedAt) && run[i].verdict.Good?
  {
    SequentialHistory(run, i);
    VerdictDecides(HistoryAfter(run[..i]), run[i]);
    hide FiveRecent, FailedChecks, HistoryAfter, LoginOutcome, LoginHistory, Spread;
  }

  /** Between two successes no fifteen minutes, both ends included, hold more than five failed password checks. */
  lemma AtMostFivePerWindow(run: seq<Attempt>, from: int)
    requires Sequential(run)
    ensures var failed := FailedChecks(run);
            |set i | 0 <= i < |failed| && from <= failed[i].time <= from + 15 * 60 * 1000| <= 5
  {
    SequentialHistory(run, |run|);
    assert run[..|run|] == run;
    var failed := FailedChecks(run);
    var inside := set i | 0 <= i < |failed| && from <= failed[i].time <= from + WINDOW_MS;
    var first := FirstSince(failed, from);
    assert first + FAILS_THRESHOLD < |failed| ==> failed[first + FAILS_THRESHOLD].time - failed[first].time > WINDOW_MS;
    forall i | i in inside ensures i in Range(first, FAILS_THRESHOLD) {
      SinceIsSuffix(failed, from, i);
    }
    SubsetCount(inside, Range(first, FAILS_THRESHOLD));
  }

  // ---- The end of a lockout ------------------------------------------------------------------------------

  function LoginsFrom(history: seq<Failure>, run: seq<Attempt>): seq<Failure>
    decreases |run|
  {
    if run == [] then history else LoginsFrom(LoginHistory(history, run[0]), run[1..])
  }

  lemma SpreadAt(history: seq<Failure>, i: nat)
    requires Spread(history) && i + FAILS_THRESHOLD < |history|
    ensures history[i + FAILS_THRESHOLD].time - history[i].time > WINDOW_MS
  {}

  lemma LockedUntil(history: seq<Failure>, t: int, u: int)
    requires Ordered(history) && Spread(history) && Locked(history, t) && NoLaterThan(history, t) && t <= u
    ensures Recent(history, t) == FAILS_THRESHOLD
    ensures Locked(history, u) <==> u <= history[FirstSince(history, t - WINDOW_MS)].time + WINDOW_MS
  {
    var first := FirstSince(history, t - WINDOW_MS);
    if first + FAILS_THRESHOLD < |history| { SpreadAt(history, first); }
    SinceIsSuffix(history, u - WINDOW_MS, first);
  }

  /** Attempts made during a lockout, whatever their password, never move its end: with the oldest
      failure in the window at m, the account stays locked through m + W and is open right after. */
  lemma {:induction false} LockoutEndIsFixed(history: seq<Failure>, t: int, run: seq<Attempt>, u: int)
    requires Ordered(history) && Spread(history) && Locked(history, t) && NoLaterThan(history, t)
    requires var end := history[FirstSince(history, t - WINDOW_MS)].time + WINDOW_MS;
             forall i :: 0 <= i < |run| ==> t <= run[i].checkedAt <= end
    requires t <= u
    ensures LoginsFrom(history, run) == history
    ensures Locked(LoginsFrom(history, run), u) <==> u <= history[FirstSince(history, t - WINDOW_MS)].time + WINDOW_MS
    decreases |run|
  {
    LockedUntil(history, t, u);
    if run != [] {
      LockedUntil(history, t, run[0].checkedAt);
      LockoutEndIsFixed(history, t, run[1..], u);
    }
  }
}

/** `recordFailure` calls that overlap: each is its own sequence of Redis commands. */
module LockoutOverlap {
  import opened Basics
  import opened Lockout

  /** Members now in the set, calls begun, and those of them that have counted and will add. */
  datatype State = State(members: set<string>, begun: set<nat>, adding: set<nat>)

  datatype Event =
    | Begin(call: nat)
    | Trim(kept: set<string>)
    | Count(call: nat)
    | Add(call: nat, nonce: string)
    | Vanish

  /** `Trim` keeps whatever the clock leaves; `Vanish` is a success clearing the key, or its expiry. */
  function Step(s: State, e: Event): State {
    match e
    case Begin(call) => s.(begun := s.begun + {call})
    case Trim(kept) => s.(members := s.members * kept)
    case Count(call) =>
      if call !in s.begun || call in s.adding then s
      else if |s.members| >= FAILS_THRESHOLD then s.(begun := s.begun - {call})
      else s.(adding := s.adding + {call})
    case Add(call, nonce) =>
      if call in s.adding then State(s.members + {nonce}, s.begun - {call}, s.adding - {call}) else s
    case Vanish => s.(members := {})
  }

  function Run(s: State, events: seq<Event>): State
    decreases |events|
  {
    if events == [] then s else Run(Step(s, events[0]), events[1..])
  }

  /** Never more than k calls in progress at once. */
  predicate AtMost(k: nat, s: State, events: seq<Event>)
    decreases |events|
  {
    |s.begun| <= k && (events != [] ==> AtMost(k, Step(s, events[0]), events[1..]))
  }

  predicate Bounded(k: nat, s: State) {
    s.adding <= s.begun && |s.members| + |s.adding| <= 4 + k
  }

  lemma StepKeepsBound(k: nat, s: State, e: Event)
    requires Bounded(k, s) && |Step(s, e).begun| <= k
    ensures Bounded(k, Step(s, e))
  {
    var next := Step(s, e);
    SubsetCount(next.adding, next.begun);
    match e
    case Trim(kept) => SubsetCount(s.members * kept, s.members);
    case _ =>
  }

  /** With at most k overlapping calls the set never grows past 4 + k. */
  lemma {:induction false} OverlapBound(k: nat, s: State, events: seq<Event>)
    requires Bounded(k, s) && AtMost(k, s, events)
    ensures |Run(s, events).members| <= 4 + k
    decreases |events|
  {
    if events != [] {
      assert AtMost(k, Step(s, events[0]), events[1..]);
      StepKeepsBound(k, s, events[0]);
      OverlapBound(k, Step(s, events[0]), events[1..]);
    }
  }

  // ---- The bound is reached ------------------------------------------------------------------------------

  function Begins(k: nat): seq<Event> { seq(k, i requires 0 <= i < k => Begin(i)) }

  function Counts(k: nat): seq<Event> { seq(k, i requires 0 <= i < k => Count(i)) }

  function Adds(nonces: seq<string>): seq<Event> { seq(|nonces|, i requires 0 <= i < |nonces| => Add(i, nonces[i])) }

  lemma BeginsNext(k: nat)
    ensures Begins(0) == [] && Begins(k + 1) == Begins(k) + [Begin(k)]
  {
  }

  lemma CountsNext(k: nat)
    ensures Counts(0) == [] && Counts(k + 1) == Counts(k) + [Count(k)]
  {
  }

  lemma AddsNext(front: seq<string>, last: string)
    ensures Adds([]) == [] && Adds(front + [last]) == Adds(front) + [Add(|front|, last)]
  {
  }

  lemma {:induction false} RunConcat(s: State, a: seq<Event>, b: seq<Event>)
    ensures Run(s, a + b) == Run(Run(s, a), b)
    decreases |a|
  {
    if a == [] {
      assert a + b == b;
    } else {
      assert (a + b)[1..] == a[1..] + b;
      RunConcat(Step(s, a[0]), a[1..], b);
    }
  }

  lemma RunNext(s: State, events: seq<Event>, e: Event)
    ensures Run(s, events + [e]) == Step(Run(s, events), e)
  {
    RunConcat(s, events, [e]);
    assert [e][1..] == [];
    hide Step;
    assert Run(Run(s, events), [e]) == Run(Step(Run(s, events), e), []);
  }

  lemma {:induction false} AtMostConcat(k: nat, s: State, a: seq<Event>, b: seq<Event>)
    requires AtMost(k, s, a) && AtMost(k, Run(s, a), b)
    ensures AtMost(k, s, a + b)
    decreases |a|
  {
    hide Step;
    if a == [] {
      assert a + b == b;
    } else {
      assert (a + b)[0] == a[0] && (a + b)[1..] == a[1..] + b;
      AtMostConcat(k, Step(s, a[0]), a[1..], b);
    }
  }

  lemma AtMostNext(k: nat, s: State, events: seq<Event>, e: Event)
    requires AtMost(k, s, events) && |Run(s, events).begun| <= k && |Run(s, events + [e]).begun| <= k
    ensures AtMost(k, s, events + [e])
  {
    RunNext(s, events, e);
    hide Step;
    assert AtMost(k, Step(Run(s, events), e), []);
    assert [e][1..] == [];
    AtMostConcat(k, s, events, [e]);
  }

  lemma NothingToDo(k: nat, s: State)
    requires |s.begun| <= k
    ensures Run(s, []) == s && AtMost(k, s, [])
  {
  }

  ghost function UpTo(k: nat): (r: set<nat>)
    ensures |r| == k && forall i :: i in r <==> 0 <= i < k
  {
    if k == 0 then {} else UpTo(k - 1) + {k - 1}
  }

  lemma BeginStep(members: set<string>, n: nat)
    ensures Step(State(members, UpTo(n), {}), Begin(n)) == State(members, UpTo(n + 1), {})
  {
  }

  lemma {:induction false} AllBegin(members: set<string>, k: nat, bound: nat)
    requires k <= bound
    ensures AtMost(bound, State(members, {}, {}), Begins(k))
    ensures Run(State(members, {}, {}), Begins(k)) == State(members, UpTo(k), {})
  {
    hide Begins, Step, Run, AtMost;
    var s := State(members, {}, {});
    if k == 0 {
      BeginsNext(0);
      NothingToDo(bound, s);
      assert UpTo(0) == {};
    } else {
      hide UpTo;
      AllBegin(members, k - 1, bound);
      BeginsNext(k - 1);
      RunNext(s, Begins(k - 1), Begin(k - 1));
      BeginStep(members, k - 1);
      AtMostNext(bound, s, Begins(k - 1), Begin(k - 1));
    }
  }

  lemma CountStep(members: set<string>, k: nat, n: nat)
    requires |members| == 4 && n < k
    ensures Step(Counted(members, k, n), Count(n)) == Counted(members, k, n + 1)
  {
    assert UpTo(n + 1) == UpTo(n) + {n};
    hide UpTo;
  }

  /** After the first `n` of `k` calls have counted. */
  ghost function Counted(members: set<string>, k: nat, n: nat): State { State(members, UpTo(k), UpTo(n)) }

  lemma {:induction false} AllCount(members: set<string>, k: nat, n: nat)
    requires |members| == 4 && n <= k
    ensures AtMost(k, Counted(members, k, 0), Counts(n))
    ensures Run(Counted(members, k, 0), Counts(n)) == Counted(members, k, n)
  {
    var s := Counted(members, k, 0);
    if n == 0 {
      CountsNext(0);
      NothingToDo(k, s);
    } else {
      AllCount(members, k, n - 1);
      CountsNext(n - 1);
      RunNext(s, Counts(n - 1), Count(n - 1));
      CountStep(members, k, n - 1);
      AtMostNext(k, s, Counts(n - 1), Count(n - 1));
    }
    hide Counts, Step, Run, AtMost, UpTo;
  }

  /** After the first calls have added their nonces. */
  ghost function Added(members: set<string>, k: nat, nonces: seq<string>): State {
    State(members + Elements(nonces), UpTo(k) - UpTo(|nonces|), UpTo(k) - UpTo(|nonces|))
  }

  lemma AddStep(members: set<string>, k: nat, front: seq<string>, last: string)
    requires |front| < k
    ensures Step(Added(members, k, front), Add(|front|, last)) == Added(members, k, front + [last])
  {
    var n := |front|;
    LastElement(front + [last]);
    assert (front + [last])[..n] == front;
    assert members + Elements(front + [last]) == members + Elements(front) + {last};
    assert UpTo(k) - UpTo(n + 1) == UpTo(k) - UpTo(n) - {n};
    hide UpTo, Elements;
  }

  lemma {:induction false} AllAdd(members: set<string>, k: nat, nonces: seq<string>)
    requires |nonces| <= k
    ensures AtMost(k, Added(members, k, []), Adds(nonces))
    ensures Run(Added(members, k, []), Adds(nonces)) == Added(members, k, nonces)
  {
    hide Adds, Step, Added, Run, AtMost;
    if nonces == [] {
      AddsNext([], "");
      FewerBegun(members, k, []);
      NothingToDo(k, Added(members, k, []));
    } else {
      var n := |nonces| - 1;
      AllAdd(members, k, nonces[..n]);
      assert nonces == nonces[..n] + [nonces[n]];
      AddsNext(nonces[..n], nonces[n]);
      RunNext(Added(members, k, []), Adds(nonces[..n]), Add(n, nonces[n]));
      AddStep(members, k, nonces[..n], nonces[n]);
      FewerBegun(members, k, nonces[..n]);
      FewerBegun(members, k, nonces);
      AtMostNext(k, Added(members, k, []), Adds(nonces[..n]), Add(n, nonces[n]));
    }
  }

  lemma FewerBegun(members: set<string>, k: nat, nonces: seq<string>)
    requires |nonces| <= k
    ensures |Added(members, k, nonces).begun| <= k
  {
    SubsetCount(UpTo(k) - UpTo(|nonces|), UpTo(k));
  }

  lemma LastElement(s: seq<string>)
    requires s != []
    ensures Elements(s) == Elements(s[..|s| - 1]) + {s[|s| - 1]}
  {
    assert s == s[..|s| - 1] + [s[|s| - 1]];
  }

  lemma {:induction false} ElementCount(s: seq<string>)
    requires Distinct(s)
    ensures |Elements(s)| == |s|
  {
    if s == [] {
      assert Elements(s) == {};
    } else {
      ElementCount(s[..|s| - 1]);
      LastElement(s);
      assert s[|s| - 1] !in Elements(s[..|s| - 1]);
    }
  }

  /** The bound is the best there is: k calls that all begin, then all count, then all add, never more than k at once,
      take four members to 4 + k. */
  lemma OverlapBoundIsReached(members: set<string>, nonces: seq<string>)
    requires |members| == 4 && Distinct(nonces) && forall x | x in nonces :: x !in members
    ensures var k := |nonces|;
      && Bounded(k, State(members, {}, {})) && AtMost(k, State(members, {}, {}), Begins(k) + Counts(k) + Adds(nonces))
      && |Run(State(members, {}, {}), Begins(k) + Counts(k) + Adds(nonces)).members| == 4 + k
  {
    var k := |nonces|;
    AllBegin(members, k, k);
    AllCount(members, k, k);
    assert Counted(members, k, 0) == State(members, UpTo(k), {}) by { assert UpTo(0) == {}; }
    AllAdd(members, k, nonces);
    ElementCount(nonces);
    assert members !! Elements(nonces);
    assert Added(members, k, []) == State(members, UpTo(k), UpTo(k)) by {
      assert members + Elements([]) == members && UpTo(k) - UpTo(0) == UpTo(k);
    }
    RunConcat(State(members, {}, {}), Begins(k), Counts(k));
    RunConcat(State(members, {}, {}), Begins(k) + Counts(k), Adds(nonces));
    AtMostConcat(k, State(members, {}, {}), Begins(k), Counts(k));
    AtMostConcat(k, State(members, {}, {}), Begins(k) + Counts(k), Adds(nonces));
    hide Begins, Counts, Adds, Run, AtMost, UpTo;
  }
}
