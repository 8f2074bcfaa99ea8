/** The transaction wrapper of server/db/retry.go: one atomic application of the work, or none. */
module Transaction {
  import opened Bytes
  import opened ErrorTree
  import opened Substrings

  /**
   What is decided outside the wrapper, per attempt (numbered from 1): whether BEGIN, ROLLBACK and COMMIT
   fail, and what a failed ROLLBACK leaves of the durable and the session's state. `work` is the session's
   effect on the uncommitted state; it may fail halfway, and differently on each attempt.
   */
  datatype World<!S> = World(
    sqlite: bool,
    work: (S, nat) -> (S, Option<Error>),
    begin: nat -> Option<Error>,
    rollback: nat -> Option<Error>,
    commit: nat -> Option<Error>,
    leftover: (S, S, nat) -> S)

  /** The result of a run: the database, the error, how often the work ran, how long the wrapper slept. */
  datatype Outcome<S> = Outcome(db: S, err: Option<Error>, runs: nat, slept: int)

  /** fmt.Errorf with %w, which step of a transaction failed. */
  function Named(step: string, e: Error): Error {
    Wrap(Ascii(step) + Ascii(" transaction: ") + e.text, e)
  }

  /** IsSQLiteBusyOrLocked: the primary result code of the first SQLite error in the tree is 5 or 6. */
  predicate IsBusyOrLocked(e: Error) {
    As(e, AsSqlite).Some? && var primary := As(e, AsSqlite).value.kind.code % 256; primary == 5 || primary == 6
  }

  /** An int64 after wrap-around. */
  function Wrap64(x: int): int {
    (x + 0x8000_0000_0000_0000) % 0x1_0000_0000_0000_0000 - 0x8000_0000_0000_0000
  }

  function Pow2(n: nat): (p: nat)
    ensures p >= 1
  {
    if n == 0 then 1 else 2 * Pow2(n - 1)
  }

  /** The pause after attempt `k`: the backoff shifted in 64 bits; time.Sleep ignores a negative one. */
  function Pause(initialBackoff: int, k: nat): (d: nat)
    requires k >= 1
  {
    var shifted := Wrap64(initialBackoff * Pow2(k - 1));
    if shifted < 0 then 0 else shifted
  }

  /** One attempt: the database, the error, whether a retry is safe, whether the work ran. */
  function Attempt<S>(w: World<S>, db: S, k: nat): (S, Option<Error>, bool, bool) {
    match w.begin(k)
    case Some(e) => (db, Some(Named("begin", e)), true, false)
    case None =>
      var (changed, err) := w.work(db, k);
      match err
      case Some(e) =>
        (match w.rollback(k)
         case Some(r) => (w.leftover(db, changed, k), Some(Join(e, Named("rollback", r))), false, true)
         case None => (db, Some(e), true, true))
      case None =>
        match w.commit(k)
        case Some(e) => (db, Some(Named("commit", e)), true, true)
        case None => (changed, None, false, true)
  }

  /** Another attempt follows attempt `k`. */
  predicate Retries<S>(w: World<S>, db: S, k: nat, attempts: int) {
    var (_, err, safe, _) := Attempt(w, db, k);
    err.Some? && safe && w.sqlite && IsBusyOrLocked(err.value) && k < attempts
  }

  /** The attempts from number `k` on. */
  function RunFrom<S>(w: World<S>, db: S, k: nat, attempts: int, initialBackoff: int): Outcome<S>
    requires 1 <= k <= attempts
    decreases attempts - k
  {
    var (after, err, _, ran) := Attempt(w, db, k);
    var runs := if ran then 1 else 0;
    if Retries(w, db, k, attempts) then
      var rest := RunFrom(w, after, k + 1, attempts, initialBackoff);
      rest.(runs := runs + rest.runs, slept := Pause(initialBackoff, k) + rest.slept)
    else Outcome(after, err, runs, 0)
  }

  lemma RunStep<S>(w: World<S>, db: S, k: nat, attempts: int, initialBackoff: int)
    requires 1 <= k <= attempts
    ensures var (after, err, _, ran) := Attempt(w, db, k); var o := RunFrom(w, db, k, attempts, initialBackoff);
            if Retries(w, db, k, attempts) then
              var rest := RunFrom(w, after, k + 1, attempts, initialBackoff);
              o == Outcome(rest.db, rest.err, (if ran then 1 else 0) + rest.runs,
                           Pause(initialBackoff, k) + rest.slept)
            else o == Outcome(after, err, if ran then 1 else 0, 0)
  {
  }

  function AtLeastOne(attempts: int): int {
    if attempts < 1 then 1 else attempts
  }

  function Run<S>(w: World<S>, db: S, attempts: int, initialBackoff: int): Outcome<S> {
    RunFrom(w, db, 1, AtLeastOne(attempts), initialBackoff)
  }

  /** The engine: the durable database, and what the wrapper did so far. */
  class Engine<S> {
    var db: S
    var runs: nat
    var slept: int

    constructor (initial: S)
      ensures db == initial && runs == 0 && slept == 0
    {
      db, runs, slept := initial, 0, 0;
    }

    /** runTransactionAttempt. */
    method RunTransactionAttempt(w: World<S>, k: nat) returns (err: Option<Error>, retrySafe: bool)
      modifies this
      ensures (db, err, retrySafe, runs) ==
              var (after, e, safe, ran) := Attempt(w, old(db), k);
              (after, e, safe, old(runs) + if ran then 1 else 0)
      ensures slept == old(slept)
    {
      var begun := w.begin(k);
      if begun.Some? {
        return Some(Named("begin", begun.value)), true;
      }
      var (session, failed) := w.work(db, k);
      runs := runs + 1;
      if failed.Some? {
        var rolledBack := w.rollback(k);
        if rolledBack.Some? {
          db := w.leftover(db, session, k);
          return Some(Join(failed.value, Named("rollback", rolledBack.value))), false;
        }
        return failed, true;
      }
      var committed := w.commit(k);
      if committed.Some? {
        return Some(Named("commit", committed.value)), true;
      }
      db := session;
      return None, false;
    }

    /** transactionWithRetry. */
    method TransactionWithRetry(w: World<S>, maxAttempts: int, initialBackoff: int) returns (err: Option<Error>)
      modifies this
      ensures old(runs) <= runs
      ensures Outcome(db, err, runs - old(runs), slept - old(slept)) == Run(w, old(db), maxAttempts, initialBackoff)
    {
      hide Attempt, RunFrom, Pause, IsBusyOrLocked;
      var attempts := maxAttempts;
      if attempts < 1 {
        attempts := 1;
      }
      var attempt := 1;
      err := None;
      while attempt <= attempts
        invariant 1 <= attempt <= attempts
        invariant old(runs) <= runs
        invariant Run(w, old(db), maxAttempts, initialBackoff)
               == var rest := RunFrom(w, db, attempt, attempts, initialBackoff);
                  rest.(runs := runs - old(runs) + rest.runs, slept := slept - old(slept) + rest.slept)
        decreases attempts - attempt
      {
        RunStep(w, db, attempt, attempts, initialBackoff);
        var retrySafe;
        err, retrySafe := RunTransactionAttempt(w, attempt);
        if err == None {
          return None;
        }
        if !retrySafe || !w.sqlite || !IsBusyOrLocked(err.value) || attempt == attempts {
          return err;
        }
        slept := slept + Pause(initialBackoff, attempt);
        attempt := attempt + 1;
      }
    }
  }

  /** Until the last attempt nothing durable happens: a retried attempt leaves the database as it was. */
  lemma RetryKeepsDatabase<S>(w: World<S>, db: S, k: nat, attempts: int)
    requires Retries(w, db, k, attempts)
    ensures Attempt(w, db, k).0 == db
  {
  }

  /**
   Success commits the work exactly once, applied to the database as it was; failure with working rollbacks
   changes nothing. The work runs at most `attempts` times.
   */
  lemma {:induction false} RunIsAtomic<S>(w: World<S>, db: S, k: nat, attempts: int, initialBackoff: int)
    requires 1 <= k <= attempts
    ensures var o := RunFrom(w, db, k, attempts, initialBackoff);
            (o.err == None ==> exists j :: k <= j <= attempts && w.work(db, j) == (o.db, None) && w.commit(j) == None)
            && (o.err.Some? && (forall j :: w.rollback(j) == None) ==> o.db == db)
            && o.runs <= attempts - k + 1
    decreases attempts - k
  {
    if Retries(w, db, k, attempts) {
      RetryKeepsDatabase(w, db, k, attempts);
      RunIsAtomic(w, db, k + 1, attempts, initialBackoff);
    }
  }

  /** An error is reported after the first failure that is not a BUSY or LOCKED one, or after the last attempt. */
  lemma {:induction false} RetriesOnlyBusy<S>(w: World<S>, db: S, k: nat, attempts: int, initialBackoff: int)
    requires 1 <= k <= attempts
    ensures exists last ::
              k <= last <= attempts
              && (forall j :: k <= j < last ==> Retries(w, db, j, attempts))
              && !Retries(w, db, last, attempts)
              && RunFrom(w, db, k, attempts, initialBackoff).err == Attempt(w, db, last).1
              && RunFrom(w, db, k, attempts, initialBackoff).db == Attempt(w, db, last).0
    decreases attempts - k
  {
    if Retries(w, db, k, attempts) {
      RetryKeepsDatabase(w, db, k, attempts);
      RetriesOnlyBusy(w, db, k + 1, attempts, initialBackoff);
    }
  }

  /** The pauses add up to less than the next one would have been, even where the shift wraps around. */
  lemma {:induction false} SleepBound<S>(w: World<S>, db: S, k: nat, attempts: int, initialBackoff: nat)
    requires 1 <= k <= attempts
    ensures 0 <= RunFrom(w, db, k, attempts, initialBackoff).slept
              <= initialBackoff * (Pow2(attempts - 1) - Pow2(k - 1))
    decreases attempts - k
  {
    hide RunFrom, Attempt, Pause, Pow2;
    RunStep(w, db, k, attempts, initialBackoff);
    Pow2Grows(k - 1, attempts - 1);
    var a, b := Pow2(attempts - 1), Pow2(k - 1);
    if Retries(w, db, k, attempts) {
      SleepBound(w, Attempt(w, db, k).0, k + 1, attempts, initialBackoff);
      PauseBound(initialBackoff, k);
      Pow2Doubles(k);
      Telescope(initialBackoff, a, b);
    } else {
      ProductNonNegative(initialBackoff, a - b);
    }
  }

  lemma Pow2Doubles(k: nat)
    requires k >= 1
    ensures Pow2(k) == 2 * Pow2(k - 1)
  {
  }

  lemma Telescope(x: int, a: int, b: int)
    ensures x * b + x * (a - 2 * b) == x * (a - b)
  {
  }

  lemma ProductNonNegative(a: nat, b: nat)
    ensures 0 <= a * b
  {
  }

  lemma PauseBound(initialBackoff: nat, k: nat)
    requires k >= 1
    ensures Pause(initialBackoff, k) <= initialBackoff * Pow2(k - 1)
  {
    WrapBelow(initialBackoff * Pow2(k - 1));
  }

  lemma WrapBelow(x: nat)
    ensures Wrap64(x) <= x
  {
  }

  lemma {:induction false} Pow2Grows(m: nat, n: nat)
    requires m <= n
    ensures Pow2(m) <= Pow2(n)
    decreases n
  {
    if m < n {
      Pow2Grows(m, n - 1);
    }
  }

  /** The pauses double as far as 63 bits go; what overflows into the sign, like a negative backoff, is no pause. */
  lemma PauseDoubles(initialBackoff: int, k: nat)
    requires k >= 1 && -0x8000_0000_0000_0000 <= initialBackoff * Pow2(k - 1) < 0x1_0000_0000_0000_0000
    ensures var d := initialBackoff * Pow2(k - 1);
            Pause(initialBackoff, k) == if 0 <= d < 0x8000_0000_0000_0000 then d else 0
  {
  }

  /** With one attempt allowed, or fewer, there is one. */
  lemma OneAttempt<S>(w: World<S>, db: S, attempts: int, initialBackoff: int)
    requires attempts <= 1
    ensures var (after, err, _, ran) := Attempt(w, db, 1);
            Run(w, db, attempts, initialBackoff) == Outcome(after, err, if ran then 1 else 0, 0)
  {
    hide Attempt, RunFrom;
    RunStep(w, db, 1, 1, initialBackoff);
  }

  /** BUSY is 5 and LOCKED is 6, extended codes keep them in the low byte, and the message says nothing. */
  lemma BusyCodes(code: int, text: bytes, inner: seq<Error>)
    ensures IsBusyOrLocked(Error(SqliteError(code), text, inner))
            <==> exists n: int :: code == 256 * n + 5 || code == 256 * n + 6
    ensures forall e :: !Contains(e, AsSqlite) ==> !IsBusyOrLocked(e)
  {
    var e := Error(SqliteError(code), text, inner);
    assert As(e, AsSqlite) == Some(e);
    assert code == 256 * (code / 256) + code % 256;
    forall e | !Contains(e, AsSqlite)
      ensures !IsBusyOrLocked(e)
    {
      AsIff(e, AsSqlite);
    }
  }

  /** The error of a failed attempt names the step, wraps what failed, and allows a retry unless ROLLBACK failed. */
  lemma AttemptFails<S>(w: World<S>, db: S, k: nat)
    ensures var (_, err, safe, ran) := Attempt(w, db, k);
            match (w.begin(k), w.work(db, k).1, w.rollback(k), w.commit(k))
            case (Some(e), _, _, _) =>
              err == Some(Error(OtherError, Ascii("begin") + Ascii(" transaction: ") + e.text, [e])) && safe && !ran
            case (None, Some(e), None, _) => err == Some(e) && safe && ran
            case (None, Some(e), Some(r), _) =>
              err == Some(Error(OtherError, e.text + [10] + (Ascii("rollback") + Ascii(" transaction: ") + r.text),
                                [e, Error(OtherError, Ascii("rollback") + Ascii(" transaction: ") + r.text, [r])]))
              && !safe && ran
            case (None, None, _, Some(e)) =>
              err == Some(Error(OtherError, Ascii("commit") + Ascii(" transaction: ") + e.text, [e])) && safe && ran
            case (None, None, _, None) => err == None && ran
  {
    hide Ascii;
  }

  const TRANSACTION_ATTEMPTS := 3

  /** 50 ms in nanoseconds. */
  const INITIAL_BACKOFF := 50_000_000

  /** A database that stays busy is asked three times, with pauses of 50 ms and 100 ms between. */
  lemma AlwaysBusy<S>(w: World<S>, db: S)
    requires w.sqlite && forall k :: 1 <= k <= 3 ==>
               var (_, err, safe, _) := Attempt(w, db, k); err.Some? && safe && IsBusyOrLocked(err.value)
    ensures var o := Run(w, db, TRANSACTION_ATTEMPTS, INITIAL_BACKOFF);
            o.db == db && o.err == Attempt(w, db, 3).1 && o.slept == 50_000_000 + 100_000_000
  {
    RetryKeepsDatabase(w, db, 1, 3);
    RetryKeepsDatabase(w, db, 2, 3);
    hide IsBusyOrLocked, Named, Pause, RunFrom;
    RunStep(w, db, 1, 3, INITIAL_BACKOFF);
    RunStep(w, db, 2, 3, INITIAL_BACKOFF);
    RunStep(w, db, 3, 3, INITIAL_BACKOFF);
    assert Pow2(1) == 2 * Pow2(0);
    PauseDoubles(INITIAL_BACKOFF, 1);
    PauseDoubles(INITIAL_BACKOFF, 2);
  }

  /** With the constants of Transaction: at most three runs of the work and 150 ms of sleep. */
  lemma DefaultBudget<S>(w: World<S>, db: S)
    ensures var o := Run(w, db, TRANSACTION_ATTEMPTS, INITIAL_BACKOFF);
            o.runs <= 3 && 0 <= o.slept <= 150_000_000
            && (o.err.Some? && (forall j :: w.rollback(j) == None) ==> o.db == db)
  {
    hide RunFrom;
    RunIsAtomic(w, db, 1, 3, INITIAL_BACKOFF);
    SleepBound(w, db, 1, 3, INITIAL_BACKOFF);
    assert Pow2(2) == 2 * Pow2(1) && Pow2(1) == 2 * Pow2(0);
  }
}
