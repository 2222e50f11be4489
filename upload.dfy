/** The per-file retry controller of `upload_file` (migrate.py:91-120).
    The file read and the POST are replaced by the outcome each attempt
    produced: the HTTP status of the response, or the exception raised by the
    read or by the request. What is left is a loop over attempts 1..maxRetries
    that stops at the first delivered outcome and otherwise logs, waits and
    tries again. */
module Upload {
  import opened Events

  /** The values hard-coded at migrate.py:94-95. */
  const MaxRetries: nat := 5
  const RetryInterval: nat := 5

  datatype Outcome = Response(status: int) | Raised(reason: string)

  /** Only status 200 or 201 delivers the file; any other status, or any
      exception, is a failed attempt. */
  predicate Delivered(o: Outcome)
  {
    o.Response? && (o.status == 200 || o.status == 201)
  }

  /** The main-log record of one failed attempt. */
  function FailureRecord(file: Path, o: Outcome): Event
    requires !Delivered(o)
  {
    match o
    case Response(status) => Log(MainLog, Warning, StatusFailure(file, status))
    case Raised(reason) => Log(MainLog, Error, UploadError(file, reason))
  }

  /** The events from attempt `attempt` on, given the outcomes of all attempts. */
  function RetryTrace(file: Path, outcomes: seq<Outcome>, attempt: nat, maxRetries: nat, interval: nat): seq<Event>
    requires 1 <= attempt && maxRetries <= |outcomes|
    decreases maxRetries + 1 - attempt
  {
    if attempt > maxRetries then []
    else
      var o := outcomes[attempt - 1];
      if Delivered(o) then
        (if attempt > 1 then [Log(ErrorLog, Error, RecoveredAfter(file, attempt))] else [])
        + [Log(MainLog, Info, Sent(file))]
      else if attempt < maxRetries then
        [FailureRecord(file, o), Log(MainLog, Warning, RetryNotice(file, attempt, interval)), Sleep(interval)]
        + RetryTrace(file, outcomes, attempt + 1, maxRetries, interval)
      else
        [FailureRecord(file, o), Log(ErrorLog, Error, AllAttemptsFailed(file))]
  }

  /** One run of `upload_file` for `file`, whose k-th attempt produces
      `outcomes[k - 1]`. Returns how many attempts were made, whether the file
      was delivered, and the log records and pauses in the order they happen. */
  method UploadFile(file: Path, outcomes: seq<Outcome>, maxRetries: nat := MaxRetries, interval: nat := RetryInterval)
    returns (attempts: nat, delivered: bool, trace: seq<Event>)
    requires maxRetries <= |outcomes|
    ensures attempts <= maxRetries
    ensures delivered ==> 1 <= attempts && Delivered(outcomes[attempts - 1])
    ensures delivered ==> forall j :: 0 <= j < attempts - 1 ==> !Delivered(outcomes[j])
    ensures !delivered ==> attempts == maxRetries && forall j :: 0 <= j < maxRetries ==> !Delivered(outcomes[j])
    ensures trace == RetryTrace(file, outcomes, 1, maxRetries, interval)
  {
    trace := [];
    ghost var full := RetryTrace(file, outcomes, 1, maxRetries, interval);
    var attempt := 1;
    while attempt <= maxRetries
      invariant 1 <= attempt <= maxRetries + 1
      invariant forall j :: 0 <= j < attempt - 1 ==> !Delivered(outcomes[j])
      invariant trace + RetryTrace(file, outcomes, attempt, maxRetries, interval) == full
    {
      ghost var before := trace;
      var o := outcomes[attempt - 1];
      match o {
        case Response(status) =>
          if status == 200 || status == 201 {
            if attempt > 1 {
              trace := trace + [Log(ErrorLog, Error, RecoveredAfter(file, attempt))];
            }
            trace := trace + [Log(MainLog, Info, Sent(file))];
            DeliveredStep(file, outcomes, attempt, maxRetries, interval, before, full);
            return attempt, true, trace;
          } else {
            trace := trace + [Log(MainLog, Warning, StatusFailure(file, status))];
          }
        case Raised(reason) =>
          trace := trace + [Log(MainLog, Error, UploadError(file, reason))];
      }
      FailedAttempt(file, o, before, trace);
      FailuresExtend(outcomes, attempt - 1);
      if attempt < maxRetries {
        trace := trace + [Log(MainLog, Warning, RetryNotice(file, attempt, interval)), Sleep(interval)];
        FailedStep(file, outcomes, attempt, maxRetries, interval, before, full);
      } else {
        trace := trace + [Log(ErrorLog, Error, AllAttemptsFailed(file))];
        LastStep(file, outcomes, attempt, maxRetries, interval, before, full);
      }
      attempt := attempt + 1;
    }
    return maxRetries, false, trace;
  }

  /** What a failed attempt has logged so far is its failure record. */
  lemma FailedAttempt(file: Path, o: Outcome, before: seq<Event>, trace: seq<Event>)
    requires o.Response? ==> !Delivered(o) && trace == before + [Log(MainLog, Warning, StatusFailure(file, o.status))]
    requires o.Raised? ==> trace == before + [Log(MainLog, Error, UploadError(file, o.reason))]
    ensures !Delivered(o) && trace == before + [FailureRecord(file, o)]
  {
  }

  lemma FailuresExtend(outcomes: seq<Outcome>, n: nat)
    requires n < |outcomes| && !Delivered(outcomes[n])
    requires forall j :: 0 <= j < n ==> !Delivered(outcomes[j])
    ensures forall j :: 0 <= j < n + 1 ==> !Delivered(outcomes[j])
  {
  }

  lemma DeliveredStep(file: Path, outcomes: seq<Outcome>, a: nat, maxRetries: nat, interval: nat, done: seq<Event>, full: seq<Event>)
    requires 1 <= a <= maxRetries <= |outcomes| && Delivered(outcomes[a - 1])
    requires done + RetryTrace(file, outcomes, a, maxRetries, interval) == full
    ensures a > 1 ==> done + [Log(ErrorLog, Error, RecoveredAfter(file, a))] + [Log(MainLog, Info, Sent(file))] == full
    ensures a == 1 ==> done + [Log(MainLog, Info, Sent(file))] == full
  {
    RetryTraceDeliveredStep(file, outcomes, a, maxRetries, interval);
  }

  lemma FailedStep(file: Path, outcomes: seq<Outcome>, a: nat, maxRetries: nat, interval: nat, done: seq<Event>, full: seq<Event>)
    requires 1 <= a < maxRetries <= |outcomes| && !Delivered(outcomes[a - 1])
    requires done + RetryTrace(file, outcomes, a, maxRetries, interval) == full
    ensures done + [FailureRecord(file, outcomes[a - 1])] + [Log(MainLog, Warning, RetryNotice(file, a, interval)), Sleep(interval)]
      + RetryTrace(file, outcomes, a + 1, maxRetries, interval) == full
  {
    RetryTraceFailedStep(file, outcomes, a, maxRetries, interval);
  }

  lemma LastStep(file: Path, outcomes: seq<Outcome>, a: nat, maxRetries: nat, interval: nat, done: seq<Event>, full: seq<Event>)
    requires 1 <= a == maxRetries <= |outcomes| && !Delivered(outcomes[a - 1])
    requires done + RetryTrace(file, outcomes, a, maxRetries, interval) == full
    ensures done + [FailureRecord(file, outcomes[a - 1])] + [Log(ErrorLog, Error, AllAttemptsFailed(file))] == full
  {
    RetryTraceLastStep(file, outcomes, a, maxRetries, interval);
  }

  // ---------------------------------------------------------------------
  // Counting the records of a trace

  datatype Kind = SentKind | StatusKind | ExceptionKind | RetryKind | SleepKind | RecoveredKind | ExhaustedKind | OtherKind

  function KindOf(e: Event): Kind
  {
    match e
    case Sleep(_) => SleepKind
    case Log(_, _, m) =>
      match m
      case Sent(_) => SentKind
      case StatusFailure(_, _) => StatusKind
      case UploadError(_, _) => ExceptionKind
      case RetryNotice(_, _, _) => RetryKind
      case RecoveredAfter(_, _) => RecoveredKind
      case AllAttemptsFailed(_) => ExhaustedKind
      case _ => OtherKind
  }

  function Is(e: Event, k: Kind): nat
  {
    if KindOf(e) == k then 1 else 0
  }

  function Count(t: seq<Event>, k: Kind): nat
  {
    if t == [] then 0 else (if KindOf(t[0]) == k then 1 else 0) + Count(t[1..], k)
  }

  /** Failed attempts whose response had an unexpected status. */
  function BadStatuses(os: seq<Outcome>): nat
  {
    if os == [] then 0
    else (if os[0].Response? && !Delivered(os[0]) then 1 else 0) + BadStatuses(os[1..])
  }

  /** Attempts that raised an exception. */
  function Exceptions(os: seq<Outcome>): nat
  {
    if os == [] then 0 else (if os[0].Raised? then 1 else 0) + Exceptions(os[1..])
  }

  lemma {:induction false} CountAppend(a: seq<Event>, b: seq<Event>, k: Kind)
    ensures Count(a + b, k) == Count(a, k) + Count(b, k)
    decreases |a|
  {
    if a == [] {
      assert a + b == b;
    } else {
      assert (a + b)[0] == a[0] && (a + b)[1..] == a[1..] + b;
      CountAppend(a[1..], b, k);
    }
  }

  /** An all-failed stretch of outcomes is split between bad statuses and exceptions. */
  lemma {:induction false} FailuresSplit(os: seq<Outcome>)
    requires forall j :: 0 <= j < |os| ==> !Delivered(os[j])
    ensures BadStatuses(os) + Exceptions(os) == |os|
    decreases |os|
  {
    if os != [] {
      FailuresSplit(os[1..]);
    }
  }

  lemma CountCons(e: Event, rest: seq<Event>, k: Kind)
    ensures Count([e] + rest, k) == Is(e, k) + Count(rest, k)
  {
    assert ([e] + rest)[1..] == rest;
  }

  /** The records of one failed non-final attempt, followed by the rest. */
  lemma FailedAttemptCounts(file: Path, o: Outcome, attempt: nat, interval: nat, rest: seq<Event>, k: Kind)
    requires !Delivered(o)
    ensures Count([FailureRecord(file, o), Log(MainLog, Warning, RetryNotice(file, attempt, interval)), Sleep(interval)] + rest, k)
         == Count(rest, k)
          + (if k == RetryKind || k == SleepKind then 1 else 0)
          + (if k == StatusKind && o.Response? then 1 else 0)
          + (if k == ExceptionKind && o.Raised? then 1 else 0)
  {
    var e1, e2, e3 := FailureRecord(file, o), Log(MainLog, Warning, RetryNotice(file, attempt, interval)), Sleep(interval);
    assert [e1, e2, e3] + rest == [e1] + ([e2] + ([e3] + rest));
    CountCons(e3, rest, k);
    CountCons(e2, [e3] + rest, k);
    CountCons(e1, [e2] + ([e3] + rest), k);
  }

  /** The trace of a failed attempt that is not the last one. */
  lemma RetryTraceFailedStep(file: Path, outcomes: seq<Outcome>, a: nat, maxRetries: nat, interval: nat)
    requires 1 <= a < maxRetries <= |outcomes| && !Delivered(outcomes[a - 1])
    ensures RetryTrace(file, outcomes, a, maxRetries, interval)
         == [FailureRecord(file, outcomes[a - 1]), Log(MainLog, Warning, RetryNotice(file, a, interval)), Sleep(interval)]
            + RetryTrace(file, outcomes, a + 1, maxRetries, interval)
  {
  }

  /** The trace of a delivered attempt. */
  lemma RetryTraceDeliveredStep(file: Path, outcomes: seq<Outcome>, a: nat, maxRetries: nat, interval: nat)
    requires 1 <= a <= maxRetries <= |outcomes| && Delivered(outcomes[a - 1])
    ensures RetryTrace(file, outcomes, a, maxRetries, interval)
         == (if a > 1 then [Log(ErrorLog, Error, RecoveredAfter(file, a))] else []) + [Log(MainLog, Info, Sent(file))]
  {
  }

  /** The trace of a failed last attempt. */
  lemma RetryTraceLastStep(file: Path, outcomes: seq<Outcome>, a: nat, maxRetries: nat, interval: nat)
    requires 1 <= a == maxRetries <= |outcomes| && !Delivered(outcomes[a - 1])
    ensures RetryTrace(file, outcomes, a, maxRetries, interval)
         == [FailureRecord(file, outcomes[a - 1]), Log(ErrorLog, Error, AllAttemptsFailed(file))]
  {
  }

  /** The records of a failed attempt that is not the last, kind by kind. */
  lemma FailedStepCounts(file: Path, outcomes: seq<Outcome>, a: nat, maxRetries: nat, interval: nat)
    requires 1 <= a < maxRetries <= |outcomes| && !Delivered(outcomes[a - 1])
    ensures var t, rest := RetryTrace(file, outcomes, a, maxRetries, interval), RetryTrace(file, outcomes, a + 1, maxRetries, interval);
      forall kd :: (Count(t, kd) == Count(rest, kd)
        + (if kd == RetryKind || kd == SleepKind then 1 else 0)
        + (if kd == StatusKind && outcomes[a - 1].Response? then 1 else 0)
        + (if kd == ExceptionKind && outcomes[a - 1].Raised? then 1 else 0))
  {
    var t, rest := RetryTrace(file, outcomes, a, maxRetries, interval), RetryTrace(file, outcomes, a + 1, maxRetries, interval);
    RetryTraceFailedStep(file, outcomes, a, maxRetries, interval);
    forall kd ensures Count(t, kd) == Count(rest, kd)
        + (if kd == RetryKind || kd == SleepKind then 1 else 0)
        + (if kd == StatusKind && outcomes[a - 1].Response? then 1 else 0)
        + (if kd == ExceptionKind && outcomes[a - 1].Raised? then 1 else 0)
    {
      FailedAttemptCounts(file, outcomes[a - 1], a, interval, rest, kd);
    }
  }

  /** The records of a delivered attempt, kind by kind. */
  lemma DeliveredStepCounts(file: Path, outcomes: seq<Outcome>, a: nat, maxRetries: nat, interval: nat)
    requires 1 <= a <= maxRetries <= |outcomes| && Delivered(outcomes[a - 1])
    ensures var t := RetryTrace(file, outcomes, a, maxRetries, interval);
      forall kd :: Count(t, kd) == (if kd == SentKind || (kd == RecoveredKind && a > 1) then 1 else 0)
  {
    var t := RetryTrace(file, outcomes, a, maxRetries, interval);
    var sent := Log(MainLog, Info, Sent(file));
    forall kd ensures Count([sent], kd) == Is(sent, kd) {
      CountCons(sent, [], kd);
    }
    if a > 1 {
      var rec := Log(ErrorLog, Error, RecoveredAfter(file, a));
      assert t == [rec] + [sent];
      forall kd ensures Count(t, kd) == Is(rec, kd) + Is(sent, kd) {
        CountCons(rec, [sent], kd);
      }
    } else {
      assert t == [sent];
    }
  }

  /** The records of a failed last attempt, kind by kind. */
  lemma LastStepCounts(file: Path, outcomes: seq<Outcome>, a: nat, maxRetries: nat, interval: nat)
    requires 1 <= a == maxRetries <= |outcomes| && !Delivered(outcomes[a - 1])
    ensures var t := RetryTrace(file, outcomes, a, maxRetries, interval);
      forall kd :: (Count(t, kd) ==
        (if kd == ExhaustedKind then 1 else 0)
        + (if kd == StatusKind && outcomes[a - 1].Response? then 1 else 0)
        + (if kd == ExceptionKind && outcomes[a - 1].Raised? then 1 else 0))
  {
    var t := RetryTrace(file, outcomes, a, maxRetries, interval);
    var e, last := FailureRecord(file, outcomes[a - 1]), Log(ErrorLog, Error, AllAttemptsFailed(file));
    assert t == [e] + [last];
    forall kd ensures Count(t, kd) == Is(e, kd) + Is(last, kd) {
      CountCons(last, [], kd);
      CountCons(e, [last], kd);
    }
  }

  /** The records of kind `kd` of a file first delivered on attempt `k`
      (counted from attempt `a`). */
  lemma {:induction false} DeliveredFromKind(file: Path, outcomes: seq<Outcome>, a: nat, k: nat, maxRetries: nat, interval: nat, kd: Kind)
    requires 1 <= a <= k <= maxRetries <= |outcomes|
    requires Delivered(outcomes[k - 1])
    requires forall j :: a - 1 <= j < k - 1 ==> !Delivered(outcomes[j])
    ensures Count(RetryTrace(file, outcomes, a, maxRetries, interval), kd) ==
      (if kd == SentKind || (kd == RecoveredKind && k > 1) then 1 else 0)
      + (if kd == RetryKind || kd == SleepKind then k - a else 0)
      + (if kd == StatusKind then BadStatuses(outcomes[a - 1..k - 1]) else 0)
      + (if kd == ExceptionKind then Exceptions(outcomes[a - 1..k - 1]) else 0)
    decreases k - a
  {
    if a == k {
      DeliveredStepCounts(file, outcomes, a, maxRetries, interval);
      assert outcomes[a - 1..k - 1] == [];
    } else {
      FailedStepCounts(file, outcomes, a, maxRetries, interval);
      DeliveredFromKind(file, outcomes, a + 1, k, maxRetries, interval, kd);
      var os := outcomes[a - 1..k - 1];
      assert os[0] == outcomes[a - 1] && os[1..] == outcomes[a..k - 1];
    }
  }

  /** A file first delivered on attempt `k` (counted from attempt `a`). */
  lemma DeliveredFrom(file: Path, outcomes: seq<Outcome>, a: nat, k: nat, maxRetries: nat, interval: nat)
    requires 1 <= a <= k <= maxRetries <= |outcomes|
    requires Delivered(outcomes[k - 1])
    requires forall j :: a - 1 <= j < k - 1 ==> !Delivered(outcomes[j])
    ensures var t := RetryTrace(file, outcomes, a, maxRetries, interval);
      && Count(t, SentKind) == 1
      && Count(t, RecoveredKind) == (if k > 1 then 1 else 0)
      && Count(t, ExhaustedKind) == 0
      && Count(t, RetryKind) == k - a
      && Count(t, SleepKind) == k - a
      && Count(t, StatusKind) == BadStatuses(outcomes[a - 1..k - 1])
      && Count(t, ExceptionKind) == Exceptions(outcomes[a - 1..k - 1])
  {
    forall kd ensures Count(RetryTrace(file, outcomes, a, maxRetries, interval), kd) ==
      (if kd == SentKind || (kd == RecoveredKind && k > 1) then 1 else 0)
      + (if kd == RetryKind || kd == SleepKind then k - a else 0)
      + (if kd == StatusKind then BadStatuses(outcomes[a - 1..k - 1]) else 0)
      + (if kd == ExceptionKind then Exceptions(outcomes[a - 1..k - 1]) else 0)
    {
      DeliveredFromKind(file, outcomes, a, k, maxRetries, interval, kd);
    }
  }

  /** A file whose every attempt from `a` to `maxRetries` failed. */
  lemma {:induction false} ExhaustedFrom(file: Path, outcomes: seq<Outcome>, a: nat, maxRetries: nat, interval: nat)
    requires 1 <= a <= maxRetries <= |outcomes|
    requires forall j :: a - 1 <= j < maxRetries ==> !Delivered(outcomes[j])
    ensures var t := RetryTrace(file, outcomes, a, maxRetries, interval);
      && Count(t, SentKind) == 0
      && Count(t, RecoveredKind) == 0
      && Count(t, ExhaustedKind) == 1
      && Count(t, RetryKind) == maxRetries - a
      && Count(t, SleepKind) == maxRetries - a
      && Count(t, StatusKind) == BadStatuses(outcomes[a - 1..maxRetries])
      && Count(t, ExceptionKind) == Exceptions(outcomes[a - 1..maxRetries])
    decreases maxRetries - a
  {
    var os := outcomes[a - 1..maxRetries];
    assert os[0] == outcomes[a - 1] && os[1..] == outcomes[a..maxRetries];
    if a == maxRetries {
      LastStepCounts(file, outcomes, a, maxRetries, interval);
      assert os[1..] == [];
    } else {
      FailedStepCounts(file, outcomes, a, maxRetries, interval);
      ExhaustedFrom(file, outcomes, a + 1, maxRetries, interval);
    }
  }

  /** The records written to the error log, in order. */
  function ErrorLogOf(t: seq<Event>): seq<Event>
  {
    if t == [] then []
    else (if t[0].Log? && t[0].sink == ErrorLog then [t[0]] else []) + ErrorLogOf(t[1..])
  }

  lemma ErrorLogCons(e: Event, rest: seq<Event>)
    ensures ErrorLogOf([e] + rest) == (if e.Log? && e.sink == ErrorLog then [e] else []) + ErrorLogOf(rest)
  {
    assert ([e] + rest)[1..] == rest;
  }

  /** The error-log records of a delivered attempt. */
  lemma ErrorLogDelivered(file: Path, outcomes: seq<Outcome>, a: nat, maxRetries: nat, interval: nat)
    requires 1 <= a <= maxRetries <= |outcomes| && Delivered(outcomes[a - 1])
    ensures StopAttempt(outcomes, a, maxRetries) == a
    ensures ErrorLogOf(RetryTrace(file, outcomes, a, maxRetries, interval)) ==
      if a > 1 then [Log(ErrorLog, Error, RecoveredAfter(file, a))] else []
  {
    var t := RetryTrace(file, outcomes, a, maxRetries, interval);
    var sent := Log(MainLog, Info, Sent(file));
    RetryTraceDeliveredStep(file, outcomes, a, maxRetries, interval);
    ErrorLogCons(sent, []);
    if a > 1 {
      ErrorLogCons(Log(ErrorLog, Error, RecoveredAfter(file, a)), [sent]);
    } else {
      assert t == [sent] + [];
    }
  }

  /** The error-log records of a failed last attempt. */
  lemma ErrorLogLast(file: Path, outcomes: seq<Outcome>, a: nat, maxRetries: nat, interval: nat)
    requires 1 <= a == maxRetries <= |outcomes| && !Delivered(outcomes[a - 1])
    ensures StopAttempt(outcomes, a, maxRetries) == a
    ensures ErrorLogOf(RetryTrace(file, outcomes, a, maxRetries, interval)) == [Log(ErrorLog, Error, AllAttemptsFailed(file))]
  {
    var e, last := FailureRecord(file, outcomes[a - 1]), Log(ErrorLog, Error, AllAttemptsFailed(file));
    RetryTraceLastStep(file, outcomes, a, maxRetries, interval);
    ErrorLogCons(last, []);
    ErrorLogCons(e, [last]);
  }

  /** Three records none of which goes to the error log leave it unchanged. */
  lemma ErrorLogSkip(e1: Event, e2: Event, e3: Event, rest: seq<Event>)
    requires !(e1.Log? && e1.sink == ErrorLog) && !(e2.Log? && e2.sink == ErrorLog) && !(e3.Log? && e3.sink == ErrorLog)
    ensures ErrorLogOf([e1, e2, e3] + rest) == ErrorLogOf(rest)
  {
    assert [e1, e2, e3] + rest == [e1] + ([e2] + ([e3] + rest));
    ErrorLogCons(e3, rest);
    ErrorLogCons(e2, [e3] + rest);
    ErrorLogCons(e1, [e2] + ([e3] + rest));
  }

  /** A failed attempt that is not the last writes nothing to the error log. */
  lemma ErrorLogFailed(file: Path, outcomes: seq<Outcome>, a: nat, maxRetries: nat, interval: nat)
    requires 1 <= a < maxRetries <= |outcomes| && !Delivered(outcomes[a - 1])
    ensures StopAttempt(outcomes, a, maxRetries) == StopAttempt(outcomes, a + 1, maxRetries)
    ensures ErrorLogOf(RetryTrace(file, outcomes, a, maxRetries, interval)) ==
      ErrorLogOf(RetryTrace(file, outcomes, a + 1, maxRetries, interval))
  {
    RetryTraceFailedStep(file, outcomes, a, maxRetries, interval);
    ErrorLogSkip(FailureRecord(file, outcomes[a - 1]), Log(MainLog, Warning, RetryNotice(file, a, interval)), Sleep(interval),
      RetryTrace(file, outcomes, a + 1, maxRetries, interval));
  }

  /** The error-log records of a loop that stops at attempt `k`. */
  function ErrorRecords(file: Path, outcomes: seq<Outcome>, k: nat): seq<Event>
    requires 1 <= k <= |outcomes|
  {
    if !Delivered(outcomes[k - 1]) then [Log(ErrorLog, Error, AllAttemptsFailed(file))]
    else if k > 1 then [Log(ErrorLog, Error, RecoveredAfter(file, k))]
    else []
  }

  /** `ErrorLogFrom`, by induction on the attempts left. */
  lemma {:induction false} ErrorLogAt(file: Path, outcomes: seq<Outcome>, a: nat, maxRetries: nat, interval: nat)
    requires 1 <= a <= maxRetries <= |outcomes|
    ensures ErrorLogOf(RetryTrace(file, outcomes, a, maxRetries, interval)) == ErrorRecords(file, outcomes, StopAttempt(outcomes, a, maxRetries))
    decreases maxRetries - a
  {
    if Delivered(outcomes[a - 1]) {
      ErrorLogDelivered(file, outcomes, a, maxRetries, interval);
    } else if a < maxRetries {
      ErrorLogFailed(file, outcomes, a, maxRetries, interval);
      ErrorLogAt(file, outcomes, a + 1, maxRetries, interval);
    } else {
      ErrorLogLast(file, outcomes, a, maxRetries, interval);
    }
  }

  /** What the loop started at attempt `a` writes to the error log: nothing
      when the file goes through at once, one "sent after k attempts" record
      naming the attempt k that delivered it after failures, or one "all
      attempts failed" record when every attempt failed. */
  lemma {:induction false} ErrorLogFrom(file: Path, outcomes: seq<Outcome>, a: nat, maxRetries: nat, interval: nat)
    requires 1 <= a <= maxRetries <= |outcomes|
    ensures var k := StopAttempt(outcomes, a, maxRetries);
      ErrorLogOf(RetryTrace(file, outcomes, a, maxRetries, interval)) ==
        if !Delivered(outcomes[k - 1]) then [Log(ErrorLog, Error, AllAttemptsFailed(file))]
        else if k > 1 then [Log(ErrorLog, Error, RecoveredAfter(file, k))]
        else []
  {
    ErrorLogAt(file, outcomes, a, maxRetries, interval);
  }

  /** The loop stops at the first delivered attempt. */
  lemma StopAtDelivery(outcomes: seq<Outcome>, k: nat, maxRetries: nat)
    requires 1 <= k <= maxRetries <= |outcomes|
    requires Delivered(outcomes[k - 1])
    requires forall j :: 0 <= j < k - 1 ==> !Delivered(outcomes[j])
    ensures StopAttempt(outcomes, 1, maxRetries) == k
  {
  }

  /** Delivered on attempt k: one "Enviado" record; one error-log record
      exactly when k > 1; one status warning or exception error per earlier
      attempt; one retry warning and one pause per earlier attempt. */
  lemma DeliveredOnAttempt(file: Path, outcomes: seq<Outcome>, k: nat, maxRetries: nat, interval: nat)
    requires 1 <= k <= maxRetries <= |outcomes|
    requires Delivered(outcomes[k - 1])
    requires forall j :: 0 <= j < k - 1 ==> !Delivered(outcomes[j])
    ensures var t := RetryTrace(file, outcomes, 1, maxRetries, interval);
      && Count(t, SentKind) == 1
      && Count(t, RecoveredKind) == (if k > 1 then 1 else 0)
      && Count(t, ExhaustedKind) == 0
      && Count(t, StatusKind) + Count(t, ExceptionKind) == k - 1
      && Count(t, StatusKind) == BadStatuses(outcomes[..k - 1])
      && Count(t, RetryKind) == k - 1
      && Count(t, SleepKind) == k - 1
    ensures var t := RetryTrace(file, outcomes, 1, maxRetries, interval);
      ErrorLogOf(t) == if k > 1 then [Log(ErrorLog, Error, RecoveredAfter(file, k))] else []
  {
    StopAtDelivery(outcomes, k, maxRetries);
    ErrorLogFrom(file, outcomes, 1, maxRetries, interval);
    DeliveredFrom(file, outcomes, 1, k, maxRetries, interval);
    FailuresSplit(outcomes[..k - 1]);
    assert outcomes[0..k - 1] == outcomes[..k - 1];
  }

  /** Every attempt failed: no "Enviado" record, one "all attempts failed"
      error-log record, one status warning or exception error per attempt,
      and a retry warning and a pause after every attempt but the last. */
  lemma AllAttemptsExhausted(file: Path, outcomes: seq<Outcome>, maxRetries: nat, interval: nat)
    requires 1 <= maxRetries <= |outcomes|
    requires forall j :: 0 <= j < maxRetries ==> !Delivered(outcomes[j])
    ensures var t := RetryTrace(file, outcomes, 1, maxRetries, interval);
      && Count(t, SentKind) == 0
      && Count(t, RecoveredKind) == 0
      && Count(t, ExhaustedKind) == 1
      && Count(t, StatusKind) + Count(t, ExceptionKind) == maxRetries
      && Count(t, StatusKind) == BadStatuses(outcomes[..maxRetries])
      && Count(t, RetryKind) == maxRetries - 1
      && Count(t, SleepKind) == maxRetries - 1
    ensures var t := RetryTrace(file, outcomes, 1, maxRetries, interval);
      ErrorLogOf(t) == [Log(ErrorLog, Error, AllAttemptsFailed(file))]
  {
    ErrorLogFrom(file, outcomes, 1, maxRetries, interval);
    ExhaustedFrom(file, outcomes, 1, maxRetries, interval);
    FailuresSplit(outcomes[..maxRetries]);
    assert outcomes[0..maxRetries] == outcomes[..maxRetries];
  }

  /** With the script's constants, five bad statuses give five status
      warnings, four retry warnings and four pauses of five seconds. */
  lemma FiveBadStatuses(file: Path, status: int)
    requires status != 200 && status != 201
    ensures var t := RetryTrace(file, seq(5, _ => Response(status)), 1, MaxRetries, RetryInterval);
      && Count(t, StatusKind) == 5 && Count(t, ExceptionKind) == 0
      && Count(t, RetryKind) == 4 && Count(t, SleepKind) == 4
      && Count(t, ExhaustedKind) == 1 && Count(t, SentKind) == 0
      && forall i :: 0 <= i < |t| && t[i].Sleep? ==> t[i].seconds == 5
  {
    var os := seq(5, _ => Response(status));
    AllAttemptsExhausted(file, os, MaxRetries, RetryInterval);
    FailuresSplit(os[..5]);
    ExceptionsNone(os[..5]);
    SleepsBetweenAttempts(file, os, 1, MaxRetries, RetryInterval);
  }

  lemma {:induction false} ExceptionsNone(os: seq<Outcome>)
    requires forall j :: 0 <= j < |os| ==> os[j].Response?
    ensures Exceptions(os) == 0
    decreases |os|
  {
    if os != [] {
      ExceptionsNone(os[1..]);
    }
  }

  // ---------------------------------------------------------------------
  // Order of the records: pauses and attempt numbers

  /** The attempt number at which the loop started at `a` stops: the first
      delivered attempt, or the last one allowed. */
  function StopAttempt(outcomes: seq<Outcome>, a: nat, maxRetries: nat): (k: nat)
    requires 1 <= a <= maxRetries <= |outcomes|
    ensures a <= k <= maxRetries
    ensures forall j :: a - 1 <= j < k - 1 ==> !Delivered(outcomes[j])
    ensures k < maxRetries ==> Delivered(outcomes[k - 1])
    decreases maxRetries - a
  {
    if a == maxRetries || Delivered(outcomes[a - 1]) then a else StopAttempt(outcomes, a + 1, maxRetries)
  }

  function Range(lo: nat, hi: nat): seq<nat>
    decreases hi - lo
  {
    if lo >= hi then [] else [lo] + Range(lo + 1, hi)
  }

  /** The attempt numbers announced by the retry warnings, in order. */
  function RetryNumbers(t: seq<Event>): seq<nat>
  {
    if t == [] then []
    else (if t[0].Log? && t[0].msg.RetryNotice? then [t[0].msg.attempt] else []) + RetryNumbers(t[1..])
  }

  lemma RetryNumbersCons(e: Event, rest: seq<Event>)
    ensures RetryNumbers([e] + rest) ==
      (if e.Log? && e.msg.RetryNotice? then [e.msg.attempt] else []) + RetryNumbers(rest)
  {
    assert ([e] + rest)[1..] == rest;
  }

  /** A delivered attempt announces no retry. */
  lemma RetryNumbersDelivered(file: Path, outcomes: seq<Outcome>, a: nat, maxRetries: nat, interval: nat)
    requires 1 <= a <= maxRetries <= |outcomes| && Delivered(outcomes[a - 1])
    ensures RetryNumbers(RetryTrace(file, outcomes, a, maxRetries, interval)) == Range(a, StopAttempt(outcomes, a, maxRetries))
  {
    assert Range(a, StopAttempt(outcomes, a, maxRetries)) == [];
    var sent := Log(MainLog, Info, Sent(file));
    RetryTraceDeliveredStep(file, outcomes, a, maxRetries, interval);
    RetryNumbersCons(sent, []);
    if a > 1 {
      RetryNumbersCons(Log(ErrorLog, Error, RecoveredAfter(file, a)), [sent]);
    } else {
      assert RetryTrace(file, outcomes, a, maxRetries, interval) == [sent] + [];
    }
  }

  /** A failed last attempt announces no retry. */
  lemma RetryNumbersLast(file: Path, outcomes: seq<Outcome>, a: nat, maxRetries: nat, interval: nat)
    requires 1 <= a == maxRetries <= |outcomes| && !Delivered(outcomes[a - 1])
    ensures RetryNumbers(RetryTrace(file, outcomes, a, maxRetries, interval)) == Range(a, StopAttempt(outcomes, a, maxRetries))
  {
    assert Range(a, StopAttempt(outcomes, a, maxRetries)) == [];
    var e, last := FailureRecord(file, outcomes[a - 1]), Log(ErrorLog, Error, AllAttemptsFailed(file));
    RetryTraceLastStep(file, outcomes, a, maxRetries, interval);
    RetryNumbersCons(last, []);
    RetryNumbersCons(e, [last]);
  }

  /** A failure record, a retry notice and a pause announce exactly that retry. */
  lemma RetryNumbersNotice(e1: Event, e2: Event, e3: Event, rest: seq<Event>)
    requires !(e1.Log? && e1.msg.RetryNotice?) && e2.Log? && e2.msg.RetryNotice? && !(e3.Log? && e3.msg.RetryNotice?)
    ensures RetryNumbers([e1, e2, e3] + rest) == [e2.msg.attempt] + RetryNumbers(rest)
  {
    assert [e1, e2, e3] + rest == [e1] + ([e2] + ([e3] + rest));
    RetryNumbersCons(e3, rest);
    RetryNumbersCons(e2, [e3] + rest);
    RetryNumbersCons(e1, [e2] + ([e3] + rest));
  }

  /** A failed attempt that is not the last announces its own number ahead
      of the numbers announced by the attempts after it. */
  lemma RetryNumbersFailed(file: Path, outcomes: seq<Outcome>, a: nat, maxRetries: nat, interval: nat)
    requires 1 <= a < maxRetries <= |outcomes| && !Delivered(outcomes[a - 1])
    requires RetryNumbers(RetryTrace(file, outcomes, a + 1, maxRetries, interval)) == Range(a + 1, StopAttempt(outcomes, a + 1, maxRetries))
    ensures RetryNumbers(RetryTrace(file, outcomes, a, maxRetries, interval)) == Range(a, StopAttempt(outcomes, a, maxRetries))
  {
    RetryTraceFailedStep(file, outcomes, a, maxRetries, interval);
    RetryNumbersNotice(FailureRecord(file, outcomes[a - 1]), Log(MainLog, Warning, RetryNotice(file, a, interval)), Sleep(interval), RetryTrace(file, outcomes, a + 1, maxRetries, interval));
    var stop := StopAttempt(outcomes, a + 1, maxRetries);
    assert StopAttempt(outcomes, a, maxRetries) == stop;
    assert Range(a, stop) == [a] + Range(a + 1, stop);
  }

  /** One attempt's step of `RetryNumbersSequential`, given the numbers the
      attempts after a failed one announce. */
  lemma RetryNumbersStep(file: Path, outcomes: seq<Outcome>, a: nat, maxRetries: nat, interval: nat)
    requires 1 <= a <= maxRetries <= |outcomes|
    requires a < maxRetries && !Delivered(outcomes[a - 1]) ==>
      RetryNumbers(RetryTrace(file, outcomes, a + 1, maxRetries, interval)) == Range(a + 1, StopAttempt(outcomes, a + 1, maxRetries))
    ensures RetryNumbers(RetryTrace(file, outcomes, a, maxRetries, interval)) == Range(a, StopAttempt(outcomes, a, maxRetries))
  {
    if Delivered(outcomes[a - 1]) {
      RetryNumbersDelivered(file, outcomes, a, maxRetries, interval);
    } else if a < maxRetries {
      RetryNumbersFailed(file, outcomes, a, maxRetries, interval);
    } else {
      RetryNumbersLast(file, outcomes, a, maxRetries, interval);
    }
  }

  /** The retry warnings number the failed attempts 1, 2, ... in order, up to
      the attempt before the one at which the file is delivered or given up. */
  lemma {:induction false} RetryNumbersSequential(file: Path, outcomes: seq<Outcome>, a: nat, maxRetries: nat, interval: nat)
    requires 1 <= a <= maxRetries <= |outcomes|
    ensures RetryNumbers(RetryTrace(file, outcomes, a, maxRetries, interval)) == Range(a, StopAttempt(outcomes, a, maxRetries))
    decreases maxRetries - a
  {
    if a < maxRetries && !Delivered(outcomes[a - 1]) {
      RetryNumbersSequential(file, outcomes, a + 1, maxRetries, interval);
    }
    RetryNumbersStep(file, outcomes, a, maxRetries, interval);
  }

  /** Every pause lasts `interval`, comes right after a retry warning and is
      never the last event; the last event is the success record or the
      "all attempts failed" record. */
  lemma {:induction false} SleepsBetweenAttempts(file: Path, outcomes: seq<Outcome>, a: nat, maxRetries: nat, interval: nat)
    requires 1 <= a <= maxRetries <= |outcomes|
    ensures var t := RetryTrace(file, outcomes, a, maxRetries, interval);
      && t != []
      && KindOf(t[|t| - 1]) in {SentKind, ExhaustedKind}
      && forall i :: 0 <= i < |t| && t[i].Sleep? ==>
           t[i].seconds == interval && 0 < i < |t| - 1 && KindOf(t[i - 1]) == RetryKind
    decreases maxRetries - a
  {
    var t := RetryTrace(file, outcomes, a, maxRetries, interval);
    if Delivered(outcomes[a - 1]) {
      RetryTraceDeliveredStep(file, outcomes, a, maxRetries, interval);
    } else if a == maxRetries {
      RetryTraceLastStep(file, outcomes, a, maxRetries, interval);
    } else {
      var rest := RetryTrace(file, outcomes, a + 1, maxRetries, interval);
      RetryTraceFailedStep(file, outcomes, a, maxRetries, interval);
      SleepsBetweenAttempts(file, outcomes, a + 1, maxRetries, interval);
      assert t[|t| - 1] == rest[|rest| - 1];
      forall i | 0 <= i < |t| && t[i].Sleep?
        ensures t[i].seconds == interval && 0 < i < |t| - 1 && KindOf(t[i - 1]) == RetryKind
      {
        if i >= 3 {
          assert t[i] == rest[i - 3];
          assert t[i - 1] == rest[i - 4];
        }
      }
    }
  }

  /** The logger each kind of record of the retry loop is written to. */
  function SinkOf(k: Kind): Sink
  {
    if k == RecoveredKind || k == ExhaustedKind then ErrorLog else MainLog
  }

  /** The level each kind of record of the retry loop is written at. */
  function LevelOf(k: Kind): Level
  {
    match k
    case SentKind => Info
    case StatusKind => Warning
    case RetryKind => Warning
    case _ => Error
  }

  /** A record is one of the loop's own kinds, with that kind's logger and level. */
  predicate Tagged(e: Event)
  {
    e.Log? ==> KindOf(e) != OtherKind && e.sink == SinkOf(KindOf(e)) && e.level == LevelOf(KindOf(e))
  }

  /** Every record of the retry loop is a success (main log, info), a bad
      status or a retry notice (main log, warning), an exception (main log,
      error), or a recovery or exhaustion record (error log, error). */
  lemma {:induction false} RetryTraceTagged(file: Path, outcomes: seq<Outcome>, a: nat, maxRetries: nat, interval: nat)
    requires 1 <= a <= maxRetries <= |outcomes|
    ensures forall e :: e in RetryTrace(file, outcomes, a, maxRetries, interval) ==> Tagged(e)
    decreases maxRetries - a
  {
    if Delivered(outcomes[a - 1]) {
      RetryTraceDeliveredStep(file, outcomes, a, maxRetries, interval);
    } else if a == maxRetries {
      RetryTraceLastStep(file, outcomes, a, maxRetries, interval);
    } else {
      RetryTraceFailedStep(file, outcomes, a, maxRetries, interval);
      RetryTraceTagged(file, outcomes, a + 1, maxRetries, interval);
    }
  }
}
