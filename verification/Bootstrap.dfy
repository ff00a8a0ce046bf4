/** The bootstrapper creates a default Configuration if there is none, retrying with
    exponential backoff while the admission webhook is not ready, against an API server that
    users write to at the same time. */
module Bootstrap {
  import opened MergePatch

  /** How one Create request fares: it may be refused without effect, or take effect and
      lose its reply. */
  datatype Fault = NoFault | Refused | ReplyLost

  datatype Reply = Created | AlreadyExists | Failed

  /** One Create attempt, with the stored spec before and after. */
  datatype Attempt<T> = Attempt(before: Option<T>, after: Option<T>, reply: Reply)

  function Create<T>(stored: Option<T>, spec: T, fault: Fault): Attempt<T> {
    if fault == Refused then Attempt(stored, stored, Failed)
    else if stored.Some? then Attempt(stored, stored, if fault == ReplyLost then Failed else AlreadyExists)
    else Attempt(stored, Some(spec), if fault == ReplyLost then Failed else Created)
  }

  datatype Outcome = Done | GaveUp | Cancelled

  const STEPS := 6
  const FIRST_WAIT := 1.0
  const FACTOR := 2.0
  const JITTER := 0.1

  /** Attempt `i` starts from what the others made of the previous result, and never alters a
      spec that is already stored. */
  ghost predicate LegalAt<T>(start: Option<T>, spec: T, others: (nat, Option<T>) -> Option<T>, log: seq<Attempt<T>>,
                             i: nat)
    requires i < |log|
  {
    && log[i].before == others(i, if i == 0 then start else log[i - 1].after)
    && (log[i].before.Some? ==> log[i].after == log[i].before && log[i].reply != Created)
    && (log[i].before.None? ==> log[i].after.None? || log[i].after == Some(spec))
    && (log[i].before.None? ==> log[i].reply != AlreadyExists)
    && (log[i].reply == Created ==> log[i].after == Some(spec))
  }

  /** Every attempt is legal, and nothing follows an attempt that ended well. */
  ghost predicate Legal<T>(start: Option<T>, spec: T, others: (nat, Option<T>) -> Option<T>, log: seq<Attempt<T>>) {
    && (forall i: nat :: i < |log| ==> LegalAt(start, spec, others, log, i))
    && (forall i: nat :: i < |log| - 1 ==> log[i].reply == Failed)
  }

  lemma LegalPrefix<T>(start: Option<T>, spec: T, others: (nat, Option<T>) -> Option<T>, log: seq<Attempt<T>>, n: nat)
    requires Legal(start, spec, others, log) && n <= |log|
    ensures Legal(start, spec, others, log[..n])
  {
    forall i: nat | i < n ensures LegalAt(start, spec, others, log[..n], i) {
      assert LegalAt(start, spec, others, log, i);
    }
  }

  lemma LegalAppend<T>(start: Option<T>, spec: T, others: (nat, Option<T>) -> Option<T>, log: seq<Attempt<T>>,
                       fault: Fault)
    requires Legal(start, spec, others, log) && (log != [] ==> log[|log| - 1].reply == Failed)
    ensures var stored := if log == [] then start else log[|log| - 1].after;
            Legal(start, spec, others, log + [Create(others(|log|, stored), spec, fault)])
  {
    var stored := if log == [] then start else log[|log| - 1].after;
    var longer := log + [Create(others(|log|, stored), spec, fault)];
    forall i: nat | i < |longer| ensures LegalAt(start, spec, others, longer, i) {
      if i < |log| {
        assert LegalAt(start, spec, others, log, i);
      }
    }
  }

  lemma NothingYet<T>(start: Option<T>, spec: T, others: (nat, Option<T>) -> Option<T>)
    ensures Legal(start, spec, others, [])
  {
  }

  /** What the retry loop promises: at most six legal attempts, each with its own fault; it ends well
      exactly if the last attempt did, is cancelled only where the context ended, and gives up only
      after six failures and the waiting between them. A faultless attempt that is reached ends well. */
  ghost predicate Retried<T>(start: Option<T>, spec: T, others: (nat, Option<T>) -> Option<T>, faults: nat -> Fault,
                             cancelled: nat -> bool, log: seq<Attempt<T>>, waited: real, outcome: Outcome) {
    && Legal(start, spec, others, log)
    && |log| <= STEPS && (forall i: nat :: i < |log| ==> !cancelled(i))
    && (forall i :: 0 <= i < |log| ==> log[i] == Create(log[i].before, spec, faults(i)))
    && (outcome == Done <==> log != [] && log[|log| - 1].reply != Failed)
    && (outcome == Cancelled ==> |log| < STEPS && cancelled(|log|))
    && (outcome == GaveUp ==> |log| == STEPS && 31.0 <= waited < 34.1)
    && (forall i: nat :: i < STEPS && faults(i) == NoFault && (forall k: nat :: k <= i ==> !cancelled(k)) ==>
          outcome == Done)
    && ((forall i: nat :: !cancelled(i)) && (forall i: nat :: i < STEPS ==> faults(i) != NoFault) ==>
          outcome == GaveUp)
  }

  /** `others(i, stored)` is what the rest of the world makes of the stored spec before attempt
      `i`; `cancelled(i)` says the context ended before attempt `i`. The wait before attempt
      `i + 1` is 2^i seconds plus less than a tenth. */
  method CreateConfigurationWithRetry<T>(start: Option<T>, spec: T, others: (nat, Option<T>) -> Option<T>,
                                         faults: nat -> Fault, jitter: nat -> real, cancelled: nat -> bool)
    returns (log: seq<Attempt<T>>, waited: real, outcome: Outcome)
    requires forall i: nat :: 0.0 <= jitter(i) < JITTER
    ensures Retried(start, spec, others, faults, cancelled, log, waited, outcome)
  {
    hide Legal, LegalAt;
    log, waited := [], 0.0;
    NothingYet(start, spec, others);
    var steps, duration := STEPS, FIRST_WAIT;
    var stored := start;
    while steps > 0
      invariant 1 <= steps <= STEPS && |log| == STEPS - steps
      invariant stored == if log == [] then start else log[|log| - 1].after
      invariant Legal(start, spec, others, log) && forall i: nat :: i < |log| ==> !cancelled(i)
      invariant forall i :: 0 <= i < |log| ==>
                  log[i] == Create(log[i].before, spec, faults(i)) && log[i].reply == Failed
      invariant duration == [1.0, 2.0, 4.0, 8.0, 16.0, 32.0][|log|]
      invariant duration - 1.0 <= waited <= 1.1 * (duration - 1.0)
      invariant log != [] ==> waited < 1.1 * (duration - 1.0)
    {
      if cancelled(|log|) {
        return log, waited, Cancelled;
      }
      var attempt := Create(others(|log|, stored), spec, faults(|log|));
      LegalAppend(start, spec, others, log, faults(|log|));
      stored := attempt.after;
      log := log + [attempt];
      if attempt.reply != Failed {
        return log, waited, Done;
      }
      if steps == 1 {
        break;
      }
      steps := steps - 1;
      waited := waited + duration * (1.0 + jitter(|log| - 1));
      duration := duration * FACTOR;
    }
    return log, waited, GaveUp;
  }

  datatype Read<T> = Found(value: T) | NotFound | ReadError

  const CONFIG_MAP_DATA_KEY := "configuration.yaml"

  /** Reads before creating: an existing Configuration, a missing or malformed ConfigMap all
      end the bootstrap without a Create; only a failing first read is reported as an error. In every
      other case the parsed spec goes through the whole retry loop. */
  method LoadAndApplyDefaultConfiguration<T>(existing: Read<T>, configMap: Read<map<string, string>>,
                                             parse: string -> Option<T>,
                                             start: Option<T>, others: (nat, Option<T>) -> Option<T>,
                                             faults: nat -> Fault, jitter: nat -> real, cancelled: nat -> bool)
    returns (log: seq<Attempt<T>>, error: bool, waited: real, outcome: Outcome)
    requires forall i: nat :: 0.0 <= jitter(i) < JITTER
    ensures error <==> existing == ReadError
    ensures if existing == NotFound && configMap.Found? && CONFIG_MAP_DATA_KEY in configMap.value
               && parse(configMap.value[CONFIG_MAP_DATA_KEY]).Some?
            then Retried(start, parse(configMap.value[CONFIG_MAP_DATA_KEY]).value, others, faults, cancelled, log,
                         waited,
                         outcome)
            else log == []
  {
    log, error, waited, outcome := [], false, 0.0, Done;
    if existing.Found? {
      return;
    }
    if existing.ReadError? {
      error := true;
      return;
    }
    if !configMap.Found? || CONFIG_MAP_DATA_KEY !in configMap.value {
      return;
    }
    var spec := parse(configMap.value[CONFIG_MAP_DATA_KEY]);
    if spec.None? {
      return;
    }
    log, waited, outcome := CreateConfigurationWithRetry(start, spec.value, others, faults, jitter, cancelled);
  }

  function Successes<T>(log: seq<Attempt<T>>): nat {
    if log == [] then 0
    else Successes(log[..|log| - 1]) + if log[|log| - 1].reply == Created then 1 else 0
  }

  /** At most one attempt succeeds, and only the last one can. */
  lemma {:induction false} AtMostOneSuccess<T>(start: Option<T>, spec: T, others: (nat, Option<T>) -> Option<T>,
                                               log: seq<Attempt<T>>)
    requires Legal(start, spec, others, log)
    ensures Successes(log) == if log != [] && log[|log| - 1].reply == Created then 1 else 0
    decreases |log|
  {
    if log != [] {
      LegalPrefix(start, spec, others, log, |log| - 1);
      AtMostOneSuccess(start, spec, others, log[..|log| - 1]);
    }
  }

  /** If the others never remove or edit a Configuration, the first one ever stored stays. */
  lemma {:induction false} FirstSpecStays<T>(start: Option<T>, spec: T, others: (nat, Option<T>) -> Option<T>,
                                             log: seq<Attempt<T>>, i: nat, j: nat)
    requires Legal(start, spec, others, log) && i <= j < |log|
    requires forall k: nat, v: T :: others(k, Some(v)) == Some(v)
    requires log[i].after.Some?
    ensures log[j].after == log[i].after
    decreases j - i
  {
    if i < j {
      FirstSpecStays(start, spec, others, log, i, j - 1);
      assert LegalAt(start, spec, others, log, j);
      assert log[j].before == others(j, log[j - 1].after);
    }
  }
}
