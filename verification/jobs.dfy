/** Scrape jobs and the static split of one job into per-worker sub-jobs
    (`ScrapeJob` and `JobManager` in main.py). */
module Jobs {
  import opened Py

  const DEFAULT_LETTERS := "ABCDEFGHIJKLMNOPQRSTUVWXYZ"
  const DEFAULT_THREADS := 5
  const MIN_THREADS := 1
  const MAX_THREADS := 10

  /** A job with every key present. An end of None means "to the last
      element on the page". */
  datatype Job = Job(
    deep: bool,
    letters: string,
    subjectStart: int,
    subjectStep: int,
    subjectEnd: Option<int>,
    courseStart: int,
    courseEnd: Option<int>)

  /** The keyword arguments a `ScrapeJob` is built from: each key may be
      missing, and an end key may be present with the value None. */
  datatype RawJob = RawJob(
    deep: Option<bool>,
    letters: Option<string>,
    subjectStart: Option<int>,
    subjectStep: Option<int>,
    subjectEnd: Option<Option<int>>,
    courseStart: Option<int>,
    courseEnd: Option<Option<int>>)

  const NO_KEYS := RawJob(None, None, None, None, None, None, None)

  /** The job configuration: a `ScrapeJob` or a plain dict. */
  datatype ConfigJob = Filled(job: Job) | Plain(raw: RawJob)

  datatype Config = Config(threads: Option<int>, job: Option<ConfigJob>)

  /** `ScrapeJob(**kwargs)`: every missing key gets its default. */
  function FillDefaults(raw: RawJob): (j: Job)
    ensures raw.deep.Some? ==> j.deep == raw.deep.value
    ensures raw.letters.Some? ==> j.letters == raw.letters.value
    ensures raw.subjectStart.Some? ==> j.subjectStart == raw.subjectStart.value
    ensures raw.subjectStep.Some? ==> j.subjectStep == raw.subjectStep.value
    ensures raw.subjectEnd.Some? ==> j.subjectEnd == raw.subjectEnd.value
    ensures raw.courseStart.Some? ==> j.courseStart == raw.courseStart.value
    ensures raw.courseEnd.Some? ==> j.courseEnd == raw.courseEnd.value
    ensures raw.deep.None? ==> j.deep
    ensures raw.letters.None? ==> j.letters == DEFAULT_LETTERS
    ensures raw.subjectStart.None? ==> j.subjectStart == 0
    ensures raw.subjectStep.None? ==> j.subjectStep == 1
    ensures raw.subjectEnd.None? ==> j.subjectEnd.None?
    ensures raw.courseStart.None? ==> j.courseStart == 0
    ensures raw.courseEnd.None? ==> j.courseEnd.None?
    ensures raw == NO_KEYS ==> j == Job(true, DEFAULT_LETTERS, 0, 1, None, 0, None)
  {
    Job(raw.deep.GetOr(true),
        raw.letters.GetOr(DEFAULT_LETTERS),
        raw.subjectStart.GetOr(0),
        raw.subjectStep.GetOr(1),
        raw.subjectEnd.GetOr(None),
        raw.courseStart.GetOr(0),
        raw.courseEnd.GetOr(None))
  }

  /** A job seen as the dict it is, every key present. */
  function AsRaw(j: Job): RawJob {
    RawJob(Some(j.deep), Some(j.letters), Some(j.subjectStart), Some(j.subjectStep),
           Some(j.subjectEnd), Some(j.courseStart), Some(j.courseEnd))
  }

  /** Copying a job through `ScrapeJob(job)` changes nothing, so filling
      defaults twice is filling them once. */
  lemma FillDefaultsIdempotent(raw: RawJob)
    ensures FillDefaults(AsRaw(FillDefaults(raw))) == FillDefaults(raw)
    ensures forall j: Job :: FillDefaults(AsRaw(j)) == j
  {
  }

  /** `max(min(threads, 10), 1)` with a default of 5. */
  function ClampThreads(threads: Option<int>): (t: int)
    ensures MIN_THREADS <= t <= MAX_THREADS
    ensures threads.Some? && MIN_THREADS <= threads.value <= MAX_THREADS ==> t == threads.value
    ensures threads.Some? && threads.value < MIN_THREADS ==> t == MIN_THREADS
    ensures threads.Some? && threads.value > MAX_THREADS ==> t == MAX_THREADS
    ensures threads.None? ==> t == DEFAULT_THREADS
  {
    var v := threads.GetOr(DEFAULT_THREADS);
    var m := if v < MAX_THREADS then v else MAX_THREADS;
    if m > MIN_THREADS then m else MIN_THREADS
  }

  /** `int((threads - 1) / len(letters) + 1)`. On non-negative operands
      Python's division floors like Dafny's; no letters divides by zero. */
  function ThreadsPerLetter(threads: int, letterCount: nat): (r: Result<int>)
    requires threads >= 1
    ensures letterCount == 0 <==> r == Err(ZeroDivisionError)
    ensures letterCount > 0 ==> r.Ok? && r.value >= 1
  {
    if letterCount == 0 then Err(ZeroDivisionError) else Ok((threads - 1) / letterCount + 1)
  }

  /** The split gives each letter the ceiling of threads / letters: the
      smallest per-letter count that uses at least every thread. */
  lemma ThreadsPerLetterIsCeiling(threads: int, letterCount: nat)
    requires threads >= 1 && letterCount > 0
    ensures var tpl := ThreadsPerLetter(threads, letterCount).value;
            tpl * letterCount >= threads && (tpl - 1) * letterCount < threads
  {
    var q := (threads - 1) / letterCount;
    var r := (threads - 1) % letterCount;
    assert threads - 1 == q * letterCount + r;
    assert (q + 1) * letterCount == q * letterCount + letterCount;
  }

  /** `self.config["job"]` after `__init__`, and its letters: a plain dict
      without a "letters" key raises KeyError. */
  function BaseJob(config: Config): (r: Result<Job>)
    ensures config.job.None? ==> r == Ok(FillDefaults(NO_KEYS))
    ensures config.job.Some? && config.job.value.Filled? ==> r == Ok(config.job.value.job)
    ensures r.Err? <==> config.job.Some? && config.job.value.Plain? && config.job.value.raw.letters.None?
  {
    match config.job
    case None => Ok(FillDefaults(NO_KEYS))
    case Some(Filled(j)) => Ok(j)
    case Some(Plain(raw)) =>
      if raw.letters.None? then Err(KeyError) else Ok(FillDefaults(raw))
  }

  /** The sub-job for slot s of one letter. */
  function SubJob(base: Job, letter: char, s: int, tpl: int): Job {
    base.(letters := [letter], subjectStart := s, subjectStep := tpl)
  }

  /** Where slot s of the a-th letter sits in the queue: after a full
      groups of tpl sub-jobs. */
  function QueuePos(a: nat, tpl: nat, s: nat): (p: nat)
    ensures p == a * tpl + s
  {
    if a == 0 then s else tpl + QueuePos(a - 1, tpl, s)
  }

  lemma {:induction false} QueuePosBounds(a: nat, count: nat, tpl: nat, s: nat)
    requires a < count && s < tpl
    ensures QueuePos(a, tpl, s) < count * tpl
  {
    if a > 0 {
      QueuePosBounds(a - 1, count - 1, tpl, s);
      assert count * tpl == (count - 1) * tpl + tpl;
    }
  }

  /** The sub-jobs of letters[i..], letter-major, then slot ascending. */
  function SplitLetters(base: Job, letters: string, i: nat, tpl: nat): (jobs: seq<Job>)
    requires i <= |letters|
    ensures |jobs| == (|letters| - i) * tpl
    ensures forall a: nat, s: nat :: a < |letters| - i && s < tpl ==>
              QueuePos(a, tpl, s) < |jobs| && jobs[QueuePos(a, tpl, s)] == SubJob(base, letters[i + a], s, tpl)
    decreases |letters| - i
  {
    if i == |letters| then []
    else
      var here := seq(tpl, s requires 0 <= s < tpl => SubJob(base, letters[i], s, tpl));
      var rest := SplitLetters(base, letters, i + 1, tpl);
      assert (|letters| - i) * tpl == tpl + (|letters| - i - 1) * tpl;
      assert forall a: nat, s: nat :: a < |letters| - i && s < tpl ==>
               QueuePos(a, tpl, s) < |here + rest| && (here + rest)[QueuePos(a, tpl, s)] == SubJob(base, letters[i + a], s, tpl) by {
        forall a: nat, s: nat | a < |letters| - i && s < tpl
          ensures QueuePos(a, tpl, s) < |here + rest| && (here + rest)[QueuePos(a, tpl, s)] == SubJob(base, letters[i + a], s, tpl)
        {
          QueuePosBounds(a, |letters| - i, tpl, s);
        }
      }
      here + rest
  }

  /** `JobManager.__init__` then `make_jobs`: the sub-jobs enqueued, or the
      exception `make_jobs` raises. */
  function MakeJobs(config: Config): (r: Result<seq<Job>>)
    ensures r.Ok? <==> BaseJob(config).Ok? && BaseJob(config).value.letters != []
    ensures r.Ok? ==>
              BaseJob(config).Ok? && BaseJob(config).value.letters != [] &&
              var base := BaseJob(config).value;
              var tpl := ThreadsPerLetter(ClampThreads(config.threads), |base.letters|).value;
              && |r.value| == |base.letters| * tpl
              && forall a: nat, s: nat :: a < |base.letters| && s < tpl ==>
                   QueuePos(a, tpl, s) < |r.value| && r.value[QueuePos(a, tpl, s)] == SubJob(base, base.letters[a], s, tpl)
    ensures BaseJob(config).Err? ==> r == Err(KeyError)
    ensures BaseJob(config).Ok? && BaseJob(config).value.letters == [] ==> r == Err(ZeroDivisionError)
  {
    var base :- BaseJob(config);
    var tpl :- ThreadsPerLetter(ClampThreads(config.threads), |base.letters|);
    Ok(SplitLetters(base, base.letters, 0, tpl))
  }

  /** The subject indices a job's step pattern admits (before the page's
      subject count and the job's end bound are applied). */
  predicate Admits(j: Job, n: int) {
    n >= j.subjectStart && j.subjectStep > 0 && (n - j.subjectStart) % j.subjectStep == 0
  }

  /** The slot whose class holds index n. */
  function SlotOf(n: nat, tpl: int): (s: nat)
    requires tpl > 0
    ensures s < tpl
  {
    n % tpl
  }

  /** For one letter the slots' index classes partition the indices: every
      index n >= 0 is admitted by the sub-job of slot n % tpl and by no
      other sub-job of that letter. */
  lemma SlotsPartitionIndices(config: Config, a: nat, n: nat)
    requires MakeJobs(config).Ok?
    requires a < |BaseJob(config).value.letters|
    ensures var base := BaseJob(config).value;
            var tpl := ThreadsPerLetter(ClampThreads(config.threads), |base.letters|).value;
            var jobs := MakeJobs(config).value;
            && Admits(jobs[QueuePos(a, tpl, SlotOf(n, tpl))], n)
            && forall s: nat :: s < tpl && Admits(jobs[QueuePos(a, tpl, s)], n) ==> s == SlotOf(n, tpl)
  {
    var base := BaseJob(config).value;
    var tpl := ThreadsPerLetter(ClampThreads(config.threads), |base.letters|).value;
    var jobs := MakeJobs(config).value;
    assert forall s: nat :: s < tpl ==> jobs[QueuePos(a, tpl, s)] == SubJob(base, base.letters[a], s, tpl);
    SubJobsPartition(base, base.letters[a], tpl, n);
  }

  /** The sub-jobs of one letter split the indices by residue. */
  lemma SubJobsPartition(base: Job, letter: char, tpl: int, n: nat)
    requires tpl > 0
    ensures Admits(SubJob(base, letter, SlotOf(n, tpl), tpl), n)
    ensures forall s: nat :: s < tpl && Admits(SubJob(base, letter, s, tpl), n) ==> s == SlotOf(n, tpl)
  {
    ResidueOwnsIndex(n, tpl);
    forall s: nat | s < tpl && Admits(SubJob(base, letter, s, tpl), n)
      ensures s == SlotOf(n, tpl)
    {
      ResidueUnique(n, s, tpl);
    }
  }

  lemma ResidueOwnsIndex(n: nat, m: int)
    requires m > 0
    ensures n >= n % m && (n - n % m) % m == 0
  {
    DivMod(n, m, n / m, n % m);
  }

  lemma ResidueUnique(n: nat, s: nat, m: int)
    requires m > 0 && s < m && n >= s && (n - s) % m == 0
    ensures s == n % m
  {
    var k := (n - s) / m;
    assert n - s == k * m + 0;
    assert n == k * m + s;
    DivMod(n, m, k, s);
  }

  /** Euclidean division is unique: n = q*m + r with 0 <= r < m fixes both
      q and r, and n - r is then a multiple of m. */
  lemma DivMod(n: int, m: int, q: int, r: int)
    requires m > 0 && n == q * m + r && 0 <= r < m
    ensures n / m == q && n % m == r
    ensures (n - r) % m == 0
  {
    var q', r' := n / m, n % m;
    assert n == q' * m + r';
    assert (q - q') * m == r' - r;
    MulSmall(q - q', m);
    assert n - r == q * m + 0;
    var q2, r2 := (n - r) / m, (n - r) % m;
    assert (q - q2) * m == r2;
    MulSmall(q - q2, m);
  }

  lemma MulSmall(x: int, m: int)
    requires m > 0 && -m < x * m < m
    ensures x == 0
  {
    if x > 0 {
      MulAtLeast(x, m);
    } else if x < 0 {
      MulAtLeast(-x, m);
    }
  }

  lemma {:induction false} MulAtLeast(x: int, m: int)
    requires x >= 1 && m > 0
    ensures x * m >= m
  {
    if x > 1 {
      MulAtLeast(x - 1, m);
      assert x * m == (x - 1) * m + m;
    }
  }

  /** Letters "AB" with 4 threads give two sub-jobs per letter, starting at
      0 and 1 with step 2. */
  lemma TwoLettersFourThreads()
    ensures var config := Config(Some(4), Some(Filled(FillDefaults(NO_KEYS.(letters := Some("AB"), deep := Some(false))))));
            var jobs := MakeJobs(config).value;
            && |jobs| == 4
            && jobs[0].letters == "A" && jobs[0].subjectStart == 0 && jobs[0].subjectStep == 2
            && jobs[1].letters == "A" && jobs[1].subjectStart == 1 && jobs[1].subjectStep == 2
            && jobs[2].letters == "B" && jobs[2].subjectStart == 0 && jobs[2].subjectStep == 2
            && jobs[3].letters == "B" && jobs[3].subjectStart == 1 && jobs[3].subjectStep == 2
            && forall k :: 0 <= k < 4 ==> !jobs[k].deep
  {
    var config := Config(Some(4), Some(Filled(FillDefaults(NO_KEYS.(letters := Some("AB"), deep := Some(false))))));
    assert ThreadsPerLetter(4, 2) == Ok(2);
    var jobs := MakeJobs(config).value;
    assert jobs[QueuePos(0, 2, 0)] == SubJob(BaseJob(config).value, 'A', 0, 2);
    assert jobs[QueuePos(0, 2, 1)] == SubJob(BaseJob(config).value, 'A', 1, 2);
    assert jobs[QueuePos(1, 2, 0)] == SubJob(BaseJob(config).value, 'B', 0, 2);
    assert jobs[QueuePos(1, 2, 1)] == SubJob(BaseJob(config).value, 'B', 1, 2);
  }
}
