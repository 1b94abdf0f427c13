/**
 The firmware download loop of the OTA sample: `process_ota` with its retries. The answers of the network,
 the file system and the OTA service are a script; a script that is too short leaves the process running.
 */
module Ota {
  import opened CString

  const MAX_RETRIES: nat := 5
  const CHUNK: int := 50 * 1024
  const NOT_EXIST: int := -6
  const AUTH_FAIL: int := -7

  /** `int`, the offsets in it, and `uint32_t`. */
  type Int32 = x: int | -0x8000_0000 <= x < 0x8000_0000
  type Offset = x: int | 0 <= x < 0x8000_0000
  type UInt32 = x: int | 0 <= x < 0x1_0000_0000

  /** Subtraction wraps around. */
  function Subtract(a: Int32, b: Int32): (r: Int32)
    ensures a >= 0 && b >= 0 ==> r == a - b
  {
    (a - b + 0x8000_0000) % 0x1_0000_0000 - 0x8000_0000
  }

  /** So does counting. */
  function Next(n: UInt32): (r: UInt32)
    ensures n < 0xffff_ffff ==> r == n + 1
  {
    (n + 1) % 0x1_0000_0000
  }

  // ----- what the environment answers

  /** One pass through the fetch loop. */
  datatype Fetch = Fetch(
    len: int,          // IOT_OTA_FetchYield
    saved: bool,       // the data could be written
    size: Int32,       // IOT_OTAG_FETCHED_SIZE
    connection: bool,  // IOT_MQTT_Yield reports no error
    finished: bool     // IOT_OTA_IsFetchFinish
  )

  /** One attempt, from `begin_of_ota` to `end_of_ota`. */
  datatype Attempt = Attempt(
    fileSize: UInt32,   // IOT_OTAG_FILE_SIZE
    localSize: Offset,  // the offset in the local info file, 0 if there is none
    sameVersion: bool,  // the local version is the remote one
    digested: bool,     // the digest of the local part could be computed
    started: bool,      // IOT_OTA_StartDownload
    fetches: seq<Fetch>,
    valid: bool,        // IOT_OTAG_CHECK_FIRMWARE
    connected: bool     // IOT_MQTT_IsConnected, at the end of the attempt
  )

  /** What the process does that can be seen from outside. */
  datatype Event =
    | Start(offset: Offset)           // IOT_OTA_StartDownload
    | Skip                            // the local part is the whole file
    | Save(at: Int32, len: int)       // data is written to the file
    | Check(valid: bool)
    | Retry
    | ReportSuccess
    | ReportFail

  /** The part of the context that outlives an attempt. */
  datatype Context = Context(downloaded: Int32, failures: UInt32)

  datatype End = Running | Failed | Passed

  // ----- one attempt

  function Unsigned(x: Int32): UInt32 {
    x % 0x1_0000_0000
  }

  /** `_update_fw_downloaded_size`. */
  function ResumeAt(a: Attempt, downloaded: Int32): Offset {
    if a.localSize == 0 || !a.sameVersion || Unsigned(downloaded) > a.fileSize || !a.digested then 0 else a.localSize
  }

  predicate GivesUp(len: int) {
    len == NOT_EXIST || len == AUTH_FAIL
  }

  /** The fetch loop. */
  function Download(fs: seq<Fetch>, c: Context): (End, Context, seq<Event>) {
    if fs == [] then (Running, c, [])
    else
      var f := fs[0];
      if f.len <= 0 then (Failed, if GivesUp(f.len) then c.(failures := MAX_RETRIES) else c, [])
      else
        var save := [Save(c.downloaded, f.len)];
        if !f.saved then (Failed, c.(failures := MAX_RETRIES), save)
        else
          var c1 := c.(downloaded := f.size);
          if !f.connection then (Failed, c1, save)
          else if f.finished then (Passed, c1, save)
          else
            var (end, c2, log) := Download(fs[1..], c1);
            (end, c2, save + log)
  }

  /** The firmware is checked if the download is complete. */
  function Try(a: Attempt, c: Context): (End, Context, seq<Event>) {
    var c1 := c.(downloaded := ResumeAt(a, c.downloaded));
    if a.fileSize == c1.downloaded then (if a.valid then Passed else Failed, c1, [Skip, Check(a.valid)])
    else
      var start := [Start(c1.downloaded)];
      if !a.started then (Failed, c1, start)
      else
        var (end, c2, log) := Download(a.fetches, c1);
        if end.Passed? then (if a.valid then Passed else Failed, c2, start + log + [Check(a.valid)])
        else (end, c2, start + log)
  }

  // ----- the whole process

  /** The events, the context left behind, and the result if there is one. */
  datatype Outcome = Outcome(log: seq<Event>, context: Context, result: Option<bool>)

  function Logged(log: seq<Event>, o: Outcome): Outcome {
    o.(log := log + o.log)
  }

  /** From `begin_of_ota`. */
  function FromBegin(c: Context, last: Int32, attempts: seq<Attempt>): Outcome
    decreases |attempts|, 0
  {
    if attempts == [] then Outcome([], c, None)
    else
      var (end, c1, log) := Try(attempts[0], c);
      match end
      case Running => Outcome(log, c1, None)
      case Passed => Outcome(log + [ReportSuccess], c1.(failures := 0), Some(true))
      case Failed => Logged(log, FromEnd(c1, last, attempts[0].connected, attempts[1..]))
  }

  /** A failure counts unless exactly one chunk was fetched since the last retry. */
  function Counted(c: Context, last: Int32): Context {
    if Subtract(c.downloaded, last) != CHUNK then c.(failures := Next(c.failures)) else c
  }

  /** From `end_of_ota`, after a failure. */
  function FromEnd(c: Context, last: Int32, connected: bool, attempts: seq<Attempt>): Outcome
    decreases |attempts|, 1
  {
    if !connected then Outcome([], c, Some(false))
    else
      var c1 := Counted(c, last);
      if c1.failures <= MAX_RETRIES then Logged([Retry], FromBegin(c1, c1.downloaded, attempts))
      else Outcome([ReportFail], c1.(failures := 0), Some(false))
  }

  /** `process_ota`; `reported` and `connected` answer the version report that comes first. */
  function Process(c: Context, reported: bool, connected: bool, attempts: seq<Attempt>): Outcome {
    if reported then FromBegin(c, 0, attempts) else FromEnd(c, 0, connected, attempts)
  }

  lemma LogTwice(a: seq<Event>, b: seq<Event>, o: Outcome)
    ensures Logged(a, Logged(b, o)) == Logged(a + b, o)
  {
    assert a + (b + o.log) == a + b + o.log;
  }

  // ----- the code

  function WithLog(log: seq<Event>, d: (End, Context, seq<Event>)): (End, Context, seq<Event>) {
    (d.0, d.1, log + d.2)
  }

  /** One pass through the fetch loop that goes on, with what was logged before. */
  lemma DownloadGoesOn(fs: seq<Fetch>, c: Context, log: seq<Event>)
    requires fs != [] && !Stops(fs[0])
    ensures WithLog(log, Download(fs, c))
         == WithLog(log + [Save(c.downloaded, fs[0].len)], Download(fs[1..], c.(downloaded := fs[0].size)))
  {
    var save, rest := [Save(c.downloaded, fs[0].len)], Download(fs[1..], c.(downloaded := fs[0].size)).2;
    assert log + (save + rest) == log + save + rest;
  }

  /** One that stops. */
  lemma DownloadStops(fs: seq<Fetch>, c: Context, log: seq<Event>)
    requires fs != [] && Stops(fs[0])
    ensures Download(fs, c).2 == if fs[0].len > 0 then [Save(c.downloaded, fs[0].len)] else []
    ensures log + [] == log
  {
  }

  class OtaContext {
    var downloaded: Int32
    var failures: UInt32
    /** The calls made to the OTA service, and the retries. */
    var log: seq<Event>

    constructor (downloaded: Int32, failures: UInt32)
      ensures this.downloaded == downloaded && this.failures == failures && log == []
    {
      this.downloaded, this.failures, this.log := downloaded, failures, [];
    }

    function Now(): Context
      reads this
    {
      Context(downloaded, failures)
    }

    /** The inner loop. */
    method FetchAll(fs: seq<Fetch>) returns (end: End)
      modifies this
      ensures var d := Download(fs, old(Now())); end == d.0 && Now() == d.1 && log == old(log) + d.2
    {
      ghost var goal := WithLog(log, Download(fs, Now()));
      var i := 0;
      assert fs[0..] == fs;
      while i < |fs|
        invariant 0 <= i <= |fs|
        invariant WithLog(log, Download(fs[i..], Now())) == goal
      {
        assert fs[i..][1..] == fs[i + 1..];
        if Stops(fs[i]) {
          DownloadStops(fs[i..], Now(), log);
        } else {
          DownloadGoesOn(fs[i..], Now(), log);
        }
        var f := fs[i];
        if f.len > 0 {
          log := log + [Save(downloaded, f.len)];
          if !f.saved {
            failures := MAX_RETRIES;
            return Failed;
          }
        } else {
          if f.len == AUTH_FAIL || f.len == NOT_EXIST {
            failures := MAX_RETRIES;
          }
          return Failed;
        }
        downloaded := f.size;
        if !f.connection {
          return Failed;
        }
        if f.finished {
          return Passed;
        }
        i := i + 1;
      }
      assert log + [] == log;
      return Running;
    }

    /** From `begin_of_ota` to the end of the attempt. */
    method TryOnce(a: Attempt) returns (end: End)
      modifies this
      ensures var t := Try(a, old(Now())); end == t.0 && Now() == t.1 && log == old(log) + t.2
    {
      if a.localSize == 0 || !a.sameVersion || Unsigned(downloaded) > a.fileSize {
        downloaded := 0;
      } else {
        downloaded := a.localSize;
        if !a.digested {
          downloaded := 0;
        }
      }
      if a.fileSize == downloaded {
        log := log + [Skip];
      } else {
        log := log + [Start(downloaded)];
        if !a.started {
          return Failed;
        }
        end := FetchAll(a.fetches);
        if end != Passed {
          return;
        }
      }
      log := log + [Check(a.valid)];
      end := if a.valid then Passed else Failed;
    }

    /** `process_ota`. */
    method ProcessOta(reported: bool, connected: bool, attempts: seq<Attempt>) returns (result: Option<bool>)
      modifies this
      ensures Logged(old(log), Process(old(Now()), reported, connected, attempts)) == Outcome(log, Now(), result)
    {
      ghost var goal := Logged(log, Process(Now(), reported, connected, attempts));
      var last: Int32 := 0;
      result := None;
      if !reported {
        var again;
        again, result := EndOfOta(last, connected, attempts);
        if !again { return; }
        last := downloaded;
      }
      var i := 0;
      assert attempts[0..] == attempts;
      while i < |attempts|
        invariant 0 <= i <= |attempts|
        invariant goal == Logged(log, FromBegin(Now(), last, attempts[i..])) && result == None
      {
        assert attempts[i..][1..] == attempts[i + 1..];
        var again;
        again, result := Round(attempts[i], last, attempts[i..]);
        if !again { return; }
        last := downloaded;
        i := i + 1;
      }
      LoggedNothing(log, Now());
    }

    /** One attempt and the code after `end_of_ota`. */
    method Round(a: Attempt, last: Int32, ghost attempts: seq<Attempt>) returns (again: bool, result: Option<bool>)
      requires attempts != [] && a == attempts[0]
      modifies this
      ensures var o := Logged(old(log), FromBegin(old(Now()), last, attempts));
              if again then result == None && o == Logged(log, FromBegin(Now(), downloaded, attempts[1..]))
              else o == Outcome(log, Now(), result)
    {
      ghost var before, tried := log, Try(a, Now());
      var end := TryOnce(a);
      again, result := false, None;
      if end == Running {
        return;
      }
      if end == Passed {
        assert before + (tried.2 + [ReportSuccess]) == log + [ReportSuccess];
        log := log + [ReportSuccess];
        failures := 0;
        result := Some(true);
        return;
      }
      LogTwice(before, tried.2, FromEnd(Now(), last, a.connected, attempts[1..]));
      again, result := EndOfOta(last, a.connected, attempts[1..]);
    }

    /** The code after `end_of_ota`, for a failure. */
    method EndOfOta(last: Int32, connected: bool, ghost attempts: seq<Attempt>) returns (again: bool, result: Option<bool>)
      modifies this
      ensures var o := Logged(old(log), FromEnd(old(Now()), last, connected, attempts));
              if again then result == None && o == Logged(log, FromBegin(Now(), downloaded, attempts))
              else o == Outcome(log, Now(), result)
    {
      again, result := false, Some(false);
      if !connected {
        assert log + [] == log;
        return;
      }
      if Subtract(downloaded, last) != CHUNK {
        failures := Next(failures);
      }
      if failures <= MAX_RETRIES {
        LogTwice(log, [Retry], FromBegin(Now(), downloaded, attempts));
        log := log + [Retry];
        again, result := true, None;
      } else {
        failures := 0;
        log := log + [ReportFail];
      }
    }
  }

  lemma LoggedNothing(log: seq<Event>, c: Context)
    ensures Logged(log, Outcome([], c, None)) == Outcome(log, c, None)
  {
    assert log + [] == log;
  }

  // ----- success is reported only for checked firmware

  /** A report of success comes last, right after a firmware check that passed, and decides the result. */
  ghost predicate Honest(o: Outcome) {
    var n := |o.log|;
    && (forall k :: 0 <= k < n && o.log[k] == ReportSuccess ==> k == n - 1 && k > 0 && o.log[k - 1] == Check(true))
    && (o.result == Some(true) <==> n > 0 && o.log[n - 1] == ReportSuccess)
  }

  lemma LoggedHonest(log: seq<Event>, o: Outcome)
    requires Honest(o) && forall e :: e in log ==> e != ReportSuccess
    ensures Honest(Logged(log, o))
  {
    var l := log + o.log;
    assert forall k :: 0 <= k < |log| ==> l[k] == log[k] && log[k] in log;
    forall k | 0 <= k < |l| && l[k] == ReportSuccess ensures k == |l| - 1 && k > 0 && l[k - 1] == Check(true) {
      assert k >= |log|;
    }
    if o.log == [] && l != [] {
      assert l[|l| - 1] in log;
    }
  }

  lemma QuietHonest(log: seq<Event>, c: Context)
    requires forall e :: e in log ==> e != ReportSuccess
    ensures Honest(Outcome(log, c, None))
    ensures log != [] && log[|log| - 1] == Check(true) ==> Honest(Outcome(log + [ReportSuccess], c.(failures := 0), Some(true)))
  {
    assert forall k :: 0 <= k < |log| ==> log[k] in log;
  }

  lemma {:induction false} BeginHonest(c: Context, last: Int32, attempts: seq<Attempt>)
    ensures Honest(FromBegin(c, last, attempts))
    decreases |attempts|, 0
  {
    if attempts != [] {
      var t := Try(attempts[0], c);
      TryLog(attempts[0], c);
      QuietHonest(t.2, t.1);
      if t.0 == Failed {
        EndHonest(t.1, last, attempts[0].connected, attempts[1..]);
        LoggedHonest(t.2, FromEnd(t.1, last, attempts[0].connected, attempts[1..]));
      }
    }
  }

  lemma {:induction false} EndHonest(c: Context, last: Int32, connected: bool, attempts: seq<Attempt>)
    ensures Honest(FromEnd(c, last, connected, attempts))
    decreases |attempts|, 1
  {
    if connected {
      var c1 := Counted(c, last);
      if c1.failures <= MAX_RETRIES {
        BeginHonest(c1, c1.downloaded, attempts);
        LoggedHonest([Retry], FromBegin(c1, c1.downloaded, attempts));
      }
    }
  }

  lemma SuccessIsChecked(c: Context, reported: bool, connected: bool, attempts: seq<Attempt>)
    ensures Honest(Process(c, reported, connected, attempts))
  {
    if reported {
      BeginHonest(c, 0, attempts);
    } else {
      EndHonest(c, 0, connected, attempts);
    }
  }

  // ----- the retries

  function Retries(log: seq<Event>): nat {
    if log == [] then 0 else (if log[0] == Retry then 1 else 0) + Retries(log[1..])
  }

  lemma {:induction false} RetriesConcat(a: seq<Event>, b: seq<Event>)
    ensures Retries(a + b) == Retries(a) + Retries(b)
  {
    if a == [] {
      assert a + b == b;
    } else {
      RetriesConcat(a[1..], b);
      assert (a + b)[1..] == a[1..] + b;
    }
  }

  /** Every size the process can see in an attempt is at most `b`. */
  predicate SizesWithin(a: Attempt, b: nat) {
    a.localSize <= b && forall f :: f in a.fetches ==> 0 <= f.size <= b
  }

  predicate AllWithin(attempts: seq<Attempt>, b: nat) {
    forall a :: a in attempts ==> SizesWithin(a, b)
  }

  lemma {:induction false} DownloadKeeps(fs: seq<Fetch>, c: Context, b: nat)
    requires c.failures <= MAX_RETRIES
    ensures c.failures <= Download(fs, c).1.failures <= MAX_RETRIES
    ensures 0 <= c.downloaded <= b && (forall f :: f in fs ==> 0 <= f.size <= b) ==> 0 <= Download(fs, c).1.downloaded <= b
  {
    if fs != [] {
      DownloadKeeps(fs[1..], c.(downloaded := fs[0].size), b);
    }
  }

  lemma {:induction false} DownloadLog(fs: seq<Fetch>, c: Context)
    ensures forall e :: e in Download(fs, c).2 ==> e.Save?
  {
    if fs != [] {
      DownloadLog(fs[1..], c.(downloaded := fs[0].size));
    }
  }

  lemma {:induction false} NoRetries(log: seq<Event>)
    requires forall e :: e in log ==> !e.Retry?
    ensures Retries(log) == 0
  {
    if log != [] {
      NoRetries(log[1..]);
    }
  }

  /** An attempt logs no retry and no report. */
  lemma TryLog(a: Attempt, c: Context)
    ensures forall e :: e in Try(a, c).2 ==> e.Start? || e.Skip? || e.Save? || e.Check?
    ensures Try(a, c).0 == Passed ==> Try(a, c).2 != [] && Try(a, c).2[|Try(a, c).2| - 1] == Check(true)
    ensures Retries(Try(a, c).2) == 0
  {
    DownloadLog(a.fetches, c.(downloaded := ResumeAt(a, c.downloaded)));
    NoRetries(Try(a, c).2);
  }

  /** An attempt does not lower the count of failures, nor raise it past the limit. */
  lemma TryKeeps(a: Attempt, c: Context, b: nat)
    requires c.failures <= MAX_RETRIES
    ensures c.failures <= Try(a, c).1.failures <= MAX_RETRIES
    ensures SizesWithin(a, b) ==> 0 <= Try(a, c).1.downloaded <= b
    ensures Retries(Try(a, c).2) == 0
  {
    TryLog(a, c);
    DownloadKeeps(a.fetches, c.(downloaded := ResumeAt(a, c.downloaded)), b);
  }

  /** The count of failures never leaves the process above the limit. */
  lemma {:induction false} BeginFailures(c: Context, last: Int32, attempts: seq<Attempt>)
    requires c.failures <= MAX_RETRIES
    ensures FromBegin(c, last, attempts).context.failures <= MAX_RETRIES
    decreases |attempts|, 0
  {
    if attempts != [] {
      TryKeeps(attempts[0], c, 0);
      EndFailures(Try(attempts[0], c).1, last, attempts[0].connected, attempts[1..]);
    }
  }

  lemma {:induction false} EndFailures(c: Context, last: Int32, connected: bool, attempts: seq<Attempt>)
    requires c.failures <= MAX_RETRIES
    ensures FromEnd(c, last, connected, attempts).context.failures <= MAX_RETRIES
    decreases |attempts|, 1
  {
    var c1 := Counted(c, last);
    if c1.failures <= MAX_RETRIES {
      BeginFailures(c1, c1.downloaded, attempts);
    }
  }

  lemma FailuresBounded(c: Context, reported: bool, connected: bool, attempts: seq<Attempt>)
    requires c.failures <= MAX_RETRIES
    ensures Process(c, reported, connected, attempts).context.failures <= MAX_RETRIES
  {
    if reported {
      BeginFailures(c, 0, attempts);
    } else {
      EndFailures(c, 0, connected, attempts);
    }
  }

  /** Retries left: each of the failures left restarts the count of chunks. */
  function Budget(failures: nat, last: int, b: nat): int
    requires failures <= MAX_RETRIES
  {
    (MAX_RETRIES - failures) * (b / CHUNK + 1) + (b - last) / CHUNK
  }

  /** A counted failure pays for all the chunks it allows to start over. */
  lemma CountedStep(f: nat, g: nat, last: int, next: int, b: nat)
    requires f < g <= MAX_RETRIES && 0 <= last <= b && 0 <= next <= b
    ensures 1 + Budget(g, next, b) <= Budget(f, last, b)
  {
    var chunks := b / CHUNK;
    assert (b - next) / CHUNK <= chunks;
    assert (MAX_RETRIES - f) * (chunks + 1) >= (MAX_RETRIES - g + 1) * (chunks + 1)
      == (MAX_RETRIES - g) * (chunks + 1) + (chunks + 1);
  }

  /** A chunk that was fetched whole uses up part of the size. */
  lemma ChunkStep(f: nat, g: nat, last: int, b: nat)
    requires f <= g <= MAX_RETRIES && 0 <= last && last + CHUNK <= b
    ensures 1 + Budget(g, last + CHUNK, b) <= Budget(f, last, b)
  {
    var chunks := b / CHUNK;
    assert (b - last - CHUNK) / CHUNK == (b - last) / CHUNK - 1;
    assert (MAX_RETRIES - f) * (chunks + 1) >= (MAX_RETRIES - g) * (chunks + 1);
  }

  lemma {:induction false} BeginRetries(c: Context, last: Int32, attempts: seq<Attempt>, b: nat)
    requires c.failures <= MAX_RETRIES && 0 <= last <= b && AllWithin(attempts, b)
    ensures Retries(FromBegin(c, last, attempts).log) <= Budget(c.failures, last, b)
    decreases |attempts|, 0
  {
    if attempts != [] {
      var t := Try(attempts[0], c);
      TryKeeps(attempts[0], c, b);
      if t.0 == Failed {
        var rest := FromEnd(t.1, last, attempts[0].connected, attempts[1..]);
        RetriesConcat(t.2, rest.log);
        EndRetries(t.1, c.failures, last, attempts[0].connected, attempts[1..], b);
      } else {
        RetriesConcat(t.2, [ReportSuccess]);
      }
    }
  }

  lemma {:induction false} EndRetries(c: Context, f: nat, last: Int32, connected: bool, attempts: seq<Attempt>, b: nat)
    requires f <= c.failures <= MAX_RETRIES && 0 <= last <= b && 0 <= c.downloaded <= b && AllWithin(attempts, b)
    ensures Retries(FromEnd(c, last, connected, attempts).log) <= Budget(f, last, b)
    decreases |attempts|, 1
  {
    var counted := Subtract(c.downloaded, last) != CHUNK;
    var c1 := Counted(c, last);
    if connected && c1.failures <= MAX_RETRIES {
      BeginRetries(c1, c1.downloaded, attempts, b);
      RetriesConcat([Retry], FromBegin(c1, c1.downloaded, attempts).log);
      assert Retries([Retry]) == 1;
      BudgetStep(f, c1.failures, last, c1.downloaded, counted, b);
    }
  }

  lemma BudgetStep(f: nat, g: nat, last: Int32, next: Int32, counted: bool, b: nat)
    requires (if counted then f < g else f <= g) && g <= MAX_RETRIES && 0 <= last <= b && 0 <= next <= b
    requires !counted ==> Subtract(next, last) == CHUNK
    ensures 1 + Budget(g, next, b) <= Budget(f, last, b)
  {
    if counted {
      CountedStep(f, g, last, next, b);
    } else {
      ChunkStep(f, g, last, b);
    }
  }

  /** The most retries one call can make. */
  function RetryLimit(failures: nat, b: nat): nat
    requires failures <= MAX_RETRIES
  {
    (MAX_RETRIES - failures) + (MAX_RETRIES - failures + 1) * (b / CHUNK)
  }

  /** With all sizes at most `b`, the number of retries is bounded, whatever the environment does. */
  lemma RetriesBounded(c: Context, reported: bool, connected: bool, attempts: seq<Attempt>, b: nat)
    requires c.failures <= MAX_RETRIES && 0 <= c.downloaded <= b && AllWithin(attempts, b)
    ensures Retries(Process(c, reported, connected, attempts).log) <= RetryLimit(c.failures, b)
  {
    if reported {
      BeginRetries(c, 0, attempts, b);
    } else {
      EndRetries(c, c.failures, 0, connected, attempts, b);
    }
    BudgetIsLimit(c.failures, b);
  }

  lemma BudgetIsLimit(failures: nat, b: nat)
    requires failures <= MAX_RETRIES
    ensures Budget(failures, 0, b) == RetryLimit(failures, b)
  {
    var chunks, left := b / CHUNK, MAX_RETRIES - failures;
    assert left * (chunks + 1) + chunks == left + (left + 1) * chunks;
  }

  // ----- the process comes to an end

  predicate Stops(f: Fetch) {
    f.len <= 0 || !f.saved || !f.connection || f.finished
  }

  /** The fetch loop of this attempt ends. */
  predicate Completes(a: Attempt) {
    exists k :: 0 <= k < |a.fetches| && Stops(a.fetches[k])
  }

  lemma {:induction false} DownloadEnds(fs: seq<Fetch>, c: Context, k: nat)
    requires k < |fs| && Stops(fs[k])
    ensures !Download(fs, c).0.Running?
  {
    if k > 0 {
      DownloadEnds(fs[1..], c.(downloaded := fs[0].size), k - 1);
    }
  }

  lemma TryEnds(a: Attempt, c: Context)
    requires Completes(a)
    ensures !Try(a, c).0.Running?
  {
    var k :| 0 <= k < |a.fetches| && Stops(a.fetches[k]);
    DownloadEnds(a.fetches, c.(downloaded := ResumeAt(a, c.downloaded)), k);
  }

  /** A process that is still running has retried after every attempt. */
  lemma {:induction false} BeginRunning(c: Context, last: Int32, attempts: seq<Attempt>)
    requires forall a :: a in attempts ==> Completes(a)
    requires c.failures <= MAX_RETRIES
    ensures FromBegin(c, last, attempts).result.None? ==> Retries(FromBegin(c, last, attempts).log) == |attempts|
    decreases |attempts|, 0
  {
    if attempts != [] {
      var t := Try(attempts[0], c);
      TryEnds(attempts[0], c);
      TryKeeps(attempts[0], c, 0);
      if t.0 == Failed {
        RetriesConcat(t.2, FromEnd(t.1, last, attempts[0].connected, attempts[1..]).log);
        EndRunning(t.1, last, attempts[0].connected, attempts[1..]);
      }
    }
  }

  lemma {:induction false} EndRunning(c: Context, last: Int32, connected: bool, attempts: seq<Attempt>)
    requires forall a :: a in attempts ==> Completes(a)
    requires c.failures <= MAX_RETRIES
    ensures FromEnd(c, last, connected, attempts).result.None? ==>
              Retries(FromEnd(c, last, connected, attempts).log) == |attempts| + 1
    decreases |attempts|, 1
  {
    var c1 := Counted(c, last);
    if c1.failures <= MAX_RETRIES {
      BeginRunning(c1, c1.downloaded, attempts);
      RetriesConcat([Retry], FromBegin(c1, c1.downloaded, attempts).log);
    }
  }

  /** If every attempt ends and no size exceeds `b`, the process ends within the retry limit. */
  lemma ProcessEnds(c: Context, reported: bool, connected: bool, attempts: seq<Attempt>, b: nat)
    requires c.failures <= MAX_RETRIES && 0 <= c.downloaded <= b && AllWithin(attempts, b)
    requires forall a :: a in attempts ==> Completes(a)
    requires |attempts| > RetryLimit(c.failures, b)
    ensures Process(c, reported, connected, attempts).result.Some?
  {
    RetriesBounded(c, reported, connected, attempts, b);
    if reported {
      BeginRunning(c, 0, attempts);
    } else {
      EndRunning(c, 0, connected, attempts);
    }
  }

  // ----- giving up

  /**
   A refused download sets the count of failures to the limit in order to stop the retries. It does so
   unless exactly one chunk was fetched since the last retry.
   */
  lemma RefusalIsFinal(a: Attempt, c: Context, last: Int32, rest: seq<Attempt>)
    requires a.connected && Try(a, c).0 == Failed && Try(a, c).1.failures == MAX_RETRIES
    ensures (Retry !in FromBegin(c, last, [a] + rest).log) <==> Subtract(Try(a, c).1.downloaded, last) != CHUNK
  {
    var t := Try(a, c);
    assert ([a] + rest)[0] == a && ([a] + rest)[1..] == rest;
    var o := FromEnd(t.1, last, true, rest);
    assert FromBegin(c, last, [a] + rest) == Logged(t.2, o);
    TryLog(a, c);
    assert o.log[0] == if Subtract(t.1.downloaded, last) != CHUNK then ReportFail else Retry;
    if Subtract(t.1.downloaded, last) == CHUNK {
      assert (t.2 + o.log)[|t.2|] == Retry;
    }
  }

  /** A download refused after its first chunk is tried again. */
  lemma RefusalIgnored()
    ensures
      var chunk := Fetch(5000, true, CHUNK, true, false);
      var refused := Fetch(AUTH_FAIL, true, 0, true, false);
      var a := Attempt(2 * CHUNK, 0, false, true, true, [chunk, refused], false, true);
      Process(Context(0, 0), true, true, [a]).log == [Start(0), Save(0, 5000), Retry]
  {
    var chunk := Fetch(5000, true, CHUNK, true, false);
    var refused := Fetch(AUTH_FAIL, true, 0, true, false);
    var a := Attempt(2 * CHUNK, 0, false, true, true, [chunk, refused], false, true);
    assert [chunk, refused][1..] == [refused];
    assert Download([refused], Context(CHUNK, 0)) == (Failed, Context(CHUNK, MAX_RETRIES), []);
    assert [Save(0, 5000)] + [] == [Save(0, 5000)] && [Start(0)] + [Save(0, 5000)] == [Start(0), Save(0, 5000)];
    assert Download([chunk, refused], Context(0, 0)) == (Failed, Context(CHUNK, MAX_RETRIES), [Save(0, 5000)]);
    assert Try(a, Context(0, 0)) == (Failed, Context(CHUNK, MAX_RETRIES), [Start(0), Save(0, 5000)]);
    assert [a][1..] == [];
    assert FromEnd(Context(CHUNK, MAX_RETRIES), 0, true, []).log == [Retry];
  }
}
