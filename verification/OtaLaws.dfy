/**
 What the log of an OTA run may hold: where downloads start and when they are skipped, where data is written,
 which failures are final, and when failure is reported.
 */
module OtaLaws {
  import opened CString
  import opened Ota

  // ----- where a download starts

  /** The first `n` bytes of the offered version are there, and their digest was computed. */
  predicate Resumable(a: Attempt, n: int) {
    n > 0 && a.localSize == n && a.sameVersion && a.digested
  }

  predicate Begins(e: Event) {
    e.Start? || e.Skip?
  }

  /**
   Every attempt starts one download or skips it, first of all. It starts in the middle only of a local part of
   the offered version whose digest is known, it is skipped only if such a part is as long as the file, and it
   starts at 0 in every other case. A part is passed over, too, if more was downloaded before than the file holds.
   */
  lemma AttemptStart(a: Attempt, c: Context)
    ensures var log := Try(a, c).2;
      && log != [] && Begins(log[0]) && (forall i :: 0 < i < |log| ==> !Begins(log[i]))
      && (log[0].Start? && log[0].offset > 0 ==> Resumable(a, log[0].offset) && log[0].offset != a.fileSize)
      && (log[0].Skip? ==> a.fileSize == 0 || Resumable(a, a.fileSize))
      && (Resumable(a, a.localSize) && 0 <= c.downloaded <= a.fileSize ==>
            log[0] == if a.localSize == a.fileSize then Skip else Start(a.localSize))
      && (!Resumable(a, a.localSize) && a.fileSize > 0 ==> log[0] == Start(0))
  {
    var c1 := c.(downloaded := ResumeAt(a, c.downloaded));
    DownloadLog(a.fetches, c1);
    var log := Try(a, c).2;
    if a.fileSize != c1.downloaded {
      forall i | 0 < i < |log| ensures !Begins(log[i]) {
        if a.started {
          var d := Download(a.fetches, c1);
          assert log[i] == if i - 1 < |d.2| then d.2[i - 1] else Check(a.valid);
          assert i - 1 < |d.2| ==> d.2[i - 1] in d.2;
        }
      }
    }
  }

  /** So it is in the log of a whole run: no download is resumed in the middle of another version. */
  ghost predicate Startable(e: Event, attempts: seq<Attempt>) {
    && (e.Start? && e.offset > 0 ==> exists a :: a in attempts && Resumable(a, e.offset) && e.offset != a.fileSize)
    && (e.Skip? ==> exists a :: a in attempts && (a.fileSize == 0 || Resumable(a, a.fileSize)))
  }

  lemma {:induction false} BeginStarts(c: Context, last: Int32, attempts: seq<Attempt>)
    ensures forall e :: e in FromBegin(c, last, attempts).log ==> Startable(e, attempts)
    decreases |attempts|, 0
  {
    if attempts != [] {
      var a, rest := attempts[0], attempts[1..];
      var t := Try(a, c);
      AttemptStart(a, c);
      forall e | e in t.2 ensures Startable(e, attempts) {
        var i :| 0 <= i < |t.2| && t.2[i] == e;
        assert i > 0 ==> !Begins(e);
      }
      EndStarts(t.1, last, a.connected, rest);
      forall e | e in FromEnd(t.1, last, a.connected, rest).log ensures Startable(e, attempts) {
        MoreStartable(e, rest, attempts);
      }
    }
  }

  lemma MoreStartable(e: Event, rest: seq<Attempt>, attempts: seq<Attempt>)
    requires Startable(e, rest) && forall a :: a in rest ==> a in attempts
    ensures Startable(e, attempts)
  {
  }

  lemma {:induction false} EndStarts(c: Context, last: Int32, connected: bool, attempts: seq<Attempt>)
    ensures forall e :: e in FromEnd(c, last, connected, attempts).log ==> Startable(e, attempts)
    decreases |attempts|, 1
  {
    var c1 := Counted(c, last);
    if connected && c1.failures <= MAX_RETRIES {
      BeginStarts(c1, c1.downloaded, attempts);
    }
  }

  lemma ResumesOwnVersion(c: Context, reported: bool, connected: bool, attempts: seq<Attempt>)
    ensures forall e :: e in Process(c, reported, connected, attempts).log ==> Startable(e, attempts)
  {
    if reported {
      BeginStarts(c, 0, attempts);
    } else {
      EndStarts(c, 0, connected, attempts);
    }
  }

  // ----- the fetch loop

  /** The place after the passes that go on. */
  function Reached(fs: seq<Fetch>, start: Int32, k: nat): Int32
    requires k <= |fs|
  {
    if k == 0 then start else fs[k - 1].size
  }

  /** The context a stopping pass leaves: refusals and data that cannot be written use up all retries. */
  predicate UsesUpRetries(f: Fetch) {
    f.len == -6 || f.len == -7 || (f.len > 0 && !f.saved)
  }

  /**
   The loop runs to the first pass that stops it. Everything before is written where the pass before left off,
   and the pass that stops it decides the rest.
   */
  lemma {:induction false} DownloadIs(fs: seq<Fetch>, c: Context, k: nat)
    requires k < |fs| && Stops(fs[k]) && forall i :: 0 <= i < k ==> !Stops(fs[i])
    ensures var (end, c1, log) := Download(fs, c);
      && end == (if fs[k].len > 0 && fs[k].saved && fs[k].connection then Passed else Failed)
      && c1.failures == (if UsesUpRetries(fs[k]) then MAX_RETRIES else c.failures)
      && c1.downloaded == (if fs[k].len > 0 && fs[k].saved then fs[k].size else Reached(fs, c.downloaded, k))
      && |log| == (if fs[k].len > 0 then k + 1 else k)
      && forall i :: 0 <= i < |log| ==> log[i] == Save(Reached(fs, c.downloaded, i), fs[i].len)
    decreases k
  {
    if k > 0 {
      var c1 := c.(downloaded := fs[0].size);
      var t := fs[1..];
      DownloadIs(t, c1, k - 1);
      var log, rest := Download(fs, c).2, Download(t, c1).2;
      assert log == [Save(c.downloaded, fs[0].len)] + rest;
      forall i | 0 <= i < |log| ensures log[i] == Save(Reached(fs, c.downloaded, i), fs[i].len) {
        if i > 0 {
          assert log[i] == rest[i - 1];
          assert Reached(t, c1.downloaded, i - 1) == Reached(fs, c.downloaded, i);
        }
      }
    }
  }

  // ----- when failure is reported

  /** No download is refused and all data can be written. */
  predicate Patient(a: Attempt) {
    forall f :: f in a.fetches ==> !UsesUpRetries(f)
  }

  lemma {:induction false} DownloadPatient(fs: seq<Fetch>, c: Context)
    requires forall f :: f in fs ==> !UsesUpRetries(f)
    ensures Download(fs, c).1.failures == c.failures
  {
    if fs != [] {
      assert fs[0] in fs;
      DownloadPatient(fs[1..], c.(downloaded := fs[0].size));
    }
  }

  lemma TryPatient(a: Attempt, c: Context)
    requires Patient(a)
    ensures Try(a, c).1.failures == c.failures
  {
    DownloadPatient(a.fetches, c.(downloaded := ResumeAt(a, c.downloaded)));
  }

  /** Without refusals every failure that is left is used for a retry before failure is reported. */
  lemma {:induction false} BeginReports(c: Context, last: Int32, attempts: seq<Attempt>)
    requires c.failures <= MAX_RETRIES && forall a :: a in attempts ==> Patient(a)
    ensures var log := FromBegin(c, last, attempts).log; ReportFail in log ==> Retries(log) >= MAX_RETRIES - c.failures
    decreases |attempts|, 0
  {
    if attempts != [] {
      var t := Try(attempts[0], c);
      TryPatient(attempts[0], c);
      TryLog(attempts[0], c);
      if t.0 == Failed {
        var rest := FromEnd(t.1, last, attempts[0].connected, attempts[1..]);
        RetriesConcat(t.2, rest.log);
        EndReports(t.1, last, attempts[0].connected, attempts[1..]);
      }
    }
  }

  lemma {:induction false} EndReports(c: Context, last: Int32, connected: bool, attempts: seq<Attempt>)
    requires c.failures <= MAX_RETRIES && forall a :: a in attempts ==> Patient(a)
    ensures var log := FromEnd(c, last, connected, attempts).log;
      ReportFail in log ==> Retries(log) >= MAX_RETRIES - c.failures
    decreases |attempts|, 1
  {
    var c1 := Counted(c, last);
    if connected && c1.failures <= MAX_RETRIES {
      BeginReports(c1, c1.downloaded, attempts);
      RetriesConcat([Retry], FromBegin(c1, c1.downloaded, attempts).log);
      assert Retries([Retry]) == 1;
    }
  }

  lemma ReportsFailureLate(c: Context, reported: bool, connected: bool, attempts: seq<Attempt>)
    requires c.failures <= MAX_RETRIES && forall a :: a in attempts ==> Patient(a)
    ensures var log := Process(c, reported, connected, attempts).log;
      ReportFail in log ==> Retries(log) >= MAX_RETRIES - c.failures
  {
    if reported {
      BeginReports(c, 0, attempts);
    } else {
      EndReports(c, 0, connected, attempts);
    }
  }

  /** A run that fails either reports it, last of all and with the count reset, or has lost its connection. */
  ghost predicate FailsOpenly(o: Outcome, lost: bool) {
    o.result == Some(false) ==>
      lost || (o.log != [] && o.log[|o.log| - 1] == ReportFail && o.context.failures == 0)
  }

  lemma {:induction false} BeginFailsOpenly(c: Context, last: Int32, attempts: seq<Attempt>)
    ensures FailsOpenly(FromBegin(c, last, attempts), exists a :: a in attempts && !a.connected)
    decreases |attempts|, 0
  {
    if attempts != [] {
      var t := Try(attempts[0], c);
      assert attempts[0] in attempts;
      EndFailsOpenly(t.1, last, attempts[0].connected, attempts[1..]);
    }
  }

  lemma {:induction false} EndFailsOpenly(c: Context, last: Int32, connected: bool, attempts: seq<Attempt>)
    ensures FailsOpenly(FromEnd(c, last, connected, attempts), !connected || exists a :: a in attempts && !a.connected)
    decreases |attempts|, 1
  {
    var c1 := Counted(c, last);
    if connected && c1.failures <= MAX_RETRIES {
      BeginFailsOpenly(c1, c1.downloaded, attempts);
    }
  }

  lemma FailureIsReported(c: Context, reported: bool, connected: bool, attempts: seq<Attempt>)
    ensures FailsOpenly(Process(c, reported, connected, attempts),
                        (!reported && !connected) || exists a :: a in attempts && !a.connected)
  {
    if reported {
      BeginFailsOpenly(c, 0, attempts);
    } else {
      EndFailsOpenly(c, 0, connected, attempts);
    }
  }
}
