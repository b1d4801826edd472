/** Rates from cumulative counters (resource-scheduler/src/monitor.rs). */
module RateMonitor {
  import opened Options
  import opened MemoryLimit

  /**
   * The control files of one app at one time: the text of the one-number files, and what the parsers
   * of `cpu.stat` and `io.stat` get out of those. A file that cannot be read is `None`.
   */
  datatype ControlFiles = ControlFiles(
    cpuUsec: Option<nat>, memoryCurrent: Option<string>, memoryMax: Option<string>,
    ioBytes: Option<(nat, nat)>, pidsCurrent: Option<string>)

  /** The raw values, with the defaults for what cannot be read. */
  datatype Reading = Reading(
    cpuUsec: nat, memoryBytes: nat, memoryMaxBytes: nat, ioReadBytes: nat, ioWriteBytes: nat, pids: nat)

  datatype Snapshot = Snapshot(cpuUsec: nat, ioReadBytes: nat, ioWriteBytes: nat, timestampMs: nat)

  datatype Metrics = Metrics(
    appId: string, cpuPercent: real, memoryUsedMb: nat, memoryLimitMb: nat,
    ioReadKbs: nat, ioWriteKbs: nat, pidCount: nat, timestampMs: nat)

  function ReadingOf(files: ControlFiles): Reading {
    var (readBytes, writeBytes) := files.ioBytes.GetOr((0, 0));
    Reading(files.cpuUsec.GetOr(0), NumberOr(files.memoryCurrent, 0), NumberOr(files.memoryMax, U64_MAX),
            readBytes, writeBytes, NumberOr(files.pidsCurrent, 0))
  }

  /** Unsigned subtraction that stops at zero. */
  function SatSub(a: nat, b: nat): nat {
    if a >= b then a - b else 0
  }

  /** The time between two samples, at least one millisecond. */
  function EffectiveDt(nowMs: nat, thenMs: nat): (dt: nat)
    ensures dt >= 1
  {
    if SatSub(nowMs, thenMs) >= 1 then SatSub(nowMs, thenMs) else 1
  }

  function Clamp(x: real, lo: real, hi: real): real {
    if x < lo then lo else if x > hi then hi else x
  }

  function Rate(delta: nat, dtMs: nat): nat
    requires dtMs >= 1
  {
    delta / dtMs
  }

  function CpuPercent(deltaUsec: nat, dtMs: nat): real
    requires dtMs >= 1
  {
    Clamp(deltaUsec as real / dtMs as real / 10.0, 0.0, 100.0)
  }

  function SnapshotOf(raw: Reading, nowMs: nat): Snapshot {
    Snapshot(raw.cpuUsec, raw.ioReadBytes, raw.ioWriteBytes, nowMs)
  }

  function MetricsOf(prev: map<string, Snapshot>, appId: string, raw: Reading, nowMs: nat): Metrics {
    var base := Metrics(appId, 0.0, raw.memoryBytes / 1048576, raw.memoryMaxBytes / 1048576, 0, 0,
                        raw.pids % 0x1_0000_0000, nowMs);
    if appId !in prev then base
    else
      var p := prev[appId];
      var dt := EffectiveDt(nowMs, p.timestampMs);
      base.(cpuPercent := CpuPercent(SatSub(raw.cpuUsec, p.cpuUsec), dt),
            ioReadKbs := Rate(SatSub(raw.ioReadBytes, p.ioReadBytes), dt),
            ioWriteKbs := Rate(SatSub(raw.ioWriteBytes, p.ioWriteBytes), dt))
  }

  class CgroupMonitor {
    var prevSnapshots: map<string, Snapshot>

    constructor ()
      ensures prevSnapshots == map[]
    {
      prevSnapshots := map[];
    }

    method ReadMetricsWithDelta(appId: string, files: ControlFiles, nowMs: nat) returns (m: Metrics)
      modifies this
      ensures m == MetricsOf(old(prevSnapshots), appId, ReadingOf(files), nowMs)
      ensures m.memoryLimitMb == ReportedLimitMb(files.memoryMax)
      ensures m.appId == appId && m.timestampMs == nowMs
      ensures appId !in old(prevSnapshots) ==> m.cpuPercent == 0.0 && m.ioReadKbs == 0 && m.ioWriteKbs == 0
      ensures prevSnapshots == old(prevSnapshots)[appId := SnapshotOf(ReadingOf(files), nowMs)]
    {
      var raw := ReadingOf(files);
      var cpuPercent, ioReadKbs, ioWriteKbs := 0.0, 0, 0;
      if appId in prevSnapshots {
        var prev := prevSnapshots[appId];
        var dtMs := EffectiveDt(nowMs, prev.timestampMs);
        var dCpu := SatSub(raw.cpuUsec, prev.cpuUsec);
        cpuPercent := CpuPercent(dCpu, dtMs);
        var dRead := SatSub(raw.ioReadBytes, prev.ioReadBytes);
        var dWrite := SatSub(raw.ioWriteBytes, prev.ioWriteBytes);
        ioReadKbs, ioWriteKbs := Rate(dRead, dtMs), Rate(dWrite, dtMs);
      }
      prevSnapshots := prevSnapshots[appId := Snapshot(raw.cpuUsec, raw.ioReadBytes, raw.ioWriteBytes, nowMs)];
      m := Metrics(appId, cpuPercent, raw.memoryBytes / (1024 * 1024), raw.memoryMaxBytes / (1024 * 1024),
                   ioReadKbs, ioWriteKbs, raw.pids % 0x1_0000_0000, nowMs);
    }
  }

  // ---- runs over interleaved apps

  /** The control files of one app as they are when the monitor reads them. */
  datatype Sample = Sample(appId: string, files: ControlFiles, nowMs: nat)

  /** The snapshots the monitor keeps after a run of samples. */
  function Replay(samples: seq<Sample>): map<string, Snapshot> {
    if samples == [] then map[]
    else
      var last := samples[|samples| - 1];
      Replay(samples[..|samples| - 1])[last.appId := SnapshotOf(ReadingOf(last.files), last.nowMs)]
  }

  /** What the monitor reports for the last sample. */
  function Reported(samples: seq<Sample>): Metrics
    requires samples != []
  {
    var last := samples[|samples| - 1];
    MetricsOf(Replay(samples[..|samples| - 1]), last.appId, ReadingOf(last.files), last.nowMs)
  }

  datatype IoCounter = ReadBytes | WriteBytes

  datatype Counter = Io(io: IoCounter) | CpuUsec

  /** The counter in the control files; one that cannot be read counts as 0. */
  function CounterOf(which: Counter, files: ControlFiles): nat {
    match which
    case Io(ReadBytes) => if files.ioBytes.Some? then files.ioBytes.value.0 else 0
    case Io(WriteBytes) => if files.ioBytes.Some? then files.ioBytes.value.1 else 0
    case CpuUsec => if files.cpuUsec.Some? then files.cpuUsec.value else 0
  }

  function RateOf(which: IoCounter, m: Metrics): nat {
    if which.ReadBytes? then m.ioReadKbs else m.ioWriteKbs
  }

  /** The samples of one app, in order. */
  function Own(samples: seq<Sample>, appId: string): seq<Sample> {
    if samples == [] then []
    else
      var last := samples[|samples| - 1];
      Own(samples[..|samples| - 1], appId) + if last.appId == appId then [last] else []
  }

  /** The volume a reader of the reports arrives at: each rate times the time it stands for. */
  function ReportedVolume(samples: seq<Sample>, appId: string, which: IoCounter): nat {
    if samples == [] then 0
    else
      var before, last := samples[..|samples| - 1], samples[|samples| - 1];
      var own := Own(before, appId);
      ReportedVolume(before, appId, which)
      + if last.appId == appId && own != []
        then VolumeOf(RateOf(which, Reported(samples)), EffectiveDt(last.nowMs, own[|own| - 1].nowMs))
        else 0
  }

  function VolumeOf(rate: nat, dtMs: nat): nat {
    rate * dtMs
  }

  /** The increments of the counter from one sample of the app to the next, drops counting as none. */
  function Forward(own: seq<Sample>, which: Counter): nat {
    if |own| < 2 then 0
    else
      Forward(own[..|own| - 1], which)
      + SatSub(CounterOf(which, own[|own| - 1].files), CounterOf(which, own[|own| - 2].files))
  }

  function Elapsed(own: seq<Sample>): nat {
    if |own| < 2 then 0 else Elapsed(own[..|own| - 1]) + EffectiveDt(own[|own| - 1].nowMs, own[|own| - 2].nowMs)
  }

  lemma {:induction false} SnapshotIsLastOwn(samples: seq<Sample>, appId: string)
    ensures var own := Own(samples, appId);
      && (appId in Replay(samples) <==> own != [])
      && (own != [] ==> Replay(samples)[appId] == SnapshotOf(ReadingOf(own[|own| - 1].files), own[|own| - 1].nowMs))
  {
    if samples != [] {
      SnapshotIsLastOwn(samples[..|samples| - 1], appId);
    }
  }

  lemma DivisionLoss(d: nat, dt: nat)
    requires dt >= 1
    ensures (d / dt) * dt <= d < (d / dt) * dt + dt
    ensures VolumeOf(Rate(d, dt), dt) <= d < VolumeOf(Rate(d, dt), dt) + dt
  {
    assert d == dt * (d / dt) + d % dt;
  }

  lemma RateOfLast(samples: seq<Sample>, own: seq<Sample>, which: IoCounter)
    requires samples != [] && own == Own(samples[..|samples| - 1], samples[|samples| - 1].appId) && own != []
    ensures var last, prev := samples[|samples| - 1], own[|own| - 1];
      RateOf(which, Reported(samples))
      == Rate(SatSub(CounterOf(Io(which), last.files), CounterOf(Io(which), prev.files)),
              EffectiveDt(last.nowMs, prev.nowMs))
  {
    SnapshotIsLastOwn(samples[..|samples| - 1], samples[|samples| - 1].appId);
  }

  /**
   * The rate in one report: the increment since the app's sample before it, a drop counting as none,
   * over the time between the two, rounded down; a clock that did not move on counts as one millisecond.
   */
  lemma RateOfOneReport(samples: seq<Sample>, own: seq<Sample>, which: IoCounter)
    requires samples != [] && own == Own(samples[..|samples| - 1], samples[|samples| - 1].appId) && own != []
    ensures var last, prev := samples[|samples| - 1], own[|own| - 1];
      var now, earlier := CounterOf(Io(which), last.files), CounterOf(Io(which), prev.files);
      var delta := if now > earlier then now - earlier else 0;
      var dt := if last.nowMs > prev.nowMs then last.nowMs - prev.nowMs else 1;
      var rate := RateOf(which, Reported(samples));
      rate * dt <= delta < rate * dt + dt
  {
    var last, prev := samples[|samples| - 1], own[|own| - 1];
    RateOfLast(samples, own, which);
    DivisionLoss(SatSub(CounterOf(Io(which), last.files), CounterOf(Io(which), prev.files)),
                 EffectiveDt(last.nowMs, prev.nowMs));
  }

  /** One more sample of the app: one more increment. */
  lemma OwnGrows(own: seq<Sample>, last: Sample, which: Counter)
    requires own != []
    ensures var delta := SatSub(CounterOf(which, last.files), CounterOf(which, own[|own| - 1].files));
      Forward(own + [last], which) == Forward(own, which) + delta
    ensures Elapsed(own + [last]) == Elapsed(own) + EffectiveDt(last.nowMs, own[|own| - 1].nowMs)
  {
    assert (own + [last])[..|own|] == own;
  }

  /**
   * For every app, over any run in which the samples of other apps are mixed in: what the rates add
   * up to never exceeds the bytes really moved forward, and falls short of them by less than one
   * byte per millisecond, at least one byte per report less than that.
   */
  lemma {:induction false} RatesTelescope(samples: seq<Sample>, appId: string, which: IoCounter)
    ensures var own := Own(samples, appId);
      var reported, forward := ReportedVolume(samples, appId, which), Forward(own, Io(which));
      && reported <= forward
      && forward + (if own == [] then 0 else |own| - 1) <= reported + Elapsed(own)
  {
    if samples != [] {
      var before, last := samples[..|samples| - 1], samples[|samples| - 1];
      RatesTelescope(before, appId, which);
      var own := Own(before, appId);
      if last.appId == appId && own != [] {
        RateOfLast(samples, own, which);
        DivisionLoss(SatSub(CounterOf(Io(which), last.files), CounterOf(Io(which), own[|own| - 1].files)),
                     EffectiveDt(last.nowMs, own[|own| - 1].nowMs));
        OwnGrows(own, last, Io(which));
      } else {
        assert own + [] == own;
      }
    }
  }

  /** The microseconds a percentage stands for. */
  function UsecOf(cpuPercent: real, dtMs: nat): real {
    cpuPercent * 10.0 * dtMs as real
  }

  /**
   * The percentage of one report, turned back into microseconds, never exceeds the microseconds used,
   * and is exact exactly when at most one whole core was busy: the guard of the clamp.
   */
  lemma CpuPercentIsExactBelowOneCore(deltaUsec: nat, dtMs: nat)
    requires dtMs >= 1
    ensures UsecOf(CpuPercent(deltaUsec, dtMs), dtMs) <= deltaUsec as real
    ensures UsecOf(CpuPercent(deltaUsec, dtMs), dtMs) == deltaUsec as real <==> deltaUsec <= 1000 * dtMs
    ensures deltaUsec > 1000 * dtMs ==> CpuPercent(deltaUsec, dtMs) == 100.0
  {
    PerMillisecond(deltaUsec as real, dtMs as real);
  }

  lemma PerMillisecond(used: real, time: real)
    requires used >= 0.0 && time > 0.0
    ensures Clamp(used / time / 10.0, 0.0, 100.0) * 10.0 * time <= used
    ensures Clamp(used / time / 10.0, 0.0, 100.0) * 10.0 * time == used <==> used <= 1000.0 * time
    ensures used > 1000.0 * time ==> Clamp(used / time / 10.0, 0.0, 100.0) == 100.0
  {
    var perMs := used / time;
    QuotientBounds(used, time);
    if used <= 1000.0 * time {
      assert Clamp(perMs / 10.0, 0.0, 100.0) == perMs / 10.0;
    } else {
      assert Clamp(perMs / 10.0, 0.0, 100.0) == 100.0;
    }
  }

  lemma QuotientBounds(used: real, time: real)
    requires used >= 0.0 && time > 0.0
    ensures used / time >= 0.0 && used / time * time == used
    ensures used / time <= 1000.0 <==> used <= 1000.0 * time
  {
  }

  /** The processor time a reader of the reports arrives at, in microseconds. */
  function ReportedCpuUsec(samples: seq<Sample>, appId: string): real {
    if samples == [] then 0.0
    else
      var before, last := samples[..|samples| - 1], samples[|samples| - 1];
      var own := Own(before, appId);
      ReportedCpuUsec(before, appId)
      + if last.appId == appId && own != []
        then UsecOf(Reported(samples).cpuPercent, EffectiveDt(last.nowMs, own[|own| - 1].nowMs))
        else 0.0
  }

  /** Between no two samples of the app was more than one core busy. */
  predicate WithinOneCore(own: seq<Sample>) {
    |own| < 2 ||
    (&& WithinOneCore(own[..|own| - 1])
     && SatSub(CounterOf(CpuUsec, own[|own| - 1].files), CounterOf(CpuUsec, own[|own| - 2].files))
        <= 1000 * EffectiveDt(own[|own| - 1].nowMs, own[|own| - 2].nowMs))
  }

  /**
   * For every app, over any run in which the samples of other apps are mixed in: the processor time
   * the percentages add up to never exceeds the time really used, and is that time exactly when the
   * app never kept more than one core busy.
   */
  lemma {:induction false} CpuTelescopes(samples: seq<Sample>, appId: string)
    ensures var own := Own(samples, appId);
      var reported, forward := ReportedCpuUsec(samples, appId), Forward(own, CpuUsec) as real;
      && reported <= forward
      && (reported == forward <==> WithinOneCore(own))
  {
    if samples != [] {
      var before, last := samples[..|samples| - 1], samples[|samples| - 1];
      CpuTelescopes(before, appId);
      var own := Own(before, appId);
      if last.appId == appId && own != [] {
        var delta := SatSub(CounterOf(CpuUsec, last.files), CounterOf(CpuUsec, own[|own| - 1].files));
        var dt := EffectiveDt(last.nowMs, own[|own| - 1].nowMs);
        CpuOfLast(samples, own);
        CpuPercentIsExactBelowOneCore(delta, dt);
        OwnGrows(own, last, CpuUsec);
        OneCoreGrows(own, last);
      } else {
        assert own + [] == own;
      }
    }
  }

  lemma OneCoreGrows(own: seq<Sample>, last: Sample)
    requires own != []
    ensures WithinOneCore(own + [last])
       <==> WithinOneCore(own)
            && SatSub(CounterOf(CpuUsec, last.files), CounterOf(CpuUsec, own[|own| - 1].files))
               <= 1000 * EffectiveDt(last.nowMs, own[|own| - 1].nowMs)
  {
    assert (own + [last])[..|own|] == own;
  }

  lemma CpuOfLast(samples: seq<Sample>, own: seq<Sample>)
    requires samples != [] && own == Own(samples[..|samples| - 1], samples[|samples| - 1].appId) && own != []
    ensures var last, prev := samples[|samples| - 1], own[|own| - 1];
      Reported(samples).cpuPercent
      == CpuPercent(SatSub(CounterOf(CpuUsec, last.files), CounterOf(CpuUsec, prev.files)),
                    EffectiveDt(last.nowMs, prev.nowMs))
  {
    SnapshotIsLastOwn(samples[..|samples| - 1], samples[|samples| - 1].appId);
  }

  /** With a counter that never goes back, the forward volume is the last value minus the first. */
  lemma {:induction false} ForwardOfMonotone(own: seq<Sample>, which: Counter)
    requires own != []
    requires forall i, j :: 0 <= i <= j < |own| ==> CounterOf(which, own[i].files) <= CounterOf(which, own[j].files)
    ensures Forward(own, which) == CounterOf(which, own[|own| - 1].files) - CounterOf(which, own[0].files)
  {
    if |own| >= 2 {
      ForwardOfMonotone(own[..|own| - 1], which);
    }
  }

  /** With a clock that moves on between the samples, the elapsed time is the last instant minus the first. */
  lemma {:induction false} ElapsedOfClock(own: seq<Sample>)
    requires own != []
    requires forall i, j :: 0 <= i < j < |own| ==> own[i].nowMs < own[j].nowMs
    ensures Elapsed(own) == own[|own| - 1].nowMs - own[0].nowMs
  {
    if |own| >= 2 {
      ElapsedOfClock(own[..|own| - 1]);
    }
  }

  /** Samples in which the counter never goes back while the clock moves on. */
  ghost predicate Steady(own: seq<Sample>, which: Counter) {
    && (forall i, j :: 0 <= i <= j < |own| ==> CounterOf(which, own[i].files) <= CounterOf(which, own[j].files))
    && (forall i, j :: 0 <= i < j < |own| ==> own[i].nowMs < own[j].nowMs)
  }

  /**
   * What the reports of an app say about its traffic, from its control files alone: the rates times
   * the times between the samples come to the growth of the counter in `io.stat`, short of it by less
   * than a byte for each millisecond passed.
   */
  lemma ReportsCoverTraffic(samples: seq<Sample>, appId: string, which: IoCounter)
    requires Own(samples, appId) != [] && Steady(Own(samples, appId), Io(which))
    ensures var own := Own(samples, appId);
      var first, last := own[0], own[|own| - 1];
      var moved := CounterOf(Io(which), last.files) - CounterOf(Io(which), first.files);
      && ReportedVolume(samples, appId, which) <= moved
      && moved + |own| - 1 <= ReportedVolume(samples, appId, which) + (last.nowMs - first.nowMs)
  {
    RatesTelescope(samples, appId, which);
    ForwardOfMonotone(Own(samples, appId), Io(which));
    ElapsedOfClock(Own(samples, appId));
  }

  /** An app's first report shows no rates, whatever its counters stand at and whatever other apps did before. */
  lemma FirstReportShowsNoRates(samples: seq<Sample>)
    requires samples != [] && Own(samples[..|samples| - 1], samples[|samples| - 1].appId) == []
    ensures var m := Reported(samples); m.cpuPercent == 0.0 && m.ioReadKbs == 0 && m.ioWriteKbs == 0
  {
    SnapshotIsLastOwn(samples[..|samples| - 1], samples[|samples| - 1].appId);
  }

  /** The number `n` as text, with blank space around it. */
  ghost predicate Shows(content: Option<string>, n: nat) {
    exists before: string, after: string ::
      AllWhitespace(before) && AllWhitespace(after) && content == Some(before + Decimal(n) + after)
  }

  /**
   * The sizes in a report are those in the files of their own names: the memory used, the limit and
   * the number of processes, as far as that fits 32 bits.
   */
  lemma ReportShowsFiles(samples: seq<Sample>, used: nat, limit: nat, pids: nat)
    requires samples != [] && used <= U64_MAX && limit <= U64_MAX && pids <= U64_MAX
    requires var files := samples[|samples| - 1].files;
      Shows(files.memoryCurrent, used) && Shows(files.memoryMax, limit) && Shows(files.pidsCurrent, pids)
    ensures var m := Reported(samples);
      && m.memoryUsedMb == used / 1048576 && m.memoryLimitMb == limit / 1048576
      && (m.pidCount == pids <==> pids < 0x1_0000_0000)
  {
    var files := samples[|samples| - 1].files;
    ReadsShown(files.memoryCurrent, used, 0);
    ReadsShown(files.memoryMax, limit, U64_MAX);
    ReadsShown(files.pidsCurrent, pids, 0);
  }

  lemma ReadsShown(content: Option<string>, n: nat, default: nat)
    requires n <= U64_MAX && Shows(content, n)
    ensures NumberOr(content, default) == n
  {
    var before: string, after: string :|
      AllWhitespace(before) && AllWhitespace(after) && content == Some(before + Decimal(n) + after);
    ReadsNumber(n, before, after);
  }
}
