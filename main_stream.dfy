/** The colour-configuration hot reload of main_stream.py. `StreamApplication`
    keeps the active colour table and the modification time of the
    configuration file seen when it was last loaded; its run loop re-checks
    the file when strictly more than 5 seconds have passed since the last
    check, and reloads it when the modification time differs.

    A probe of the file system is a `Probe`: what `os.path.exists` said and
    what `os.path.getmtime` returned or raised. Modification times are
    abstract integers and clock readings reals. The camera, the streaming
    server, the pusher and the per-frame detection are not modelled. */
module MainStream {
  import opened Common
  import opened PyDict
  import opened VisionConfig

  /** `os.path.getmtime`: a time, `FileNotFoundError`, or another `OSError`. */
  datatype Mtime = Stamp(t: int) | NotFound | OsFailure

  datatype Probe = Probe(present: bool, mtime: Mtime)

  const CheckIntervalSeconds: real := 5.0

  /** The cached modification time after `_load_initial_color_config`. */
  function InitialModTime(p: Probe): (t: int)
    ensures p.present && p.mtime.Stamp? ==> t == p.mtime.t
    ensures !(p.present && p.mtime.Stamp?) ==> t == 0
  {
    if p.present then
      match p.mtime
      case Stamp(t) => t
      case NotFound => 0
      case OsFailure => 0
    else 0
  }

  /** The active table and cached modification time after
      `_check_and_reload_color_config`, with the file `file` as the loader
      reads it. */
  function Reload(ranges: ColorTable, modTime: int, p: Probe, file: JsonFile<ColorTable>): (ColorTable, int)
  {
    if !p.present then
      if ranges != [] then ([], 0) else (ranges, modTime)
    else
      match p.mtime
      case Stamp(t) => if t != modTime then (LoadedRanges(file), t) else (ranges, modTime)
      case NotFound => (if ranges != [] then [] else ranges, 0)
      case OsFailure => (ranges, modTime)
  }

  /** Whether the check reloads the table (and so resets the module global). */
  predicate Reloads(modTime: int, p: Probe)
  {
    p.present && p.mtime.Stamp? && p.mtime.t != modTime
  }

  /** The state the run loop keeps for the configuration: the active table,
      the cached modification time, the time of the last check, and the
      times at which checks happened. */
  datatype Loop = Loop(ranges: ColorTable, modTime: int, lastCheck: real, checks: seq<real>)

  /** The loop after the clock readings `times`, the i-th check (if the gate
      opens) seeing the probe `probes[i]`. */
  function Ticks(s0: Loop, times: seq<real>, probes: seq<Probe>, file: JsonFile<ColorTable>): Loop
    requires |probes| == |times|
  {
    if times == [] then s0
    else
      var n := |times| - 1;
      var s := Ticks(s0, times[..n], probes[..n], file);
      var now := times[n];
      if now - s.lastCheck > CheckIntervalSeconds then
        var r := Reload(s.ranges, s.modTime, probes[n], file);
        Loop(r.0, r.1, now, s.checks + [now])
      else s
  }

  class StreamApp {
    var currentColorRanges: ColorTable
    var lastConfigModTime: int

    /** `__init__`'s configuration part: `_load_initial_color_config()`. */
    constructor (cfg: ColorConfig, p: Probe)
      modifies cfg`colorRanges
      ensures currentColorRanges == LoadedRanges(cfg.file)
      ensures lastConfigModTime == InitialModTime(p)
      ensures cfg.colorRanges == LoadedRanges(cfg.file)
    {
      currentColorRanges := [];
      lastConfigModTime := 0;
      new;
      currentColorRanges := cfg.LoadColorRanges();
      if p.present {
        match p.mtime {
          case Stamp(t) => lastConfigModTime := t;
          case NotFound => lastConfigModTime := 0;
          case OsFailure => lastConfigModTime := 0;
        }
      } else {
        lastConfigModTime := 0;
      }
    }

    /** `_check_and_reload_color_config()` */
    method CheckAndReload(cfg: ColorConfig, p: Probe)
      modifies this, cfg`colorRanges
      ensures (currentColorRanges, lastConfigModTime) == Reload(old(currentColorRanges), old(lastConfigModTime), p, cfg.file)
      ensures cfg.colorRanges == if Reloads(old(lastConfigModTime), p) then LoadedRanges(cfg.file) else old(cfg.colorRanges)
    {
      if !p.present {
        if currentColorRanges != [] {
          currentColorRanges := [];
          lastConfigModTime := 0;
        }
        return;
      }
      match p.mtime {
        case Stamp(currentModTime) =>
          if currentModTime != lastConfigModTime {
            var reloadedRanges := cfg.LoadColorRanges();
            currentColorRanges := reloadedRanges;
            lastConfigModTime := currentModTime;
          }
        case NotFound =>
          if currentColorRanges != [] {
            currentColorRanges := [];
          }
          lastConfigModTime := 0;
        case OsFailure =>
      }
    }

    /** The configuration checks of `run()` over the clock readings `times`,
        starting from the reading `start` taken before the loop. */
    method Run(cfg: ColorConfig, start: real, times: seq<real>, probes: seq<Probe>)
      requires |probes| == |times|
      modifies this, cfg`colorRanges
      ensures var s := Ticks(Loop(old(currentColorRanges), old(lastConfigModTime), start, []), times, probes, cfg.file);
              currentColorRanges == s.ranges && lastConfigModTime == s.modTime
    {
      var lastConfigCheckTime := start;
      ghost var checks: seq<real> := [];
      ghost var s0 := Loop(currentColorRanges, lastConfigModTime, start, []);
      var k := 0;
      while k < |times|
        invariant 0 <= k <= |times|
        invariant cfg.file == old(cfg.file)
        invariant Loop(currentColorRanges, lastConfigModTime, lastConfigCheckTime, checks) ==
                  Ticks(s0, times[..k], probes[..k], cfg.file)
      {
        assert times[..k + 1][..k] == times[..k];
        assert probes[..k + 1][..k] == probes[..k];
        var currentTime := times[k];
        if currentTime - lastConfigCheckTime > CheckIntervalSeconds {
          CheckAndReload(cfg, probes[k]);
          lastConfigCheckTime := currentTime;
          checks := checks + [currentTime];
        }
        k := k + 1;
      }
      assert times[..k] == times;
      assert probes[..k] == probes;
    }
  }

  // ---------------------------------------------------------------------
  // Properties

  /** Checking twice against an unchanged file changes nothing more than
      checking once. */
  lemma ReloadIdempotent(ranges: ColorTable, modTime: int, p: Probe, file: JsonFile<ColorTable>)
    ensures var r := Reload(ranges, modTime, p, file);
            Reload(r.0, r.1, p, file) == r
  {
  }

  /** After a check that read a modification time, the cached time is that
      time, and the table is the file's content exactly when the time had
      changed. */
  lemma StampSynchronises(ranges: ColorTable, modTime: int, t: int, file: JsonFile<ColorTable>)
    ensures Reload(ranges, modTime, Probe(true, Stamp(t)), file).1 == t
    ensures t != modTime ==> Reload(ranges, modTime, Probe(true, Stamp(t)), file).0 == LoadedRanges(file)
    ensures t == modTime ==> Reload(ranges, modTime, Probe(true, Stamp(t)), file).0 == ranges
  {
  }

  /** The table changes only by a reload after a new modification time, or
      by being cleared when the file is gone. */
  lemma RangesChangeOnlyOnNewStampOrLoss(ranges: ColorTable, modTime: int, p: Probe, file: JsonFile<ColorTable>)
    ensures var r := Reload(ranges, modTime, p, file);
            r.0 != ranges ==> Reloads(modTime, p) || (r.0 == [] && (!p.present || p.mtime.NotFound?))
  {
  }

  /** A file that is gone clears a non-empty table either way; but when the
      table is already empty, `os.path.exists` reporting it missing keeps the
      cached time, while a `FileNotFoundError` resets it to 0. Another
      `OSError` changes nothing. */
  lemma LossPaths(modTime: int, ranges: ColorTable, file: JsonFile<ColorTable>)
    ensures ranges != [] ==> Reload(ranges, modTime, Probe(false, OsFailure), file) == ([], 0)
    ensures ranges != [] ==> Reload(ranges, modTime, Probe(true, NotFound), file) == ([], 0)
    ensures Reload([], modTime, Probe(false, OsFailure), file) == ([], modTime)
    ensures Reload([], modTime, Probe(true, NotFound), file) == ([], 0)
    ensures Reload(ranges, modTime, Probe(true, OsFailure), file) == (ranges, modTime)
  {
  }

  /** Checks happen strictly more than 5 seconds apart (and more than 5
      seconds after the loop starts), and the last check time is the latest
      check, whatever the clock readings. */
  lemma {:induction false} ChecksSpaced(s0: Loop, times: seq<real>, probes: seq<Probe>, file: JsonFile<ColorTable>)
    requires |probes| == |times| && s0.checks == []
    ensures var s := Ticks(s0, times, probes, file);
            && (s.checks == [] ==> s.lastCheck == s0.lastCheck)
            && (s.checks != [] ==> s.lastCheck == s.checks[|s.checks| - 1] && s.checks[0] - s0.lastCheck > CheckIntervalSeconds)
            && forall k | 0 <= k < |s.checks| - 1 :: s.checks[k + 1] - s.checks[k] > CheckIntervalSeconds
  {
    if times != [] {
      var n := |times| - 1;
      ChecksSpaced(s0, times[..n], probes[..n], file);
    }
  }

  /** A clock reading at most 5 seconds after the last check does nothing. */
  lemma GateClosed(s0: Loop, times: seq<real>, probes: seq<Probe>, file: JsonFile<ColorTable>, now: real, p: Probe)
    requires |probes| == |times|
    requires now - Ticks(s0, times, probes, file).lastCheck <= CheckIntervalSeconds
    ensures Ticks(s0, times + [now], probes + [p], file) == Ticks(s0, times, probes, file)
  {
    assert (times + [now])[..|times|] == times;
    assert (probes + [p])[..|probes|] == probes;
  }
}
