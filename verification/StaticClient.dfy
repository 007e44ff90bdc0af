/** The static client manager as it runs: it rewrites the marker, the version directories and
    the quarantine in place. */
module StaticClient {
  import opened Prelude
  import opened VersionTags
  import opened Manifest
  import opened Fetcher
  import opened InstallLifecycle

  class StaticClientManager {
    const cfg: Config
    const checkInterval: int
    var installs: map<string, Dir>
    var marker: Option<string>
    var quarantine: map<string, Dir>
    var lastInstalled: Option<string>
    var lastCheck: nat

    /** The install directory as a value. */
    ghost function OnDisk(): Disk
      reads this
    {
      Disk(installs, marker, quarantine)
    }

    constructor (cfg: Config, checkInterval: int, disk: Disk)
      ensures this.cfg == cfg && this.checkInterval == checkInterval && OnDisk() == disk
      ensures lastInstalled == None && lastCheck == 0
    {
      this.cfg, this.checkInterval := cfg, checkInterval;
      installs, marker, quarantine := disk.installs, disk.marker, disk.quarantine;
      lastInstalled, lastCheck := None, 0;
    }

    /** Manifest and config.js for freshly unpacked files; the template may not format. */
    method Finish(unpacked: Dir, w: World) returns (d: Dir, raised: bool)
      ensures d == Configured(SignedFor(unpacked, w), cfg, w)
      ensures raised <==> cfg.injected.Some? && w.config.Unrenderable?
    {
      d := unpacked;
      var files := GenerateManifest(d);
      if w.key.Some? && files != map[] {
        d := WriteManifest(d, files, w.key.value, w.manifestSteps);
      }
      raised := false;
      if cfg.injected.Some? {
        match w.config {
          case Rendered(text) => d := d[cfg.injected.value := Plain(text)];
          case Unwritable =>
          case Unrenderable => raised := true;
        }
      }
    }

    /** The marker, then the old versions, then the books. */
    method Activate(tag: string, w: World)
      modifies this
      ensures OnDisk() == Disk(Pruned(old(installs), {tag}, MAX_VERSIONS, w.stuck), Some(tag), old(quarantine))
      ensures lastInstalled == Some(tag) && lastCheck == w.now
    {
      marker := Some(tag);
      var left, _ := PruneOldVersions(installs, {tag}, MAX_VERSIONS, w.stuck);
      installs := left;
      lastInstalled, lastCheck := Some(tag), w.now;
    }

    /** What follows once the archive is unpacked. */
    method Conclude(tag: string, unpacked: Dir, w: World) returns (o: Outcome)
      modifies this
      ensures var final := Configured(SignedFor(unpacked, w), cfg, w);
        var all := old(installs)[tag := final];
        OnDisk() == if BreaksOff(cfg, w) then old(OnDisk()).(installs := all)
                    else Disk(Pruned(all, {tag}, MAX_VERSIONS, w.stuck), Some(tag), old(quarantine))
      ensures o == if BreaksOff(cfg, w) then Exception else Done(Some(tag), false, None)
      ensures if BreaksOff(cfg, w) then lastInstalled == old(lastInstalled) && lastCheck == old(lastCheck)
              else lastInstalled == Some(tag) && lastCheck == w.now
    {
      var final, raised := Finish(unpacked, w);
      installs := installs[tag := final];
      if raised || w.markFails {
        return Exception;
      }
      Activate(tag, w);
      o := Done(Some(tag), false, None);
    }

    method FetchAndInstall(c: Candidate, w: World) returns (o: Outcome)
      modifies this
      ensures (OnDisk(), o) == Installing(old(OnDisk()), c, cfg, w)
      ensures if Succeeded(o) then lastInstalled == Some(Format(c.version)) && lastCheck == w.now
              else lastInstalled == old(lastInstalled) && lastCheck == old(lastCheck)
    {
      var tag := Format(c.version);
      if c.download == None {
        return Done(marker, true, Some(InstallFailed));
      }
      if tag in installs && w.residue.Some? {
        installs := installs[tag := Left(installs[tag], w.residue.value)];
        return Done(marker, true, Some(InstallFailed));
      }
      var d, ok, _ := SafeExtractZip(c.download.value, Some(cfg.budget), c.stop);
      if !ok {
        installs := installs[tag := d];
        return Done(marker, true, Some(InstallFailed));
      }
      o := Conclude(tag, d, w);
    }

    /** The search for a quarantine name stops, at a name that is not taken. */
    method QuarantineUntrustedInstall(tag: string, status: Status, w: World)
      requires tag in installs
      modifies this
      ensures OnDisk() == Quarantined(old(OnDisk()), tag, status, w)
      ensures lastInstalled == old(lastInstalled) && lastCheck == old(lastCheck)
    {
      var d := installs[tag];
      if w.moveFails {
        if w.leftover.Some? {
          installs := installs[tag := Left(d, w.leftover.value)];
        } else {
          installs := installs - {tag};
        }
        return;
      }
      var base := QuarantineBase(tag, w.now, status);
      var suffix, final := 0, base;
      while final in quarantine
        invariant final == NameFor(base, suffix)
        invariant FreeName(quarantine.Keys, base, suffix) == FreeName(quarantine.Keys, base, 0)
        decreases |quarantine.Keys - Tried(base, suffix)|
        modifies {}
      {
        FewerToTry(quarantine.Keys, base, suffix);
        suffix := suffix + 1;
        final := base + "-" + Numeral(suffix);
      }
      installs := installs - {tag};
      quarantine := quarantine[final := Marked(d, tag, status)];
    }

    /** The branch for the release that is current already. */
    method KeepCurrent(c: Candidate, w: World) returns (o: Outcome)
      modifies this
      ensures (OnDisk(), o) == Keeping(old(OnDisk()), c, cfg, w)
      ensures lastCheck in {old(lastCheck), w.now}
    {
      var tag := Format(c.version);
      if w.key.Some? && tag in installs {
        var key := w.key.value;
        var status := VerifyManifestDetailed(installs[tag], key);
        if status == Raised {
          return Exception;
        }
        if status != Ok {
          if status == HmacMismatch {
            var d, repair := MaybeRepairKeyMigration(installs[tag], key, w.repairSteps);
            installs := installs[tag := d];
            if repair == Crashed {
              return Exception;
            }
            if repair == Repaired {
              return Done(marker, true, None);
            }
          }
          assert OnDisk().installs == old(installs)[tag := RepairFor(old(installs)[tag], status, key, w).0];
          QuarantineUntrustedInstall(tag, status, w);
          o := FetchAndInstall(c, w);
          return;
        }
      }
      o := Done(marker, true, None);
    }

    /** The newest release that is either current or old enough. */
    method EnsureActive(w: World) returns (o: Outcome)
      modifies this
      ensures (OnDisk(), o) == EnsuringActive(old(OnDisk()), cfg, w)
      ensures lastCheck in {old(lastCheck), w.now}
    {
      if !cfg.enabled {
        return Done(marker, true, Some(Disabled));
      }
      if w.candidates == None {
        return Done(marker, true, Some(Unresolved));
      }
      var candidates := w.candidates.value;
      if candidates == [] {
        return Done(marker, true, Some(NoMatchingRelease));
      }
      var current := if marker.Some? then Parse(marker.value) else None;
      for i := 0 to |candidates|
        invariant OnDisk() == old(OnDisk())
        invariant Decide(candidates, current, cfg, w.now) == Decide(candidates[i..], current, cfg, w.now)
      {
        var c := candidates[i];
        assert candidates[i..][0] == c && candidates[i..][1..] == candidates[i + 1..];
        if current.Some? {
          var cmp := Compare(c.version, current.value);
          if cmp < 0 {
            continue;
          }
          if cmp == 0 {
            o := KeepCurrent(c, w);
            return;
          }
        }
        if ShouldFetch(cfg, c, w.now) {
          o := FetchAndInstall(c, w);
          return;
        }
      }
      o := Done(marker, true, Some(BelowMinAge));
    }

    method ReissueRuntimeConfig(config: Rendering) returns (r: Rewrite)
      modifies this
      ensures (OnDisk(), r) == Reissuing(old(OnDisk()), cfg, config)
    {
      if !cfg.enabled || cfg.injected == None || marker == None {
        return Reissued(false);
      }
      if marker.value !in installs {
        return Reissued(false);
      }
      var tag := marker.value;
      match config {
        case Rendered(text) =>
          installs := installs[tag := installs[tag][cfg.injected.value := Plain(text)]];
          r := Reissued(true);
        case Unwritable => r := Reissued(false);
        case Unrenderable => r := Broken;
      }
    }

    /** Between two checks nothing happens; a check is on record before it is made, so that one that
        fails or raises is not repeated before the interval is over. */
    method MaybeCheck(w: World) returns (o: Outcome)
      modifies this
      ensures cfg.enabled && cfg.autoUpdate && w.now - old(lastCheck) < checkInterval ==>
                OnDisk() == old(OnDisk()) && o == Done(old(marker), true, None) && lastCheck == old(lastCheck)
      ensures !(cfg.enabled && cfg.autoUpdate && w.now - old(lastCheck) < checkInterval) ==>
                (OnDisk(), o) == EnsuringActive(old(OnDisk()), cfg, w)
      ensures cfg.enabled && cfg.autoUpdate && w.now - old(lastCheck) >= checkInterval ==> lastCheck == w.now
    {
      if !cfg.enabled {
        return Done(marker, true, Some(Disabled));
      }
      if !cfg.autoUpdate {
        o := EnsureActive(w);
        return;
      }
      if w.now - lastCheck < checkInterval {
        return Done(marker, true, None);
      }
      lastCheck := w.now;
      o := EnsureActive(w);
    }
  }
}
