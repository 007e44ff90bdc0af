/** The install state of the web client as a value: what one call of ensure_active makes of it,
    given what the outside world does during the call. */
module InstallLifecycle {
  import opened Prelude
  import opened StringOrder
  import opened VersionTags
  import opened Manifest
  import opened Fetcher

  /** A matching release.  No `download` means that fetching or verifying the archive fails;
      `stop` is how many members can be unpacked before the file system gives out.  A release
      time that is not positive is not known. */
  datatype Candidate = Candidate(version: Version, releasedAt: int,
                                 download: Option<seq<Entry>>, stop: nat)

  datatype Config = Config(enabled: bool, autoUpdate: bool, minAge: int, budget: nat,
                           injected: Option<string>)

  /** What becomes of the injected file: written, not written for an error of the file system, or not
      even rendered, since the template does not format. */
  datatype Rendering = Rendered(text: string) | Unwritable | Unrenderable

  /** What happens around one call: the clock, the signing key, the releases on offer, and how
      far each fallible step gets.  `leftover` are the files of an untrusted version that resist
      deletion, `residue` those of an old one when clearing it for a new install gives out. */
  datatype World = World(now: nat, key: Option<Key>, candidates: Option<seq<Candidate>>,
                         manifestSteps: nat, repairSteps: nat, config: Rendering, moveFails: bool,
                         leftover: Option<set<string>>, residue: Option<set<string>>,
                         markFails: bool, stuck: set<string>)

  /** The install directory: versions by tag, the marker, and the quarantine. */
  datatype Disk = Disk(installs: map<string, Dir>, marker: Option<string>, quarantine: map<string, Dir>)

  datatype Problem = Disabled | Unresolved | NoMatchingRelease | BelowMinAge | InstallFailed

  datatype Outcome =
    | Done(installed: Option<string>, alreadyCurrent: bool, error: Option<Problem>)
    | Exception

  const MAX_VERSIONS := 5

  predicate WellFormed(w: World) {
    w.candidates.Some? ==>
      forall i :: 0 <= i < |w.candidates.value| ==> w.candidates.value[i].version.Valid()
  }

  /** What is under a tag. */
  function At(installs: map<string, Dir>, tag: string): Option<Dir> {
    if tag in installs then Some(installs[tag]) else None
  }

  function FileAt(d: Dir, p: string): Option<Content> {
    if p in d then Some(d[p]) else None
  }

  // ----- choosing a release -----

  datatype Decision = Wait | Keep(candidate: Candidate) | Install(candidate: Candidate)

  predicate ShouldFetch(cfg: Config, c: Candidate, now: nat) {
    !cfg.autoUpdate || c.releasedAt <= 0 || now - c.releasedAt >= cfg.minAge
  }

  /** Releases below the current version are passed over; the current one is kept; the first
      other one that is old enough is installed. */
  function Decide(cs: seq<Candidate>, current: Option<Version>, cfg: Config, now: nat): Decision {
    if cs == [] then Wait
    else if current.Some? && Compare(cs[0].version, current.value) < 0 then Decide(cs[1..], current, cfg, now)
    else if current.Some? && Compare(cs[0].version, current.value) == 0 then Keep(cs[0])
    else if ShouldFetch(cfg, cs[0], now) then Install(cs[0])
    else Decide(cs[1..], current, cfg, now)
  }

  function CurrentVersion(disk: Disk): Option<Version> {
    if disk.marker.Some? then Parse(disk.marker.value) else None
  }

  // ----- installing -----

  ghost function SignedFor(d: Dir, w: World): Dir {
    if w.key.Some? && Files(d) != map[] then Written(d, Files(d), w.key.value, w.manifestSteps) else d
  }

  function Configured(d: Dir, cfg: Config, w: World): Dir {
    if cfg.injected.Some? && w.config.Rendered? then d[cfg.injected.value := Plain(w.config.text)] else d
  }

  /** A template that does not format ends the call before the marker is written. */
  predicate BreaksOff(cfg: Config, w: World) {
    w.markFails || (cfg.injected.Some? && w.config.Unrenderable?)
  }

  /** What is left of a directory. */
  function Left(d: Dir, names: set<string>): Dir {
    map p | p in d && p in names :: d[p]
  }

  /** What unpacking makes of an empty directory. */
  function Unpacked(c: Candidate, cfg: Config): (Dir, bool, nat)
    requires c.download.Some?
  {
    Unpack(Members(c.download.value), map[], 0, Some(cfg.budget), c.stop)
  }

  ghost function Installing(disk: Disk, c: Candidate, cfg: Config, w: World): (Disk, Outcome) {
    var tag, failed := Format(c.version), Done(disk.marker, true, Some(InstallFailed));
    if c.download == None then (disk, failed)
    else if tag in disk.installs && w.residue.Some? then
      (disk.(installs := disk.installs[tag := Left(disk.installs[tag], w.residue.value)]), failed)
    else
      var (d, ok, _) := Unpacked(c, cfg);
      var final := Configured(SignedFor(d, w), cfg, w);
      if !ok then (disk.(installs := disk.installs[tag := d]), failed)
      else if BreaksOff(cfg, w) then (disk.(installs := disk.installs[tag := final]), Exception)
      else
        (Disk(Pruned(disk.installs[tag := final], {tag}, MAX_VERSIONS, w.stuck), Some(tag), disk.quarantine),
         Done(Some(tag), false, None))
  }

  predicate Succeeded(o: Outcome) {
    o.Done? && o.error == None
  }

  // ----- quarantine -----

  function StatusName(s: Status): string {
    match s
    case Ok => "ok"
    case HmacMismatch => "hmac_mismatch"
    case HashMismatch => "hash_mismatch"
    case Missing => "missing"
    case Error => "error"
    case Raised => "raised"
  }

  function NameFor(base: string, suffix: nat): string {
    if suffix == 0 then base else base + "-" + Numeral(suffix)
  }

  lemma NameInjective(base: string, i: nat, j: nat)
    requires NameFor(base, i) == NameFor(base, j)
    ensures i == j
  {
    if i > 0 && j > 0 {
      var p := base + "-";
      assert Numeral(i) == NameFor(base, i)[|p|..] && Numeral(j) == NameFor(base, j)[|p|..];
      NumeralInjective(i, j);
    }
  }

  function Tried(base: string, suffix: nat): set<string> {
    set i | 0 <= i < suffix :: NameFor(base, i)
  }

  lemma TriedOneMore(base: string, suffix: nat)
    ensures Tried(base, suffix + 1) == Tried(base, suffix) + {NameFor(base, suffix)}
    ensures NameFor(base, suffix) !in Tried(base, suffix)
  {
    forall i | 0 <= i < suffix
      ensures NameFor(base, i) != NameFor(base, suffix)
    {
      if NameFor(base, i) == NameFor(base, suffix) {
        NameInjective(base, i, suffix);
      }
    }
  }

  /** One more name tried means fewer existing names left to try. */
  lemma FewerToTry(existing: set<string>, base: string, suffix: nat)
    requires NameFor(base, suffix) in existing
    ensures |existing - Tried(base, suffix + 1)| < |existing - Tried(base, suffix)|
  {
    TriedOneMore(base, suffix);
    var before, after := existing - Tried(base, suffix), existing - Tried(base, suffix + 1);
    assert before == after + {NameFor(base, suffix)} && NameFor(base, suffix) !in after;
  }

  /** The first name from `suffix` on that is not taken. */
  function FreeName(existing: set<string>, base: string, suffix: nat): (name: string)
    ensures name !in existing
    decreases |existing - Tried(base, suffix)|
  {
    if NameFor(base, suffix) in existing
    then FewerToTry(existing, base, suffix); FreeName(existing, base, suffix + 1)
    else NameFor(base, suffix)
  }

  function QuarantineBase(tag: string, now: nat, status: Status): string {
    tag + ".untrusted-" + Numeral(now) + "-" + StatusName(status)
  }

  function Marked(d: Dir, tag: string, status: Status): Dir {
    d[".untrusted" := Plain("tag=" + tag + " status=" + StatusName(status) + "\n")]
  }

  /** The untrusted version is moved aside under a fresh name; if the move fails it is deleted,
      as far as deleting goes. */
  function Quarantined(disk: Disk, tag: string, status: Status, w: World): Disk
    requires tag in disk.installs
  {
    if w.moveFails then
      disk.(installs := if w.leftover.Some? then disk.installs[tag := Left(disk.installs[tag], w.leftover.value)]
                        else disk.installs - {tag})
    else
      var name := FreeName(disk.quarantine.Keys, QuarantineBase(tag, w.now, status), 0);
      Disk(disk.installs - {tag}, disk.marker,
           disk.quarantine[name := Marked(disk.installs[tag], tag, status)])
  }

  lemma {:induction false} FreeNameIs(existing: set<string>, base: string, suffix: nat) returns (k: nat)
    ensures k >= suffix && FreeName(existing, base, suffix) == NameFor(base, k)
    ensures forall j :: suffix <= j < k ==> NameFor(base, j) in existing
    decreases |existing - Tried(base, suffix)|
  {
    if NameFor(base, suffix) in existing {
      FewerToTry(existing, base, suffix);
      k := FreeNameIs(existing, base, suffix + 1);
    } else {
      k := suffix;
    }
  }

  /** The name in quarantine: tag, time and status, and a number if that is taken: the first free one. */
  lemma QuarantineName(disk: Disk, tag: string, status: Status, w: World) returns (k: nat)
    requires tag in disk.installs && !w.moveFails
    ensures var word := match status
        case Ok => "ok"
        case HmacMismatch => "hmac_mismatch"
        case HashMismatch => "hash_mismatch"
        case Missing => "missing"
        case Error => "error"
        case Raised => "raised";
      var base := tag + ".untrusted-" + Numeral(w.now) + "-" + word;
      var name := if k == 0 then base else base + "-" + Numeral(k);
      && name !in disk.quarantine && (k > 0 ==> base in disk.quarantine)
      && (forall j :: 0 < j < k ==> base + "-" + Numeral(j) in disk.quarantine)
      && Quarantined(disk, tag, status, w) ==
           Disk(disk.installs - {tag}, disk.marker,
                disk.quarantine[name := disk.installs[tag]
                  [".untrusted" := Plain("tag=" + tag + " status=" + word + "\n")]])
  {
    var base := QuarantineBase(tag, w.now, status);
    k := FreeNameIs(disk.quarantine.Keys, base, 0);
    forall j | 0 < j < k ensures base + "-" + Numeral(j) in disk.quarantine {
      assert NameFor(base, j) in disk.quarantine.Keys;
    }
    if k > 0 { assert NameFor(base, 0) in disk.quarantine.Keys; }
  }

  // ----- keeping the current version -----

  ghost function RepairFor(d: Dir, status: Status, key: Key, w: World): (Dir, Repair) {
    if status == HmacMismatch then Repairing(d, key, w.repairSteps) else (d, Refused)
  }

  ghost function Keeping(disk: Disk, c: Candidate, cfg: Config, w: World): (Disk, Outcome) {
    var tag := Format(c.version);
    if w.key == None || tag !in disk.installs then (disk, Done(disk.marker, true, None)) else
      var status := Verify(disk.installs[tag], w.key.value);
      if status == Ok then (disk, Done(disk.marker, true, None))
      else if status == Raised then (disk, Exception)
      else
        var (d, repair) := RepairFor(disk.installs[tag], status, w.key.value, w);
        var disk' := disk.(installs := disk.installs[tag := d]);
        match repair
        case Crashed => (disk', Exception)
        case Repaired => (disk', Done(disk.marker, true, None))
        case Refused => Installing(Quarantined(disk', tag, status, w), c, cfg, w)
  }

  /** One call of ensure_active. */
  ghost function EnsuringActive(disk: Disk, cfg: Config, w: World): (Disk, Outcome) {
    if !cfg.enabled then (disk, Done(disk.marker, true, Some(Disabled)))
    else if w.candidates == None then (disk, Done(disk.marker, true, Some(Unresolved)))
    else if w.candidates.value == [] then (disk, Done(disk.marker, true, Some(NoMatchingRelease)))
    else
      match Decide(w.candidates.value, CurrentVersion(disk), cfg, w.now)
      case Wait => (disk, Done(disk.marker, true, Some(BelowMinAge)))
      case Keep(c) => Keeping(disk, c, cfg, w)
      case Install(c) => Installing(disk, c, cfg, w)
  }

  datatype Rewrite = Reissued(written: bool) | Broken

  /** The marked version, rewritten config.js and all. */
  function Reissuing(disk: Disk, cfg: Config, config: Rendering): (Disk, Rewrite) {
    if !cfg.enabled || cfg.injected == None || disk.marker == None || disk.marker.value !in disk.installs
    then (disk, Reissued(false))
    else
      var tag := disk.marker.value;
      match config
      case Rendered(text) =>
        (disk.(installs := disk.installs[tag := disk.installs[tag][cfg.injected.value := Plain(text)]]), Reissued(true))
      case Unwritable => (disk, Reissued(false))
      case Unrenderable => (disk, Broken)
  }

  // ----- what a decision means -----

  lemma {:induction false} DecideMeans(cs: seq<Candidate>, current: Option<Version>, cfg: Config, now: nat)
    ensures match Decide(cs, current, cfg, now)
      case Wait => true
      case Keep(c) => c in cs && current == Some(c.version)
      case Install(c) => c in cs && ShouldFetch(cfg, c, now)
                         && (current.Some? ==> Compare(current.value, c.version) < 0)
  {
    if cs != [] {
      DecideMeans(cs[1..], current, cfg, now);
      if current.Some? {
        CompareIsTotalOrder(cs[0].version, current.value, current.value);
      }
    }
  }

  predicate Older(c: Candidate, current: Option<Version>) {
    current.Some? && Compare(c.version, current.value) < 0
  }

  predicate IsCurrent(c: Candidate, current: Option<Version>) {
    current.Some? && Compare(c.version, current.value) == 0
  }

  /** Automatic updates are on, the release time is known, and it is less than the minimal age ago. */
  predicate TooYoung(c: Candidate, cfg: Config, now: int) {
    cfg.autoUpdate && 0 < c.releasedAt && now < c.releasedAt + cfg.minAge
  }

  predicate PassedOver(c: Candidate, current: Option<Version>, cfg: Config, now: int) {
    Older(c, current) || (TooYoung(c, cfg, now) && !IsCurrent(c, current))
  }

  /** The first release that is not passed over. */
  ghost predicate FirstTaken(cs: seq<Candidate>, current: Option<Version>, cfg: Config, now: int, i: nat) {
    && i <= |cs|
    && (forall j :: 0 <= j < i ==> PassedOver(cs[j], current, cfg, now))
    && (i < |cs| ==> !PassedOver(cs[i], current, cfg, now))
  }

  lemma {:induction false} FirstIsDecided(cs: seq<Candidate>, current: Option<Version>, cfg: Config, now: nat, i: nat)
    requires FirstTaken(cs, current, cfg, now, i)
    ensures Decide(cs, current, cfg, now) ==
      if i == |cs| then Wait else if IsCurrent(cs[i], current) then Keep(cs[i]) else Install(cs[i])
  {
    if i > 0 {
      assert PassedOver(cs[0], current, cfg, now);
      assert forall j :: 0 <= j < i - 1 ==> cs[1..][j] == cs[j + 1];
      FirstIsDecided(cs[1..], current, cfg, now, i - 1);
    }
  }

  /** Which release a call takes.  Releases older than the current version, and others that are too
      young, are passed over; the first that is not is looked after if it is the current version and
      installed if it is not; if there is none, nothing happens and the answer is that all are below
      the minimal age. */
  lemma WhichReleaseIsTaken(disk: Disk, cfg: Config, w: World, i: nat)
    requires cfg.enabled && w.candidates.Some? && w.candidates.value != []
    requires FirstTaken(w.candidates.value, CurrentVersion(disk), cfg, w.now, i)
    ensures var cs := w.candidates.value;
      EnsuringActive(disk, cfg, w) ==
        if i == |cs| then (disk, Done(disk.marker, true, Some(BelowMinAge)))
        else if IsCurrent(cs[i], CurrentVersion(disk)) then Keeping(disk, cs[i], cfg, w)
        else Installing(disk, cs[i], cfg, w)
  {
    FirstIsDecided(w.candidates.value, CurrentVersion(disk), cfg, w.now, i);
  }

  lemma {:induction false} SomeFirst(cs: seq<Candidate>, current: Option<Version>, cfg: Config, now: nat)
    returns (i: nat)
    ensures FirstTaken(cs, current, cfg, now, i)
  {
    i := 0;
    while i < |cs| && PassedOver(cs[i], current, cfg, now)
      invariant i <= |cs| && forall j :: 0 <= j < i ==> PassedOver(cs[j], current, cfg, now)
    {
      i := i + 1;
    }
  }

  /** An install or a refresh goes well, raises, or answers that the install failed. */
  predicate AboutInstalling(o: Outcome) {
    o.Done? ==> o.error == None || o.error == Some(InstallFailed)
  }

  lemma NotAboutAge(disk: Disk, c: Candidate, cfg: Config, w: World)
    ensures AboutInstalling(Installing(disk, c, cfg, w).1) && AboutInstalling(Keeping(disk, c, cfg, w).1)
  {
  }

  /** "Below the minimal age" is answered exactly when every release is passed over. */
  lemma BelowMinAgeExactly(disk: Disk, cfg: Config, w: World)
    requires cfg.enabled && w.candidates.Some? && w.candidates.value != []
    ensures EnsuringActive(disk, cfg, w).1 == Done(disk.marker, true, Some(BelowMinAge)) <==>
      forall c :: c in w.candidates.value ==>
        Older(c, CurrentVersion(disk)) || (TooYoung(c, cfg, w.now) && !IsCurrent(c, CurrentVersion(disk)))
  {
    var cs := w.candidates.value;
    var i := SomeFirst(cs, CurrentVersion(disk), cfg, w.now);
    WhichReleaseIsTaken(disk, cfg, w, i);
    if i < |cs| {
      NotAboutAge(disk, cs[i], cfg, w);
      assert cs[i] in cs && !PassedOver(cs[i], CurrentVersion(disk), cfg, w.now);
    } else {
      forall c | c in cs ensures PassedOver(c, CurrentVersion(disk), cfg, w.now) {
        var j :| 0 <= j < |cs| && cs[j] == c;
      }
    }
  }

  lemma InstalledIsFormatted(disk: Disk, c: Candidate, cfg: Config, w: World)
    ensures Installing(disk, c, cfg, w).1.Done? && !Installing(disk, c, cfg, w).1.alreadyCurrent ==>
      Installing(disk, c, cfg, w).1.installed == Some(Format(c.version))
    ensures Keeping(disk, c, cfg, w).1.Done? && !Keeping(disk, c, cfg, w).1.alreadyCurrent ==>
      Keeping(disk, c, cfg, w).1.installed == Some(Format(c.version))
  {
  }

  /** With the releases given newest first: whatever is installed is not older than the current version,
      old enough or the current version itself, and no release of a higher version is. */
  lemma NewestThatIsOldEnough(disk: Disk, cfg: Config, w: World, tag: string) returns (i: nat)
    requires cfg.enabled && w.candidates.Some?
    requires var cs := w.candidates.value;
      forall j, k :: 0 <= j < k < |cs| ==> Compare(cs[k].version, cs[j].version) <= 0
    requires EnsuringActive(disk, cfg, w).1 == Done(Some(tag), false, None)
    ensures var cs, current := w.candidates.value, CurrentVersion(disk);
      && i < |cs| && tag == Format(cs[i].version)
      && !Older(cs[i], current) && (TooYoung(cs[i], cfg, w.now) ==> IsCurrent(cs[i], current))
      && forall c :: c in cs && Compare(c.version, cs[i].version) > 0 ==>
           Older(c, current) || (TooYoung(c, cfg, w.now) && !IsCurrent(c, current))
  {
    var cs := w.candidates.value;
    i := SomeFirst(cs, CurrentVersion(disk), cfg, w.now);
    WhichReleaseIsTaken(disk, cfg, w, i);
    InstalledIsFormatted(disk, cs[i], cfg, w);
    forall c | c in cs && Compare(c.version, cs[i].version) > 0
      ensures PassedOver(c, CurrentVersion(disk), cfg, w.now)
    {
      var j :| 0 <= j < |cs| && cs[j] == c;
      CompareIsTotalOrder(c.version, c.version, c.version);
    }
  }

  /** When no release is looked at. */
  lemma NothingToLookAt(disk: Disk, cfg: Config, w: World)
    ensures !cfg.enabled ==> EnsuringActive(disk, cfg, w) == (disk, Done(disk.marker, true, Some(Disabled)))
    ensures cfg.enabled && w.candidates.None? ==>
      EnsuringActive(disk, cfg, w) == (disk, Done(disk.marker, true, Some(Unresolved)))
    ensures cfg.enabled && w.candidates == Some([]) ==>
      EnsuringActive(disk, cfg, w) == (disk, Done(disk.marker, true, Some(NoMatchingRelease)))
    ensures cfg.enabled && w.candidates.Some? && w.candidates.value != [] ==>
      var o := EnsuringActive(disk, cfg, w).1;
      AboutInstalling(o) || o == Done(disk.marker, true, Some(BelowMinAge))
  {
    if cfg.enabled && w.candidates.Some? && w.candidates.value != [] {
      var cs := w.candidates.value;
      var i := SomeFirst(cs, CurrentVersion(disk), cfg, w.now);
      WhichReleaseIsTaken(disk, cfg, w, i);
      if i < |cs| { NotAboutAge(disk, cs[i], cfg, w); }
    }
  }

  // ----- the marker never goes back -----

  lemma InstallingMarks(disk: Disk, c: Candidate, cfg: Config, w: World)
    ensures var (disk', o) := Installing(disk, c, cfg, w);
      && (Succeeded(o) ==> disk'.marker == Some(Format(c.version)) == o.installed && !o.alreadyCurrent)
      && (!Succeeded(o) ==> disk'.marker == disk.marker && (o.Done? ==> o.alreadyCurrent))
  {
  }

  lemma KeepingMarks(disk: Disk, c: Candidate, cfg: Config, w: World)
    ensures Keeping(disk, c, cfg, w).0.marker in {disk.marker, Some(Format(c.version))}
  {
    var tag := Format(c.version);
    if w.key.Some? && tag in disk.installs {
      var status := Verify(disk.installs[tag], w.key.value);
      var disk' := disk.(installs := disk.installs[tag := RepairFor(disk.installs[tag], status, w.key.value, w).0]);
      InstallingMarks(Quarantined(disk', tag, status, w), c, cfg, w);
    }
  }

  /** Where one call can move the marker. */
  lemma EnsuringMarks(disk: Disk, cfg: Config, w: World)
    ensures var disk' := EnsuringActive(disk, cfg, w).0;
      disk'.marker == disk.marker
      || (w.candidates.Some?
          && var d := Decide(w.candidates.value, CurrentVersion(disk), cfg, w.now);
            !d.Wait? && disk'.marker == Some(Format(d.candidate.version)))
  {
    if cfg.enabled && w.candidates.Some? && w.candidates.value != [] {
      match Decide(w.candidates.value, CurrentVersion(disk), cfg, w.now)
      case Wait =>
      case Keep(c) => KeepingMarks(disk, c, cfg, w);
      case Install(c) => InstallingMarks(disk, c, cfg, w);
    }
  }

  /** A call moves a marker that parses only to a version at least as high. */
  lemma MarkerNeverGoesBack(disk: Disk, cfg: Config, w: World)
    requires WellFormed(w) && CurrentVersion(disk).Some?
    ensures var disk' := EnsuringActive(disk, cfg, w).0;
      CurrentVersion(disk').Some? && Compare(CurrentVersion(disk).value, CurrentVersion(disk').value) <= 0
  {
    var v := CurrentVersion(disk).value;
    CompareIsTotalOrder(v, v, v);
    EnsuringMarks(disk, cfg, w);
    if w.candidates.Some? {
      var d := Decide(w.candidates.value, Some(v), cfg, w.now);
      DecideMeans(w.candidates.value, Some(v), cfg, w.now);
      if !d.Wait? {
        ParseOfFormat(d.candidate.version);
      }
    }
  }

  // ----- when an installed version verifies -----

  predicate AllPlain(d: Dir) {
    forall p :: p in d ==> d[p].Plain?
  }

  lemma {:induction false} ContentsArePlain(ms: seq<Member>, d: Dir)
    requires AllPlain(d)
    ensures AllPlain(Contents(ms, d))
    decreases |ms|
  {
    if ms != [] {
      ContentsArePlain(ms[1..], d[ms[0].place := Plain(Joined(ms[0].chunks))]);
    }
  }

  /** With the injected file written, every recorded name holds what was recorded, and the manifest
      and its seal are not what was written over. */
  ghost predicate Sound(d: Dir, cfg: Config, w: World) {
    && Keeps(d, Configured(d, cfg, w))
    && (cfg.injected.Some? && w.config.Rendered? ==> cfg.injected.value !in {MANIFEST, SEAL})
  }

  /** A finished install verifies under the key exactly when there was something to sign, the
      manifest and its seal were written, and the files are sound. */
  lemma InstalledVerifies(d: Dir, cfg: Config, w: World)
    requires AllPlain(d) && w.key.Some?
    ensures Verify(Configured(SignedFor(d, w), cfg, w), w.key.value) == Ok
            <==> Files(d) != map[] && w.manifestSteps >= 2 && Sound(d, cfg, w)
  {
    var key := w.key.value;
    var now := Configured(SignedFor(d, w), cfg, w);
    if Files(d) != map[] && w.manifestSteps >= 2 {
      KeepsBesides(d, Configured(d, cfg, w), now);
      if cfg.injected.Some? && w.config.Rendered? && cfg.injected.value == SEAL {
        assert now[SEAL] == Plain(w.config.text);
      } else {
        TamperEvident(d, key, now);
      }
    } else {
      assert SEAL in now ==> now[SEAL].Plain?;
    }
  }

  // ----- after a call without an error -----

  /** The version under the tag, if it is there, verifies. */
  predicate TagVerifies(disk: Disk, tag: string, key: Key) {
    tag in disk.installs ==> Verify(disk.installs[tag], key) == Ok
  }

  /** The marked version, if it is there, verifies. */
  predicate ActiveVerifies(disk: Disk, key: Key) {
    disk.marker.Some? ==> TagVerifies(disk, disk.marker.value, key)
  }

  /** What a finished install of a candidate needs to verify: something in the archive besides
      config.js and manifest files, manifest and seal written, and sound files. */
  ghost predicate Trustworthy(c: Candidate, cfg: Config, w: World) {
    c.download.Some? ==>
      var d := Contents(Members(c.download.value), map[]);
      (exists p :: p in d && p !in EXCLUDED) && w.manifestSteps >= 2 && Sound(d, cfg, w)
  }

  lemma PruningKeepsTag(installs: map<string, Dir>, tag: string, stuck: set<string>)
    requires tag in installs
    ensures var left := Pruned(installs, {tag}, MAX_VERSIONS, stuck);
      tag in left && left[tag] == installs[tag]
  {
    RetainedMeans(installs.Keys, {tag}, MAX_VERSIONS);
  }

  /** After a finished install the active version is the one installed, and it verifies exactly
      when the install was trustworthy. */
  lemma InstallingVerifies(disk: Disk, c: Candidate, cfg: Config, w: World)
    requires w.key.Some?
    ensures var (disk', o) := Installing(disk, c, cfg, w);
      Succeeded(o) ==>
        && disk'.marker == Some(Format(c.version)) && Format(c.version) in disk'.installs
        && (TagVerifies(disk', Format(c.version), w.key.value) <==> Trustworthy(c, cfg, w))
  {
    if Succeeded(Installing(disk, c, cfg, w).1) {
      var tag, ms := Format(c.version), Members(c.download.value);
      UnpackMeans(ms, map[], 0, Some(cfg.budget), c.stop);
      var d := Contents(ms, map[]);
      ContentsArePlain(ms, map[]);
      var final := Configured(SignedFor(d, w), cfg, w);
      PruningKeepsTag(disk.installs[tag := final], tag, w.stuck);
      SomethingRecorded(d);
      InstalledVerifies(d, cfg, w);
    }
  }

  /** The check failed and nothing was repaired. */
  ghost predicate Untrusted(d: Dir, key: Key, w: World) {
    var status := Verify(d, key);
    status != Ok && status != Raised && RepairFor(d, status, key, w).1 == Refused
  }

  /** The candidate the call settles on, if it looks for one. */
  function Chosen(disk: Disk, cfg: Config, w: World): Decision {
    if !cfg.enabled || w.candidates == None then Wait
    else Decide(w.candidates.value, CurrentVersion(disk), cfg, w.now)
  }

  /** The current version is as it was signed, or is re-signed and keeps itself, or is replaced by a
      trustworthy install. */
  ghost predicate Curable(disk: Disk, c: Candidate, cfg: Config, w: World) {
    var tag := Format(c.version);
    w.key.Some? && tag in disk.installs ==>
      var d := disk.installs[tag];
      var status := Verify(d, w.key.value);
      status == Ok ||
      if RepairFor(d, status, w.key.value, w).1 == Repaired then Keeps(d, d) else Trustworthy(c, cfg, w)
  }

  /** Whatever the marker says, it is the canonical tag that is looked after. */
  lemma KeepingVerifies(disk: Disk, c: Candidate, cfg: Config, w: World)
    requires w.key.Some?
    ensures var (disk', o) := Keeping(disk, c, cfg, w);
      Succeeded(o) ==> (TagVerifies(disk', Format(c.version), w.key.value) <==> Curable(disk, c, cfg, w))
  {
    var tag := Format(c.version);
    if tag in disk.installs {
      var d := disk.installs[tag];
      var status := Verify(d, w.key.value);
      var (d', repair) := RepairFor(d, status, w.key.value, w);
      if repair == Repaired {
        RepairSigns(d, w.key.value, w.repairSteps);
      } else if status != Ok && status != Raised && repair == Refused {
        var q := Quarantined(disk.(installs := disk.installs[tag := d']), tag, status, w);
        InstallingVerifies(q, c, cfg, w);
      }
    }
  }

  /** The version under the canonical tag failed its check and was not repaired. */
  ghost predicate Distrusted(disk: Disk, c: Candidate, w: World) {
    var tag := Format(c.version);
    w.key.Some? && tag in disk.installs && Untrusted(disk.installs[tag], w.key.value, w)
  }

  /** What a call has to find for the active version to verify afterwards.  For a marker in another
      spelling the check is of the canonical tag: if it leads to a new install, that is the active
      version; if not, the active version has to verify already. */
  ghost predicate Promising(disk: Disk, cfg: Config, w: World) {
    match Chosen(disk, cfg, w)
    case Wait => true
    case Keep(c) =>
      if disk.marker == Some(Format(c.version)) then Curable(disk, c, cfg, w)
      else if Distrusted(disk, c, w) then Trustworthy(c, cfg, w)
      else w.key.Some? ==> ActiveVerifies(disk, w.key.value)
    case Install(c) => Trustworthy(c, cfg, w)
  }

  lemma KeepingRespelled(disk: Disk, c: Candidate, cfg: Config, w: World)
    requires w.key.Some? && disk.marker.Some? && disk.marker.value != Format(c.version)
    ensures var (disk', o) := Keeping(disk, c, cfg, w);
      Succeeded(o) ==> (ActiveVerifies(disk', w.key.value) <==>
        if Distrusted(disk, c, w) then Trustworthy(c, cfg, w) else ActiveVerifies(disk, w.key.value))
  {
    var tag := Format(c.version);
    if Distrusted(disk, c, w) {
      var d := disk.installs[tag];
      var status := Verify(d, w.key.value);
      var disk1 := disk.(installs := disk.installs[tag := RepairFor(d, status, w.key.value, w).0]);
      InstallingVerifies(Quarantined(disk1, tag, status, w), c, cfg, w);
    }
  }

  /** From any state of the disk: a call that returns without an error, with a key at hand, leaves
      the active version verifying exactly when what it found was promising. */
  lemma EnsuringVerifies(disk: Disk, cfg: Config, w: World)
    requires WellFormed(w) && w.key.Some?
    ensures var (disk', o) := EnsuringActive(disk, cfg, w);
      Succeeded(o) ==> (ActiveVerifies(disk', w.key.value) <==> Promising(disk, cfg, w))
  {
    if Succeeded(EnsuringActive(disk, cfg, w).1) {
      var current := CurrentVersion(disk);
      DecideMeans(w.candidates.value, current, cfg, w.now);
      match Decide(w.candidates.value, current, cfg, w.now)
      case Keep(c) =>
        if disk.marker == Some(Format(c.version)) {
          KeepingVerifies(disk, c, cfg, w);
          KeepingMarks(disk, c, cfg, w);
        } else {
          KeepingRespelled(disk, c, cfg, w);
        }
      case Install(c) => InstallingVerifies(disk, c, cfg, w);
    }
  }

  /** The same files under a tag. */
  predicate SameAt(before: map<string, Dir>, after: map<string, Dir>, t: string) {
    (t in before <==> t in after) && (t in before ==> before[t] == after[t])
  }

  lemma InstallingSparesOthers(disk: Disk, c: Candidate, cfg: Config, w: World, t: string)
    ensures var (disk', o) := Installing(disk, c, cfg, w);
      t != Format(c.version) && !Succeeded(o) ==> SameAt(disk.installs, disk'.installs, t)
  {
  }

  /** The call did not install anything. */
  predicate Idle(o: Outcome) {
    o.Done? ==> o.alreadyCurrent
  }

  lemma KeepingSparesOthers(disk: Disk, c: Candidate, cfg: Config, w: World, t: string)
    ensures var (disk', o) := Keeping(disk, c, cfg, w);
      t != Format(c.version) && Idle(o) ==> SameAt(disk.installs, disk'.installs, t)
  {
    var tag := Format(c.version);
    if w.key.Some? && tag in disk.installs {
      var status := Verify(disk.installs[tag], w.key.value);
      var (d, repair) := RepairFor(disk.installs[tag], status, w.key.value, w);
      if status != Ok && status != Raised && repair == Refused {
        var q := Quarantined(disk.(installs := disk.installs[tag := d]), tag, status, w);
        InstallingMarks(q, c, cfg, w);
        InstallingSparesOthers(q, c, cfg, w, t);
      }
    }
  }

  /** So the spelling matters: for a marker in another spelling the call checks the directory
      of the canonical tag, so unless it installs anew, the active version verifies afterwards
      exactly when it did before. */
  lemma OtherSpellingIsNotChecked(disk: Disk, cfg: Config, w: World, key: Key)
    requires WellFormed(w) && disk.marker.Some? && !Canonical(disk.marker.value)
    ensures var (disk', o) := EnsuringActive(disk, cfg, w);
      Idle(o) ==> (ActiveVerifies(disk', key) <==> ActiveVerifies(disk, key))
  {
    var m := disk.marker.value;
    EnsuringMarks(disk, cfg, w);
    if cfg.enabled && w.candidates.Some? && w.candidates.value != [] {
      DecideMeans(w.candidates.value, CurrentVersion(disk), cfg, w.now);
      match Decide(w.candidates.value, CurrentVersion(disk), cfg, w.now)
      case Wait =>
      case Keep(c) =>
        FormatIsCanonical(c.version);
        KeepingSparesOthers(disk, c, cfg, w, m);
        KeepingFailedMarks(disk, c, cfg, w);
      case Install(c) =>
        FormatIsCanonical(c.version);
        InstallingMarks(disk, c, cfg, w);
        InstallingSparesOthers(disk, c, cfg, w, m);
    }
  }

  lemma KeepingFailedMarks(disk: Disk, c: Candidate, cfg: Config, w: World)
    ensures var (disk', o) := Keeping(disk, c, cfg, w);
      Idle(o) ==> disk'.marker == disk.marker
  {
  }

  /** A disk on which a version stands in another spelling. */
  function Misspelled(v: Version, d: Dir): Disk {
    Disk(map[Padded(v) := d], Some(Padded(v)), map[])
  }

  /** Whatever stands there, tampered or not: a call that finds the version current returns without an
      error and leaves it, so the active version need not verify. */
  lemma OtherSpellingStaysAsItIs(v: Version, d: Dir, key: Key, cfg: Config, w: World)
    requires v.Valid() && cfg.enabled && w.key == Some(key)
    requires w.candidates == Some([Candidate.Candidate(v, 0, None, 0)])
    ensures var disk := Misspelled(v, d);
      && EnsuringActive(disk, cfg, w) == (disk, Done(Some(Padded(v)), true, None))
      && (ActiveVerifies(disk, key) <==> Verify(d, key) == Ok)
    ensures !ActiveVerifies(Misspelled(v, map[]), key)
  {
    EveryVersionHasAnotherSpelling(v);
    CompareIsTotalOrder(v, v, v);
    var disk, c := Misspelled(v, d), Candidate.Candidate(v, 0, None, 0);
    assert Decide([c], Some(v), cfg, w.now) == Keep(c);
    assert Format(v) !in disk.installs;
  }

  lemma UnkeptFails(d: Dir, key: Key, now: Dir)
    requires MANIFEST in now && SEAL in now && now[MANIFEST] == Listing(Entries(Files(d)))
    requires now[SEAL] == Seal(HmacSha256(key, now[MANIFEST])) && !Keeps(d, now)
    ensures Verify(now, key) in {Missing, HashMismatch}
  {
    ChecksAgainst(d, now);
    CheckMeans(now, Entries(Files(d)));
  }

  lemma UnkeptIsUntrusted(d: Dir, cfg: Config, w: World)
    requires w.key.Some? && w.manifestSteps >= 2 && cfg.injected in {None, Some(CONFIG)}
    requires !Keeps(d, d)
    ensures Untrusted(Configured(SignedFor(d, w), cfg, w), w.key.value, w)
  {
    var now := Configured(SignedFor(d, w), cfg, w);
    SomethingRecorded(d);
    KeepsBesides(d, d, now);
    UnkeptFails(d, w.key.value, now);
  }

  /** A version with a recorded name that does not keep what was recorded, such as one with a
      backslash, never settles: right after its install the next call finds it untrusted. */
  lemma UnkeptNeverSettles(disk: Disk, c: Candidate, cfg: Config, w: World)
    requires w.key.Some? && w.manifestSteps >= 2 && cfg.injected in {None, Some(CONFIG)} && c.download.Some?
    ensures var d, (disk', o) := Contents(Members(c.download.value), map[]), Installing(disk, c, cfg, w);
      Succeeded(o) && !Keeps(d, d) ==>
        Format(c.version) in disk'.installs && Untrusted(disk'.installs[Format(c.version)], w.key.value, w)
  {
    var d := Contents(Members(c.download.value), map[]);
    if Succeeded(Installing(disk, c, cfg, w).1) && !Keeps(d, d) {
      UnpackMeans(Members(c.download.value), map[], 0, Some(cfg.budget), c.stop);
      InstallingPuts(disk, c, cfg, w);
      UnkeptIsUntrusted(d, cfg, w);
    }
  }

  // ----- what a finished install leaves -----

  /** The installed version holds the files of the archive, the rendered config in place of the injected
      one, and, if there is a key and something to sign, manifest, seal and epoch as far as they could be
      written. */
  ghost predicate Holds(d: Dir, c: Candidate, cfg: Config, w: World)
    requires c.download.Some?
  {
    var files := Contents(Members(c.download.value), map[]);
    var signs := w.key.Some? && exists p :: p in files && p !in EXCLUDED;
    forall p :: FileAt(d, p) ==
      if cfg.injected == Some(p) && w.config.Rendered? then Some(Plain(w.config.text))
      else if p == MANIFEST && signs && w.manifestSteps >= 1 then Some(Listing(Entries(Files(files))))
      else if p == SEAL && signs && w.manifestSteps >= 2
      then Some(Seal(HmacSha256(w.key.value, Listing(Entries(Files(files))))))
      else if p == EPOCH && signs && w.manifestSteps >= 3 then Some(Epoch(w.key.value))
      else FileAt(files, p)
  }

  lemma FinishedHolds(files: Dir, cfg: Config, w: World, p: string)
    ensures var signs := w.key.Some? && exists q :: q in files && q !in EXCLUDED;
      FileAt(Configured(SignedFor(files, w), cfg, w), p) ==
      if cfg.injected == Some(p) && w.config.Rendered? then Some(Plain(w.config.text))
      else if p == MANIFEST && signs && w.manifestSteps >= 1 then Some(Listing(Entries(Files(files))))
      else if p == SEAL && signs && w.manifestSteps >= 2
      then Some(Seal(HmacSha256(w.key.value, Listing(Entries(Files(files))))))
      else if p == EPOCH && signs && w.manifestSteps >= 3 then Some(Epoch(w.key.value))
      else FileAt(files, p)
  {
    SomethingRecorded(files);
  }

  /** What a finished install leaves: under its tag the version, complete; besides it, of the other
      installed versions the four that sort highest and those that could not be deleted; everything that
      is no version; the marker on it; and the quarantine as it was. */
  lemma InstallLeaves(disk: Disk, c: Candidate, cfg: Config, w: World, t: string)
    ensures var tag, (disk', o) := Format(c.version), Installing(disk, c, cfg, w);
      Succeeded(o) ==>
        && disk'.marker == Some(tag) && disk'.quarantine == disk.quarantine
        && o == Done(Some(tag), false, None)
        && tag in disk'.installs && Holds(disk'.installs[tag], c, cfg, w)
        && (t != tag ==>
              (t in disk'.installs <==>
                 t in disk.installs
                 && (Parse(t).None? || t in w.stuck || |Above(disk.installs.Keys, tag, t)| < 4))
              && (t in disk'.installs ==> disk'.installs[t] == disk.installs[t]))
  {
    var tag := Format(c.version);
    if Succeeded(Installing(disk, c, cfg, w).1) {
      var files := Contents(Members(c.download.value), map[]);
      var final := Configured(SignedFor(files, w), cfg, w);
      UnpackMeans(Members(c.download.value), map[], 0, Some(cfg.budget), c.stop);
      var all := disk.installs[tag := final];
      PruningKeepsTag(all, tag, w.stuck);
      forall p { FinishedHolds(files, cfg, w, p); }
      if t != tag { PruningLeaves(disk.installs, final, tag, w.stuck, t); }
    }
  }

  /** The other installed versions that sort above this one. */
  function Above(names: set<string>, tag: string, t: string): set<string> {
    set n | n in names && n != tag && Parse(n).Some? && Less(t, n)
  }

  lemma PruningLeaves(installs: map<string, Dir>, final: Dir, tag: string, stuck: set<string>, t: string)
    requires t != tag
    ensures var all := installs[tag := final];
      var left := Pruned(all, {tag}, MAX_VERSIONS, stuck);
      && (t in left <==> t in installs && (Parse(t).None? || t in stuck || |Above(installs.Keys, tag, t)| < 4))
      && (t in left ==> left[t] == installs[t])
  {
    var all := installs[tag := final];
    InstalledExactly(all.Keys, t);
    if t in installs && Parse(t).Some? {
      RetainedByRank(all.Keys, {tag}, MAX_VERSIONS, t);
      RankIsAbove(installs.Keys, all.Keys, tag, t);
    }
  }

  lemma RankIsAbove(names: set<string>, all: set<string>, tag: string, t: string)
    requires all == names + {tag}
    ensures Rank(Pool(all, {tag}), t) == |Above(names, tag, t)|
  {
    forall n ensures n in Installed(all) <==> n in all && Parse(n).Some? { InstalledExactly(all, n); }
    assert (set n | n in Pool(all, {tag}) && Less(t, n)) == Above(names, tag, t);
  }

  // ----- a failed install does no harm -----

  /** An install succeeds exactly when the archive arrives, the old version is cleared away, all
      member names are safe and clear of each other, the bytes fit the budget, the file system holds,
      marker and all, and the template formats. */
  lemma InstallingSucceeds(disk: Disk, c: Candidate, cfg: Config, w: World)
    ensures Succeeded(Installing(disk, c, cfg, w).1)
            <==> c.download.Some? && (Format(c.version) in disk.installs ==> w.residue == None)
                 && var ms := Members(c.download.value);
                    AllSafe(ms) && AllClear(ms, {}) && Size(ms) <= cfg.budget && |ms| <= c.stop
                       && !BreaksOff(cfg, w)
  {
    if c.download.Some? {
      UnpackMeans(Members(c.download.value), map[], 0, Some(cfg.budget), c.stop);
      var empty: Dir := map[];
      assert empty.Keys == {};
    }
  }

  /** An install that does not succeed leaves the marker and every other version alone. */
  lemma FailedInstallKeepsActive(disk: Disk, c: Candidate, cfg: Config, w: World)
    ensures var (disk', o) := Installing(disk, c, cfg, w);
      !Succeeded(o) ==>
        && disk'.marker == disk.marker && disk'.quarantine == disk.quarantine
        && forall t :: t != Format(c.version) ==> SameAt(disk.installs, disk'.installs, t)
  {
    var (disk', o) := Installing(disk, c, cfg, w);
    InstallingMarks(disk, c, cfg, w);
    forall t ensures t != Format(c.version) && !Succeeded(o) ==> SameAt(disk.installs, disk'.installs, t) {
      InstallingSparesOthers(disk, c, cfg, w, t);
    }
  }

  /** A call that installs nothing, failed or not, leaves the marker and every version but that of
      the release it settled on as they were. */
  lemma IdleCallSparesOthers(disk: Disk, cfg: Config, w: World, t: string)
    ensures var (disk', o) := EnsuringActive(disk, cfg, w);
      Idle(o) ==>
        && disk'.marker == disk.marker
        && (Chosen(disk, cfg, w).Wait? || t != Format(Chosen(disk, cfg, w).candidate.version) ==>
              SameAt(disk.installs, disk'.installs, t))
  {
    match Chosen(disk, cfg, w)
    case Wait =>
    case Keep(c) =>
      KeepingSparesOthers(disk, c, cfg, w, t);
      KeepingFailedMarks(disk, c, cfg, w);
    case Install(c) =>
      InstallingMarks(disk, c, cfg, w);
      FailedInstallKeepsActive(disk, c, cfg, w);
  }

  // ----- tampered bytes -----

  /** Quarantining adds one directory under a name that is not taken, with the bytes as they were
      found, and takes the version off the live path; if the move fails, only what resists deletion
      stays there. */
  lemma QuarantineMeans(disk: Disk, tag: string, status: Status, w: World)
    requires tag in disk.installs
    ensures var q := Quarantined(disk, tag, status, w);
      && q.marker == disk.marker
      && (forall t :: t != tag ==> SameAt(disk.installs, q.installs, t))
      && (tag in q.installs <==> w.moveFails && w.leftover.Some?)
      && (tag in q.installs ==> q.installs[tag] == Left(disk.installs[tag], w.leftover.value))
      && (if w.moveFails then q.quarantine == disk.quarantine
          else exists name :: name !in disk.quarantine
                 && q.quarantine == disk.quarantine[name := Marked(disk.installs[tag], tag, status)])
  {
    var name := FreeName(disk.quarantine.Keys, QuarantineBase(tag, w.now, status), 0);
    assert name !in disk.quarantine;
  }

  /** What the archive alone puts under its tag, complete or not. */
  ghost function Reinstalled(c: Candidate, cfg: Config, w: World): Option<Dir> {
    if c.download == None then None
    else
      var (d, ok, _) := Unpacked(c, cfg);
      Some(if ok then Configured(SignedFor(d, w), cfg, w) else d)
  }

  /** The files of an untrusted version that stay under its tag, if any can: the move failed, some
      resisted deletion, and no archive arrived or they were not cleared away for it either. */
  function Remaining(d: Dir, c: Candidate, w: World): Option<Dir> {
    if !w.moveFails || w.leftover == None then None
    else if c.download == None then Some(Left(d, w.leftover.value))
    else if w.residue.Some? then Some(Left(Left(d, w.leftover.value), w.residue.value))
    else None
  }

  lemma PruningPuts(installs: map<string, Dir>, tag: string, final: Dir, stuck: set<string>)
    ensures At(Pruned(installs[tag := final], {tag}, MAX_VERSIONS, stuck), tag) == Some(final)
  {
    PruningKeepsTag(installs[tag := final], tag, stuck);
  }

  lemma InstallingPuts(disk: Disk, c: Candidate, cfg: Config, w: World)
    ensures var tag, disk' := Format(c.version), Installing(disk, c, cfg, w).0;
      && disk'.quarantine == disk.quarantine
      && At(disk'.installs, tag) ==
           if c.download == None then At(disk.installs, tag)
           else if tag in disk.installs && w.residue.Some? then Some(Left(disk.installs[tag], w.residue.value))
           else Reinstalled(c, cfg, w)
  {
    if c.download.Some? {
      PruningPuts(disk.installs, Format(c.version), Configured(SignedFor(Unpacked(c, cfg).0, w), cfg, w), w.stuck);
    }
  }

  /** After untrusted bytes were found, in every case: they are in quarantine, unless the move failed;
      and under the tag stands what remains of them, or else only what the archive puts there. */
  lemma UntrustedAfter(disk: Disk, c: Candidate, cfg: Config, w: World)
    requires w.key.Some? && Format(c.version) in disk.installs
    requires Untrusted(disk.installs[Format(c.version)], w.key.value, w)
    ensures var disk' := Keeping(disk, c, cfg, w).0;
      var tag := Format(c.version);
      var status := Verify(disk.installs[tag], w.key.value);
      var d := RepairFor(disk.installs[tag], status, w.key.value, w).0;
      && At(disk'.installs, tag) ==
           (if Remaining(d, c, w).Some? then Remaining(d, c, w) else Reinstalled(c, cfg, w))
      && (if w.moveFails then disk'.quarantine == disk.quarantine
          else exists name :: name !in disk.quarantine
                 && disk'.quarantine == disk.quarantine[name := Marked(d, tag, status)])
  {
    var tag := Format(c.version);
    var status := Verify(disk.installs[tag], w.key.value);
    var d := RepairFor(disk.installs[tag], status, w.key.value, w).0;
    var disk1 := disk.(installs := disk.installs[tag := d]);
    QuarantineMeans(disk1, tag, status, w);
    InstallingPuts(Quarantined(disk1, tag, status, w), c, cfg, w);
  }

  /** Whatever of a version signed under the current key fails the check, its manifest or its seal
      included, is never signed over: the version goes to quarantine as it was found. */
  lemma SameKeyTamperIsQuarantined(disk: Disk, c: Candidate, cfg: Config, w: World)
    requires w.key.Some? && Format(c.version) in disk.installs && !w.moveFails
    requires var d := disk.installs[Format(c.version)];
      EPOCH in d && d[EPOCH] == Epoch(w.key.value) && Verify(d, w.key.value) !in {Ok, Raised}
    ensures var tag, disk' := Format(c.version), Keeping(disk, c, cfg, w).0;
      && At(disk'.installs, tag) == Reinstalled(c, cfg, w)
      && exists name :: name !in disk.quarantine
           && disk'.quarantine ==
                disk.quarantine[name := Marked(disk.installs[tag], tag, Verify(disk.installs[tag], w.key.value))]
  {
    SameKeyIsNeverResigned(disk.installs[Format(c.version)], w.key.value, w.repairSteps);
    UntrustedAfter(disk, c, cfg, w);
  }

  /** What the code goes by: a version is left alone when it verifies or the check raises; and under
      another epoch, with a seal that does not fit, when the marker or the list cannot be read, or the
      files match the list and the repair is written out. */
  lemma UntrustedMeans(d: Dir, key: Key, w: World)
    ensures !Untrusted(d, key, w) <==>
      var status := Verify(d, key);
      || status in {Ok, Raised}
      || (status == HmacMismatch && EPOCH in d && d[EPOCH].Garbage?)
      || (status == HmacMismatch && ForeignEpoch(d, key)
          && (d[MANIFEST].Odd? || d[MANIFEST].Garbage?
              || (ListMatches(d) && (exists p :: p in d && p !in EXCLUDED) && w.repairSteps >= 3)))
  {
    RepairGoesThrough(d, key, w.repairSteps);
  }

  /** The marker, or the list, cannot be read, so that the repair raises. */
  predicate RepairRaises(d: Dir, key: Key) {
    EPOCH in d &&
    (d[EPOCH].Garbage? || (ForeignEpoch(d, key) && MANIFEST in d && (d[MANIFEST].Odd? || d[MANIFEST].Garbage?)))
  }

  /** The repair signs the version. */
  ghost predicate RepairSucceeds(d: Dir, key: Key, w: World) {
    ForeignEpoch(d, key) && ListMatches(d) && (exists p :: p in d && p !in EXCLUDED) && w.repairSteps >= 3
  }

  /** What is answered for the version a call keeps, and what becomes of the disk, unless the version is
      distrusted. */
  lemma KeepingAnswers(disk: Disk, c: Candidate, cfg: Config, w: World)
    ensures var tag, (disk', o) := Format(c.version), Keeping(disk, c, cfg, w);
      if w.key.None? || tag !in disk.installs then disk' == disk && o == Done(disk.marker, true, None)
      else
        var d, key := disk.installs[tag], w.key.value;
        var status := Verify(d, key);
        && (status == Ok ==> disk' == disk && o == Done(disk.marker, true, None))
        && (status == Raised ==> disk' == disk && o == Exception)
        && (status == HmacMismatch && RepairRaises(d, key) ==> disk'.installs == disk.installs && o == Exception)
        && (status == HmacMismatch && RepairSucceeds(d, key, w) ==>
              disk' == disk.(installs := disk.installs[tag := Signed(d, key)]) && o == Done(disk.marker, true, None))
  {
    var tag := Format(c.version);
    if w.key.Some? && tag in disk.installs {
      RepairGoesThrough(disk.installs[tag], w.key.value, w.repairSteps);
      RepairSigns(disk.installs[tag], w.key.value, w.repairSteps);
      RepairCrashSpares(disk.installs[tag], w.key.value, w.repairSteps);
    }
  }

  lemma RepairCrashSpares(d: Dir, key: Key, steps: nat)
    ensures Repairing(d, key, steps).1 == Crashed ==> Repairing(d, key, steps).0 == d
  {
  }

  /** A file that the archive does not bring, or not so: it came from somewhere else. */
  ghost predicate Tampered(disk: Disk, c: Candidate, cfg: Config, w: World, p: string)
    requires Format(c.version) in disk.installs
  {
    var d := disk.installs[Format(c.version)];
    && p in d && p !in {MANIFEST, SEAL, EPOCH}
    && (Reinstalled(c, cfg, w).Some? && p in Reinstalled(c, cfg, w).value ==> Reinstalled(c, cfg, w).value[p] != d[p])
  }

  /** The file still stands under the tag as it was. */
  ghost predicate StillLive(before: Disk, after: Disk, tag: string, p: string)
    requires tag in before.installs && p in before.installs[tag]
  {
    tag in after.installs && p in after.installs[tag] && after.installs[tag][p] == before.installs[tag][p]
  }

  lemma TrustedIsKept(disk: Disk, c: Candidate, cfg: Config, w: World, p: string)
    requires Format(c.version) in disk.installs && !Distrusted(disk, c, w)
    requires p in disk.installs[Format(c.version)] && p !in {MANIFEST, SEAL, EPOCH}
    ensures StillLive(disk, Keeping(disk, c, cfg, w).0, Format(c.version), p)
  {
    if w.key.Some? {
      RepairSparesOthers(disk.installs[Format(c.version)], w.key.value, w.repairSteps, p);
    }
  }

  /** In every case, a tampered file is still live after the check exactly when there is no key, or
      the version is not distrusted, or else the move failed, the file resisted deletion, and no
      archive arrived or the file was not cleared away for it either. */
  lemma TamperedFileStays(disk: Disk, c: Candidate, cfg: Config, w: World, p: string)
    requires Format(c.version) in disk.installs && Tampered(disk, c, cfg, w, p)
    ensures StillLive(disk, Keeping(disk, c, cfg, w).0, Format(c.version), p) <==>
      || w.key == None || !Untrusted(disk.installs[Format(c.version)], w.key.value, w)
      || (w.moveFails && w.leftover.Some? && p in w.leftover.value
          && (c.download == None || (w.residue.Some? && p in w.residue.value)))
  {
    if Distrusted(disk, c, w) {
      UntrustedAfter(disk, c, cfg, w);
      RepairSparesOthers(disk.installs[Format(c.version)], w.key.value, w.repairSteps, p);
    } else {
      TrustedIsKept(disk, c, cfg, w, p);
    }
  }

  /** So a forged key migration is taken for a real one.  Any files, a list of them, and made-up texts
      for seal and epoch: the call signs them as they are and reports that nothing was to be done,
      nothing is moved or fetched, and the active version verifies from then on. */
  lemma ForgedMigrationGoesLive(v: Version, d: Dir, seal: string, epoch: string, cfg: Config, w: World)
    requires w.key.Some? && w.repairSteps >= 3 && Ascii(Strip(seal)) && Strip(epoch) != ""
    requires Keeps(d, d) && exists p :: p in d && p !in EXCLUDED
    ensures var tag := Format(v);
      var disk := Disk(map[tag := Forged(d, seal, epoch)], Some(tag), map[]);
      var (disk', o) := Keeping(disk, Candidate.Candidate(v, 0, None, 0), cfg, w);
      && o == Done(Some(tag), true, None) && ActiveVerifies(disk', w.key.value)
      && forall p :: p in d && p !in {MANIFEST, SEAL, EPOCH} ==> StillLive(disk, disk', tag, p)
  {
    var tag, forged := Format(v), Forged(d, seal, epoch);
    var disk := Disk(map[tag := forged], Some(tag), map[]);
    var c := Candidate.Candidate(v, 0, None, 0);
    ForgeryIsSigned(d, seal, epoch, w.key.value, w.repairSteps);
    forall p | p in d && p !in {MANIFEST, SEAL, EPOCH}
      ensures StillLive(disk, Keeping(disk, c, cfg, w).0, tag, p)
    {
      TrustedIsKept(disk, c, cfg, w, p);
    }
  }

  /** So it can happen: a tampered script stays live when it cannot be moved or deleted, and the new
      download fails. */
  lemma TamperedScriptStays(v: Version, key: Key, cfg: Config, w: World)
    requires w.key == Some(key) && w.moveFails && w.leftover == Some({"app.js"})
    ensures var d := map["app.js" := Plain("tampered")];
      var disk := Disk(map[Format(v) := d], Some(Format(v)), map[]);
      Keeping(disk, Candidate.Candidate(v, 0, None, 0), cfg, w)
      == (disk, Done(Some(Format(v)), true, Some(InstallFailed)))
  {
    var d := map["app.js" := Plain("tampered")];
    var disk := Disk(map[Format(v) := d], Some(Format(v)), map[]);
    assert Verify(d, key) == Missing;
    assert Left(d, {"app.js"}) == d;
    assert disk.installs[Format(v) := d] == disk.installs;
  }

  predicate HasNonAscii(s: string) {
    exists i :: 0 <= i < |s| && s[i] >= '\U{80}'
  }

  /** And a seal that is not UTF-8, or not ASCII, makes the call raise: the tampered version is neither
      re-signed nor quarantined, and nothing is downloaded. */
  lemma UnreadableSealStays(disk: Disk, c: Candidate, cfg: Config, w: World)
    requires w.key.Some? && Format(c.version) in disk.installs
    requires var d := disk.installs[Format(c.version)];
      MANIFEST in d && SEAL in d && (d[SEAL].Garbage? || (d[SEAL].Plain? && HasNonAscii(Strip(d[SEAL].text))))
    ensures Keeping(disk, c, cfg, w) == (disk, Exception)
  {
    var d := disk.installs[Format(c.version)];
    assert RaisesAsSeal(d[SEAL]);
  }

  // ----- a second call has nothing to do -----

  /** Once the first suitable release is current, the same releases at the same time lead to
      keeping that version. */
  lemma {:induction false} DecideSettles(cs: seq<Candidate>, current: Option<Version>, cfg: Config, now: nat)
    requires Decide(cs, current, cfg, now).Install?
    ensures var v := Decide(cs, current, cfg, now).candidate.version;
      var d := Decide(cs, Some(v), cfg, now);
      d.Keep? && d.candidate.version == v
  {
    DecideMeans(cs, current, cfg, now);
    var v := Decide(cs, current, cfg, now).candidate.version;
    CompareIsTotalOrder(cs[0].version, v, v);
    if current.Some? {
      CompareIsTotalOrder(cs[0].version, current.value, v);
    }
    if Compare(cs[0].version, v) != 0 {
      DecideSettles(cs[1..], current, cfg, now);
    }
  }

  /** A call finds nothing to do with the version it keeps exactly when that verifies. */
  lemma NothingToDo(disk: Disk, c: Candidate, cfg: Config, w: World)
    requires w.key.Some?
    ensures Keeping(disk, c, cfg, w) == (disk, Done(disk.marker, true, None)) <==>
      TagVerifies(disk, Format(c.version), w.key.value)
  {
    var tag := Format(c.version);
    if tag in disk.installs {
      var d := disk.installs[tag];
      var status := Verify(d, w.key.value);
      var (d', repair) := RepairFor(d, status, w.key.value, w);
      if repair == Repaired {
        assert d'[EPOCH] != d[EPOCH];
        assert disk.installs[tag := d'][tag] != disk.installs[tag];
      } else if status != Ok && status != Raised && repair == Refused {
        InstallingMarks(Quarantined(disk.(installs := disk.installs[tag := d']), tag, status, w), c, cfg, w);
      }
    }
  }

  /** What a call has to find for the next one to find nothing to do. */
  ghost predicate Lasting(disk: Disk, cfg: Config, w: World) {
    match Chosen(disk, cfg, w)
    case Wait => true
    case Keep(c) => Curable(disk, c, cfg, w)
    case Install(c) => Trustworthy(c, cfg, w)
  }

  lemma SettlesOnTheSame(disk: Disk, cfg: Config, w: World)
    requires WellFormed(w) && Succeeded(EnsuringActive(disk, cfg, w).1)
    ensures var before, after := Chosen(disk, cfg, w), Chosen(EnsuringActive(disk, cfg, w).0, cfg, w);
      !before.Wait? && after.Keep? && after.candidate.version == before.candidate.version
  {
    var current := CurrentVersion(disk);
    DecideMeans(w.candidates.value, current, cfg, w.now);
    match Decide(w.candidates.value, current, cfg, w.now)
    case Keep(c) =>
      KeepingMarks(disk, c, cfg, w);
      ParseOfFormat(c.version);
    case Install(c) =>
      InstallingMarks(disk, c, cfg, w);
      ParseOfFormat(c.version);
      DecideSettles(w.candidates.value, current, cfg, w.now);
  }

  /** A call that returned without an error is idempotent, the same world given, exactly when the
      version it looked after verifies in the end. */
  lemma EnsuringSettles(disk: Disk, cfg: Config, w: World)
    requires WellFormed(w) && w.key.Some?
    ensures var (disk', o) := EnsuringActive(disk, cfg, w);
      Succeeded(o) ==>
        (EnsuringActive(disk', cfg, w) == (disk', Done(disk'.marker, true, None)) <==> Lasting(disk, cfg, w))
  {
    var (disk', o) := EnsuringActive(disk, cfg, w);
    if Succeeded(o) {
      SettlesOnTheSame(disk, cfg, w);
      NothingToDo(disk', Chosen(disk', cfg, w).candidate, cfg, w);
      match Chosen(disk, cfg, w)
      case Keep(c) => KeepingVerifies(disk, c, cfg, w);
      case Install(c) => InstallingVerifies(disk, c, cfg, w);
    }
  }

  // ----- whole runs -----

  /** A call, a rewrite of config.js, or somebody else changing files under the versions. */
  datatype Step = Ensure(world: World) | Reissue(config: Rendering) | Meddle(installs: map<string, Dir>)

  ghost function After(disk: Disk, cfg: Config, step: Step): Disk {
    match step
    case Ensure(w) => EnsuringActive(disk, cfg, w).0
    case Reissue(config) => Reissuing(disk, cfg, config).0
    case Meddle(installs) => disk.(installs := installs)
  }

  ghost function Run(disk: Disk, cfg: Config, steps: seq<Step>): Disk {
    if steps == [] then disk
    else After(Run(disk, cfg, steps[..|steps| - 1]), cfg, steps[|steps| - 1])
  }

  lemma StepNeverGoesBack(disk: Disk, cfg: Config, step: Step)
    requires CurrentVersion(disk).Some? && (step.Ensure? ==> WellFormed(step.world))
    ensures var disk' := After(disk, cfg, step);
      CurrentVersion(disk').Some? && Compare(CurrentVersion(disk).value, CurrentVersion(disk').value) <= 0
  {
    var v := CurrentVersion(disk).value;
    if step.Ensure? {
      MarkerNeverGoesBack(disk, cfg, step.world);
    } else {
      CompareIsTotalOrder(v, v, v);
    }
  }

  ghost predicate NotBelow(disk: Disk, v: Version) {
    CurrentVersion(disk).Some? && Compare(v, CurrentVersion(disk).value) <= 0
  }

  lemma StillNotBelow(v: Version, disk: Disk, cfg: Config, step: Step)
    requires NotBelow(disk, v) && (step.Ensure? ==> WellFormed(step.world))
    ensures NotBelow(After(disk, cfg, step), v)
  {
    StepNeverGoesBack(disk, cfg, step);
    CompareIsTotalOrder(v, CurrentVersion(disk).value, CurrentVersion(After(disk, cfg, step)).value);
  }

  lemma {:induction false} NeverBelow(v: Version, disk: Disk, cfg: Config, steps: seq<Step>)
    requires NotBelow(disk, v)
    requires forall j :: 0 <= j < |steps| && steps[j].Ensure? ==> WellFormed(steps[j].world)
    ensures NotBelow(Run(disk, cfg, steps), v)
  {
    if steps != [] {
      var front, last := steps[..|steps| - 1], steps[|steps| - 1];
      NeverBelow(v, disk, cfg, front);
      StillNotBelow(v, Run(disk, cfg, front), cfg, last);
    }
  }

  lemma {:induction false} RunApart(disk: Disk, cfg: Config, a: seq<Step>, b: seq<Step>)
    ensures Run(disk, cfg, a + b) == Run(Run(disk, cfg, a), cfg, b)
  {
    if b == [] {
      assert a + b == a;
    } else {
      assert (a + b)[..|a + b| - 1] == a + b[..|b| - 1];
      RunApart(disk, cfg, a, b[..|b| - 1]);
    }
  }

  /** Over a whole run the marker, once it parses, never moves to a lower version. */
  lemma MarkerNeverGoesBackOverRun(disk: Disk, cfg: Config, early: seq<Step>, late: seq<Step>)
    requires forall j :: 0 <= j < |late| && late[j].Ensure? ==> WellFormed(late[j].world)
    ensures var before, after := CurrentVersion(Run(disk, cfg, early)), CurrentVersion(Run(disk, cfg, early + late));
      before.Some? ==> after.Some? && Compare(before.value, after.value) <= 0
  {
    var middle := Run(disk, cfg, early);
    RunApart(disk, cfg, early, late);
    if CurrentVersion(middle).Some? {
      var v := CurrentVersion(middle).value;
      CompareIsTotalOrder(v, v, v);
      NeverBelow(v, middle, cfg, late);
    }
  }

  /** A marker that parses is spelled as the manager spells it. */
  ghost predicate WellSpelled(disk: Disk) {
    CurrentVersion(disk).Some? ==> Canonical(disk.marker.value)
  }

  lemma StepKeepsSpelling(disk: Disk, cfg: Config, step: Step)
    requires WellSpelled(disk) && (step.Ensure? ==> WellFormed(step.world))
    ensures WellSpelled(After(disk, cfg, step))
  {
    if step.Ensure? {
      EnsuringMarks(disk, cfg, step.world);
      if step.world.candidates.Some? {
        var d := Decide(step.world.candidates.value, CurrentVersion(disk), cfg, step.world.now);
        DecideMeans(step.world.candidates.value, CurrentVersion(disk), cfg, step.world.now);
        if !d.Wait? { FormatIsCanonical(d.candidate.version); }
      }
    }
  }

  lemma {:induction false} RunKeepsSpelling(disk: Disk, cfg: Config, steps: seq<Step>)
    requires WellSpelled(disk)
    requires forall j :: 0 <= j < |steps| && steps[j].Ensure? ==> WellFormed(steps[j].world)
    ensures WellSpelled(Run(disk, cfg, steps))
  {
    if steps != [] {
      var front := steps[..|steps| - 1];
      RunKeepsSpelling(disk, cfg, front);
      StepKeepsSpelling(Run(disk, cfg, front), cfg, steps[|steps| - 1]);
    }
  }

  /** At the end of any run of calls, rewrites and outside changes, whatever failed on the way: a
      call that returns without an error leaves the active version verifying exactly when what it
      found was promising. */
  lemma EveryQuietCallVerifies(disk: Disk, cfg: Config, steps: seq<Step>, w: World)
    requires WellFormed(w) && w.key.Some?
    requires forall j :: 0 <= j < |steps| && steps[j].Ensure? ==> WellFormed(steps[j].world)
    ensures var now := Run(disk, cfg, steps);
      var (after, outcome) := EnsuringActive(now, cfg, w);
      Succeeded(outcome) ==>
        && (ActiveVerifies(after, w.key.value) <==> Promising(now, cfg, w))
        && (WellSpelled(disk) ==> (ActiveVerifies(after, w.key.value) <==> Lasting(now, cfg, w)))
  {
    var now := Run(disk, cfg, steps);
    EnsuringVerifies(now, cfg, w);
    if WellSpelled(disk) && Succeeded(EnsuringActive(now, cfg, w).1) {
      RunKeepsSpelling(disk, cfg, steps);
      DecideMeans(w.candidates.value, CurrentVersion(now), cfg, w.now);
    }
  }

  /** Archives as releases are made of: names without backslashes, something in them besides config.js
      and manifest files; the injected file is config.js. */
  lemma OrdinaryIsTrustworthy(c: Candidate, cfg: Config, w: World)
    requires cfg.injected in {None, Some(CONFIG)} && w.manifestSteps >= 2
    requires c.download.Some? ==>
      var d := Contents(Members(c.download.value), map[]);
      (forall p :: p in d ==> '\\' !in p) && exists p :: p in d && p !in EXCLUDED
    ensures Trustworthy(c, cfg, w)
  {
    if c.download.Some? {
      var d := Contents(Members(c.download.value), map[]);
      KeepsItself(d);
      KeepsBesides(d, d, Configured(d, cfg, w));
    }
  }

  /** A rewrite keeps the active version verifying exactly when the file it rewrites is neither the
      manifest nor the seal, and what is listed under its name, if anything, is the new text. */
  lemma ReissueVerifies(disk: Disk, key: Key, cfg: Config, text: string)
    requires Reissuing(disk, cfg, Rendered(text)).1 == Reissued(true) && ActiveVerifies(disk, key)
    ensures ActiveVerifies(Reissuing(disk, cfg, Rendered(text)).0, key) <==>
      var name := cfg.injected.value;
      name !in {MANIFEST, SEAL} &&
      forall e :: e in disk.installs[disk.marker.value][MANIFEST].entries && e.0 == name ==> e.1 == Sha256(Plain(text))
  {
    WriteIntoVerified(disk.installs[disk.marker.value], key, cfg.injected.value, text);
  }
}
