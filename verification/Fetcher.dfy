/** Unpacking a release archive within a byte budget, and pruning old versions. */
module Fetcher {
  import opened Prelude
  import opened StringOrder
  import opened VersionTags
  import opened Manifest

  /** A member of a zip archive: its name, whether it is a symbolic link, and its bytes in the
      chunks in which they are read. */
  datatype Entry = Entry(name: string, symlink: bool, chunks: seq<string>)

  // ----- which names are refused -----

  predicate IsLetter(c: char) {
    'A' <= c <= 'Z' || 'a' <= c <= 'z'
  }

  /** The parts of a path, empty parts and single dots left out. */
  function Parts(name: string): seq<string>
    decreases |name|
  {
    if name == "" then [] else
      var i := Find(name, '/');
      var rest := if i == |name| then [] else Parts(name[i + 1..]);
      if name[..i] == "" || name[..i] == "." then rest else [name[..i]] + rest
  }

  predicate Skipped(e: Entry) {
    e.name == "" || e.name[|e.name| - 1] == '/'
  }

  predicate Unsafe(e: Entry)
    requires e.name != ""
  {
    || e.name[0] == '/' || e.name[0] == '\\'
    || (|e.name| >= 2 && IsLetter(e.name[0]) && e.name[1] == ':')
    || ".." in Parts(e.name)
    || e.symlink
  }

  /** Where a member is written, relative to the target. */
  function Landed(name: string): string {
    Slashes(Parts(name))
  }

  function Slashes(parts: seq<string>): string {
    if parts == [] then ""
    else if |parts| == 1 then parts[0]
    else parts[0] + "/" + Slashes(parts[1..])
  }

  /** The directory reached by following the parts of a path. */
  function Walk(from: seq<string>, parts: seq<string>): seq<string> {
    if parts == [] then from
    else
      var at, part := Walk(from, parts[..|parts| - 1]), parts[|parts| - 1];
      if part != ".." then at + [part] else if at == [] then [] else at[..|at| - 1]
  }

  /** Where a path starts: an absolute one, on either platform, is not under the target at all. */
  function Start(target: seq<string>, name: string): seq<string>
    requires name != ""
  {
    if name[0] == '/' || name[0] == '\\' || (|name| >= 2 && IsLetter(name[0]) && name[1] == ':') then [] else target
  }

  lemma {:induction false} WalkDown(from: seq<string>, parts: seq<string>)
    requires ".." !in parts
    ensures Walk(from, parts) == from + parts
  {
    if parts != [] {
      WalkDown(from, parts[..|parts| - 1]);
      assert parts == parts[..|parts| - 1] + [parts[|parts| - 1]];
    }
  }

  /** A member that is not refused lands below the target, at its own parts, and its path never
      leaves the target on the way. */
  lemma SafeMemberStaysInside(target: seq<string>, e: Entry, k: nat)
    requires !Skipped(e) && !Unsafe(e) && k <= |Parts(e.name)|
    ensures Walk(Start(target, e.name), Parts(e.name)[..k]) == target + Parts(e.name)[..k]
    ensures Walk(Start(target, e.name), Parts(e.name)) == target + Parts(e.name)
  {
    WalkDown(target, Parts(e.name)[..k]);
    WalkDown(target, Parts(e.name));
  }

  lemma {:induction false} FindBefore(a: string, c: char, b: string)
    requires c !in a
    ensures Find(a + [c] + b, c) == |a|
  {
    var s := a + [c] + b;
    if a == "" {
      assert s == [c] + b;
    } else {
      assert s[1..] == a[1..] + [c] + b;
      FindBefore(a[1..], c, b);
    }
  }

  /** What the parts are: of a name without slashes, the name itself, unless it is empty or a dot; and
      of two names with a slash between them, those of both. */
  lemma PartsMean(a: string, b: string)
    ensures '/' !in a ==> Parts(a) == if |a| == 0 || a == "." then [] else [a]
    ensures Parts(a + "/" + b) == Parts(a) + Parts(b)
  {
    if '/' !in a { PartOfPlain(a); }
    PartsApart(a, b);
  }

  lemma PartOfPlain(a: string)
    requires '/' !in a
    ensures Parts(a) == if a == "" || a == "." then [] else [a]
  {
    assert Find(a, '/') == |a| && a[..|a|] == a;
  }

  lemma PartsStep(first: string, rest: string)
    requires '/' !in first
    ensures Parts(first + "/" + rest) == Parts(first) + Parts(rest)
  {
    var s := first + ['/'] + rest;
    FindBefore(first, '/', rest);
    PartOfPlain(first);
    assert s[..|first|] == first && s[|first| + 1..] == rest;
  }

  lemma CutAtSlash(name: string) returns (first: string, rest: string)
    requires '/' in name
    ensures name == first + "/" + rest && '/' !in first && |rest| < |name|
  {
    var i := Find(name, '/');
    first, rest := name[..i], name[i + 1..];
  }

  /** What there is to know of Parts: one name without slashes, and one such name before a slash. */
  ghost predicate TakesParts(f: string -> seq<string>) {
    && (forall x: string {:trigger f(x)} :: '/' !in x ==> f(x) == if x == "" || x == "." then [] else [x])
    && (forall x: string, y: string {:trigger f(x + "/" + y)} :: '/' !in x ==> f(x + "/" + y) == f(x) + f(y))
  }

  lemma PartsTake()
    ensures TakesParts(Parts)
  {
    forall x: string | '/' !in x ensures Parts(x) == if x == "" || x == "." then [] else [x] { PartOfPlain(x); }
    forall x: string, y: string | '/' !in x ensures Parts(x + "/" + y) == Parts(x) + Parts(y) { PartsStep(x, y); }
  }

  lemma {:induction false} TakenApart(f: string -> seq<string>, a: string, b: string)
    requires TakesParts(f)
    ensures f(a + "/" + b) == f(a) + f(b)
    decreases |a|
  {
    if '/' in a {
      var first, rest := CutAtSlash(a);
      TakenApart(f, rest, b);
      assert a + "/" + b == first + "/" + (rest + "/" + b);
    }
  }

  lemma PartsApart(a: string, b: string)
    ensures Parts(a + "/" + b) == Parts(a) + Parts(b)
  {
    PartsTake();
    TakenApart(Parts, a, b);
  }

  /** The part stands alone in the name: between slashes, or at an end. */
  predicate StandsAlone(name: string, a: string, part: string, b: string) {
    name == a + part + b && (a == "" || a[|a| - 1] == '/') && (b == "" || b[0] == '/')
  }

  lemma {:induction false} TakenStandsAlone(f: string -> seq<string>, name: string, part: string)
    returns (a: string, b: string)
    requires TakesParts(f) && part in f(name)
    ensures StandsAlone(name, a, part, b)
    decreases |name|
  {
    if '/' !in name {
      a, b := "", "";
    } else {
      var first, rest := CutAtSlash(name);
      if part in f(rest) {
        a, b := TakenStandsAlone(f, rest, part);
        assert name == (first + "/" + a) + part + b;
        a := first + "/" + a;
      } else {
        a, b := "", "/" + rest;
      }
    }
  }

  lemma TakenAtEnd(f: string -> seq<string>, part: string, b: string)
    requires TakesParts(f) && '/' !in part && part != "" && part != "." && (b == "" || b[0] == '/')
    ensures part in f(part + b)
  {
    if b == "" {
      assert part + b == part;
    } else {
      assert part + b == part + "/" + b[1..];
    }
  }

  lemma AloneIsTaken(f: string -> seq<string>, name: string, a: string, part: string, b: string)
    requires TakesParts(f) && StandsAlone(name, a, part, b) && '/' !in part && part != "" && part != "."
    ensures part in f(name)
  {
    TakenAtEnd(f, part, b);
    if a == "" {
      assert name == part + b;
    } else {
      var front := a[..|a| - 1];
      assert name == front + "/" + (part + b);
      TakenApart(f, front, part + b);
    }
  }

  /** Exactly which members are refused: those with an absolute name, on either platform, those in which
      two dots stand alone, and links. */
  lemma RefusedExactly(e: Entry)
    requires e.name != ""
    ensures Unsafe(e) <==>
      || e.symlink || e.name[0] == '/' || e.name[0] == '\\'
      || (|e.name| >= 2 && e.name[1] == ':' && ('a' <= e.name[0] <= 'z' || 'A' <= e.name[0] <= 'Z'))
      || exists a, b :: StandsAlone(e.name, a, "..", b)
  {
    PartsTake();
    if ".." in Parts(e.name) {
      var a, b := TakenStandsAlone(Parts, e.name, "..");
    }
    if a, b :| StandsAlone(e.name, a, "..", b) { AloneIsTaken(Parts, e.name, a, "..", b); }
  }

  /** Exactly which entries are skipped: those without a name and those of directories. */
  lemma SkippedExactly(e: Entry)
    ensures Skipped(e) <==> e.name == "" || exists directory :: e.name == directory + "/"
  {
    if e.name != "" && e.name[|e.name| - 1] == '/' { assert e.name == e.name[..|e.name| - 1] + "/"; }
    if directory :| e.name == directory + "/" { assert e.name[|directory|] == '/'; }
  }

  // ----- unpacking -----

  /** What unpacking needs of a member: whether it is refused, where it lands, and its bytes. */
  datatype Member = Member(refused: bool, place: string, chunks: seq<string>)

  function MemberOf(e: Entry): Member
    requires !Skipped(e)
  {
    Member(Unsafe(e), Landed(e.name), e.chunks)
  }

  /** The members that are files, in order. */
  function Members(entries: seq<Entry>): seq<Member> {
    if entries == [] then []
    else if Skipped(entries[0]) then Members(entries[1..])
    else [MemberOf(entries[0])] + Members(entries[1..])
  }

  predicate Fits(total: nat, budget: Option<nat>) {
    budget.Some? ==> total <= budget.value
  }

  /** One of the two names needs a directory where the other is a file. */
  predicate Clash(a: string, b: string) {
    StartsWith(a, b + "/") || StartsWith(b, a + "/")
  }

  /** A member cannot be created over the target itself, or across the files that are there. */
  predicate Blocked(taken: set<string>, place: string) {
    place == "" || exists p :: p in taken && Clash(p, place)
  }

  /** What gets written of one file, and whether that is all of it. */
  function WriteChunks(chunks: seq<string>, text: string, total: nat, budget: Option<nat>): (string, bool) {
    if chunks == [] then (text, true)
    else if !Fits(total + |chunks[0]|, budget) then (text, false)
    else WriteChunks(chunks[1..], text + chunks[0], total + |chunks[0]|, budget)
  }

  /** The directory after one member, whether it went through, and the bytes that have reached the
      disk.  At most `stop` more members can be created before the file system gives out. */
  function UnpackOne(m: Member, d: Dir, total: nat, budget: Option<nat>, stop: nat): (r: (Dir, bool, nat))
    ensures r.1 ==> stop > 0
  {
    if m.refused || stop == 0 || Blocked(d.Keys, m.place) then (d, false, total)
    else
      var (text, ok) := WriteChunks(m.chunks, "", total, budget);
      (d[m.place := Plain(text)], ok, total + |text|)
  }

  function Unpack(ms: seq<Member>, d: Dir, total: nat, budget: Option<nat>, stop: nat): (Dir, bool, nat)
    decreases |ms|
  {
    if ms == [] then (d, true, total)
    else
      var (d', ok, written) := UnpackOne(ms[0], d, total, budget, stop);
      if ok then Unpack(ms[1..], d', written, budget, stop - 1) else (d', false, written)
  }

  function Joined(chunks: seq<string>): string {
    if chunks == [] then "" else chunks[0] + Joined(chunks[1..])
  }

  /** The whole archive, later members over earlier ones that land in the same place. */
  function Contents(ms: seq<Member>, d: Dir): Dir
    decreases |ms|
  {
    if ms == [] then d else Contents(ms[1..], d[ms[0].place := Plain(Joined(ms[0].chunks))])
  }

  function Size(ms: seq<Member>): nat {
    if ms == [] then 0 else |Joined(ms[0].chunks)| + Size(ms[1..])
  }

  predicate AllSafe(ms: seq<Member>) {
    ms == [] || (!ms[0].refused && AllSafe(ms[1..]))
  }

  /** No member lands on the target itself, or in the way of one before it. */
  predicate AllClear(ms: seq<Member>, taken: set<string>) {
    ms == [] || (!Blocked(taken, ms[0].place) && AllClear(ms[1..], taken + {ms[0].place}))
  }

  lemma {:induction false} WriteChunksMeans(chunks: seq<string>, text: string, total: nat, budget: Option<nat>)
    requires Fits(total, budget)
    ensures var (text', ok) := WriteChunks(chunks, text, total, budget);
      && (ok <==> Fits(total + |Joined(chunks)|, budget))
      && (ok ==> text' == text + Joined(chunks))
      && |text| <= |text'| && Fits(total + (|text'| - |text|), budget)
  {
    if chunks == [] {
      assert text + "" == text;
    } else if Fits(total + |chunks[0]|, budget) {
      WriteChunksMeans(chunks[1..], text + chunks[0], total + |chunks[0]|, budget);
      Regroup(text, chunks[0], Joined(chunks[1..]));
    }
  }

  lemma UnpackOneMeans(m: Member, d: Dir, total: nat, budget: Option<nat>, stop: nat)
    requires Fits(total, budget)
    ensures var (d', ok, written) := UnpackOne(m, d, total, budget, stop);
      && (ok <==> !m.refused && !Blocked(d.Keys, m.place) && Fits(total + |Joined(m.chunks)|, budget) && stop > 0)
      && (ok ==> d' == d[m.place := Plain(Joined(m.chunks))] && written == total + |Joined(m.chunks)|)
      && total <= written && Fits(written, budget)
  {
    WriteChunksMeans(m.chunks, "", total, budget);
    assert "" + Joined(m.chunks) == Joined(m.chunks);
  }

  /** Unpacking goes through exactly when every member is safe and clear of the others, their bytes
      fit the budget, and the file system holds; then the directory is the archive.  Whether or not
      it goes through, the bytes that reach the disk fit the budget. */
  lemma {:induction false} UnpackMeans(ms: seq<Member>, d: Dir, total: nat, budget: Option<nat>, stop: nat)
    requires Fits(total, budget)
    ensures var (d', ok, written) := Unpack(ms, d, total, budget, stop);
      && (ok <==> AllSafe(ms) && AllClear(ms, d.Keys) && Fits(total + Size(ms), budget) && |ms| <= stop)
      && (ok ==> d' == Contents(ms, d) && written == total + Size(ms))
      && total <= written && Fits(written, budget)
    decreases |ms|
  {
    if ms != [] {
      UnpackOneMeans(ms[0], d, total, budget, stop);
      var (d', ok, written) := UnpackOne(ms[0], d, total, budget, stop);
      if ok {
        assert d'.Keys == d.Keys + {ms[0].place};
        UnpackMeans(ms[1..], d', written, budget, stop - 1);
      }
    }
  }

  // ----- the bytes in a directory -----

  function Length(c: Content): nat {
    if c.Plain? then |c.text| else 0
  }

  ghost function Bytes(d: Dir): nat {
    if d == map[] then 0
    else
      var p :| p in d;
      Length(d[p]) + Bytes(d - {p})
  }

  lemma {:induction false} BytesApart(d: Dir, p: string)
    requires p in d
    ensures Bytes(d) == Length(d[p]) + Bytes(d - {p})
    decreases |d.Keys|
  {
    var q :| q in d && Bytes(d) == Length(d[q]) + Bytes(d - {q});
    if q != p {
      assert (d - {q}).Keys == d.Keys - {q} && (d - {p}).Keys == d.Keys - {p};
      BytesApart(d - {q}, p);
      BytesApart(d - {p}, q);
      assert d - {q} - {p} == d - {p} - {q};
    }
  }

  lemma BytesPut(d: Dir, p: string, c: Content)
    ensures Bytes(d[p := c]) <= Bytes(d) + Length(c)
  {
    var e := d[p := c];
    BytesApart(e, p);
    if p in d {
      BytesApart(d, p);
      assert e - {p} == d - {p};
    } else {
      assert e - {p} == d;
    }
  }

  lemma UnpackOneFits(m: Member, d: Dir, total: nat, budget: Option<nat>, stop: nat)
    requires Fits(total, budget)
    ensures var (d', _, written) := UnpackOne(m, d, total, budget, stop);
      Bytes(d') + total <= Bytes(d) + written
  {
    BytesPut(d, m.place, Plain(WriteChunks(m.chunks, "", total, budget).0));
  }

  /** The directory never holds more than what was written, and so never more than the budget. */
  lemma {:induction false} UnpackedFits(ms: seq<Member>, d: Dir, total: nat, budget: Option<nat>, stop: nat)
    requires Fits(total, budget)
    ensures var (d', _, written) := Unpack(ms, d, total, budget, stop);
      Bytes(d') + total <= Bytes(d) + written && Fits(written, budget)
    decreases |ms|
  {
    if ms != [] {
      UnpackOneMeans(ms[0], d, total, budget, stop);
      UnpackOneFits(ms[0], d, total, budget, stop);
      var (d', ok, written) := UnpackOne(ms[0], d, total, budget, stop);
      if ok { UnpackedFits(ms[1..], d', written, budget, stop - 1); }
    }
  }

  /** What is left to unpack. */
  function Rest(entries: seq<Entry>, i: nat): seq<Member>
    requires i <= |entries|
  {
    Members(entries[i..])
  }

  lemma RestMore(entries: seq<Entry>, i: nat)
    requires i < |entries|
    ensures Rest(entries, i) ==
      (if Skipped(entries[i]) then [] else [MemberOf(entries[i])]) + Rest(entries, i + 1)
  {
    assert entries[i..][0] == entries[i] && entries[i..][1..] == entries[i + 1..];
  }

  lemma RestEnds(entries: seq<Entry>)
    ensures Rest(entries, 0) == Members(entries) && Rest(entries, |entries|) == []
  {
    assert entries[0..] == entries;
  }

  lemma UnpackNext(ms: seq<Member>, m: Member, d: Dir, total: nat, budget: Option<nat>, stop: nat)
    ensures Unpack([m] + ms, d, total, budget, stop) ==
      var (d', ok, written) := UnpackOne(m, d, total, budget, stop);
      if ok then Unpack(ms, d', written, budget, stop - 1) else (d', false, written)
  {
    assert ([m] + ms)[1..] == ms;
  }

  lemma RestSkips(entries: seq<Entry>, i: nat)
    requires i < |entries| && Skipped(entries[i])
    ensures Rest(entries, i) == Rest(entries, i + 1)
  {
    RestMore(entries, i);
    assert [] + Rest(entries, i + 1) == Rest(entries, i + 1);
  }

  lemma UnpackRest(entries: seq<Entry>, i: nat, m: Member, d: Dir, total: nat, budget: Option<nat>, stop: nat)
    requires i < |entries| && !Skipped(entries[i]) && m == MemberOf(entries[i])
    ensures Unpack(Rest(entries, i), d, total, budget, stop) ==
      var (d', ok, written) := UnpackOne(m, d, total, budget, stop);
      if ok then Unpack(Rest(entries, i + 1), d', written, budget, stop - 1) else (d', false, written)
  {
    RestMore(entries, i);
    UnpackNext(Rest(entries, i + 1), m, d, total, budget, stop);
  }

  lemma NothingYet(entries: seq<Entry>, budget: Option<nat>, stop: nat)
    ensures Unpack(Members(entries), map[], 0, budget, stop) == Unpack(Rest(entries, 0), map[], 0, budget, stop)
    ensures var (d, _, written) := Unpack(Members(entries), map[], 0, budget, stop);
      Bytes(d) <= written && Fits(written, budget)
  {
    UnpackedFits(Members(entries), map[], 0, budget, stop);
    RestEnds(entries);
  }

  lemma NothingLeft(entries: seq<Entry>, d: Dir, total: nat, budget: Option<nat>, stop: nat)
    ensures Unpack(Rest(entries, |entries|), d, total, budget, stop) == (d, true, total)
  {
    RestEnds(entries);
  }

  /** As _safe_extract_zip runs.  `written` counts the bytes as they reach the disk: they fit the
      budget even when extraction fails, and the directory holds no more. */
  method SafeExtractZip(entries: seq<Entry>, budget: Option<nat>, stop: nat)
    returns (d: Dir, ok: bool, written: nat)
    ensures (d, ok, written) == Unpack(Members(entries), map[], 0, budget, stop)
    ensures Bytes(d) <= written && Fits(written, budget)
  {
    ghost var all := Unpack(Members(entries), map[], 0, budget, stop);
    NothingYet(entries, budget, stop);
    d, ok, written := map[], true, 0;
    var room: nat := stop;
    var i := 0;
    while i < |entries| && ok
      invariant i <= |entries|
      invariant all == if ok then Unpack(Rest(entries, i), d, written, budget, room) else (d, false, written)
    {
      d, ok, written, room := ExtractNext(entries, i, d, written, budget, room);
      i := i + 1;
    }
    if ok {
      NothingLeft(entries, d, written, budget, room);
    }
  }

  method ExtractNext(entries: seq<Entry>, i: nat, before: Dir, total: nat, budget: Option<nat>, stop: nat)
    returns (d: Dir, ok: bool, written: nat, room: nat)
    requires i < |entries|
    ensures Unpack(Rest(entries, i), before, total, budget, stop) ==
      if ok then Unpack(Rest(entries, i + 1), d, written, budget, room) else (d, false, written)
  {
    if Skipped(entries[i]) {
      RestSkips(entries, i);
      return before, true, total, stop;
    }
    var m := MemberOf(entries[i]);
    UnpackRest(entries, i, m, before, total, budget, stop);
    d, ok, written := ExtractMember(m, before, total, budget, stop);
    room := if ok then stop - 1 else stop;
  }

  method ExtractMember(m: Member, before: Dir, total: nat, budget: Option<nat>, room: nat)
    returns (d: Dir, ok: bool, written: nat)
    ensures (d, ok, written) == UnpackOne(m, before, total, budget, room)
  {
    if m.refused {
      return before, false, total;
    }
    if room == 0 || Blocked(before.Keys, m.place) {
      return before, false, total;
    }
    var text;
    text, ok, written := WriteMember(m.chunks, total, budget);
    d := before[m.place := Plain(text)];
  }

  /** Chunk by chunk: the running total is raised and checked before the chunk is written. */
  method WriteMember(chunks: seq<string>, start: nat, budget: Option<nat>)
    returns (text: string, ok: bool, written: nat)
    ensures (text, ok) == WriteChunks(chunks, "", start, budget)
    ensures written == start + |text|
  {
    var total: nat := start;
    text, written := "", start;
    for j := 0 to |chunks|
      invariant WriteChunks(chunks, "", start, budget) == WriteChunks(chunks[j..], text, total, budget)
      invariant total == written == start + |text|
    {
      assert chunks[j..][0] == chunks[j] && chunks[j..][1..] == chunks[j + 1..];
      total := total + |chunks[j]|;
      if !Fits(total, budget) {
        return text, false, written;
      }
      text, written := text + chunks[j], written + |chunks[j]|;
    }
    ok := true;
  }

  // ----- pruning -----

  predicate IsVersionDir(name: string) {
    name != "" && name[0] != '.' && Parse(name).Some?
  }

  /** The directories that hold an installed version. */
  function Installed(names: set<string>): set<string> {
    set n | n in names && IsVersionDir(n)
  }

  /** An installed version is a directory whose name is a version, in whatever spelling. */
  lemma InstalledExactly(names: set<string>, n: string)
    ensures n in Installed(names) <==> n in names && Parse(n).Some?
  {
    if Parse(n).Some? {
      ParseExactly(n, Parse(n).value);
      var a, b, c :| Spells(Lower(Strip(n)), Parse(n).value, a, b, c);
      NoLeadingDot(n);
    }
  }

  lemma NoLeadingDot(n: string)
    requires Lower(Strip(n)) != "" && Lower(Strip(n))[0] != '.'
    ensures n != "" && n[0] != '.'
  {
    if n != "" && n[0] == '.' {
      assert !IsSpace(n[0]) && StripLeft(n) == n;
      StripRightKeepsFirst(n);
      LowerMeans(Strip(n));
    }
  }

  lemma {:induction false} StripRightKeepsFirst(s: string)
    requires s != "" && !IsSpace(s[0])
    ensures StripRight(s) != "" && StripRight(s)[0] == s[0]
  {
    if IsSpace(s[|s| - 1]) { StripRightKeepsFirst(s[..|s| - 1]); }
  }

  /** The versions retained: names are added from the front until there are enough. */
  function TopUp(retained: set<string>, names: seq<string>, most: nat): set<string>
    decreases |names|
  {
    if names == [] || |retained| >= most then retained
    else TopUp(retained + {names[0]}, names[1..], most)
  }

  ghost predicate Descending(q: seq<string>) {
    forall i, j :: 0 <= i < j < |q| ==> Less(q[j], q[i])
  }

  lemma {:induction false} TopUpMeans(retained: set<string>, names: seq<string>, most: nat)
    requires Descending(names)
    ensures var r := TopUp(retained, names, most);
      && retained <= r <= retained + Elements(names)
      && (|r| <= most || r == retained)
      && (Elements(names) <= r || |r| >= most)
      && (forall x, y :: x in Elements(names) && x !in r && y in r && y !in retained ==> Less(x, y))
    decreases |names|
  {
    if names != [] && |retained| < most {
      var n, rest := names[0], names[1..];
      TopUpMeans(retained + {n}, rest, most);
      ElementsCons(n, rest);
      assert names == [n] + rest;
      forall x | x in Elements(rest)
        ensures Less(x, n)
      {
        var j :| 0 <= j < |rest| && rest[j] == x;
        assert x == names[j + 1];
      }
    }
  }

  function Reversed(q: seq<string>): seq<string> {
    if q == [] then [] else Reversed(q[1..]) + [q[0]]
  }

  lemma {:induction false} ReversedAscending(q: seq<string>)
    requires Ascending(q)
    ensures Descending(Reversed(q)) && Elements(Reversed(q)) == Elements(q)
    ensures |Reversed(q)| == |q|
  {
    if q != [] {
      ReversedAscending(q[1..]);
      var r := Reversed(q[1..]);
      assert Elements(r + [q[0]]) == Elements(r) + {q[0]};
      assert q == [q[0]] + q[1..];
      ElementsCons(q[0], q[1..]);
      forall x | x in Elements(r)
        ensures Less(q[0], x)
      {
        var j :| 0 <= j < |q[1..]| && q[1..][j] == x;
        assert x == q[j + 1];
      }
      forall i, j | 0 <= i < j < |r| + 1
        ensures Less((r + [q[0]])[j], (r + [q[0]])[i])
      {
        assert i < |r| && r[i] in Elements(r);
      }
    }
  }

  ghost function Retained(names: set<string>, keep: set<string>, most: nat): set<string> {
    TopUp(keep, Reversed(Sorted(Installed(names))), most)
  }

  /** Pruning never drops a kept version, keeps at most max(most, |keep|) versions and as many
      as that allows, and drops only names that sort below every name it chose to retain. */
  lemma RetainedMeans(names: set<string>, keep: set<string>, most: nat)
    ensures var r, all := Retained(names, keep, most), Installed(names);
      && keep <= r <= keep + all
      && |r| <= (if most >= |keep| then most else |keep|)
      && (all <= r || |r| >= most)
      && (forall x, y :: x in all && x !in r && y in r && y !in keep ==> Less(x, y))
  {
    var all := Installed(names);
    SortedIsSorted(all);
    ReversedAscending(Sorted(all));
    TopUpMeans(keep, Reversed(Sorted(all)), most);
  }

  /** The directories after pruning; `stuck` could not be deleted. */
  ghost function Pruned<T>(installs: map<string, T>, keep: set<string>, most: nat, stuck: set<string>): map<string, T> {
    var r := Retained(installs.Keys, keep, most);
    map n | n in installs && (n !in Installed(installs.Keys) || n in r || n in stuck) :: installs[n]
  }

  /** From the newest name down, until there are enough. */
  method ChooseRetained(all: set<string>, keep: set<string>, most: nat) returns (retained: set<string>)
    ensures retained == TopUp(keep, Reversed(Sorted(all)), most)
  {
    var ascending := Sort(all);
    retained := keep;
    var i := |ascending|;
    assert ascending[..i] == ascending;
    while i > 0 && |retained| < most
      invariant 0 <= i <= |ascending|
      invariant TopUp(retained, Reversed(ascending[..i]), most) == TopUp(keep, Reversed(ascending), most)
    {
      ReversedSnoc(ascending[..i]);
      i := i - 1;
      assert ascending[..i + 1][..i] == ascending[..i];
      if ascending[i] !in retained {
        retained := retained + {ascending[i]};
      } else {
        assert retained + {ascending[i]} == retained;
      }
    }
  }

  function Doomed(names: set<string>, retained: set<string>, stuck: set<string>): set<string> {
    set n | n in names && n !in retained && n !in stuck
  }

  lemma PrunedIsDifference<T>(installs: map<string, T>, keep: set<string>, most: nat, stuck: set<string>)
    ensures Pruned(installs, keep, most, stuck)
         == installs - Doomed(Installed(installs.Keys), Retained(installs.Keys, keep, most), stuck)
  {
  }

  lemma DropOne<T>(installs: map<string, T>, dropped: set<string>, n: string)
    ensures (installs - dropped) - {n} == installs - (dropped + {n})
  {
  }

  /** Deletes every listed version that is not retained; `stuck` ones resist. */
  method DeleteUnretained<T>(installs: map<string, T>, all: set<string>, retained: set<string>,
                             stuck: set<string>)
    returns (left: map<string, T>, removed: set<string>)
    ensures removed == Doomed(all, retained, stuck) && left == installs - removed
  {
    left, removed := installs, {};
    var rest := all;
    while rest != {}
      invariant rest <= all
      invariant removed == Doomed(all - rest, retained, stuck)
      invariant left == installs - removed
      decreases rest
    {
      var n :| n in rest;
      assert all - (rest - {n}) == (all - rest) + {n};
      if n !in retained && n !in stuck {
        DropOne(installs, removed, n);
        left, removed := left - {n}, removed + {n};
      }
      rest := rest - {n};
    }
    assert all - rest == all;
  }

  method PruneOldVersions<T>(installs: map<string, T>, keep: set<string>, most: nat, stuck: set<string>)
    returns (left: map<string, T>, removed: set<string>)
    ensures left == Pruned(installs, keep, most, stuck) == installs - removed
    ensures removed == Doomed(Installed(installs.Keys), Retained(installs.Keys, keep, most), stuck)
  {
    var all := Installed(installs.Keys);
    var retained := ChooseRetained(all, keep, most);
    left, removed := DeleteUnretained(installs, all, retained, stuck);
    PrunedIsDifference(installs, keep, most, stuck);
  }

  lemma {:induction false} ReversedSnoc(q: seq<string>)
    requires q != []
    ensures Reversed(q) == [q[|q| - 1]] + Reversed(q[..|q| - 1])
  {
    if |q| > 1 {
      ReversedSnoc(q[1..]);
      assert q[1..][..|q| - 2] == q[..|q| - 1][1..];
    } else {
      assert q[1..] == [] && q[..0] == [];
    }
  }

  /** The age of what pruning drops: a dropped version is older than one retained by choice exactly
      when they differ in stage or the first number that differs has no more digits in it. */
  lemma DroppedAgainstRetained(names: set<string>, keep: set<string>, most: nat, v: Version, w: Version)
    requires Format(v) in Installed(names) && Format(v) !in Retained(names, keep, most)
    requires Format(w) in Retained(names, keep, most) && Format(w) !in keep
    ensures Compare(v, w) < 0 <==> NoMoreDigits(v, w)
  {
    RetainedMeans(names, keep, most);
    SortedBelowIsOlder(v, w);
  }

  // ----- which versions pruning keeps -----

  /** How many of the names sort above this one. */
  function Rank(names: set<string>, n: string): nat {
    |set m | m in names && Less(n, m)|
  }

  /** The installed versions that are not kept on purpose. */
  function Pool(names: set<string>, keep: set<string>): set<string> {
    Installed(names) - keep
  }

  /** Two places are in each other's way exactly when one of them is a directory on the path of the other. */
  lemma ClashExactly(a: string, b: string)
    ensures Clash(a, b) <==> exists rest :: a == b + "/" + rest || b == a + "/" + rest
  {
    if StartsWith(a, b + "/") { assert a == b + "/" + a[|b| + 1..]; }
    if StartsWith(b, a + "/") { assert b == a + "/" + b[|a| + 1..]; }
    if rest :| a == b + "/" + rest || b == a + "/" + rest {
      if a == b + "/" + rest { assert a[..|b| + 1] == b + "/"; }
      if b == a + "/" + rest { assert b[..|a| + 1] == a + "/"; }
    }
  }

  /** A part of the pool that lies above the rest of it holds exactly the lowest ranks. */
  lemma TopHasLowRanks(pool: set<string>, top: set<string>, x: string)
    requires top <= pool && x in pool
    requires forall a, b :: a in pool && a !in top && b in top ==> Less(a, b)
    ensures x in top <==> Rank(pool, x) < |top|
  {
    var above := set m | m in pool && Less(x, m);
    if x in top {
      LessIrreflexive(x);
      forall m | m in above ensures m in top - {x} {
        if m !in top { LessTransitive(x, m, x); }
      }
      CountWithin(above, top - {x});
    } else {
      forall m | m in top ensures m in above {}
      CountWithin(top, above);
    }
  }

  /** Of these, pruning retains exactly those with few enough names above them. */
  lemma RetainedByRank(names: set<string>, keep: set<string>, most: nat, x: string)
    requires x in Pool(names, keep)
    ensures x in Retained(names, keep, most) <==> |keep| + Rank(Pool(names, keep), x) < most
  {
    RetainedMeans(names, keep, most);
    var r := Retained(names, keep, most);
    TopHasLowRanks(Pool(names, keep), r - keep, x);
    assert r == keep + (r - keep);
  }

  predicate Older(x: string, y: string) {
    Parse(x).Some? && Parse(y).Some? && Compare(Parse(x).value, Parse(y).value) < 0
  }

  /** Everything dropped is older than everything retained by choice. */
  ghost predicate KeepsTheNewest(names: set<string>, keep: set<string>, most: nat) {
    var pool, r := Pool(names, keep), Retained(names, keep, most);
    forall x, y :: x in pool && x !in r && y in pool && y in r ==> Older(x, y)
  }

  /** The cut falls between these two installed versions. */
  predicate CutBetween(names: set<string>, keep: set<string>, most: nat, x: string, y: string) {
    var pool := Pool(names, keep);
    x in pool && y in pool && |keep| + Rank(pool, y) < most <= |keep| + Rank(pool, x)
  }

  /** Pruning keeps the newest versions exactly when any two installed versions between which the
      cut falls are in order; for tags as the manager writes them, exactly when they differ in stage
      or their first different number has no more digits in the lower tag. */
  lemma PruningKeepsTheNewest(names: set<string>, keep: set<string>, most: nat)
    ensures KeepsTheNewest(names, keep, most) <==>
      forall x, y :: CutBetween(names, keep, most, x, y) ==> Older(x, y)
    ensures (forall n :: n in Pool(names, keep) ==> Canonical(n)) ==>
      (KeepsTheNewest(names, keep, most) <==>
       forall x, y :: CutBetween(names, keep, most, x, y) ==> NoMoreDigits(Parse(x).value, Parse(y).value))
  {
    forall x | x in Pool(names, keep)
      ensures x in Retained(names, keep, most) <==> |keep| + Rank(Pool(names, keep), x) < most
    {
      RetainedByRank(names, keep, most, x);
    }
    RetainedMeans(names, keep, most);
    forall x, y | CutBetween(names, keep, most, x, y) && Canonical(x) && Canonical(y)
      ensures Older(x, y) <==> NoMoreDigits(Parse(x).value, Parse(y).value)
    {
      SortedBelowIsOlder(Parse(x).value, Parse(y).value);
    }
  }
}
