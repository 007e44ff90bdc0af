/** The signed manifest of an installed client: generating, signing, verifying, re-signing.
    Hashes are terms: two digests are equal exactly when they were made of the same thing. */
module Manifest {
  import opened Prelude
  import opened StringOrder

  datatype Key = Key(id: nat)

  datatype Digest = Sha256(of: Content) | HmacSha256(key: Key, of: Content)

  /** What a file can hold, as far as the manifest code can tell. */
  datatype Content =
    | Listing(entries: seq<(string, Digest)>)  // {"files": {path: digest, ...}}
    | Seal(digest: Digest)                     // the text of a digest
    | Epoch(key: Key)                          // the fingerprint of a key
    | Odd(text: string)                        // JSON of another shape
    | Plain(text: string)                      // any other text
    | Garbage(text: string)                    // bytes that are not UTF-8

  /** An installed version: its files by relative path. */
  type Dir = map<string, Content>

  const MANIFEST := "manifest.json"
  const SEAL := "manifest.json.hmac"
  const EPOCH := "manifest.json.epoch"
  const CONFIG := "config.js"
  const EXCLUDED: set<string> := {CONFIG, MANIFEST, SEAL, EPOCH}

  datatype Status = Ok | HmacMismatch | HashMismatch | Missing | Error | Raised

  // ----- the names that are recorded -----

  /** A name as it is recorded: backslashes become slashes. */
  function Slashed(p: string): string {
    seq(|p|, i requires 0 <= i < |p| => if p[i] == '\\' then '/' else p[i])
  }

  lemma SlashedPlain(p: string)
    requires '\\' !in p
    ensures Slashed(p) == p
  {
  }

  lemma ExcludedAreFlat(x: string)
    requires x in EXCLUDED
    ensures '/' !in x && '\\' !in x
  {
  }

  lemma SlashedExcluded(p: string)
    ensures Slashed(p) in EXCLUDED <==> p in EXCLUDED
  {
    if p in EXCLUDED {
      ExcludedAreFlat(p);
      SlashedPlain(p);
    }
    if '\\' in p {
      var i :| 0 <= i < |p| && p[i] == '\\';
      assert Slashed(p)[i] == '/';
      if Slashed(p) in EXCLUDED { ExcludedAreFlat(Slashed(p)); }
    } else {
      SlashedPlain(p);
    }
  }

  // ----- generating and signing -----

  /** Paths are sorted part by part: as strings in which the slash comes before everything. */
  function ByParts(p: string): string {
    seq(|p|, i requires 0 <= i < |p| => if p[i] == '/' then '\0' else p[i])
  }

  /** Names that are recorded alike come in the same order as plain strings. */
  lemma {:induction false} TwinsInOrder(p: string, q: string)
    requires Slashed(p) == Slashed(q)
    ensures Less(ByParts(p), ByParts(q)) <==> Less(p, q)
  {
    assert |p| == |Slashed(p)| == |Slashed(q)| == |q|;
    if p != "" {
      assert Slashed(p)[0] == Slashed(q)[0];
      assert Slashed(p[1..]) == Slashed(p)[1..] && Slashed(q[1..]) == Slashed(q)[1..];
      assert ByParts(p)[1..] == ByParts(p[1..]) && ByParts(q)[1..] == ByParts(q[1..]);
      TwinsInOrder(p[1..], q[1..]);
    }
  }

  /** Hashes by recorded name; of two names that are recorded alike the later one counts. */
  function Recorded(d: Dir, paths: seq<string>): map<string, Digest>
    requires forall p :: p in paths ==> p in d
  {
    if paths == [] then map[]
    else
      var n := |paths| - 1;
      var before := Recorded(d, paths[..n]);
      if Slashed(paths[n]) in EXCLUDED then before
      else before[Slashed(paths[n]) := Sha256(d[paths[n]])]
  }

  lemma InSorted(s: set<string>, p: string)
    ensures p in Sorted(s) <==> p in s
  {
    SortedIsSorted(s);
    assert p in Sorted(s) <==> p in Elements(Sorted(s));
  }

  /** The "files" of the manifest. */
  ghost function Files(d: Dir): map<string, Digest> {
    assert forall p :: p in Sorted(d.Keys) ==> p in d by {
      forall p | p in Sorted(d.Keys) ensures p in d { InSorted(d.Keys, p); }
    }
    Recorded(d, Sorted(d.Keys))
  }

  /** The manifest as it is written, in the order of the names. */
  ghost function Entries(files: map<string, Digest>): seq<(string, Digest)> {
    assert forall k :: k in Sorted(files.Keys) ==> k in files by {
      forall k | k in Sorted(files.Keys) ensures k in files { InSorted(files.Keys, k); }
    }
    var q := Sorted(files.Keys);
    seq(|q|, i requires 0 <= i < |q| => (q[i], files[q[i]]))
  }

  lemma EntriesMean(files: map<string, Digest>, k: string, h: Digest)
    ensures (k, h) in Entries(files) <==> k in files && files[k] == h
  {
    InSorted(files.Keys, k);
    var q := Sorted(files.Keys);
    if k in files && files[k] == h {
      var i :| 0 <= i < |q| && q[i] == k;
      assert Entries(files)[i] == (k, h);
    }
  }

  /** The directory after `steps` of the three writes of write_manifest. */
  ghost function Written(d: Dir, files: map<string, Digest>, key: Key, steps: nat): Dir {
    var listing := Listing(Entries(files));
    var d1 := if steps >= 1 then d[MANIFEST := listing] else d;
    var d2 := if steps >= 2 then d1[SEAL := Seal(HmacSha256(key, listing))] else d1;
    if steps >= 3 then d2[EPOCH := Epoch(key)] else d2
  }

  ghost function Signed(d: Dir, key: Key): Dir {
    Written(d, Files(d), key, 3)
  }

  // ----- verifying -----

  /** The first listed file that is absent or differs decides. */
  function Check(d: Dir, entries: seq<(string, Digest)>): Status {
    if entries == [] then Ok
    else if entries[0].0 !in d then Missing
    else if Sha256(d[entries[0].0]) != entries[0].1 then HashMismatch
    else Check(d, entries[1..])
  }

  predicate Ascii(s: string) {
    forall i :: 0 <= i < |s| ==> s[i] < '\U{80}'
  }

  /** A seal that cannot be read as text, or compared as a digest, makes the check raise. */
  predicate RaisesAsSeal(c: Content) {
    c.Garbage? || ((c.Plain? || c.Odd?) && !Ascii(Strip(c.text)))
  }

  function Verify(d: Dir, key: Key): Status {
    if MANIFEST !in d || SEAL !in d then Missing
    else if RaisesAsSeal(d[SEAL]) then Raised
    else if d[SEAL] != Seal(HmacSha256(key, d[MANIFEST])) then HmacMismatch
    else
      match d[MANIFEST]
      case Listing(entries) => Check(d, entries)
      case Odd(_) => Raised
      case Garbage(_) => Raised
      case _ => Error
  }

  /** As verify_manifest_detailed runs: file by file, leaving at the first bad one. */
  method VerifyManifestDetailed(d: Dir, key: Key) returns (status: Status)
    ensures status == Verify(d, key)
  {
    if MANIFEST !in d || SEAL !in d {
      return Missing;
    }
    if RaisesAsSeal(d[SEAL]) {
      return Raised;
    }
    if d[SEAL] != Seal(HmacSha256(key, d[MANIFEST])) {
      return HmacMismatch;
    }
    if d[MANIFEST].Odd? || d[MANIFEST].Garbage? {
      return Raised;
    }
    if !d[MANIFEST].Listing? {
      return Error;
    }
    var entries := d[MANIFEST].entries;
    for i := 0 to |entries|
      invariant Check(d, entries) == Check(d, entries[i..])
    {
      var path, digest := entries[i].0, entries[i].1;
      if path !in d {
        return Missing;
      }
      if Sha256(d[path]) != digest {
        return HashMismatch;
      }
      assert entries[i..][1..] == entries[i + 1..];
    }
    return Ok;
  }

  predicate Match(d: Dir, e: (string, Digest)) {
    e.0 in d && Sha256(d[e.0]) == e.1
  }

  lemma {:induction false} CheckMeans(d: Dir, entries: seq<(string, Digest)>)
    ensures Check(d, entries) == Ok <==> forall e :: e in entries ==> Match(d, e)
    ensures Check(d, entries) in {Ok, Missing, HashMismatch}
  {
    if entries != [] {
      CheckMeans(d, entries[1..]);
      assert Check(d, entries) == Ok <==> Match(d, entries[0]) && Check(d, entries[1..]) == Ok;
      assert entries[0] in entries && forall e :: e in entries[1..] ==> e in entries;
      assert forall e :: e in entries ==> e == entries[0] || e in entries[1..];
    }
  }

  /** The listed files before this one are all as listed, and this one is missing, or differs. */
  predicate FirstMissing(d: Dir, entries: seq<(string, Digest)>, i: nat) {
    i < |entries| && entries[i].0 !in d && forall j :: 0 <= j < i ==> Match(d, entries[j])
  }

  predicate FirstDiffers(d: Dir, entries: seq<(string, Digest)>, i: nat) {
    && i < |entries| && entries[i].0 in d && Sha256(d[entries[i].0]) != entries[i].1
    && forall j :: 0 <= j < i ==> Match(d, entries[j])
  }

  lemma {:induction false} CheckFinds(d: Dir, entries: seq<(string, Digest)>) returns (i: nat)
    ensures Check(d, entries) == Missing ==> FirstMissing(d, entries, i)
    ensures Check(d, entries) == HashMismatch ==> FirstDiffers(d, entries, i)
  {
    i := 0;
    if entries != [] && Match(d, entries[0]) {
      i := CheckFinds(d, entries[1..]);
      assert forall j :: 0 <= j < |entries| - 1 ==> entries[1..][j] == entries[j + 1];
      i := i + 1;
    }
  }

  lemma {:induction false} CheckStops(d: Dir, entries: seq<(string, Digest)>, i: nat)
    ensures FirstMissing(d, entries, i) ==> Check(d, entries) == Missing
    ensures FirstDiffers(d, entries, i) ==> Check(d, entries) == HashMismatch
  {
    if 0 < i < |entries| && (forall j :: 0 <= j < i ==> Match(d, entries[j])) {
      assert forall j :: 0 <= j < |entries| - 1 ==> entries[1..][j] == entries[j + 1];
      CheckStops(d, entries[1..], i - 1);
    }
  }

  lemma CheckExactly(d: Dir, entries: seq<(string, Digest)>)
    ensures Check(d, entries) == Missing <==> exists i :: FirstMissing(d, entries, i)
    ensures Check(d, entries) == HashMismatch <==> exists i :: FirstDiffers(d, entries, i)
  {
    var i := CheckFinds(d, entries);
    if j :| FirstMissing(d, entries, j) { CheckStops(d, entries, j); }
    if j :| FirstDiffers(d, entries, j) { CheckStops(d, entries, j); }
  }

  /** The seal is not UTF-8, or its text, white space aside, is not ASCII. */
  predicate Unreadable(seal: Content) {
    seal.Garbage?
    || ((seal.Plain? || seal.Odd?) && exists i :: 0 <= i < |Strip(seal.text)| && Strip(seal.text)[i] as int >= 128)
  }

  /** Exactly when the check has which result. */
  lemma VerifyExactly(d: Dir, key: Key)
    ensures var there, result := MANIFEST in d && SEAL in d, Verify(d, key);
      var sealed := there && d[SEAL] == Seal(HmacSha256(key, d[MANIFEST]));
      var listed := sealed && d[MANIFEST].Listing?;
      && (result == Ok <==> listed && forall e :: e in d[MANIFEST].entries ==> e.0 in d && Sha256(d[e.0]) == e.1)
      && (result == Missing <==> !there || (listed && exists i :: FirstMissing(d, d[MANIFEST].entries, i)))
      && (result == HashMismatch <==> listed && exists i :: FirstDiffers(d, d[MANIFEST].entries, i))
      && (result == HmacMismatch <==> there && !sealed && !Unreadable(d[SEAL]))
      && (result == Raised <==>
            there && (Unreadable(d[SEAL]) || (sealed && (d[MANIFEST].Odd? || d[MANIFEST].Garbage?))))
  {
    if MANIFEST in d && SEAL in d && d[MANIFEST].Listing? {
      CheckMeans(d, d[MANIFEST].entries);
      CheckExactly(d, d[MANIFEST].entries);
    }
  }

  /** Among these names, the last of those recorded like it. */
  ghost predicate LastTwin(names: set<string>, p: string) {
    p in names && forall q :: q in names && Slashed(q) == Slashed(p) ==> AtMost(q, p)
  }

  /** What is recorded under a name, and of which file. */
  lemma {:induction false} RecordedMeans(d: Dir, paths: seq<string>, k: string)
    requires Ascending(paths) && forall p :: p in paths ==> p in d
    ensures k in Recorded(d, paths) ==> k !in EXCLUDED
    ensures k in Recorded(d, paths) ==>
      exists p :: LastTwin(Elements(paths), p) && Slashed(p) == k && Recorded(d, paths)[k] == Sha256(d[p])
    ensures k !in Recorded(d, paths) ==> k in EXCLUDED || forall p :: p in paths ==> Slashed(p) != k
  {
    if paths != [] {
      var front, last := paths[..|paths| - 1], paths[|paths| - 1];
      assert paths == front + [last];
      RecordedMeans(d, front, k);
      if k in Recorded(d, paths) {
        if Slashed(last) == k {
          forall q | q in Elements(paths) ensures AtMost(q, last) {
            var i :| 0 <= i < |paths| && paths[i] == q;
          }
          assert LastTwin(Elements(paths), last);
        } else {
          var p :| LastTwin(Elements(front), p) && Slashed(p) == k && Recorded(d, front)[k] == Sha256(d[p]);
          assert LastTwin(Elements(paths), p);
        }
      }
    }
  }

  lemma OneLastTwin(names: set<string>, p: string, q: string)
    requires LastTwin(names, p) && LastTwin(names, q) && Slashed(p) == Slashed(q)
    ensures p == q
  {
    if p != q {
      LessTransitive(p, q, p);
      LessIrreflexive(p);
    }
  }

  lemma FilesMean(d: Dir, k: string)
    ensures k in Files(d) ==> k !in EXCLUDED
    ensures k in Files(d) ==>
      exists p :: LastTwin(d.Keys, p) && Slashed(p) == k && Files(d)[k] == Sha256(d[p])
    ensures k !in Files(d) ==> k in EXCLUDED || forall p :: p in d ==> Slashed(p) != k
  {
    var paths := Sorted(d.Keys);
    SortedIsSorted(d.Keys);
    forall p ensures p in paths <==> p in d { InSorted(d.Keys, p); }
    RecordedMeans(d, paths, k);
  }

  lemma FileOf(d: Dir, p: string)
    requires LastTwin(d.Keys, p) && p !in EXCLUDED
    ensures Slashed(p) in Files(d) && Files(d)[Slashed(p)] == Sha256(d[p])
  {
    FilesMean(d, Slashed(p));
    SlashedExcluded(p);
    var q :| LastTwin(d.Keys, q) && Slashed(q) == Slashed(p) && Files(d)[Slashed(p)] == Sha256(d[q]);
    OneLastTwin(d.Keys, p, q);
  }

  /** Under every recorded name stands, now, the content that was recorded for it. */
  ghost predicate Keeps(d: Dir, now: Dir) {
    forall p :: LastTwin(d.Keys, p) && p !in EXCLUDED ==> Slashed(p) in now && now[Slashed(p)] == d[p]
  }

  lemma ChecksAgainst(d: Dir, now: Dir)
    ensures Check(now, Entries(Files(d))) == Ok <==> Keeps(d, now)
  {
    var entries := Entries(Files(d));
    CheckMeans(now, entries);
    if Keeps(d, now) {
      forall e | e in entries ensures Match(now, e) {
        EntriesMean(Files(d), e.0, e.1);
        FilesMean(d, e.0);
        var p :| LastTwin(d.Keys, p) && Slashed(p) == e.0 && Files(d)[e.0] == Sha256(d[p]);
        SlashedExcluded(p);
      }
    }
    if forall e :: e in entries ==> Match(now, e) {
      forall p | LastTwin(d.Keys, p) && p !in EXCLUDED ensures Slashed(p) in now && now[Slashed(p)] == d[p] {
        FileOf(d, p);
        EntriesMean(Files(d), Slashed(p), Sha256(d[p]));
        assert Match(now, (Slashed(p), Sha256(d[p])));
      }
    }
  }

  /** A directory that carries a genuine seal verifies exactly when its manifest is the one sealed
      and under every recorded name stands what was recorded. */
  lemma TamperEvident(d: Dir, key: Key, now: Dir)
    requires MANIFEST in now && SEAL in now && now[SEAL] == Signed(d, key)[SEAL]
    ensures Verify(now, key) == Ok <==> now[MANIFEST] == Listing(Entries(Files(d))) && Keeps(d, now)
  {
    ChecksAgainst(d, now);
  }

  lemma SignedHolds(d: Dir, p: string)
    requires (forall q :: q in d ==> '\\' !in q) && p in d
    requires p != "config.js" && p != "manifest.json" && p != "manifest.json.hmac" && p != "manifest.json.epoch"
    ensures (p, Sha256(d[p])) in Entries(Files(d))
    ensures Slashed(p) == p && LastTwin(d.Keys, p)
  {
    forall q | q in d ensures Slashed(q) == q { SlashedPlain(q); }
    FileOf(d, p);
    EntriesMean(Files(d), p, Sha256(d[p]));
  }

  lemma SignedKeepsAll(d: Dir, e: (string, Digest))
    requires (forall q :: q in d ==> '\\' !in q) && e in Entries(Files(d))
    ensures e.0 in d && e.1 == Sha256(d[e.0]) && e.0 !in EXCLUDED
  {
    EntriesMean(Files(d), e.0, e.1);
    FilesMean(d, e.0);
    forall q | q in d ensures Slashed(q) == q { SlashedPlain(q); }
  }

  /** Tampering with any one file of a signed install, but config.js and the manifest's own, is found:
      another content is a hash mismatch, and a file that is gone is missing. */
  lemma TamperingIsFound(d: Dir, key: Key, p: string, content: Content)
    requires (forall q :: q in d ==> '\\' !in q) && p in d && content != d[p]
    requires p != "config.js" && p != "manifest.json" && p != "manifest.json.hmac" && p != "manifest.json.epoch"
    ensures Verify(Signed(d, key)[p := content], key) == HashMismatch
    ensures Verify(Signed(d, key) - {p}, key) == Missing
  {
    var s, entries := Signed(d, key), Entries(Files(d));
    var changed, without := s[p := content], s - {p};
    SignedHolds(d, p);
    forall e | e in entries ensures e.0 in d && e.1 == Sha256(d[e.0]) && e.0 !in EXCLUDED { SignedKeepsAll(d, e); }
    CheckMeans(changed, entries);
    CheckMeans(without, entries);
    assert !Match(changed, (p, Sha256(d[p]))) && !Match(without, (p, Sha256(d[p])));
    var i := CheckFinds(changed, entries);
    var j := CheckFinds(without, entries);
  }

  /** A directory keeps itself exactly when every name with a backslash has a twin with slashes
      that holds what the last of its twins holds. */
  lemma KeepsItself(d: Dir)
    ensures Keeps(d, d) <==>
      forall p :: p in d && '\\' in p && LastTwin(d.Keys, p) ==> Slashed(p) in d && d[Slashed(p)] == d[p]
  {
    forall p | p in d && '\\' !in p ensures Slashed(p) == p { SlashedPlain(p); }
    forall p | p in d && '\\' in p ensures p !in EXCLUDED { if p in EXCLUDED { ExcludedAreFlat(p); } }
  }

  lemma KeepsBesides(d: Dir, a: Dir, b: Dir)
    requires forall p :: p !in EXCLUDED ==> (p in a <==> p in b) && (p in a ==> a[p] == b[p])
    ensures Keeps(d, a) <==> Keeps(d, b)
  {
    forall p ensures Slashed(p) in EXCLUDED <==> p in EXCLUDED { SlashedExcluded(p); }
  }

  /** A freshly signed directory verifies under the key that signed it exactly when it keeps itself:
      always, if no name holds a backslash. */
  lemma FreshVerifies(d: Dir, key: Key)
    ensures Verify(Signed(d, key), key) == Ok <==> Keeps(d, d)
    ensures (forall p :: p in d ==> '\\' !in p) ==> Keeps(d, d)
  {
    TamperEvident(d, key, Signed(d, key));
    KeepsBesides(d, d, Signed(d, key));
    KeepsItself(d);
  }

  /** A name with a backslash is recorded under a name that is not there. */
  lemma BackslashIsMissing(key: Key)
    ensures var d := map["assets\\x.js" := Plain("1")];
      Verify(Signed(d, key), key) == Missing
  {
    var p, k, d := "assets\\x.js", "assets/x.js", map["assets\\x.js" := Plain("1")];
    assert Slashed(p) == k;
    FilesMean(d, k);
    var entries := Entries(Files(d));
    assert k in Files(d);
    EntriesMean(Files(d), k, Files(d)[k]);
    forall e | e in entries ensures e.0 == k {
      EntriesMean(Files(d), e.0, e.1);
      FilesMean(d, e.0);
    }
    var s := Signed(d, key);
    assert entries[0].0 == k && k !in s;
  }

  /** Writing one file into a freshly signed directory leaves it verifying exactly when every
      recorded name still, or only now, holds what was recorded. */
  lemma WriteAfterSigning(d: Dir, key: Key, name: string, content: Content)
    ensures Verify(Signed(d, key)[name := content], key) == Ok <==>
      if name in {MANIFEST, SEAL} then content == Signed(d, key)[name] && Keeps(d, d)
      else Keeps(d, d[name := content])
  {
    var s := Signed(d, key);
    var now := s[name := content];
    KeepsBesides(d, d, s);
    if name == SEAL {
      if content == s[SEAL] {
        assert now == s;
        FreshVerifies(d, key);
      }
    } else {
      TamperEvident(d, key, now);
      if name == MANIFEST {
        KeepsBesides(d, s, now);
      } else {
        KeepsBesides(d, d[name := content], now);
      }
    }
  }

  /** Writing a file of text into any directory that verifies leaves it verifying exactly when it is
      neither the manifest nor the seal, and what is listed under its name is that text. */
  lemma WriteIntoVerified(d: Dir, key: Key, name: string, text: string)
    requires Verify(d, key) == Ok
    ensures Verify(d[name := Plain(text)], key) == Ok <==>
      name !in {MANIFEST, SEAL} && forall e :: e in d[MANIFEST].entries && e.0 == name ==> e.1 == Sha256(Plain(text))
  {
    var now, entries := d[name := Plain(text)], d[MANIFEST].entries;
    CheckMeans(d, entries);
    CheckMeans(now, entries);
    if name !in {MANIFEST, SEAL} {
      assert forall e :: e in entries ==> (Match(now, e) <==> e.0 != name || e.1 == Sha256(Plain(text)));
    }
  }

  /** A directory after a series of rewrites of config.js. */
  function Rewritten(d: Dir, contents: seq<Content>): Dir {
    if contents == [] then d
    else Rewritten(d, contents[..|contents| - 1])[CONFIG := contents[|contents| - 1]]
  }

  lemma {:induction false} RewrittenKeepsOthers(d: Dir, contents: seq<Content>, p: string)
    requires p != CONFIG
    ensures p in Rewritten(d, contents) <==> p in d
    ensures p in d ==> Rewritten(d, contents)[p] == d[p]
  {
    if contents != [] {
      RewrittenKeepsOthers(d, contents[..|contents| - 1], p);
    }
  }

  /** Rewrites of config.js never change whether a signed directory verifies. */
  lemma RewritesKeepVerifying(d: Dir, key: Key, contents: seq<Content>)
    ensures Verify(Rewritten(Signed(d, key), contents), key) == Ok <==> Keeps(d, d)
  {
    var now := Rewritten(Signed(d, key), contents);
    RewrittenSigned(d, key, contents);
    TamperEvident(d, key, now);
    KeepsBesides(d, d, now);
  }

  // ----- key migration -----

  /** The epoch marker, unless it is absent or blank. */
  function StoredEpoch(d: Dir): Option<Content> {
    if EPOCH !in d || (d[EPOCH].Plain? && Strip(d[EPOCH].text) == "") then None else Some(d[EPOCH])
  }

  /** Every listed file matches its hash; the seal is not looked at. */
  function FilesMatch(d: Dir): Status {
    if MANIFEST !in d then Missing
    else
      match d[MANIFEST]
      case Listing(entries) => Check(d, entries)
      case Odd(_) => Raised
      case Garbage(_) => Raised
      case _ => Error
  }

  datatype Repair = Repaired | Refused | Crashed

  /** Re-signs when epoch marker, list and files speak for a key migration.  `steps` of the three
      writes succeed. */
  ghost function Repairing(d: Dir, key: Key, steps: nat): (Dir, Repair) {
    if EPOCH in d && d[EPOCH].Garbage? then (d, Crashed)
    else if StoredEpoch(d) == None || StoredEpoch(d) == Some(Epoch(key)) then (d, Refused)
    else if FilesMatch(d) == Raised then (d, Crashed)
    else if FilesMatch(d) != Ok || Files(d) == map[] then (d, Refused)
    else (Written(d, Files(d), key, steps), if steps >= 3 then Repaired else Refused)
  }

  /** An epoch marker with something in it that is not the fingerprint of this key. */
  predicate ForeignEpoch(d: Dir, key: Key) {
    EPOCH in d && !d[EPOCH].Garbage? && !(d[EPOCH].Plain? && Strip(d[EPOCH].text) == "") && d[EPOCH] != Epoch(key)
  }

  /** The manifest is a list, and every file on it is there with the listed hash. */
  ghost predicate ListMatches(d: Dir) {
    MANIFEST in d && d[MANIFEST].Listing? && forall e :: e in d[MANIFEST].entries ==> Match(d, e)
  }

  lemma SignedIsWritten(d: Dir, files: map<string, Digest>, key: Key, steps: nat)
    requires steps >= 3
    ensures Written(d, files, key, steps) == Written(d, files, key, 3)
  {
  }

  /** A repair touches manifest files only, whether or not it goes through. */
  lemma RepairSparesOthers(d: Dir, key: Key, steps: nat, p: string)
    requires p !in {MANIFEST, SEAL, EPOCH}
    ensures var r := Repairing(d, key, steps).0; (p in r <==> p in d) && (p in d ==> r[p] == d[p])
  {
  }

  /** After a repair that goes through the directory is signed under the new key and verifies exactly
      when it keeps itself. */
  lemma RepairSigns(d: Dir, key: Key, steps: nat)
    ensures var (r, outcome) := Repairing(d, key, steps);
      outcome == Repaired ==> r == Signed(d, key) && (Verify(r, key) == Ok <==> Keeps(d, d))
  {
    if steps >= 3 {
      SignedIsWritten(d, Files(d), key, steps);
      FreshVerifies(d, key);
    }
  }

  lemma SomethingRecorded(d: Dir)
    ensures Files(d) != map[] <==> exists p :: p in d && p !in EXCLUDED
  {
    if k :| k in Files(d) {
      FilesMean(d, k);
      var p :| LastTwin(d.Keys, p) && Slashed(p) == k;
      SlashedExcluded(p);
    } else if p :| p in d && p !in EXCLUDED {
      FilesMean(d, Slashed(p));
      SlashedExcluded(p);
    }
  }

  /** Exactly when a repair goes through: epoch marker, list and files decide, and none of them is
      authenticated by anything.  And exactly when it crashes. */
  lemma RepairGoesThrough(d: Dir, key: Key, steps: nat)
    ensures Repairing(d, key, steps).1 == Repaired <==>
      ForeignEpoch(d, key) && ListMatches(d) && (exists p :: p in d && p !in EXCLUDED) && steps >= 3
    ensures Repairing(d, key, steps).1 == Crashed <==>
      EPOCH in d &&
      (d[EPOCH].Garbage? || (ForeignEpoch(d, key) && MANIFEST in d && (d[MANIFEST].Odd? || d[MANIFEST].Garbage?)))
  {
    SomethingRecorded(d);
    if MANIFEST in d && d[MANIFEST].Listing? {
      CheckMeans(d, d[MANIFEST].entries);
    }
  }

  /** What a repair is documented to stand for: the list was sealed under some key, and the files are
      those of the list. */
  ghost predicate ProvenMigration(d: Dir) {
    exists signer: Key :: Verify(d, signer) == Ok
  }

  /** A repair that goes through was a proven migration exactly when the seal is an HMAC of the very
      list that is there, under whatever key. */
  lemma RepairOfMigration(d: Dir, key: Key, steps: nat)
    requires SEAL in d && Repairing(d, key, steps).1 == Repaired
    ensures ProvenMigration(d) <==>
      d[SEAL].Seal? && d[SEAL].digest.HmacSha256? && d[SEAL].digest.of == d[MANIFEST]
  {
    RepairGoesThrough(d, key, steps);
    CheckMeans(d, d[MANIFEST].entries);
    if d[SEAL].Seal? && d[SEAL].digest.HmacSha256? && d[SEAL].digest.of == d[MANIFEST] {
      assert Verify(d, d[SEAL].digest.key) == Ok;
    }
  }

  /** Any files, with a list of them and made-up texts for seal and epoch beside them. */
  ghost function Forged(d: Dir, seal: string, epoch: string): Dir {
    d[MANIFEST := Listing(Entries(Files(d)))][SEAL := Plain(seal)][EPOCH := Plain(epoch)]
  }

  /** Whether a directory keeps itself does not depend on the manifest files or config.js. */
  lemma SameFilesKeep(d: Dir, now: Dir)
    requires forall p :: p !in EXCLUDED ==> (p in now <==> p in d) && (p in d ==> now[p] == d[p])
    requires Keeps(d, d)
    ensures Keeps(now, now)
  {
    forall p | LastTwin(now.Keys, p) && p !in EXCLUDED ensures Slashed(p) in now && now[Slashed(p)] == now[p] {
      SlashedExcluded(p);
      forall q | q in d.Keys && Slashed(q) == Slashed(p) ensures AtMost(q, p) {
        SlashedExcluded(q);
        assert q in now.Keys;
      }
      assert LastTwin(d.Keys, p);
    }
  }

  /** The same files, and beside them the list of them. */
  ghost predicate ListedOver(d: Dir, now: Dir) {
    && MANIFEST in now && now[MANIFEST] == Listing(Entries(Files(d)))
    && forall p :: p !in EXCLUDED ==> (p in now <==> p in d) && (p in d ==> now[p] == d[p])
  }

  lemma ListedOverMatches(d: Dir, now: Dir)
    requires ListedOver(d, now)
    ensures FilesMatch(now) == Ok <==> Keeps(d, d)
    ensures Files(now) != map[] <==> exists p :: p in d && p !in EXCLUDED
    ensures FilesMatch(now) != Raised
  {
    ChecksAgainst(d, now);
    CheckMeans(now, Entries(Files(d)));
    KeepsBesides(d, d, now);
    SomethingRecorded(now);
    if p :| p in d && p !in EXCLUDED { assert p in now; }
    if p :| p in now && p !in EXCLUDED { assert p in d; }
  }

  lemma ForgedOver(d: Dir, seal: string, epoch: string)
    ensures var forged := Forged(d, seal, epoch);
      && ListedOver(d, forged)
      && SEAL in forged && forged[SEAL] == Plain(seal) && EPOCH in forged && forged[EPOCH] == Plain(epoch)
  {
  }

  /** The check calls it a seal mismatch, and the repair signs it unless there is nothing to sign or
      the files do not keep their names; then it verifies.  Yet no key ever sealed it before. */
  lemma ForgeryIsSigned(d: Dir, seal: string, epoch: string, key: Key, steps: nat)
    requires Ascii(Strip(seal)) && Strip(epoch) != "" && steps >= 3
    ensures var forged := Forged(d, seal, epoch);
      var (r, outcome) := Repairing(forged, key, steps);
      && Verify(forged, key) == HmacMismatch && !ProvenMigration(forged)
      && (outcome == Repaired <==> Keeps(d, d) && exists p :: p in d && p !in EXCLUDED)
      && (outcome == Repaired ==> Verify(r, key) == Ok)
  {
    var forged := Forged(d, seal, epoch);
    ForgedOver(d, seal, epoch);
    ListedOverMatches(d, forged);
    if Keeps(d, d) {
      SameFilesKeep(d, forged);
      RepairSigns(forged, key, steps);
    }
  }

  /** A file that is not on the list is looked at by neither check nor repair: wherever the repair
      goes through, it goes through with that file added, and signs it. */
  lemma UnlistedFileIsSigned(d: Dir, key: Key, name: string, content: Content)
    requires Repairing(d, key, 3).1 == Repaired && name !in EXCLUDED
    requires forall e :: e in d[MANIFEST].entries ==> e.0 != name
    ensures Repairing(d[name := content], key, 3).1 == Repaired
  {
    var now := d[name := content];
    RepairGoesThrough(d, key, 3);
    RepairGoesThrough(now, key, 3);
    forall e | e in now[MANIFEST].entries ensures Match(now, e) {
      assert Match(d, e);
    }
    assert name in now && name !in EXCLUDED;
  }

  /** Signed under the key, whatever has become of config.js since. */
  ghost predicate SignedBy(d: Dir, key: Key, now: Dir) {
    && MANIFEST in now && now[MANIFEST] == Listing(Entries(Files(d)))
    && SEAL in now && now[SEAL] == Seal(HmacSha256(key, now[MANIFEST]))
    && EPOCH in now && now[EPOCH] == Epoch(key)
    && forall p :: p !in EXCLUDED ==> (p in now <==> p in d) && (p in d ==> now[p] == d[p])
  }

  lemma RewrittenSigned(d: Dir, key: Key, contents: seq<Content>)
    ensures SignedBy(d, key, Rewritten(Signed(d, key), contents))
  {
    forall p | p != CONFIG {
      RewrittenKeepsOthers(Signed(d, key), contents, p);
    }
  }

  lemma OtherKeyMismatch(d: Dir, key: Key, other: Key, now: Dir)
    requires key != other && SignedBy(d, key, now)
    ensures Verify(now, other) == HmacMismatch
  {
  }

  lemma MigrationDecided(d: Dir, key: Key, next: Key, now: Dir)
    requires key != next && SignedBy(d, key, now)
    ensures Repairing(now, next, 3).1 == Repaired <==> Keeps(d, d) && Files(now) != map[]
  {
    ChecksAgainst(d, now);
    KeepsBesides(d, d, now);
  }

  /** A key change over an untouched install is a seal mismatch, and is repaired exactly when the
      install is not empty and keeps itself. */
  lemma MigrationIsRepaired(d: Dir, key: Key, next: Key, contents: seq<Content>)
    requires key != next
    ensures var now := Rewritten(Signed(d, key), contents);
      && Verify(now, next) == HmacMismatch
      && (Repairing(now, next, 3).1 == Repaired <==> Keeps(d, d) && exists p :: p in d && p !in EXCLUDED)
  {
    var now := Rewritten(Signed(d, key), contents);
    RewrittenSigned(d, key, contents);
    OtherKeyMismatch(d, key, next, now);
    MigrationDecided(d, key, next, now);
    SomethingRecorded(now);
    assert (exists p :: p in d && p !in EXCLUDED) <==> exists p :: p in now && p !in EXCLUDED;
  }

  /** The same key with a broken seal is never re-signed. */
  lemma SameKeyIsNeverResigned(d: Dir, key: Key, steps: nat)
    requires EPOCH in d && d[EPOCH] == Epoch(key)
    ensures Repairing(d, key, steps) == (d, Refused)
  {
  }

  // ----- as the code runs -----

  method GenerateManifest(d: Dir) returns (files: map<string, Digest>)
    ensures files == Files(d)
  {
    var paths := Sort(d.Keys);
    forall p | p in paths ensures p in d { InSorted(d.Keys, p); }
    files := map[];
    for i := 0 to |paths|
      invariant files == Recorded(d, paths[..i])
    {
      assert paths[..i + 1][..i] == paths[..i];
      var recorded := Slashed(paths[i]);
      if recorded in EXCLUDED {
        continue;
      }
      files := files[recorded := Sha256(d[paths[i]])];
    }
    assert paths[..|paths|] == paths;
  }

  method WriteManifest(d: Dir, files: map<string, Digest>, key: Key, steps: nat) returns (r: Dir)
    ensures r == Written(d, files, key, steps)
  {
    var names := Sort(files.Keys);
    var entries := [];
    for i := 0 to |names|
      invariant |entries| == i && entries == Entries(files)[..i]
    {
      InSorted(files.Keys, names[i]);
      entries := entries + [(names[i], files[names[i]])];
    }
    assert entries == Entries(files);
    r := d;
    if steps >= 1 {
      r := r[MANIFEST := Listing(entries)];
    }
    if steps >= 2 {
      r := r[SEAL := Seal(HmacSha256(key, Listing(entries)))];
    }
    if steps >= 3 {
      r := r[EPOCH := Epoch(key)];
    }
  }

  method FilesMatchManifest(d: Dir) returns (status: Status)
    ensures status == FilesMatch(d)
  {
    if MANIFEST !in d {
      return Missing;
    }
    if d[MANIFEST].Odd? || d[MANIFEST].Garbage? {
      return Raised;
    }
    if !d[MANIFEST].Listing? {
      return Error;
    }
    var entries := d[MANIFEST].entries;
    for i := 0 to |entries|
      invariant Check(d, entries) == Check(d, entries[i..])
    {
      if entries[i].0 !in d {
        return Missing;
      }
      if Sha256(d[entries[i].0]) != entries[i].1 {
        return HashMismatch;
      }
      assert entries[i..][1..] == entries[i + 1..];
    }
    return Ok;
  }

  method MaybeRepairKeyMigration(d: Dir, key: Key, steps: nat) returns (r: Dir, outcome: Repair)
    ensures (r, outcome) == Repairing(d, key, steps)
  {
    if EPOCH in d && d[EPOCH].Garbage? {
      return d, Crashed;
    }
    var stored := StoredEpoch(d);
    if stored == None || stored == Some(Epoch(key)) {
      return d, Refused;
    }
    var intact := FilesMatchManifest(d);
    if intact == Raised {
      return d, Crashed;
    }
    if intact != Ok {
      return d, Refused;
    }
    var files := GenerateManifest(d);
    if files == map[] {
      return d, Refused;
    }
    r := WriteManifest(d, files, key, steps);
    outcome := if steps >= 3 then Repaired else Refused;
  }
}
