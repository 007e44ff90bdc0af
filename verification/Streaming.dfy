/** Sending a slice of a body, however it arrives: in chunks of any sizes or in short reads. */
module Streaming {
  import opened Prelude
  import opened ByteRanges

  newtype Byte = x: int | 0 <= x < 256

  type Bytes = seq<Byte>

  function Flat(chunks: seq<Bytes>): Bytes {
    if chunks == [] then [] else Flat(chunks[..|chunks| - 1]) + chunks[|chunks| - 1]
  }

  function Dropped(body: Bytes, n: nat): Bytes {
    if n == 0 || body == [] then body else Dropped(body[1..], n - 1)
  }

  function Taken(body: Bytes, n: nat): Bytes {
    if n == 0 || body == [] then [] else [body[0]] + Taken(body[1..], n - 1)
  }

  /** The bytes from skip on, at most limit of them, as far as the body has them. */
  function Slice(body: Bytes, skip: nat, limit: nat): Bytes {
    Taken(Dropped(body, skip), limit)
  }

  lemma {:induction false} DroppedIs(body: Bytes, n: nat)
    ensures Dropped(body, n) == if n <= |body| then body[n..] else []
  {
    if n > 0 && body != [] {
      DroppedIs(body[1..], n - 1);
      if n <= |body| { assert body[1..][n - 1..] == body[n..]; }
    }
  }

  lemma {:induction false} TakenIs(body: Bytes, n: nat)
    ensures Taken(body, n) == if n <= |body| then body[..n] else body
  {
    if n > 0 && body != [] {
      TakenIs(body[1..], n - 1);
      assert body == [body[0]] + body[1..];
      if n <= |body| { assert body[..n] == [body[0]] + body[1..][..n - 1]; }
    }
  }

  lemma SliceIs(body: Bytes, skip: nat, limit: nat)
    ensures Slice(body, skip, limit) ==
      if skip >= |body| then [] else if skip + limit <= |body| then body[skip..skip + limit] else body[skip..]
  {
    DroppedIs(body, skip);
    TakenIs(Dropped(body, skip), limit);
  }

  lemma FlatMore(chunks: seq<Bytes>, chunk: Bytes)
    ensures Flat(chunks + [chunk]) == Flat(chunks) + chunk
  {
    assert (chunks + [chunk])[..|chunks|] == chunks;
  }

  // ----- a body that arrives in chunks -----

  lemma SliceMore(before: Bytes, chunk: Bytes, skip: nat, limit: nat, sent: nat, start: int, end: int)
    requires sent == |Slice(before, skip, limit)|
    requires start == Max(0, skip - |before|) && end == Min(|chunk|, start + (limit - sent))
    ensures Slice(before + chunk, skip, limit) ==
      if |before| + |chunk| <= skip || start >= end then Slice(before, skip, limit)
      else Slice(before, skip, limit) + chunk[start..end]
  {
    if skip >= |before| + |chunk| {
      SliceIs(before, skip, limit);
      SliceIs(before + chunk, skip, limit);
    } else if skip > |before| {
      SliceIs(before, skip, limit);
      SliceAcross(before, chunk, skip, limit);
    } else {
      SliceIs(before, skip, limit);
      SliceAcross(before, chunk, skip, limit);
      assert start == 0;
    }
  }

  lemma SliceAcross(before: Bytes, chunk: Bytes, skip: nat, limit: nat)
    requires skip < |before| + |chunk|
    ensures var to := Min(|before| + |chunk|, skip + limit);
      Slice(before + chunk, skip, limit) ==
      if to <= |before| then before[skip..to]
      else if skip >= |before| then chunk[skip - |before|..to - |before|]
      else before[skip..] + chunk[..to - |before|]
  {
    SliceIs(before + chunk, skip, limit);
    CutAcross(before, chunk, skip, Min(|before| + |chunk|, skip + limit));
  }

  lemma CutAcross(a: Bytes, b: Bytes, i: nat, j: nat)
    requires i <= j <= |a| + |b|
    ensures (a + b)[i..j] ==
      if j <= |a| then a[i..j]
      else if i >= |a| then b[i - |a|..j - |a|]
      else a[i..] + b[..j - |a|]
  {
  }

  lemma {:induction false} SliceEnough(chunks: seq<Bytes>, n: nat, skip: nat, limit: nat)
    requires n <= |chunks| && |Slice(Flat(chunks[..n]), skip, limit)| >= limit
    ensures Slice(Flat(chunks), skip, limit) == Slice(Flat(chunks[..n]), skip, limit)
  {
    var m := |chunks| - 1;
    if n == |chunks| {
      assert chunks[..n] == chunks;
    } else {
      assert chunks[..m][..n] == chunks[..n];
      SliceEnough(chunks[..m], n, skip, limit);
      var before := Flat(chunks[..m]);
      var sent, start := |Slice(before, skip, limit)|, Max(0, skip - |before|);
      SliceMore(before, chunks[m], skip, limit, sent, start, Min(|chunks[m]|, start + (limit - sent)));
    }
  }

  lemma PartStep(before: Bytes, chunk: Bytes, parts: seq<Bytes>, skip: nat, limit: nat, start: int, end: int)
    requires Flat(parts) == Slice(before, skip, limit)
    requires start == Max(0, skip - |before|) && end == Min(|chunk|, start + (limit - |Flat(parts)|))
    ensures var more := if |before| + |chunk| <= skip || start >= end then parts else parts + [chunk[start..end]];
      && Flat(more) == Slice(before + chunk, skip, limit)
      && |Flat(more)| == |Flat(parts)| + if |before| + |chunk| <= skip || start >= end then 0 else end - start
  {
    SliceMore(before, chunk, skip, limit, |Flat(parts)|, start, end);
    if |before| + |chunk| > skip && start < end {
      FlatMore(parts, chunk[start..end]);
    }
  }

  lemma FlatUpTo(chunks: seq<Bytes>, i: nat)
    requires i < |chunks|
    ensures Flat(chunks[..i + 1]) == Flat(chunks[..i]) + chunks[i]
  {
    assert chunks[..i + 1] == chunks[..i] + [chunks[i]];
    FlatMore(chunks[..i], chunks[i]);
  }

  /** The generator branch: whatever the chunks, what is yielded is the slice. */
  method IterateChunks(chunks: seq<Bytes>, skip: nat, limit: nat) returns (parts: seq<Bytes>)
    ensures Flat(parts) == Slice(Flat(chunks), skip, limit)
    ensures forall i :: 0 <= i < |parts| ==> parts[i] != []
  {
    var count, yielded := 0, 0;
    parts := [];
    for i := 0 to |chunks|
      invariant count == |Flat(chunks[..i])|
      invariant Flat(parts) == Slice(Flat(chunks[..i]), skip, limit) && yielded == |Flat(parts)|
      invariant forall j :: 0 <= j < |parts| ==> parts[j] != []
    {
      var chunk := chunks[i];
      FlatUpTo(chunks, i);
      var start := Max(0, skip - count);
      var end := Min(|chunk|, start + (limit - yielded));
      PartStep(Flat(chunks[..i]), chunk, parts, skip, limit, start, end);
      if count + |chunk| <= skip {
        count := count + |chunk|;
        continue;
      }
      if start < end {
        parts := parts + [chunk[start..end]];
        yielded := yielded + (end - start);
      }
      count := count + |chunk|;
      if yielded >= limit {
        SliceEnough(chunks, i + 1, skip, limit);
        return;
      }
    }
    assert chunks[..|chunks|] == chunks;
  }

  // ----- a file that may answer a read with fewer bytes than asked -----

  class File {
    const body: Bytes
    var pos: nat
    /** How many bytes each coming read is willing to give. */
    var willing: seq<nat>

    constructor (body: Bytes, willing: seq<nat>)
      ensures this.body == body && pos == 0
    {
      this.body, this.pos, this.willing := body, 0, willing;
    }

    method Seek(to: nat)
      modifies this
      ensures pos == to && willing == old(willing)
    {
      pos := to;
    }

    /** Some of the next bytes; none only at the end of the file. */
    method Read(most: nat) returns (chunk: Bytes)
      requires most > 0
      modifies this
      ensures old(pos) + |chunk| <= |body| || chunk == []
      ensures |chunk| <= most && chunk == Slice(body, old(pos), |chunk|) && pos == old(pos) + |chunk|
      ensures chunk == [] <==> old(pos) >= |body|
    {
      var n := most;
      if willing != [] {
        n := Min(most, 1 + willing[0]);
        willing := willing[1..];
      }
      chunk := Slice(body, pos, n);
      SliceIs(body, pos, n);
      SliceIs(body, pos, |chunk|);
      pos := pos + |chunk|;
    }
  }

  const READ_SIZE := 65536

  lemma SliceReads(body: Bytes, skip: nat, sent: nat, chunk: Bytes, limit: nat)
    requires sent + |chunk| <= limit && chunk == Slice(body, skip + sent, |chunk|)
    requires |Slice(body, skip, sent)| == sent
    ensures Slice(body, skip, sent) + chunk == Slice(body, skip, sent + |chunk|)
    ensures |Slice(body, skip, sent + |chunk|)| == sent + |chunk|
  {
    if chunk == [] {
      assert Slice(body, skip, sent) + chunk == Slice(body, skip, sent);
    } else {
      SliceLength(body, skip + sent, |chunk|);
      WholeSlice(body, skip, sent);
      WholeSlice(body, skip + sent, |chunk|);
      WholeSlice(body, skip, sent + |chunk|);
      Adjoining(body, skip, skip + sent, skip + sent + |chunk|);
    }
  }

  lemma SliceLength(body: Bytes, skip: nat, n: nat)
    ensures |Slice(body, skip, n)| == Max(0, Min(n, |body| - skip))
  {
    SliceIs(body, skip, n);
  }

  lemma WholeSlice(body: Bytes, skip: nat, n: nat)
    requires skip + n <= |body|
    ensures Slice(body, skip, n) == body[skip..skip + n]
  {
    SliceIs(body, skip, n);
  }

  lemma Adjoining(body: Bytes, i: nat, j: nat, k: nat)
    requires i <= j <= k <= |body|
    ensures body[i..j] + body[j..k] == body[i..k]
  {
  }

  lemma SliceEnds(body: Bytes, skip: nat, sent: nat, limit: nat)
    requires sent <= limit && |body| <= skip + sent
    ensures Slice(body, skip, sent) == Slice(body, skip, limit)
  {
    SliceIs(body, skip, sent);
    SliceIs(body, skip, limit);
  }

  /** The file branch: whatever the reads give, what is yielded is the slice. */
  method IterateFile(file: File, skip: nat, limit: nat) returns (parts: seq<Bytes>)
    requires file.pos == 0
    modifies file
    ensures Flat(parts) == Slice(file.body, skip, limit)
    ensures forall i :: 0 <= i < |parts| ==> 0 < |parts[i]| <= READ_SIZE
  {
    if skip > 0 {
      file.Seek(skip);
    }
    var yielded := 0;
    parts := [];
    while yielded < limit
      invariant yielded <= limit && file.pos == skip + yielded
      invariant Flat(parts) == Slice(file.body, skip, yielded) && |Flat(parts)| == yielded
      invariant forall i :: 0 <= i < |parts| ==> 0 < |parts[i]| <= READ_SIZE
      decreases limit - yielded
    {
      var chunk := file.Read(Min(READ_SIZE, limit - yielded));
      if chunk == [] {
        SliceEnds(file.body, skip, yielded, limit);
        break;
      }
      SliceReads(file.body, skip, yielded, chunk, limit);
      FlatMore(parts, chunk);
      parts := parts + [chunk];
      yielded := yielded + |chunk|;
    }
  }

  // ----- the answers -----

  datatype Answer = Answer(status: nat, contentLength: int, parts: seq<Bytes>)

  /** The positions from..to of a body. */
  function Between(body: Bytes, from: nat, to: int): Bytes
    requires from <= to + 1 <= |body|
  {
    body[from..to + 1]
  }

  /** Attachments: what is sent is as long as declared and is the range the header names. */
  method ServeAttachment(file: File, header: Option<string>) returns (answer: Answer)
    requires file.pos == 0
    modifies file
    ensures |Flat(answer.parts)| == answer.contentLength
    ensures var r := ParseByteRange(header, |file.body|);
      && answer.status == (if r.partial then 206 else 200)
      && 0 <= r.start <= r.end + 1 <= |file.body|
      && Flat(answer.parts) == Between(file.body, r.start, r.end)
  {
    var r := ParseByteRange(header, |file.body|);
    if r.partial { PartialIsInsideMedia(header, |file.body|); } else { FullIfNotPartialMedia(header, |file.body|); }
    var contentLength := r.end - r.start + 1;
    SliceIs(file.body, r.start, contentLength);
    var parts := IterateFile(file, r.start, contentLength);
    answer := Answer(if r.partial then 206 else 200, contentLength, parts);
  }

  lemma FullIfNotPartialMedia(header: Option<string>, size: int)
    requires !ParseByteRange(header, size).partial
    ensures ParseByteRange(header, size) == Full(size)
  {
  }

  /** A stream without seek never sees the range header, and is sent whole in any chunking. */
  method ServeGenerator(chunks: seq<Bytes>, size: nat) returns (answer: Answer)
    requires size == |Flat(chunks)|
    ensures answer.status == 200 && Flat(answer.parts) == Flat(chunks)
  {
    var r := ParseByteRange(None, size);
    SliceIs(Flat(chunks), 0, size);
    var parts := IterateChunks(chunks, r.start, r.end - r.start + 1);
    answer := Answer(200, size, parts);
  }

  /** Static files: the range header counts unless an If-Range that does not match is there. */
  method SendFile(file: File, header: Option<string>, ifRange: Option<string>, etag: string, headOnly: bool)
    returns (answer: Answer)
    requires file.pos == 0
    modifies file
    ensures var ranged := header.Some? && StartsWith(header.value, "bytes=")
        && (ifRange.None? || ifRange.value == "" || ifRange.value == etag);
      var v := if ranged then ParseRange(header.value[6..], |file.body|) else Verdict(Full(|file.body|), false);
      if v.unsatisfiable then answer == Answer(416, 0, [])
      else
        && 0 <= v.range.start <= v.range.end + 1 <= |file.body|
        && answer.status == (if v.range.partial then 206 else 200)
        && answer.contentLength == v.range.end + 1 - v.range.start
        && Flat(answer.parts) == if headOnly then [] else Between(file.body, v.range.start, v.range.end)
  {
    var size := |file.body|;
    var range := Full(size);
    if header.Some? && StartsWith(header.value, "bytes=")
      && (ifRange.None? || ifRange.value == "" || ifRange.value == etag) {
      var verdict := ParseRange(header.value[6..], size);
      if verdict.unsatisfiable {
        return Answer(416, 0, []);
      }
      range := verdict.range;
      if range.partial { PartialIsInside(header.value[6..], size); } else { FullIfNotPartial(header.value[6..], size); }
    }
    var contentLength := range.end - range.start + 1;
    var status := if range.partial then 206 else 200;
    if headOnly {
      return Answer(status, contentLength, []);
    }
    SliceIs(file.body, range.start, contentLength);
    var parts := SendBody(file, range.start, contentLength);
    answer := Answer(status, contentLength, parts);
  }

  lemma FullIfNotPartial(spec: string, size: int)
    requires !ParseRange(spec, size).range.partial
    ensures ParseRange(spec, size).range == Full(size)
  {
  }

  /** The router counts down what remains. */
  method SendBody(file: File, start: nat, contentLength: nat) returns (parts: seq<Bytes>)
    requires file.pos == 0
    modifies file
    ensures Flat(parts) == Slice(file.body, start, contentLength)
  {
    if start > 0 {
      file.Seek(start);
    }
    var remaining := contentLength;
    parts := [];
    while remaining > 0
      invariant 0 <= remaining <= contentLength && file.pos == start + (contentLength - remaining)
      invariant Flat(parts) == Slice(file.body, start, contentLength - remaining)
      invariant |Flat(parts)| == contentLength - remaining
      decreases remaining
    {
      var chunk := file.Read(Min(READ_SIZE, remaining));
      if chunk == [] {
        SliceEnds(file.body, start, contentLength - remaining, contentLength);
        break;
      }
      SliceReads(file.body, start, contentLength - remaining, chunk, contentLength);
      FlatMore(parts, chunk);
      remaining := remaining - |chunk|;
      parts := parts + [chunk];
    }
  }

  /** An attachment range in the words of section 2.1 of RFC 7233 is answered with exactly the bytes
      at the positions asked for. */
  lemma AskedIsSent(body: Bytes, r: ByteRangeSpec, at: nat)
    requires at < |body|
    ensures var m := ParseByteRange(Some("bytes=" + Text(r)), |body|);
      AllShort(r) && Asks(r, |body|, at) ==>
        m.partial && m.start <= at <= m.end < |body| && 0 <= m.start
        && Between(body, m.start, m.end)[at - m.start] == body[at]
  {
    if AllShort(r) && Asks(r, |body|, at) {
      MediaRangeMeansItsPositions(r, |body|);
      PartialIsInsideMedia(Some("bytes=" + Text(r)), |body|);
    }
  }
}
