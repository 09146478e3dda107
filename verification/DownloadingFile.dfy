// DownloadingFile.go: a download fed with arbitrary replies.

module DownloadingFiles {
  import opened Wrappers
  import opened Messages
  import opened SharedFiles

  /** A reply claims that the data has the hash. */
  datatype Reply = Reply(hashValue: Bytes, data: Bytes)

  /** The downloads directory: chunk files by file name and hash, and finished files. */
  datatype Fs = Fs(chunks: map<(string, Digest), Bytes>, files: map<string, Bytes>)

  datatype Download = Download(
    name: string,
    metaHash: Digest,
    metafile: Option<Bytes>,
    hashesSlice: seq<Digest>,
    hashesSet: set<Digest>,
    toDownload: set<Digest>)

  function Started(name: string, metaHash: Digest): Download {
    Download(name, metaHash, None, [], {}, {})
  }

  function SetOf(hashes: seq<Digest>): set<Digest> {
    set h | h in hashes
  }

  // ---------- one reply ----------

  /** The hash has 32 bytes and is the hash of the data. */
  predicate Authentic(sha: Bytes -> Digest, m: Reply) {
    |m.hashValue| == HASH_SIZE && sha(m.data) == Digest(m.hashValue)
  }

  predicate IsMetafileFor(d: Download, m: Reply) {
    |m.data| % HASH_SIZE == 0 && Digest(m.hashValue) == d.metaHash
  }

  predicate IsMissingChunk(sha: Bytes -> Digest, d: Download, m: Reply) {
    Authentic(sha, m) && d.metafile != None && Digest(m.hashValue) in d.toDownload
  }

  function WithMetafile(d: Download, metafile: Bytes): Download {
    var hashes := ParseHashes(metafile);
    d.(metafile := Some(metafile), hashesSlice := hashes, hashesSet := SetOf(hashes), toDownload := SetOf(hashes))
  }

  /** The state after a reply: the metafile first, then every missing chunk once, nothing else. */
  function Received(sha: Bytes -> Digest, d: Download, m: Reply): Download {
    if Authentic(sha, m) && d.metafile == None && IsMetafileFor(d, m) then WithMetafile(d, m.data)
    else if IsMissingChunk(sha, d, m) then d.(toDownload := d.toDownload - {Digest(m.hashValue)})
    else d
  }

  /** finishDownloading: the chunk files one after the other, unless one is missing. */
  function Composed(name: string, hashes: seq<Digest>, chunks: map<(string, Digest), Bytes>): Option<Bytes> {
    if hashes == [] then Some([])
    else match Composed(name, hashes[..|hashes| - 1], chunks)
      case None => None
      case Some(bytes) =>
        if (name, hashes[|hashes| - 1]) in chunks then Some(bytes + chunks[(name, hashes[|hashes| - 1])]) else None
  }

  function Stored(sha: Bytes -> Digest, d: Download, fs: Fs, m: Reply): Fs {
    if IsMissingChunk(sha, d, m) then
      var chunks := fs.chunks[(d.name, Digest(m.hashValue)) := m.data];
      var whole := Composed(d.name, d.hashesSlice, chunks);
      if d.toDownload == {Digest(m.hashValue)} && whole != None
      then Fs(chunks, fs.files[d.name := whole.value])
      else Fs(chunks, fs.files)
    else fs
  }

  /** The pointer processDataReply returns: nil to have the request repeated, else whether the
      download is finished. A metafile is reported as an error when the directory exists already. */
  function Outcome(sha: Bytes -> Digest, d: Download, m: Reply, dirExists: bool): Option<bool> {
    if !Authentic(sha, m) then None
    else if d.metafile == None then (if IsMetafileFor(d, m) && !dirExists then Some(false) else None)
    else Some(d.toDownload == {Digest(m.hashValue)})
  }

  /** The disk shared by all downloads of a node. */
  class Disk {
    var fs: Fs

    constructor ()
      ensures fs == Fs(map[], map[])
    {
      fs := Fs(map[], map[]);
    }
  }

  class DownloadingFile {
    const name: string
    const metaHash: Digest
    var metafile: Option<Bytes>
    var chunksHashesSlice: seq<Digest>
    var chunksHashesSet: set<Digest>
    var chunksToDownload: set<Digest>

    constructor (name: string, metaHash: Digest)
      ensures Abs() == Started(name, metaHash)
    {
      this.name := name;
      this.metaHash := metaHash;
      metafile := None;
      chunksHashesSlice := [];
      chunksHashesSet := {};
      chunksToDownload := {};
    }

    function Abs(): Download
      reads this
    {
      Download(name, metaHash, metafile, chunksHashesSlice, chunksHashesSet, chunksToDownload)
    }

    /** Reads the metafile byte by byte into a 32-byte window that is copied out when full. */
    method GotMetafile(hashValue: Digest, data: Bytes, dirExists: bool) returns (ok: bool)
      modifies this
      ensures ok <==> |data| % HASH_SIZE == 0 && hashValue == metaHash && !dirExists
      ensures Abs() == if |data| % HASH_SIZE == 0 && hashValue == metaHash then WithMetafile(old(Abs()), data) else old(Abs())
    {
      if |data| % HASH_SIZE != 0 || hashValue != metaHash {
        return false;
      }
      metafile := Some(data);
      chunksHashesSlice := [];
      chunksHashesSet := {};
      chunksToDownload := {};
      var currentChunk := Zeros(HASH_SIZE);
      for i := 0 to |data|
        invariant metafile == Some(data) && |currentChunk| == HASH_SIZE
        invariant chunksHashesSlice == ParseHashes(data[..i])
        invariant chunksHashesSet == chunksToDownload == SetOf(chunksHashesSlice)
        invariant currentChunk[..i % HASH_SIZE] == data[i - i % HASH_SIZE .. i]
      {
        WindowStep(data, i, currentChunk);
        currentChunk := currentChunk[i % HASH_SIZE := data[i]];
        if (i + 1) % HASH_SIZE == 0 {
          chunksHashesSlice := chunksHashesSlice + [Digest(currentChunk)];
          chunksHashesSet := chunksHashesSet + {Digest(currentChunk)};
          chunksToDownload := chunksToDownload + {Digest(currentChunk)};
        }
      }
      assert data[..|data|] == data;
      return !dirExists;
    }

    method FinishDownloading(disk: Disk)
      modifies disk
      ensures var whole := Composed(name, chunksHashesSlice, old(disk.fs).chunks);
              disk.fs == if whole == None then old(disk.fs) else old(disk.fs).(files := old(disk.fs).files[name := whole.value])
    {
      var fileBytes: Bytes := [];
      for i := 0 to |chunksHashesSlice|
        invariant Composed(name, chunksHashesSlice[..i], disk.fs.chunks) == Some(fileBytes)
        invariant disk.fs == old(disk.fs)
      {
        assert chunksHashesSlice[..i + 1][..i] == chunksHashesSlice[..i];
        var chunkHash := chunksHashesSlice[i];
        if (name, chunkHash) !in disk.fs.chunks {
          MissingChunk(name, chunksHashesSlice, i, disk.fs.chunks);
          return;
        }
        fileBytes := fileBytes + disk.fs.chunks[(name, chunkHash)];
      }
      assert chunksHashesSlice[..|chunksHashesSlice|] == chunksHashesSlice;
      disk.fs := disk.fs.(files := disk.fs.files[name := fileBytes]);
    }

    method ProcessDataReply(sha: Bytes -> Digest, disk: Disk, m: Reply, dirExists: bool) returns (finished: Option<bool>)
      modifies this, disk
      ensures Abs() == Received(sha, old(Abs()), m)
      ensures disk.fs == Stored(sha, old(Abs()), old(disk.fs), m)
      ensures finished == Outcome(sha, old(Abs()), m, dirExists)
    {
      if |m.hashValue| != HASH_SIZE {
        return None;
      }
      var typedHashValue := Digest(m.hashValue);
      if sha(m.data) != typedHashValue {
        return None;
      }
      if metafile == None {
        var ok := GotMetafile(typedHashValue, m.data, dirExists);
        return if ok then Some(false) else None;
      }
      if typedHashValue !in chunksToDownload {
        return Some(false);
      }
      ghost var before := chunksToDownload;
      chunksToDownload := chunksToDownload - {typedHashValue};
      disk.fs := disk.fs.(chunks := disk.fs.chunks[(name, typedHashValue) := m.data]);
      assert chunksToDownload == {} <==> before == {typedHashValue};
      if chunksToDownload == {} {
        FinishDownloading(disk);
        return Some(true);
      }
      return Some(false);
    }

    /** Any hash still to be downloaded. */
    method GetDataRequest() returns (h: Option<Digest>)
      ensures h == None <==> chunksToDownload == {}
      ensures h != None ==> h.value in chunksToDownload
    {
      if chunksToDownload == {} {
        return None;
      }
      var k :| k in chunksToDownload;
      return Some(k);
    }

    predicate FileHasDownloadedChunk(h: Digest)
      reads this
    {
      HasDownloaded(Abs(), h)
    }

    /** The metafile for its hash, a downloaded chunk for the chunk's hash. */
    method GetChunkOrMetafile(disk: Disk, h: Digest) returns (data: Option<Bytes>)
      ensures data == Served(Abs(), disk.fs, h)
    {
      if h == metaHash {
        return metafile;
      }
      if FileHasDownloadedChunk(h) {
        return if (name, h) in disk.fs.chunks then Some(disk.fs.chunks[(name, h)]) else None;
      }
      return None;
    }
  }

  predicate HasDownloaded(d: Download, h: Digest) {
    d.metafile != None && (d.metaHash == h || (h in d.hashesSet && h !in d.toDownload))
  }

  function Served(d: Download, fs: Fs, h: Digest): Option<Bytes> {
    if h == d.metaHash then d.metafile
    else if HasDownloaded(d, h) && (d.name, h) in fs.chunks then Some(fs.chunks[(d.name, h)])
    else None
  }

  /** One byte goes into the window. */
  lemma WindowFills(data: Bytes, i: nat, window: Bytes)
    requires i < |data| && |window| == HASH_SIZE
    requires window[..i % HASH_SIZE] == data[i - i % HASH_SIZE .. i]
    ensures window[i % HASH_SIZE := data[i]][..i % HASH_SIZE + 1] == data[i - i % HASH_SIZE .. i + 1]
  {
    var r := i % HASH_SIZE;
    assert window[r := data[i]][..r + 1] == window[..r] + [data[i]];
    assert data[i - r .. i + 1] == data[i - r .. i] + [data[i]];
  }

  /** One more byte of metafile: one more hash when it ends a group of 32. */
  lemma ParseStep(data: Bytes, i: nat)
    requires i < |data|
    ensures ParseHashes(data[..i + 1]) ==
            ParseHashes(data[..i]) + if (i + 1) % HASH_SIZE == 0 then [Digest(data[i - i % HASH_SIZE .. i + 1])] else []
  {
    assert forall j :: 0 <= j < i / HASH_SIZE ==>
        data[..i][j * HASH_SIZE .. (j + 1) * HASH_SIZE] == data[..i + 1][j * HASH_SIZE .. (j + 1) * HASH_SIZE];
    if (i + 1) % HASH_SIZE == 0 {
      assert i / HASH_SIZE * HASH_SIZE == i - i % HASH_SIZE;
      assert data[i - i % HASH_SIZE .. i + 1] == data[..i + 1][i / HASH_SIZE * HASH_SIZE .. (i / HASH_SIZE + 1) * HASH_SIZE];
    }
  }

  /** One round of the metafile loop. */
  lemma WindowStep(data: Bytes, i: nat, window: Bytes)
    requires i < |data| && |window| == HASH_SIZE
    requires window[..i % HASH_SIZE] == data[i - i % HASH_SIZE .. i]
    ensures var w := window[i % HASH_SIZE := data[i]];
            && w[..(i + 1) % HASH_SIZE] == data[i + 1 - (i + 1) % HASH_SIZE .. i + 1]
            && ParseHashes(data[..i + 1]) == ParseHashes(data[..i]) + if (i + 1) % HASH_SIZE == 0 then [Digest(w)] else []
  {
    WindowFills(data, i, window);
    ParseStep(data, i);
    var w := window[i % HASH_SIZE := data[i]];
    if (i + 1) % HASH_SIZE == 0 {
      assert w == w[..i % HASH_SIZE + 1];
    }
  }

  lemma {:induction false} MissingChunk(name: string, hashes: seq<Digest>, i: nat, chunks: map<(string, Digest), Bytes>)
    requires i < |hashes| && (name, hashes[i]) !in chunks
    ensures Composed(name, hashes, chunks) == None
    decreases |hashes|
  {
    if i < |hashes| - 1 {
      MissingChunk(name, hashes[..|hashes| - 1], i, chunks);
    }
  }

  // ---------- invariants of a download ----------

  /** What is missing is part of the metafile's hashes; what is not missing lies on disk under its hash. */
  ghost predicate DownloadOk(sha: Bytes -> Digest, d: Download, fs: Fs) {
    && d.toDownload <= d.hashesSet
    && d.hashesSet == SetOf(d.hashesSlice)
    && (d.metafile == None ==> d.hashesSlice == [])
    && (d.metafile != None ==> sha(d.metafile.value) == d.metaHash && d.hashesSlice == ParseHashes(d.metafile.value))
    && forall h :: h in d.hashesSet - d.toDownload ==> OnDisk(sha, d.name, fs, h)
  }

  ghost predicate OnDisk(sha: Bytes -> Digest, name: string, fs: Fs, h: Digest) {
    (name, h) in fs.chunks && sha(fs.chunks[(name, h)]) == h
  }

  /** Other downloads write chunk files too, even in the same directory, but only under the hash of
      what they write. */
  ghost predicate DiskGrows(sha: Bytes -> Digest, before: Fs, after: Fs) {
    forall key :: key in before.chunks && sha(before.chunks[key]) == key.1 ==>
      key in after.chunks && sha(after.chunks[key]) == key.1
  }

  /** The two maps have the same at this key, or both nothing. */
  ghost predicate SameAt<K, V>(m: map<K, V>, n: map<K, V>, key: K) {
    (key in m <==> key in n) && (key in m ==> m[key] == n[key])
  }

  /** A reply keeps the download in order. It writes one chunk file of its own directory at most, and
      the file of its own name only when the download finishes. */
  lemma ReceivedOk(sha: Bytes -> Digest, d: Download, fs: Fs, m: Reply)
    requires DownloadOk(sha, d, fs)
    ensures DownloadOk(sha, Received(sha, d, m), Stored(sha, d, fs, m))
    ensures DiskGrows(sha, fs, Stored(sha, d, fs, m))
    ensures forall n :: n != d.name ==> SameAt(fs.files, Stored(sha, d, fs, m).files, n)
    ensures forall key :: key != (d.name, Digest(m.hashValue)) ==> SameAt(fs.chunks, Stored(sha, d, fs, m).chunks, key)
    ensures forall dirExists :: Outcome(sha, d, m, dirExists) != Some(true) ==> Stored(sha, d, fs, m).files == fs.files
  {
    var e, gs := Received(sha, d, m), Stored(sha, d, fs, m);
    forall h | h in e.hashesSet - e.toDownload ensures OnDisk(sha, e.name, gs, h) {
      if !(IsMissingChunk(sha, d, m) && h == Digest(m.hashValue)) {
        assert OnDisk(sha, d.name, fs, h);
      }
    }
  }

  /** Progress: a reply is either of no effect on the missing chunks, or it brings the metafile, or
      it brings exactly one missing chunk; the download reports to be finished exactly on the last. */
  lemma Progress(sha: Bytes -> Digest, d: Download, fs: Fs, m: Reply, dirExists: bool)
    requires DownloadOk(sha, d, fs)
    ensures d.metafile != None ==>
              |Received(sha, d, m).toDownload| == |d.toDownload| - if IsMissingChunk(sha, d, m) then 1 else 0
    ensures Outcome(sha, d, m, dirExists) == Some(true) <==>
              IsMissingChunk(sha, d, m) && Received(sha, d, m).toDownload == {}
  {
    if Authentic(sha, m) && d.metafile != None {
      assert d.toDownload - {Digest(m.hashValue)} == {} <==> d.toDownload <= {Digest(m.hashValue)};
    }
  }

  /** Whatever is served has the hash that was asked for, at every moment of the download. */
  lemma ServedHasHash(sha: Bytes -> Digest, d: Download, fs: Fs, h: Digest)
    requires DownloadOk(sha, d, fs) && Served(d, fs, h) != None
    ensures sha(Served(d, fs, h).value) == h
  {
    if h != d.metaHash {
      assert h in d.hashesSet - d.toDownload;
    }
  }

  // ---------- search results ----------

  /** The positions, from 1, of the chunks that have been downloaded. */
  function ChunkMap(d: Download): seq<nat> {
    ChunkMapUpTo(d, |d.hashesSlice|)
  }

  function ChunkMapUpTo(d: Download, n: nat): seq<nat>
    requires n <= |d.hashesSlice|
  {
    if n == 0 then []
    else ChunkMapUpTo(d, n - 1) + if d.hashesSlice[n - 1] in d.toDownload then [] else [n]
  }

  lemma {:induction false} ChunkMapFull(d: Download, n: nat)
    requires n <= |d.hashesSlice|
    ensures |ChunkMapUpTo(d, n)| <= n
    ensures |ChunkMapUpTo(d, n)| == n <==> forall i :: 0 <= i < n ==> d.hashesSlice[i] !in d.toDownload
    ensures forall i :: i in ChunkMapUpTo(d, n) <==> 1 <= i <= n && d.hashesSlice[i - 1] !in d.toDownload
  {
    if n > 0 {
      ChunkMapFull(d, n - 1);
    }
  }

  /** A search counts a result as full when its chunk map is as long as its chunk count. For a
      download that is so exactly when nothing is missing, be it that the metafile itself is still
      to come. */
  lemma FullMatchIff(sha: Bytes -> Digest, d: Download, fs: Fs)
    requires DownloadOk(sha, d, fs)
    ensures |ChunkMap(d)| == |d.hashesSlice| <==> d.toDownload == {}
    ensures d.metafile == None ==> |ChunkMap(d)| == |d.hashesSlice|
  {
    ChunkMapFull(d, |d.hashesSlice|);
  }

  // ---------- whole downloads ----------

  /** A reply for this download, or anything other downloads do to the disk. */
  datatype Event = Own(m: Reply, dirExists: bool) | Others(fs: Fs)

  datatype State = State(d: Download, fs: Fs)

  ghost predicate Enabled(sha: Bytes -> Digest, s: State, e: Event) {
    e.Others? ==> DiskGrows(sha, s.fs, e.fs)
  }

  function Next(sha: Bytes -> Digest, s: State, e: Event): State {
    match e
    case Own(m, _) => State(Received(sha, s.d, m), Stored(sha, s.d, s.fs, m))
    case Others(fs) => State(s.d, fs)
  }

  /** Whatever another download makes of a reply is among what others may do to the disk. */
  lemma OthersMayReply(sha: Bytes -> Digest, s: State, other: Download, m: Reply)
    ensures Enabled(sha, s, Others(Stored(sha, other, s.fs, m)))
  {
  }

  ghost predicate IsRun(sha: Bytes -> Digest, name: string, metaHash: Digest, states: seq<State>, events: seq<Event>) {
    && |states| == |events| + 1
    && states[0].d == Started(name, metaHash)
    && forall i :: 0 <= i < |events| ==>
         Enabled(sha, states[i], events[i]) && states[i + 1] == Next(sha, states[i], events[i])
  }

  lemma {:induction false} RunOk(sha: Bytes -> Digest, name: string, metaHash: Digest, states: seq<State>, events: seq<Event>, i: nat)
    requires IsRun(sha, name, metaHash, states, events) && i < |states|
    ensures DownloadOk(sha, states[i].d, states[i].fs)
    ensures states[i].d.name == name && states[i].d.metaHash == metaHash
  {
    if i > 0 {
      RunOk(sha, name, metaHash, states, events, i - 1);
      var s := states[i - 1];
      match events[i - 1]
      case Own(m, _) => ReceivedOk(sha, s.d, s.fs, m);
      case Others(fs) =>
        forall h | h in s.d.hashesSet - s.d.toDownload ensures OnDisk(sha, s.d.name, fs, h) {
          assert OnDisk(sha, s.d.name, s.fs, h);
          assert (s.d.name, h) in s.fs.chunks;
        }
    }
  }

  /** Chunk files that hash to the hashes of a file's chunks compose to the file. */
  lemma {:induction false} ComposedChunks(sha: Bytes -> Digest, data: iset<Bytes>, name: string, parts: seq<Bytes>, chunks: map<(string, Digest), Bytes>)
    requires CollisionFree(sha, data)
    requires forall c :: c in parts ==> c in data
    requires forall c :: c in parts ==> (name, sha(c)) in chunks && chunks[(name, sha(c))] in data && sha(chunks[(name, sha(c))]) == sha(c)
    ensures Composed(name, Hashes(sha, parts), chunks) == Some(Flatten(parts))
    decreases |parts|
  {
    if parts != [] {
      var m := |parts| - 1;
      var hashes := Hashes(sha, parts);
      assert hashes[..m] == Hashes(sha, parts[..m]);
      assert parts[m] in parts;
      ComposedChunks(sha, data, name, parts[..m], chunks);
    }
  }

  /** The metafile received and the chunk files on disk belong to the data in play. */
  ghost predicate InPlay(data: iset<Bytes>, s: State) {
    && (s.d.metafile != None ==> s.d.metafile.value in data)
    && forall key :: key in s.fs.chunks ==> s.fs.chunks[key] in data
  }

  /** A complete download of a shared file's metafile composes to the file. */
  lemma CompleteComposes(sha: Bytes -> Digest, data: iset<Bytes>, file: Bytes, s: State)
    requires GoodSha(sha, data) && InPlay(data, s) && (forall c :: c in Chunks(file) ==> c in data)
    requires DownloadOk(sha, s.d, s.fs) && s.d.metafile == Some(Metafile(sha, file)) && s.d.toDownload == {}
    ensures s.d.hashesSlice == Hashes(sha, Chunks(file))
    ensures Composed(s.d.name, s.d.hashesSlice, s.fs.chunks) == Some(file)
  {
    var chunks := Chunks(file);
    ParseInvertsBuild(Hashes(sha, chunks));
    forall c | c in chunks ensures OnDisk(sha, s.d.name, s.fs, sha(c)) {
      var j :| 0 <= j < |chunks| && chunks[j] == c;
      assert Hashes(sha, chunks)[j] == sha(c);
      assert sha(c) in s.d.hashesSet - s.d.toDownload;
    }
    ComposedChunks(sha, data, s.d.name, chunks, s.fs.chunks);
    ChunksRoundTrip(file);
  }

  /** Downloading a shared file from arbitrary replies, wrong, repeated or reordered: whenever the
      download reports to be finished, the file it has written is the file that was shared, chunk
      repetitions included; and it was not empty. The hash is collision-free on the data in play:
      the metafile, the file's chunks and whatever arrives or lies on disk. */
  lemma FinishedFileIsShared(
    sha: Bytes -> Digest, data: iset<Bytes>, file: Bytes, name: string, states: seq<State>, events: seq<Event>, i: nat)
    requires GoodSha(sha, data)
    requires Metafile(sha, file) in data && (forall c :: c in Chunks(file) ==> c in data)
    requires IsRun(sha, name, sha(Metafile(sha, file)), states, events) && i < |events| && events[i].Own?
    requires forall j :: 0 <= j < |states| ==> InPlay(data, states[j])
    requires Outcome(sha, states[i].d, events[i].m, events[i].dirExists) == Some(true)
    ensures file != [] && name in states[i + 1].fs.files && states[i + 1].fs.files[name] == file
  {
    var metaHash := sha(Metafile(sha, file));
    RunOk(sha, name, metaHash, states, events, i);
    RunOk(sha, name, metaHash, states, events, i + 1);
    Progress(sha, states[i].d, states[i].fs, events[i].m, events[i].dirExists);
    assert InPlay(data, states[i]) && InPlay(data, states[i + 1]);
    FinishingStep(sha, data, file, states[i], states[i + 1], events[i].m);
  }

  lemma FinishingStep(sha: Bytes -> Digest, data: iset<Bytes>, file: Bytes, s: State, t: State, m: Reply)
    requires GoodSha(sha, data) && InPlay(data, s) && InPlay(data, t)
    requires Metafile(sha, file) in data && (forall c :: c in Chunks(file) ==> c in data)
    requires DownloadOk(sha, s.d, s.fs) && DownloadOk(sha, t.d, t.fs) && s.d.metaHash == sha(Metafile(sha, file))
    requires IsMissingChunk(sha, s.d, m) && t == State(Received(sha, s.d, m), Stored(sha, s.d, s.fs, m))
    requires t.d.toDownload == {}
    ensures file != [] && s.d.name in t.fs.files && t.fs.files[s.d.name] == file
  {
    assert s.d.metafile.value == Metafile(sha, file);
    CompleteComposes(sha, data, file, t);
    assert s.d.toDownload == {Digest(m.hashValue)};
    assert Digest(m.hashValue) in SetOf(s.d.hashesSlice);
    assert |Chunks(file)| > 0;
  }

  // ---------- serving while downloading ----------

  /** The event brings the part with this hash: the metafile, or a chunk that was missing. */
  ghost predicate Brings(sha: Bytes -> Digest, d: Download, e: Event, h: Digest) {
    && e.Own? && Authentic(sha, e.m) && Digest(e.m.hashValue) == h
    && if d.metafile == None then IsMetafileFor(d, e.m) else h in d.toDownload
  }

  ghost predicate Brought(sha: Bytes -> Digest, states: seq<State>, events: seq<Event>, i: nat, h: Digest)
    requires i <= |events| < |states|
  {
    exists j :: 0 <= j < i && Brings(sha, states[j].d, events[j], h)
  }

  /** One event: a download has afterwards what it had before and what the event brings. */
  lemma HasDownloadedStep(sha: Bytes -> Digest, s: State, e: Event, h: Digest)
    requires DownloadOk(sha, s.d, s.fs)
    ensures HasDownloaded(Next(sha, s, e).d, h) <==> HasDownloaded(s.d, h) || Brings(sha, s.d, e, h)
  {
  }

  /** Parts are served as soon as they have arrived and for ever after: at every moment of every run the
      hashes a download says it has, and serves under the right hash, are exactly those of the metafile
      and the chunks that have arrived. */
  lemma {:induction false} ServedIffBrought(
    sha: Bytes -> Digest, name: string, metaHash: Digest, states: seq<State>, events: seq<Event>, i: nat, h: Digest)
    requires IsRun(sha, name, metaHash, states, events) && i < |states|
    ensures HasDownloaded(states[i].d, h) <==> Brought(sha, states, events, i, h)
    ensures Served(states[i].d, states[i].fs, h) != None <==> Brought(sha, states, events, i, h)
    ensures Brought(sha, states, events, i, h) ==> sha(Served(states[i].d, states[i].fs, h).value) == h
  {
    RunOk(sha, name, metaHash, states, events, i);
    if i > 0 {
      ServedIffBrought(sha, name, metaHash, states, events, i - 1, h);
      RunOk(sha, name, metaHash, states, events, i - 1);
      assert states[i - 1 + 1] == Next(sha, states[i - 1], events[i - 1]);
      HasDownloadedStep(sha, states[i - 1], events[i - 1], h);
      BroughtStep(sha, states, events, i - 1, h);
    }
    ServedIffHas(sha, states[i].d, states[i].fs, h);
  }

  lemma BroughtStep(sha: Bytes -> Digest, states: seq<State>, events: seq<Event>, i: nat, h: Digest)
    requires i < |events| < |states|
    ensures Brought(sha, states, events, i + 1, h) <==> Brought(sha, states, events, i, h) || Brings(sha, states[i].d, events[i], h)
  {
  }

  lemma ServedIffHas(sha: Bytes -> Digest, d: Download, fs: Fs, h: Digest)
    requires DownloadOk(sha, d, fs)
    ensures Served(d, fs, h) != None <==> HasDownloaded(d, h)
    ensures Served(d, fs, h) != None ==> sha(Served(d, fs, h).value) == h
  {
    if HasDownloaded(d, h) && h != d.metaHash {
      assert h in d.hashesSet - d.toDownload;
    }
  }

  /** Once finished, a download of a shared file serves for ever what the sharing node serves: the
      metafile and every chunk under its hash. */
  lemma FinishedServes(
    sha: Bytes -> Digest, data: iset<Bytes>, file: Bytes, name: string, states: seq<State>, events: seq<Event>, i: nat, j: nat, k: nat)
    requires GoodSha(sha, data)
    requires Metafile(sha, file) in data && (forall c :: c in Chunks(file) ==> c in data)
    requires IsRun(sha, name, sha(Metafile(sha, file)), states, events) && i < j < |states| && events[i].Own?
    requires forall j :: 0 <= j < |states| ==> InPlay(data, states[j])
    requires Outcome(sha, states[i].d, events[i].m, events[i].dirExists) == Some(true)
    ensures Served(states[j].d, states[j].fs, sha(Metafile(sha, file))) == Some(Metafile(sha, file))
    ensures k < |Chunks(file)| ==> Served(states[j].d, states[j].fs, sha(Chunks(file)[k])) == Some(Chunks(file)[k])
  {
    var metaHash := sha(Metafile(sha, file));
    RunOk(sha, name, metaHash, states, events, i);
    RunOk(sha, name, metaHash, states, events, j);
    Progress(sha, states[i].d, states[i].fs, events[i].m, events[i].dirExists);
    StaysComplete(sha, name, metaHash, states, events, i + 1, j);
    assert InPlay(data, states[j]);
    CompleteServes(sha, data, file, states[j], k);
  }

  lemma {:induction false} StaysComplete(
    sha: Bytes -> Digest, name: string, metaHash: Digest, states: seq<State>, events: seq<Event>, i: nat, j: nat)
    requires IsRun(sha, name, metaHash, states, events) && i <= j < |states|
    requires states[i].d.metafile != None && states[i].d.toDownload == {}
    ensures states[j].d == states[i].d
  {
    if i < j {
      StaysComplete(sha, name, metaHash, states, events, i, j - 1);
      assert states[j - 1 + 1] == Next(sha, states[j - 1], events[j - 1]);
    }
  }

  lemma CompleteServes(sha: Bytes -> Digest, data: iset<Bytes>, file: Bytes, s: State, k: nat)
    requires GoodSha(sha, data) && InPlay(data, s)
    requires Metafile(sha, file) in data && (forall c :: c in Chunks(file) ==> c in data)
    requires DownloadOk(sha, s.d, s.fs) && s.d.metaHash == sha(Metafile(sha, file))
    requires s.d.metafile != None && s.d.toDownload == {}
    ensures Served(s.d, s.fs, s.d.metaHash) == Some(Metafile(sha, file))
    ensures k < |Chunks(file)| ==> Served(s.d, s.fs, sha(Chunks(file)[k])) == Some(Chunks(file)[k])
  {
    if k < |Chunks(file)| {
      var c := Chunks(file)[k];
      assert c in Chunks(file);
      CompleteComposes(sha, data, file, s);
      assert s.d.hashesSlice[k] == sha(c);
      assert sha(c) in s.d.hashesSet - s.d.toDownload;
      ServedIffHas(sha, s.d, s.fs, sha(c));
      assert Served(s.d, s.fs, sha(c)).value in data;
    }
  }

  // ---------- honest answers ----------

  /** What the sharing node serves under a requested hash is accepted: an honest answer to every
      request finishes the download after as many chunk replies as there are different chunks. */
  lemma HonestReplyAccepted(sha: Bytes -> Digest, file: Bytes, sf: SharedFile, d: Download, h: Digest)
    requires Shares(sha, file, sf) && h.Sized() && (forall x :: sha(x).Sized())
    requires d.metafile == Some(sf.metaSlice) && d.hashesSlice == ParseHashes(sf.metaSlice)
    requires d.toDownload <= SetOf(d.hashesSlice) && h in d.toDownload
    ensures sf.GetChunk(h) != None
    ensures IsMissingChunk(sha, d, Reply(h.bytes, sf.GetChunk(h).value))
    ensures |Received(sha, d, Reply(h.bytes, sf.GetChunk(h).value)).toDownload| == |d.toDownload| - 1
  {
    var chunks := Chunks(file);
    ParseInvertsBuild(Hashes(sha, chunks));
    assert h in Hashes(sha, chunks);
    var j :| 0 <= j < |chunks| && Hashes(sha, chunks)[j] == h;
    assert h == sha(chunks[j]);
    assert Digest(h.bytes) == h;
  }

  /** The step is the sharing node's answer to what the download asks for: the metafile first, then
      any chunk that is missing. */
  ghost predicate Honest(sf: SharedFile, d: Download, e: Event) {
    && e.Own? && !e.dirExists
    && if d.metafile == None then e.m == Reply(sf.metaHash.bytes, sf.metaSlice)
       else exists h :: h in d.toDownload && sf.GetChunk(h) != None && e.m == Reply(h.bytes, sf.GetChunk(h).value)
  }

  /** The download has the shared file's metafile and misses some of its chunks. */
  ghost predicate Fetching(sf: SharedFile, d: Download) {
    && d.metafile == Some(sf.metaSlice) && d.hashesSlice == ParseHashes(sf.metaSlice)
    && d.toDownload <= SetOf(d.hashesSlice)
  }

  lemma MetafileArrives(sha: Bytes -> Digest, file: Bytes, sf: SharedFile, d: Download)
    requires Shares(sha, file, sf) && (forall x :: sha(x).Sized()) && d.metafile == None && d.metaHash == sf.metaHash
    ensures var e := Received(sha, d, Reply(sf.metaHash.bytes, sf.metaSlice));
            Fetching(sf, e) && e.toDownload == sf.metaSet
  {
    var hashes := Hashes(sha, Chunks(file));
    FlattenSized(hashes);
    ParseInvertsBuild(hashes);
    assert Digest(sf.metaHash.bytes) == sf.metaHash;
    forall h ensures h in SetOf(hashes) <==> h in sf.metaSet {
      if h in SetOf(hashes) {
        var j :| 0 <= j < |hashes| && hashes[j] == h;
        assert sha(Chunks(file)[j]) == h;
      }
      if h in sf.metaSet {
        var j :| 0 <= j < |Chunks(file)| && sha(Chunks(file)[j]) == h;
        assert hashes[j] == h;
      }
    }
  }

  lemma ChunkArrives(sha: Bytes -> Digest, file: Bytes, sf: SharedFile, d: Download, e: Event)
    requires Shares(sha, file, sf) && (forall x :: sha(x).Sized()) && Fetching(sf, d) && Honest(sf, d, e)
    ensures Fetching(sf, Received(sha, d, e.m))
    ensures |Received(sha, d, e.m).toDownload| == |d.toDownload| - 1
    ensures Outcome(sha, d, e.m, e.dirExists) == Some(true) <==> |d.toDownload| == 1
  {
    var h :| h in d.toDownload && sf.GetChunk(h) != None && e.m == Reply(h.bytes, sf.GetChunk(h).value);
    ParseInvertsBuild(Hashes(sha, Chunks(file)));
    assert h in d.hashesSlice;
    var j :| 0 <= j < |d.hashesSlice| && d.hashesSlice[j] == h;
    assert h == Hashes(sha, Chunks(file))[j];
    HonestReplyAccepted(sha, file, sf, d, h);
    assert Digest(h.bytes) == h;
    assert d.toDownload == {h} <==> d.toDownload - {h} == {};
  }

  ghost predicate HonestRun(sha: Bytes -> Digest, sf: SharedFile, name: string, states: seq<State>, events: seq<Event>) {
    && IsRun(sha, name, sf.metaHash, states, events)
    && forall j :: 0 <= j < |events| ==> Honest(sf, states[j].d, events[j])
  }

  /** Fed with honest answers a download finishes after the metafile and one chunk for every
      different chunk hash, neither earlier nor later, in whatever order it asks. */
  lemma {:induction false} HonestDownloadFinishes(
    sha: Bytes -> Digest, file: Bytes, sf: SharedFile, name: string, states: seq<State>, events: seq<Event>, i: nat)
    requires Shares(sha, file, sf) && (forall x :: sha(x).Sized())
    requires HonestRun(sha, sf, name, states, events) && 1 <= i <= |events|
    ensures Fetching(sf, states[i].d)
    ensures |states[i].d.toDownload| + i == |sf.metaSet| + 1
    ensures Outcome(sha, states[i - 1].d, events[i - 1].m, false) == Some(true) <==> i > 1 && i == |sf.metaSet| + 1
  {
    var s, e := states[i - 1], events[i - 1];
    assert Honest(sf, s.d, e) && states[i - 1 + 1] == Next(sha, s, e);
    if i == 1 {
      MetafileArrives(sha, file, sf, s.d);
    } else {
      HonestDownloadFinishes(sha, file, sf, name, states, events, i - 1);
      ChunkArrives(sha, file, sf, s.d, e);
    }
  }

  /** Something honest can be answered as long as the download is not finished. */
  lemma HonestAnswerExists(sha: Bytes -> Digest, file: Bytes, sf: SharedFile, d: Download) returns (e: Event)
    requires Shares(sha, file, sf) && (forall x :: sha(x).Sized())
    requires d.metafile == None || (Fetching(sf, d) && d.toDownload != {})
    ensures Honest(sf, d, e)
  {
    if d.metafile == None {
      e := Own(Reply(sf.metaHash.bytes, sf.metaSlice), false);
    } else {
      var h :| h in d.toDownload;
      ParseInvertsBuild(Hashes(sha, Chunks(file)));
      var j :| 0 <= j < |d.hashesSlice| && d.hashesSlice[j] == h;
      assert h == Hashes(sha, Chunks(file))[j] == sha(Chunks(file)[j]);
      HonestReplyAccepted(sha, file, sf, d, h);
      e := Own(Reply(h.bytes, sf.GetChunk(h).value), false);
    }
  }

  /** Every shared file can be downloaded: there is a run of honest answers of every length up to the
      metafile and one reply for every different chunk. */
  lemma {:induction false} HonestRunExists(sha: Bytes -> Digest, file: Bytes, sf: SharedFile, name: string, fs: Fs, n: nat)
    returns (states: seq<State>, events: seq<Event>)
    requires Shares(sha, file, sf) && (forall x :: sha(x).Sized()) && n <= |sf.metaSet| + 1
    ensures HonestRun(sha, sf, name, states, events) && |events| == n && states[0].fs == fs
    decreases n
  {
    if n == 0 {
      return [State(Started(name, sf.metaHash), fs)], [];
    }
    var before, evs := HonestRunExists(sha, file, sf, name, fs, n - 1);
    var s := before[n - 1];
    if n > 1 {
      HonestDownloadFinishes(sha, file, sf, name, before, evs, n - 1);
    }
    var e := HonestAnswerExists(sha, file, sf, s.d);
    states, events := before + [Next(sha, s, e)], evs + [e];
    forall i | 0 <= i < n
      ensures Enabled(sha, states[i], events[i]) && states[i + 1] == Next(sha, states[i], events[i]) && Honest(sf, states[i].d, events[i])
    {
      if i < n - 1 {
        assert Enabled(sha, before[i], evs[i]) && before[i + 1] == Next(sha, before[i], evs[i]) && Honest(sf, before[i].d, evs[i]);
      }
    }
  }
}
