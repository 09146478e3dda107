// DownloadingFilesManager.go and SharedFilesManager.go: the registries of a node's downloads and
// shared files, and what the node answers to a request for a hash.

module FilesManagers {
  import opened Wrappers
  import opened Messages
  import opened SharedFiles
  import opened DownloadingFiles

  /** The requested hash, when it has the size of one. */
  function TypeStrict(hashValue: Bytes): Option<Digest> {
    if |hashValue| == HASH_SIZE then Some(Digest(hashValue)) else None
  }

  lemma ValuesAdded(m: map<string, DownloadingFile>, k: string, v: DownloadingFile)
    requires k !in m
    ensures m[k := v].Values == m.Values + {v}
  {
    assert m[k := v][k] == v;
    forall x | x in m.Values ensures x in m[k := v].Values {
      var j :| j in m && m[j] == x;
      assert m[k := v][j] == x;
    }
  }

  class DownloadingFilesManager {
    const sha: Bytes -> Digest
    const disk: Disk
    var downloadingFiles: map<string, DownloadingFile>  // origin -> download
    var downloadedFiles: map<Digest, DownloadingFile>   // metafile hash -> download

    constructor (sha: Bytes -> Digest)
      ensures Valid() && fresh(disk) && this.sha == sha
      ensures downloadingFiles == map[] && downloadedFiles == map[]
    {
      this.sha := sha;
      disk := new Disk();
      downloadingFiles := map[];
      downloadedFiles := map[];
    }

    ghost function Files(): set<DownloadingFile>
      reads this
    {
      downloadingFiles.Values + downloadedFiles.Values
    }

    /** Every download, running or finished, keeps its invariant over the common disk. No two origins
        share a download, and a running one is not among the finished ones. */
    ghost predicate Valid()
      reads this, disk, Files()
    {
      && (forall df :: df in Files() ==> DownloadOk(sha, df.Abs(), disk.fs))
      && (forall o, p :: o in downloadingFiles && p in downloadingFiles && o != p ==> downloadingFiles[o] != downloadingFiles[p])
      && downloadingFiles.Values !! downloadedFiles.Values
    }

    /** Some download has the metafile or chunk with this hash. */
    ghost predicate Has(h: Digest)
      reads this, Files()
    {
      exists df :: df in Files() && HasDownloaded(df.Abs(), h)
    }

    /** One download per origin at a time. */
    method StartDownloadingFromOrigin(origin: string, fileName: string, metahash: Digest) returns (started: bool)
      requires Valid()
      modifies this`downloadingFiles
      ensures Valid()
      ensures started <==> origin !in old(downloadingFiles)
      ensures !started ==> downloadingFiles == old(downloadingFiles)
      ensures started ==> origin in downloadingFiles && fresh(downloadingFiles[origin])
      ensures started ==> downloadingFiles[origin].Abs() == Started(fileName, metahash)
      ensures started ==> downloadingFiles == old(downloadingFiles)[origin := downloadingFiles[origin]]
    {
      if origin in downloadingFiles {
        return false;
      }
      var df := new DownloadingFile(fileName, metahash);
      ghost var files := Files();
      ValuesAdded(downloadingFiles, origin, df);
      downloadingFiles := downloadingFiles[origin := df];
      assert Files() == files + {df};
      return true;
    }

    /** Feeds the origin's download; a finished one moves to the finished files. */
    method ProcessDataReply(origin: string, m: Reply, dirExists: bool) returns (finished: Option<bool>)
      requires Valid()
      modifies this, disk, downloadingFiles.Values
      ensures Valid()
      ensures origin !in old(downloadingFiles) ==>
                finished == None && disk.fs == old(disk.fs)
                && downloadingFiles == old(downloadingFiles) && downloadedFiles == old(downloadedFiles)
      ensures origin in old(downloadingFiles) ==>
                var df := old(downloadingFiles)[origin];
                && finished == Outcome(sha, old(df.Abs()), m, dirExists)
                && df.Abs() == Received(sha, old(df.Abs()), m)
                && disk.fs == Stored(sha, old(df.Abs()), old(disk.fs), m)
                && downloadingFiles == (if finished == Some(true) then old(downloadingFiles) - {origin} else old(downloadingFiles))
                && downloadedFiles == (if finished == Some(true) then old(downloadedFiles)[df.metaHash := df] else old(downloadedFiles))
      ensures forall df :: df in old(Files()) && (origin in old(downloadingFiles) ==> df != old(downloadingFiles)[origin]) ==>
                df.Abs() == old(df.Abs())
    {
      if origin !in downloadingFiles {
        return None;
      }
      var df := downloadingFiles[origin];
      assert df in Files();
      ghost var files, before, fs := Files(), df.Abs(), disk.fs;
      finished := df.ProcessDataReply(sha, disk, m, dirExists);
      ReceivedOk(sha, before, fs, m);
      forall other | other in files ensures DownloadOk(sha, other.Abs(), disk.fs) {
        if other != df {
          assert other.Abs() == old(other.Abs());
          GrownDiskOk(sha, other.Abs(), fs, disk.fs);
        }
      }
      if finished == Some(true) {
        downloadingFiles := downloadingFiles - {origin};
        downloadedFiles := downloadedFiles[df.metaHash := df];
        assert Files() <= files;
        assert df !in downloadingFiles.Values;
      }
    }

    method DropDownloading(origin: string)
      requires Valid()
      modifies this`downloadingFiles
      ensures Valid() && downloadingFiles == old(downloadingFiles) - {origin}
    {
      ghost var files := Files();
      downloadingFiles := downloadingFiles - {origin};
      assert Files() <= files;
    }

    /** The next hash to ask an origin for is one that is still missing there. */
    method GetDataRequestHash(origin: string) returns (h: Option<Digest>)
      requires Valid()
      ensures h == None <==> origin !in downloadingFiles || downloadingFiles[origin].chunksToDownload == {}
      ensures h != None ==> h.value in downloadingFiles[origin].chunksToDownload
      ensures h != None ==> h.value in downloadingFiles[origin].chunksHashesSlice
    {
      if origin !in downloadingFiles {
        return None;
      }
      assert downloadingFiles[origin] in Files();
      h := downloadingFiles[origin].GetDataRequest();
    }

    /** Whatever is served, from running and finished downloads alike, hashes to the requested value;
        exactly the hashes some download has are served. */
    method GetChunkOrMetafile(hashValue: Bytes) returns (data: Option<Bytes>)
      requires Valid()
      ensures data != None ==> sha(data.value).bytes == hashValue
      ensures data != None <==> |hashValue| == HASH_SIZE && Has(Digest(hashValue))
    {
      if TypeStrict(hashValue) == None {
        return None;
      }
      var h := Digest(hashValue);
      var todo := downloadingFiles.Values;
      while todo != {}
        invariant todo <= downloadingFiles.Values
        invariant forall df :: df in downloadingFiles.Values && df !in todo ==> !HasDownloaded(df.Abs(), h)
      {
        var df :| df in todo;
        todo := todo - {df};
        if df.FileHasDownloadedChunk(h) {
          data := df.GetChunkOrMetafile(disk, h);
          assert df in Files();
          HeldIsServed(sha, df.Abs(), disk.fs, h);
          return;
        }
      }
      todo := downloadedFiles.Values;
      while todo != {}
        invariant todo <= downloadedFiles.Values
        invariant forall df :: df in downloadedFiles.Values && df !in todo ==> !HasDownloaded(df.Abs(), h)
      {
        var df :| df in todo;
        todo := todo - {df};
        if df.FileHasDownloadedChunk(h) {
          data := df.GetChunkOrMetafile(disk, h);
          assert df in Files();
          HeldIsServed(sha, df.Abs(), disk.fs, h);
          return;
        }
      }
      return None;
    }
  }

  /** A download's invariant survives what other downloads write. */
  lemma GrownDiskOk(sha: Bytes -> Digest, d: Download, fs: Fs, gs: Fs)
    requires DownloadOk(sha, d, fs) && DiskGrows(sha, fs, gs)
    ensures DownloadOk(sha, d, gs)
  {
    forall h | h in d.hashesSet - d.toDownload ensures OnDisk(sha, d.name, gs, h) {
      assert OnDisk(sha, d.name, fs, h);
      assert (d.name, h) in fs.chunks;
    }
  }

  /** What a download says it has it serves, under the right hash. */
  lemma HeldIsServed(sha: Bytes -> Digest, d: Download, fs: Fs, h: Digest)
    requires DownloadOk(sha, d, fs) && HasDownloaded(d, h)
    ensures Served(d, fs, h) != None && sha(Served(d, fs, h).value) == h
  {
    if h != d.metaHash {
      assert h in d.hashesSet - d.toDownload;
    }
  }

  // ---------- shared files ----------

  /** Every shared file is filed under its metafile's hash, and its parts under theirs. */
  ghost predicate SharedOk(sha: Bytes -> Digest, shared: map<Digest, SharedFile>) {
    forall h :: h in shared ==> shared[h].metaHash == h && exists bytes :: Shares(sha, bytes, shared[h])
  }

  /** Some shared file's metafile or chunk has this hash. */
  ghost predicate HasPart(shared: map<Digest, SharedFile>, typed: Digest) {
    exists h :: h in shared && (h == typed || typed in shared[h].metaSet)
  }

  /** A chunk directory belongs to one shared file at most, so its files are never written again. */
  ghost predicate OwnDirs(shared: map<Digest, SharedFile>, chunkDirs: set<string>) {
    && (forall h :: h in shared ==> shared[h].name in chunkDirs)
    && (forall g, h :: g in shared && h in shared && g != h ==> shared[g].name != shared[h].name)
  }

  /** Whether a file is refused: missing, its chunk directory exists, too large, or its metafile shared. */
  ghost predicate Refused(sha: Bytes -> Digest, shared: map<Digest, SharedFile>, chunkDirs: set<string>, name: string, file: Option<Bytes>) {
    file == None || name in chunkDirs || |file.value| > MAX_FILE_SIZE || sha(Metafile(sha, file.value)) in shared
  }

  class SharedFilesManager {
    const sha: Bytes -> Digest
    var sharedFiles: map<Digest, SharedFile>
    var chunkDirs: set<string>  // the existing chunk directories, by file name

    constructor (sha: Bytes -> Digest)
      ensures Valid() && this.sha == sha && sharedFiles == map[] && chunkDirs == {}
    {
      this.sha := sha;
      sharedFiles := map[];
      chunkDirs := {};
    }

    ghost predicate Valid()
      reads this
    {
      SharedOk(sha, sharedFiles) && OwnDirs(sharedFiles, chunkDirs)
    }

    /** Shares a file. A refusal changes no shared file, but uses up the name of a file that exists. */
    method Share(name: string, file: Option<Bytes>) returns (metaHash: Option<Digest>)
      requires Valid()
      modifies this
      ensures Valid()
      ensures metaHash == None <==> Refused(sha, old(sharedFiles), old(chunkDirs), name, file)
      ensures chunkDirs == old(chunkDirs) + if file == None then {} else {name}
      ensures metaHash == None ==> sharedFiles == old(sharedFiles)
      ensures metaHash != None ==>
                && metaHash.value == sha(Metafile(sha, file.value))
                && metaHash.value in sharedFiles && Shares(sha, file.value, sharedFiles[metaHash.value])
                && sharedFiles[metaHash.value].name == name
                && sharedFiles == old(sharedFiles)[metaHash.value := sharedFiles[metaHash.value]]
    {
      var sf, dirExists := ShareFile(sha, name, file, name in chunkDirs);
      if dirExists {
        chunkDirs := chunkDirs + {name};
      }
      if sf == None || sf.value.metaHash in sharedFiles {
        return None;
      }
      sharedFiles := sharedFiles[sf.value.metaHash := sf.value];
      return Some(sf.value.metaHash);
    }

    /** The metafile or chunk of a shared file with this hash. */
    method GetChunkOrMetafile(hashValue: Bytes) returns (data: Option<Bytes>)
      requires Valid()
      ensures data != None ==> sha(data.value).bytes == hashValue
      ensures data != None <==> |hashValue| == HASH_SIZE && HasPart(sharedFiles, Digest(hashValue))
    {
      if TypeStrict(hashValue) == None {
        return None;
      }
      var typed := Digest(hashValue);
      if typed in sharedFiles {
        return Some(sharedFiles[typed].metaSlice);
      }
      var todo := sharedFiles.Keys;
      while todo != {}
        invariant todo <= sharedFiles.Keys
        invariant forall h :: h in sharedFiles && h !in todo ==> typed !in sharedFiles[h].metaSet
      {
        var h :| h in todo;
        todo := todo - {h};
        if typed in sharedFiles[h].metaSet {
          return sharedFiles[h].GetChunk(typed);
        }
      }
      return None;
    }
  }

  /** The answer to a data request addressed to this node: from the shared files first, else from the
      downloads. It hashes to the requested value, so what is passed on from node to node stays the file. */
  method AnswerDataRequest(shared: SharedFilesManager, downloads: DownloadingFilesManager, hashValue: Bytes)
    returns (answer: Option<Reply>)
    requires shared.Valid() && downloads.Valid() && shared.sha == downloads.sha
    ensures answer != None ==> answer.value.hashValue == hashValue && Authentic(shared.sha, answer.value)
    ensures answer != None <==>
              |hashValue| == HASH_SIZE && (HasPart(shared.sharedFiles, Digest(hashValue)) || downloads.Has(Digest(hashValue)))
  {
    var requestedData := shared.GetChunkOrMetafile(hashValue);
    if requestedData == None {
      requestedData := downloads.GetChunkOrMetafile(hashValue);
      if requestedData == None {
        return None;
      }
    }
    return Some(Reply(hashValue, requestedData.value));
  }
}
