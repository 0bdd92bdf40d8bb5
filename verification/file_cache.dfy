/** The local-directory cache backend: a blob store of file contents keyed by
    their digest under `<dir>/out/`, and per-job manifests under `<dir>/in/`.
    The filesystem is an immutable value; every operation returns the new
    filesystem next to its Go-style `(value, error)` pair. */
module FileCache {
  import opened Wrappers

  newtype byte = b: int | 0 <= b < 256

  /** Regular files with their contents, and directories. "." and "/" always
      exist as directories. */
  datatype FileSystem = FileSystem(files: map<string, seq<byte>>, dirs: set<string>)

  /** The states a real filesystem can be in: no entry has the empty name, "."
      and "/" are not regular files, and no path is both a file and a directory. */
  predicate WellFormed(fs: FileSystem)
  {
    && "" !in fs.files && "" !in fs.dirs
    && "." !in fs.files && "/" !in fs.files
    && fs.files.Keys !! fs.dirs
  }

  datatype FsError =
    | NotExist(path: string)
    | AlreadyExists(path: string)
    | IsDirectory(path: string)
    | DecodeFailed(path: string)

  /** A Go call that may touch the filesystem and returns `(value, err)`. */
  datatype Reply<T> = Reply(fs: FileSystem, value: T, err: Option<FsError>)

  datatype FileCache = FileCache(cacheDir: string)

  /** What a job's cached output file is recorded as: its path and the digest
      naming its blob. */
  datatype CacheEntry = CacheEntry(filename: string, hash: string)

  /** The zero value of `CacheEntry`. */
  const NoEntry := CacheEntry("", "")

  /** Digest of a file's bytes, rendered as text. */
  type Digest = seq<byte> -> string

  /** A digest whose text never contains a path separator, as hex text does not. */
  ghost predicate SlashFree(sha: Digest)
  {
    forall d :: '/' !in sha(d)
  }

  /** Distinct contents never share a digest. */
  ghost predicate CollisionFree(sha: Digest)
  {
    forall a, b :: sha(a) == sha(b) ==> a == b
  }

  /** The manifest codec. A decoder reads the first encoded value of its input
      and ignores what follows it. */
  ghost predicate PrefixDecodes(encode: seq<CacheEntry> -> seq<byte>,
                                decode: seq<byte> -> Option<seq<CacheEntry>>)
  {
    forall es, tail :: decode(encode(es) + tail) == Some(es)
  }

  // ---------------------------------------------------------------- paths

  /** Joins two path elements with a separator; an empty directory adds nothing. */
  function Join(dir: string, name: string): (p: string)
    ensures dir == "" ==> p == name
    ensures dir != "" ==> |p| == |dir| + 1 + |name| && p[..|dir|] == dir && p[|dir|] == '/'
  {
    if dir == "" then name else dir + "/" + name
  }

  /** The position of the last separator of `p`, if any. */
  function LastSlash(p: string): (r: Option<nat>)
    ensures r.Some? ==> r.value < |p| && p[r.value] == '/'
    ensures r.Some? ==> forall k :: r.value < k < |p| ==> p[k] != '/'
    ensures r.None? <==> '/' !in p
  {
    if p == [] then None
    else if p[|p| - 1] == '/' then Some(|p| - 1)
    else
      var r := LastSlash(p[..|p| - 1]);
      assert '/' in p[..|p| - 1] ==> '/' in p;
      assert '/' in p ==> '/' in p[..|p| - 1] by {
        if '/' in p {
          var k :| 0 <= k < |p| && p[k] == '/';
          assert p[..|p| - 1][k] == '/';
        }
      }
      r
  }

  /** The directory holding `p`: "." for a bare name, "/" for a root entry. */
  function DirOf(p: string): string
  {
    match LastSlash(p)
    case None => "."
    case Some(i) => if i == 0 then "/" else p[..i]
  }

  lemma DirOfJoin(dir: string, name: string)
    requires '/' !in name
    ensures DirOf(Join(dir, name)) == if dir == "" then "." else dir
  {
    var p := Join(dir, name);
    if dir != "" {
      assert p == dir + "/" + name;
      forall k | |dir| < k < |p| ensures p[k] != '/' {
        assert p[k] == name[k - |dir| - 1];
      }
      var r := LastSlash(p);
      assert r == Some(|dir|);
    }
  }

  function OutDir(c: FileCache): string { Join(c.cacheDir, "out") }
  function InDir(c: FileCache): string { Join(c.cacheDir, "in") }

  /** Where the blob with digest `hash` lives. */
  function BlobPath(c: FileCache, hash: string): string { Join(OutDir(c), hash) }

  /** Where the manifest under `key` lives. */
  function ManifestPath(c: FileCache, key: string): string { Join(InDir(c), key) }

  /** Manifests and blobs never share a path, whatever the key and digest. */
  lemma PathsDisjoint(c: FileCache, key: string, hash: string)
    ensures ManifestPath(c, key) != BlobPath(c, hash)
  {
    var m := ManifestPath(c, key);
    var b := BlobPath(c, hash);
    var n := if c.cacheDir == "" then 0 else |c.cacheDir| + 1;
    assert m[n] == 'i' && b[n] == 'o';
  }

  // ------------------------------------------------------- the filesystem

  predicate IsDir(fs: FileSystem, p: string)
  {
    p == "." || p == "/" || p in fs.dirs
  }

  /** Bytes written at offset 0 of a file opened without truncation: the new
      bytes, then whatever the previous contents held beyond them. */
  function Overlay(w: seq<byte>, prev: seq<byte>): (r: seq<byte>)
    ensures |r| == if |prev| > |w| then |prev| else |w|
    ensures r[..|w|] == w
    ensures forall i :: |w| <= i < |prev| ==> r[i] == prev[i]
  {
    if |prev| > |w| then w + prev[|w|..] else w
  }

  /** Rewriting with the same bytes changes nothing, and the previous contents are
      gone exactly when they were no longer than the new ones. */
  lemma OverlayFacts(w: seq<byte>, prev: seq<byte>)
    ensures Overlay(w, Overlay(w, prev)) == Overlay(w, prev)
    ensures Overlay(w, prev) == w <==> |prev| <= |w|
  {
  }

  /** The contents of `p`, empty when it is not a file. */
  function Contents(fs: FileSystem, p: string): seq<byte>
  {
    if p in fs.files then fs.files[p] else []
  }

  /** `os.ReadFile`: the contents of a regular file, or why not. On a
      well-formed filesystem the empty path is never a file, so it fails. */
  function ReadFile(fs: FileSystem, p: string): (r: Result<seq<byte>, FsError>)
    ensures r.Success? <==> p in fs.files
    ensures r.Success? ==> r.value == fs.files[p]
  {
    if p in fs.files then Success(fs.files[p])
    else if IsDir(fs, p) then Failure(IsDirectory(p))
    else Failure(NotExist(p))
  }

  /** Whether `os.OpenFile(p, O_RDWR|O_CREATE)` fails: the path is empty, `p`
      is a directory, or it is new and its directory is missing. */
  function OpenWriteError(fs: FileSystem, p: string): (r: Option<FsError>)
    ensures r.None? <==> p != "" && (p in fs.files || (!IsDir(fs, p) && IsDir(fs, DirOf(p))))
    ensures p == "" ==> r == Some(NotExist(p))
  {
    if p == "" then Some(NotExist(p))
    else if p in fs.files then None
    else if IsDir(fs, p) then Some(IsDirectory(p))
    else if !IsDir(fs, DirOf(p)) then Some(NotExist(p))
    else None
  }

  /** Writes `data` at offset 0 of `p`, creating it if needed and keeping any
      longer tail. */
  function WriteFromStart(fs: FileSystem, p: string, data: seq<byte>): FileSystem
  {
    fs.(files := fs.files[p := Overlay(data, Contents(fs, p))])
  }

  /** `after` differs from `before` at most in the file `p`. */
  ghost predicate OnlyChanged(before: FileSystem, after: FileSystem, p: string)
  {
    && after.dirs == before.dirs
    && (forall q :: q != p ==> (q in after.files <==> q in before.files))
    && (forall q :: q != p && q in before.files ==> after.files[q] == before.files[q])
  }

  // ----------------------------------------------------------- operations

  /** `Copy(src, dst)`: streams `src` into `dst` opened without truncation. A
      directory as source opens, creates `dst`, then fails on the first read. */
  function Copy(fs: FileSystem, src: string, dst: string): (r: Reply<()>)
    ensures OnlyChanged(fs, r.fs, dst)
    ensures r.err == None <==> src in fs.files && OpenWriteError(fs, dst).None?
    ensures r.err == None ==> dst in r.fs.files && r.fs.files[dst] == Overlay(fs.files[src], Contents(fs, dst))
    ensures src !in fs.files && !IsDir(fs, src) ==> r == Reply(fs, (), Some(NotExist(src)))
    ensures OpenWriteError(fs, dst).Some? ==> r.fs == fs
  {
    if src in fs.files then
      match OpenWriteError(fs, dst)
      case Some(e) => Reply(fs, (), Some(e))
      case None => Reply(WriteFromStart(fs, dst, fs.files[src]), (), None)
    else if IsDir(fs, src) then
      match OpenWriteError(fs, dst)
      case Some(e) => Reply(fs, (), Some(e))
      case None => Reply(WriteFromStart(fs, dst, []), (), Some(IsDirectory(src)))
    else
      Reply(fs, (), Some(NotExist(src)))
  }

  /** `Get(entry)`: copies the blob named by the entry's digest back to the
      entry's path. */
  function Get(c: FileCache, fs: FileSystem, entry: CacheEntry): (r: Reply<()>)
    ensures OnlyChanged(fs, r.fs, entry.filename)
    ensures var blob := BlobPath(c, entry.hash);
            blob !in fs.files && !IsDir(fs, blob) ==> r == Reply(fs, (), Some(NotExist(blob)))
    ensures r.err == None ==>
              BlobPath(c, entry.hash) in fs.files && entry.filename in r.fs.files &&
              r.fs.files[entry.filename]
                == Overlay(fs.files[BlobPath(c, entry.hash)], Contents(fs, entry.filename))
  {
    Copy(fs, BlobPath(c, entry.hash), entry.filename)
  }

  /** `Set(path)`: records a file by the digest of its contents and copies it
      into the blob store; a failure to copy is not reported. */
  function Set(c: FileCache, fs: FileSystem, path: string, sha: Digest): (r: Reply<CacheEntry>)
    ensures r.err.Some? <==> path !in fs.files
    ensures r.err.Some? ==> r.value == NoEntry && r.fs == fs
    ensures r.err.None? ==> r.value == CacheEntry(path, sha(fs.files[path]))
    ensures r.err.None? ==> OnlyChanged(fs, r.fs, BlobPath(c, r.value.hash))
  {
    match ReadFile(fs, path)
    case Failure(e) => Reply(fs, NoEntry, Some(e))
    case Success(data) =>
      var hash := sha(data);
      var copied := Copy(fs, path, BlobPath(c, hash));
      Reply(copied.fs, CacheEntry(path, hash), None)
  }

  /** `LoadCacheManifest(key)`: the entries stored under `key`; none, and no
      error, when nothing is stored. */
  function LoadCacheManifest(c: FileCache, fs: FileSystem, key: string,
                             decode: seq<byte> -> Option<seq<CacheEntry>>): (r: Reply<seq<CacheEntry>>)
    ensures r.fs == fs
    ensures var p := ManifestPath(c, key);
            p !in fs.files && !IsDir(fs, p) ==> r.value == [] && r.err == None
    ensures r.err.Some? ==> r.value == []
    ensures var p := ManifestPath(c, key);
            p in fs.files ==> (r.err.None? <==> decode(fs.files[p]).Some?)
    ensures var p := ManifestPath(c, key);
            p in fs.files && r.err.None? ==> decode(fs.files[p]) == Some(r.value)
  {
    var p := ManifestPath(c, key);
    if p in fs.files then
      match decode(fs.files[p])
      case None => Reply(fs, [], Some(DecodeFailed(p)))
      case Some(es) => Reply(fs, es, None)
    else if IsDir(fs, p) then Reply(fs, [], Some(IsDirectory(p)))
    else Reply(fs, [], None)
  }

  /** `DumpCacheManifest(key, entries)`: encodes the entries into the manifest
      file, opened without truncation. */
  function DumpCacheManifest(c: FileCache, fs: FileSystem, key: string, entries: seq<CacheEntry>,
                             encode: seq<CacheEntry> -> seq<byte>): (r: Reply<()>)
    ensures OnlyChanged(fs, r.fs, ManifestPath(c, key))
    ensures r.err.None? <==> OpenWriteError(fs, ManifestPath(c, key)).None?
    ensures r.err.Some? ==> r.fs == fs
    ensures var p := ManifestPath(c, key);
            r.err.None? ==> p in r.fs.files && |encode(entries)| <= |r.fs.files[p]|
                            && r.fs.files[p][..|encode(entries)|] == encode(entries)
  {
    var p := ManifestPath(c, key);
    match OpenWriteError(fs, p)
    case Some(e) => Reply(fs, (), Some(e))
    case None => Reply(WriteFromStart(fs, p, encode(entries)), (), None)
  }

  /** `os.Mkdir`. */
  function Mkdir(fs: FileSystem, p: string): (r: Reply<()>)
    ensures r.fs.files == fs.files
    ensures r.err.None? <==> p != "" && p !in fs.files && !IsDir(fs, p) && IsDir(fs, DirOf(p))
    ensures r.err.None? ==> r.fs.dirs == fs.dirs + {p}
    ensures r.err.Some? ==> r.fs == fs
    ensures r.err == Some(AlreadyExists(p)) <==> p != "" && (p in fs.files || IsDir(fs, p))
  {
    if p == "" then Reply(fs, (), Some(NotExist(p)))
    else if p in fs.files || IsDir(fs, p) then Reply(fs, (), Some(AlreadyExists(p)))
    else if !IsDir(fs, DirOf(p)) then Reply(fs, (), Some(NotExist(p)))
    else Reply(fs.(dirs := fs.dirs + {p}), (), None)
  }

  /** `os.Mkdir`, with "already exists" counted as success. */
  function EnsureDir(fs: FileSystem, p: string): Reply<()>
  {
    var r := Mkdir(fs, p);
    if r.err == Some(AlreadyExists(p)) then r.(err := None) else r
  }

  /** `NewFileCache(dir)`: makes `dir`, `dir/in` and `dir/out`, tolerating
      any that already exist. */
  function NewFileCache(fs: FileSystem, dir: string): (r: Reply<Option<FileCache>>)
    ensures r.fs.files == fs.files && fs.dirs <= r.fs.dirs
    ensures r.err.None? <==> r.value.Some?
    ensures r.value.Some? ==> r.value.value == FileCache(dir)
    ensures r.value.Some? ==>
              forall p :: p in {dir, Join(dir, "in"), Join(dir, "out")} ==> p in r.fs.files || IsDir(r.fs, p)
  {
    var r1 := EnsureDir(fs, dir);
    if r1.err.Some? then Reply(r1.fs, None, r1.err)
    else
      var r2 := EnsureDir(r1.fs, Join(dir, "in"));
      if r2.err.Some? then Reply(r2.fs, None, r2.err)
      else
        var r3 := EnsureDir(r2.fs, Join(dir, "out"));
        if r3.err.Some? then Reply(r3.fs, None, r3.err)
        else Reply(r3.fs, Some(FileCache(dir)), None)
  }

  /** Starting from a directory (or a creatable one) with no regular files in
      the way, `NewFileCache` succeeds and leaves all three directories. */
  lemma NewFileCacheReady(fs: FileSystem, dir: string)
    requires dir != "" && dir !in fs.files
    requires Join(dir, "in") !in fs.files && Join(dir, "out") !in fs.files
    requires IsDir(fs, dir) || IsDir(fs, DirOf(dir))
    ensures var r := NewFileCache(fs, dir);
            && r.value == Some(FileCache(dir))
            && IsDir(r.fs, dir) && IsDir(r.fs, Join(dir, "in")) && IsDir(r.fs, Join(dir, "out"))
  {
    DirOfJoin(dir, "in");
    DirOfJoin(dir, "out");
  }

  // ----------------------------------------------------------- properties

  /** Reading a path that is not a regular file: an error, the empty entry and
      no change. */
  lemma SetUnreadable(c: FileCache, fs: FileSystem, path: string, sha: Digest)
    requires path !in fs.files
    ensures Set(c, fs, path, sha) == Reply(fs, NoEntry, Some(ReadFile(fs, path).error))
  {
  }

  /** With the blob directory present, `Set` leaves the file's bytes at the head
      of its blob; a blob that was absent holds exactly those bytes. */
  lemma SetStoresBlob(c: FileCache, fs: FileSystem, path: string, sha: Digest)
    requires SlashFree(sha) && path in fs.files && IsDir(fs, OutDir(c))
    ensures var r := Set(c, fs, path, sha);
            var blob := BlobPath(c, sha(fs.files[path]));
            !IsDir(fs, blob) ==>
              && blob in r.fs.files
              && r.fs.files[blob] == Overlay(fs.files[path], Contents(fs, blob))
              && (blob !in fs.files ==> r.fs.files[blob] == fs.files[path])
  {
    DirOfJoin(OutDir(c), sha(fs.files[path]));
  }

  /** `Set` still reports success when the blob cannot be written because the
      blob directory is missing; nothing is stored. */
  lemma SetIgnoresCopyFailure(c: FileCache, fs: FileSystem, path: string, sha: Digest)
    requires SlashFree(sha) && path in fs.files && !IsDir(fs, OutDir(c))
    requires BlobPath(c, sha(fs.files[path])) !in fs.files
    ensures Set(c, fs, path, sha) == Reply(fs, CacheEntry(path, sha(fs.files[path])), None)
  {
    DirOfJoin(OutDir(c), sha(fs.files[path]));
  }

  /** Repeating `Set` on the same file changes nothing more and returns the
      same entry. */
  lemma SetIdempotent(c: FileCache, fs: FileSystem, path: string, sha: Digest)
    ensures var r := Set(c, fs, path, sha);
            Set(c, r.fs, path, sha) == r
  {
    var r := Set(c, fs, path, sha);
    if path in fs.files {
      var data := fs.files[path];
      var blob := BlobPath(c, sha(data));
      assert path in r.fs.files && r.fs.files[path] == data by {
        if path == blob {
          OverlayFacts(data, data);
        }
      }
      var r2 := Set(c, r.fs, path, sha);
      if OpenWriteError(fs, blob).None? {
        assert r.fs.files[blob] == Overlay(data, Contents(fs, blob));
        OverlayFacts(data, Contents(fs, blob));
        assert r2.fs.files == r.fs.files;
      }
    }
  }

  /** Entries are content-addressed: two readable files get the same digest iff
      their bytes are equal, wherever they live. */
  lemma SetContentAddressed(c: FileCache, fs1: FileSystem, p1: string, fs2: FileSystem, p2: string, sha: Digest)
    requires CollisionFree(sha) && p1 in fs1.files && p2 in fs2.files
    ensures Set(c, fs1, p1, sha).value.hash == Set(c, fs2, p2, sha).value.hash
            <==> fs1.files[p1] == fs2.files[p2]
  {
  }

  /** `Set` never touches a manifest. */
  lemma SetKeepsManifests(c: FileCache, fs: FileSystem, path: string, sha: Digest, key: string)
    ensures var r := Set(c, fs, path, sha);
            var m := ManifestPath(c, key);
            (m in r.fs.files <==> m in fs.files) && (m in fs.files ==> r.fs.files[m] == fs.files[m])
  {
    var r := Set(c, fs, path, sha);
    if r.err.None? {
      PathsDisjoint(c, key, r.value.hash);
    }
  }

  /** `Get` of an entry whose blob is missing fails and changes nothing. */
  lemma GetMissingBlob(c: FileCache, fs: FileSystem, entry: CacheEntry)
    requires BlobPath(c, entry.hash) !in fs.files && !IsDir(fs, BlobPath(c, entry.hash))
    ensures Get(c, fs, entry).err.Some? && Get(c, fs, entry).fs == fs
  {
  }

  /** `Get` restores the blob's bytes exactly when the target is new or no
      longer than the blob. */
  lemma GetRestores(c: FileCache, fs: FileSystem, entry: CacheEntry)
    requires BlobPath(c, entry.hash) in fs.files
    requires OpenWriteError(fs, entry.filename).None?
    ensures var r := Get(c, fs, entry);
            r.err == None &&
            (r.fs.files[entry.filename] == fs.files[BlobPath(c, entry.hash)]
             <==> |Contents(fs, entry.filename)| <= |fs.files[BlobPath(c, entry.hash)]|)
  {
    OverlayFacts(fs.files[BlobPath(c, entry.hash)], Contents(fs, entry.filename));
  }

  /** The cache's round trip: a file is recorded, deleted, and fetched back
      with the same bytes. */
  lemma SetDeleteGet(c: FileCache, fs: FileSystem, path: string, sha: Digest)
    requires WellFormed(fs) && SlashFree(sha) && path in fs.files && IsDir(fs, OutDir(c))
    requires IsDir(fs, DirOf(path))
    requires BlobPath(c, sha(fs.files[path])) !in fs.files && !IsDir(fs, BlobPath(c, sha(fs.files[path])))
    ensures var s := Set(c, fs, path, sha);
            var deleted := s.fs.(files := s.fs.files - {path});
            var g := Get(c, deleted, s.value);
            g.err == None && g.fs.files[path] == fs.files[path]
  {
    SetStoresBlob(c, fs, path, sha);
  }

  /** An entry without a path, such as the empty entry an unreadable file is
      recorded as, is never restored: `Get` fails and changes nothing. */
  lemma GetWithoutFilename(c: FileCache, fs: FileSystem, entry: CacheEntry)
    requires entry.filename == ""
    ensures var r := Get(c, fs, entry);
            r.err.Some? && r.fs == fs
  {
  }

  /** Writing through `Copy` keeps a well-formed filesystem well-formed. */
  lemma CopyKeepsWellFormed(fs: FileSystem, src: string, dst: string)
    requires WellFormed(fs)
    ensures WellFormed(Copy(fs, src, dst).fs)
  {
  }

  /** So do `Set` and `DumpCacheManifest`, which write through the same open. */
  lemma WritesKeepWellFormed(c: FileCache, fs: FileSystem, path: string, sha: Digest, key: string,
                             entries: seq<CacheEntry>, encode: seq<CacheEntry> -> seq<byte>)
    requires WellFormed(fs)
    ensures WellFormed(Set(c, fs, path, sha).fs)
    ensures WellFormed(DumpCacheManifest(c, fs, key, entries, encode).fs)
  {
    if path in fs.files {
      CopyKeepsWellFormed(fs, path, BlobPath(c, sha(fs.files[path])));
    }
  }

  /** And so does making directories. */
  lemma MkdirKeepsWellFormed(fs: FileSystem, dir: string)
    requires WellFormed(fs)
    ensures WellFormed(Mkdir(fs, dir).fs)
    ensures WellFormed(NewFileCache(fs, dir).fs)
  {
    var r1 := EnsureDir(fs, dir);
    var r2 := EnsureDir(r1.fs, Join(dir, "in"));
    var r3 := EnsureDir(r2.fs, Join(dir, "out"));
    assert WellFormed(r1.fs) && WellFormed(r2.fs) && WellFormed(r3.fs);
  }

  /** The target keeps its old tail when it was longer than the blob: the
      restored file is not the cached one. */
  lemma GetKeepsStaleTail(c: FileCache, fs: FileSystem, entry: CacheEntry)
    requires WellFormed(fs) && BlobPath(c, entry.hash) in fs.files && entry.filename in fs.files
    requires |fs.files[entry.filename]| > |fs.files[BlobPath(c, entry.hash)]|
    ensures var r := Get(c, fs, entry);
            r.err == None && |r.fs.files[entry.filename]| == |fs.files[entry.filename]|
            && r.fs.files[entry.filename] != fs.files[BlobPath(c, entry.hash)]
  {
  }

  /** A manifest that was dumped reads back as the same entries, whatever the
      file held before. */
  lemma DumpLoadRoundTrip(c: FileCache, fs: FileSystem, key: string, entries: seq<CacheEntry>,
                          encode: seq<CacheEntry> -> seq<byte>, decode: seq<byte> -> Option<seq<CacheEntry>>)
    requires PrefixDecodes(encode, decode)
    requires DumpCacheManifest(c, fs, key, entries, encode).err.None?
    ensures var d := DumpCacheManifest(c, fs, key, entries, encode);
            LoadCacheManifest(c, d.fs, key, decode) == Reply(d.fs, entries, None)
  {
    var d := DumpCacheManifest(c, fs, key, entries, encode);
    var p := ManifestPath(c, key);
    var e := encode(entries);
    var stored := d.fs.files[p];
    assert stored == e + stored[|e|..];
  }

  /** Dumping a manifest never touches a blob. */
  lemma DumpKeepsBlobs(c: FileCache, fs: FileSystem, key: string, entries: seq<CacheEntry>,
                       encode: seq<CacheEntry> -> seq<byte>, hash: string)
    ensures var d := DumpCacheManifest(c, fs, key, entries, encode);
            var b := BlobPath(c, hash);
            (b in d.fs.files <==> b in fs.files) && (b in fs.files ==> d.fs.files[b] == fs.files[b])
  {
    PathsDisjoint(c, key, hash);
  }
}
