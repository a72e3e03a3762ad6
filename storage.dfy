/**
 * The workspace-preparation pipeline of S3CodeStorageService: a fresh
 * working directory `{taskBaseDir}/{requestId}`, the archive downloaded to
 * `code.zip` inside it, extracted in place, and the archive removed, with
 * every failure wrapped in one error naming the request, bucket and key.
 *
 * The pipeline is first given as pure functions on the file system
 * (`WorkspaceStage`, `FromWorkspace`, `Prepare`), about which the lemmas
 * are stated; the class `S3CodeStorageService` then carries out the same
 * stages step by step on a mutable `FileSystem` and is proved to end in
 * the state those functions describe.
 */
module S3Storage {
  import opened Results
  import opened Paths
  import opened PathOrder
  import opened Files
  import opened Extraction
  import opened Buckets

  /** The task message: who asks, and where the code archive lies. */
  datatype TaskMessage = TaskMessage(requestId: string, s3Bucket: Option<string>, s3Key: string)

  /** The agent's configuration: the base directory of all workspaces and the default code bucket. */
  datatype AgentProperties = AgentProperties(taskBaseDir: string, codeBucketName: string)

  datatype ObjectId = ObjectId(bucket: string, key: string)

  /** The objects the S3 client can fetch; an id that is absent stands for every failure of `getObject`. */
  type ObjectStore = map<ObjectId, seq<byte>>

  /** What the pipeline is given besides the file system: configuration, the object store and the archive decoder. */
  datatype Environment = Environment(properties: AgentProperties, store: ObjectStore, unzip: seq<byte> -> Archive)

  /** The values every failure message names. */
  datatype Context = Context(requestId: string, s3Bucket: string, s3Key: string)

  /** The stage that threw; the download stage's own message names the bucket, key and request as well. */
  datatype Stage =
    | CreatingWorkspace
    | Downloading(bucket: string, key: string, requestId: string)
    | Extracting
    | DeletingArchive

  /** The RuntimeException `prepareWorkingDirectory` throws, with its cause. */
  datatype PrepareError = PrepareError(context: Context, cause: Stage)

  /** The file system after a run, and the working directory or the error. */
  datatype Outcome = Outcome(tree: Tree, result: Result<Path, PrepareError>)

  const ArchiveName: string := "code.zip"

  /**
   * `Paths.get(taskBaseDir, requestId)`: the names of the base directory
   * followed by those of the request id, unchecked; an empty id names the
   * base directory itself.
   */
  function WorkingDir(baseDir: string, requestId: string): (r: Path)
    ensures ValidPath(r)
    ensures baseDir != [] && requestId != [] ==> r == Path(Parse(baseDir).absolute, Parse(baseDir).segs + Parse(requestId).segs)
    ensures requestId == [] ==> r == Parse(baseDir)
  {
    if baseDir != [] && requestId != [] then
      JoinNamesParse(baseDir, requestId);
      Parse(JoinNames(baseDir, requestId))
    else Parse(JoinNames(baseDir, requestId))
  }

  /**
   * `workingDir.resolve("code.zip")`: a file named `code.zip` directly
   * inside the working directory, and still directly inside it once both
   * are normalized.
   */
  function ArchivePath(workingDir: Path): (r: Path)
    ensures StrictAncestor(workingDir, r) && |r.segs| == |workingDir.segs| + 1 && r.segs[|workingDir.segs|] == ArchiveName
    ensures Normalize(r) == Path(workingDir.absolute, Normalize(workingDir).segs + [ArchiveName])
    ensures Parent(Normalize(r)) == Normalize(workingDir)
    ensures ValidPath(workingDir) ==> ValidPath(Normalize(r))
  {
    var name := Path(false, [ArchiveName]);
    ResolveNormalize(workingDir, name);
    var nw := Normalize(workingDir).segs;
    assert NormalizeFrom(workingDir.absolute, nw, [ArchiveName]) == Step(workingDir.absolute, NormalizeFrom(workingDir.absolute, nw, []), ArchiveName);
    assert (nw + [ArchiveName])[..|nw|] == nw;
    Resolve(workingDir, name)
  }

  /**
   * A request id that is one plain name gives a working directory one
   * level below the normalized base directory.
   */
  lemma PlainRequestIdWorkspace(baseDir: string, requestId: string)
    requires baseDir != []
    requires ValidSegment(requestId) && requestId != "." && requestId != ".."
    ensures Normalize(WorkingDir(baseDir, requestId)) == Path(Parse(baseDir).absolute, Normalize(Parse(baseDir)).segs + [requestId])
    ensures StrictAncestor(Normalize(Parse(baseDir)), Normalize(WorkingDir(baseDir, requestId)))
  {
    JoinNamesParse(baseDir, requestId);
    SplitPlain(requestId, []);
    assert [] + requestId == requestId;
    var b := Parse(baseDir);
    NormalizeFromAppend(b.absolute, [], b.segs, [requestId]);
    var nb := Normalize(b).segs;
    assert NormalizeFrom(b.absolute, nb, [requestId]) == Step(b.absolute, NormalizeFrom(b.absolute, nb, []), requestId);
    assert (nb + [requestId])[..|nb|] == nb;
  }

  /** Distinct plain request ids own disjoint working directories: neither lies in the other. */
  lemma DistinctRequestsDisjoint(baseDir: string, r1: string, r2: string)
    requires baseDir != [] && r1 != r2
    requires ValidSegment(r1) && r1 != "." && r1 != ".."
    requires ValidSegment(r2) && r2 != "." && r2 != ".."
    ensures !StartsWith(Normalize(WorkingDir(baseDir, r1)), Normalize(WorkingDir(baseDir, r2)))
    ensures !StartsWith(Normalize(WorkingDir(baseDir, r2)), Normalize(WorkingDir(baseDir, r1)))
  {
    PlainRequestIdWorkspace(baseDir, r1);
    PlainRequestIdWorkspace(baseDir, r2);
    var w1 := Normalize(WorkingDir(baseDir, r1));
    var w2 := Normalize(WorkingDir(baseDir, r2));
    var n := |Normalize(Parse(baseDir)).segs|;
    assert w1.segs[n] == r1 && w2.segs[n] == r2;
  }

  /**
   * The request id is used unchecked: the id ".." names the parent of a
   * non-empty absolute base directory, so that the base directory, with
   * every other request's workspace, lies inside this "working directory"
   * and is torn down with it.
   */
  lemma ParentRequestIdCoversBase(baseDir: string)
    requires baseDir != [] && Parse(baseDir).absolute && |Normalize(Parse(baseDir)).segs| > 0
    ensures Normalize(WorkingDir(baseDir, "..")) == Parent(Normalize(Parse(baseDir)))
    ensures StrictAncestor(Normalize(WorkingDir(baseDir, "..")), Normalize(Parse(baseDir)))
  {
    JoinNamesParse(baseDir, "..");
    SplitPlain("..", []);
    assert [] + ".." == "..";
    var b := Parse(baseDir);
    NormalizeFromAppend(b.absolute, [], b.segs, [".."]);
    var nb := Normalize(b).segs;
    assert NormalizeFrom(b.absolute, nb, [".."]) == Step(b.absolute, NormalizeFrom(b.absolute, nb, []), "..");
  }

  /**
   * `createWorkingDirectory` on the file system: `Paths.get` throws on a
   * NUL character; an existing working directory is deleted recursively
   * (best effort); then the directories are created. The tree as left, and
   * the working directory when every step succeeded. Apart from a NUL, the
   * stage fails only when a file lies above the working directory, or the
   * working directory is itself a file whose deletion is refused: a refused
   * deletion inside an old working directory never fails it.
   */
  function WorkspaceStage(t: Tree, locked: set<Path>, baseDir: string, requestId: string): (r: (Tree, Option<Path>))
    ensures '\0' in JoinNames(baseDir, requestId) ==> r == (t, None)
    ensures r.1.None? <==>
              || '\0' in JoinNames(baseDir, requestId)
              || FileAbove(t, Normalize(WorkingDir(baseDir, requestId)))
              || (var dir := Normalize(WorkingDir(baseDir, requestId));
                  |dir.segs| > 0 && dir in t && t[dir].File? && Pinned(t, locked, dir, dir))
    ensures r.1.Some? ==> r.1.value == WorkingDir(baseDir, requestId) && IsDir(r.0, Normalize(r.1.value))
  {
    var joined := JoinNames(baseDir, requestId);
    if '\0' in joined then (t, None)
    else
      var workingDir := Parse(joined);
      var dir := Normalize(workingDir);
      var cleaned := if ExistsIn(t, dir) then Cleared(t, locked, dir) else t;
      ClearedOnTheWay(t, locked, dir);
      AbsentOnTheWay(t, dir);
      match CreateDirectoriesIn(cleaned, dir)
      case None => (cleaned, None)
      case Some(u) => (u, Some(workingDir))
  }

  /** `s3Client.getObject(request, ResponseTransformer.toFile(target))`: the object written to `target`, or failure. */
  function Download(t: Tree, store: ObjectStore, id: ObjectId, target: Path): (r: (Tree, bool))
    ensures !r.1 ==> r.0 == t
    ensures r.1 ==> id in store && r.0 == t[target := File(store[id])] && target !in t
  {
    if id !in store then (t, false)
    else
      match CreateFileIn(t, target, store[id])
      case None => (t, false)
      case Some(u) => (u, true)
  }

  /** Stages two to four, from the tree `t` in which the working directory has just been created. */
  function FromWorkspace(t: Tree, locked: set<Path>, env: Environment, context: Context, workingDir: Path): (r: Outcome)
    ensures r.result.Ok? ==> r.result.value == workingDir && Normalize(ArchivePath(workingDir)) !in r.tree
    ensures r.result.Err? ==> r.result.error.context == context && r.result.error.cause != CreatingWorkspace
    ensures r.result.Err? && r.result.error.cause.Downloading? ==> r.tree == t
    ensures r.result.Err? && r.result.error.cause.Downloading? <==>
              || ObjectId(context.s3Bucket, context.s3Key) !in env.store
              || !IsDir(t, Normalize(workingDir))
              || Normalize(ArchivePath(workingDir)) in t
    ensures var zip := Normalize(ArchivePath(workingDir));
            var download := Download(t, env.store, ObjectId(context.s3Bucket, context.s3Key), zip);
            var extracted := ExtractArchive(download.0, locked, zip, workingDir, env.unzip);
            && (r.result.Err? && r.result.error.cause == Extracting <==> download.1 && extracted.failed)
            && (r.result.Ok? <==> download.1 && !extracted.failed && DeleteIfExistsIn(extracted.tree, zip, locked).Some?)
            && (r.result.Ok? ==> r.tree == DeleteIfExistsIn(extracted.tree, zip, locked).value)
  {
    var zipFilePath := Normalize(ArchivePath(workingDir));
    var fail := (tree: Tree, cause: Stage) => Outcome(tree, Err(PrepareError(context, cause)));
    var download := Download(t, env.store, ObjectId(context.s3Bucket, context.s3Key), zipFilePath);
    if !download.1 then fail(download.0, Downloading(context.s3Bucket, context.s3Key, context.requestId))
    else
      var extracted := ExtractArchive(download.0, locked, zipFilePath, workingDir, env.unzip);
      if extracted.failed then fail(extracted.tree, Extracting)
      else
        match DeleteIfExistsIn(extracted.tree, zipFilePath, locked)
        case None => fail(extracted.tree, DeletingArchive)
        case Some(u) => Outcome(u, Ok(workingDir))
  }

  /** The context of a message: its request id and key, and the bucket `determineS3Bucket` chooses. */
  function ContextOf(env: Environment, msg: TaskMessage): Context {
    Context(msg.requestId, DetermineS3Bucket(msg.s3Bucket, env.properties.codeBucketName), msg.s3Key)
  }

  /**
   * `prepareWorkingDirectory`: create, download, extract, delete the
   * archive, in that order, stopping at the first exception. On success the
   * result is `baseDir/requestId` and the archive is gone; every failure
   * names the request id, the chosen bucket and the key.
   */
  function Prepare(t: Tree, locked: set<Path>, env: Environment, msg: TaskMessage): (r: Outcome)
    ensures r.result.Ok? ==> r.result.value == WorkingDir(env.properties.taskBaseDir, msg.requestId)
    ensures r.result.Ok? ==> Normalize(ArchivePath(r.result.value)) !in r.tree
    ensures r.result.Err? ==> r.result.error.context == Context(msg.requestId, DetermineS3Bucket(msg.s3Bucket, env.properties.codeBucketName), msg.s3Key)
    ensures var w := WorkspaceStage(t, locked, env.properties.taskBaseDir, msg.requestId);
            && (r.result.Err? && r.result.error.cause == CreatingWorkspace <==> w.1.None?)
            && (w.1.None? ==> r.tree == w.0)
            && (w.1.Some? ==> r == FromWorkspace(w.0, locked, env, ContextOf(env, msg), w.1.value))
  {
    var context := ContextOf(env, msg);
    var workspace := WorkspaceStage(t, locked, env.properties.taskBaseDir, msg.requestId);
    if workspace.1.None? then Outcome(workspace.0, Err(PrepareError(context, CreatingWorkspace)))
    else FromWorkspace(workspace.0, locked, env, context, workspace.1.value)
  }

  /** Nothing that the system refuses to delete lies at or below `dir`. */
  predicate NothingLockedUnder(locked: set<Path>, dir: Path) {
    forall d :: d in locked ==> !StartsWith(d, dir)
  }

  /** The part of `t` outside the subtree at `dir`. */
  function Outside(t: Tree, dir: Path): (r: Tree)
    ensures forall p :: p in r <==> p in t && !StartsWith(p, dir)
  {
    map p | p in t && !StartsWith(p, dir) :: t[p]
  }

  /**
   * Outside the subtree at `dir`, `u` keeps every entry of `t` unchanged
   * and adds nothing but directories on the way to `dir`.
   */
  ghost predicate ConfinedTo(t: Tree, u: Tree, dir: Path) {
    forall p :: !StartsWith(p, dir) ==>
      (p in t ==> p in u && u[p] == t[p]) && (p in u && p !in t ==> u[p] == Dir && StrictAncestor(p, dir))
  }

  lemma ConfinedThenUnchanged(t: Tree, u: Tree, v: Tree, dir: Path)
    requires ConfinedTo(t, u, dir) && UnchangedOutside(u, v, dir)
    ensures ConfinedTo(t, v, dir)
  {
  }

  /** Trees that agree outside `dir` have the same part outside `dir`. */
  lemma OutsideOfUnchanged(t: Tree, u: Tree, dir: Path)
    requires UnchangedOutside(t, u, dir)
    ensures Outside(t, dir) == Outside(u, dir)
  {
    var a := Outside(t, dir);
    var b := Outside(u, dir);
    assert forall p :: p in a ==> p in b && a[p] == b[p];
    assert a == b;
  }

  /** With nothing locked below it, tearing down an old working directory leaves exactly what lies outside it. */
  lemma CleanedIsOutside(t: Tree, locked: set<Path>, dir: Path)
    requires WellFormed(t) && NothingLockedUnder(locked, dir)
    ensures (if ExistsIn(t, dir) then Cleared(t, locked, dir) else t) == Outside(t, dir)
  {
    if !ExistsIn(t, dir) {
      ClearedAbsent(t, locked, dir);
    }
    ClearedRemovesAll(t, locked, dir);
  }

  /** Creating the directories of `dir` adds, outside `dir`, only directories on the way to it. */
  lemma CreateDirectoriesConfined(t: Tree, dir: Path)
    requires CreateDirectoriesIn(t, dir).Some?
    ensures ConfinedTo(t, CreateDirectoriesIn(t, dir).value, dir)
  {
    var u := CreateDirectoriesIn(t, dir).value;
    forall p | !StartsWith(p, dir) && p in u && p !in t ensures StrictAncestor(p, dir) {
      if |p.segs| == |dir.segs| {
        StartsWithSameLength(dir, p);
      }
    }
  }

  /** Stage one keeps the tree well-formed and confined to the working directory. */
  lemma WorkspaceStageConfined(t: Tree, locked: set<Path>, baseDir: string, requestId: string)
    requires WellFormed(t)
    ensures WellFormed(WorkspaceStage(t, locked, baseDir, requestId).0)
    ensures ConfinedTo(t, WorkspaceStage(t, locked, baseDir, requestId).0, Normalize(WorkingDir(baseDir, requestId)))
  {
    var dir := Normalize(WorkingDir(baseDir, requestId));
    if '\0' !in JoinNames(baseDir, requestId) {
      var cleaned := if ExistsIn(t, dir) then Cleared(t, locked, dir) else t;
      ClearedWellFormed(t, locked, dir);
      assert WellFormed(cleaned) && UnchangedOutside(t, cleaned, dir);
      if CreateDirectoriesIn(cleaned, dir).Some? {
        CreateDirectoriesWellFormed(cleaned, dir);
        CreateDirectoriesConfined(cleaned, dir);
      }
    }
  }

  /** `extractZipFile` as a whole changes nothing outside the normalized target and keeps the tree well-formed. */
  lemma ExtractArchiveInside(t: Tree, locked: set<Path>, zip: Path, targetDir: Path, unzip: seq<byte> -> Archive)
    requires WellFormed(t) && ValidPath(targetDir) && ExistsIn(t, Normalize(targetDir))
    ensures WellFormed(ExtractArchive(t, locked, zip, targetDir, unzip).tree)
    ensures UnchangedOutside(t, ExtractArchive(t, locked, zip, targetDir, unzip).tree, Normalize(targetDir))
    ensures KeepsEntries(t, ExtractArchive(t, locked, zip, targetDir, unzip).tree)
  {
    if zip in t && t[zip].File? {
      ExtractAllInside(t, locked, targetDir, unzip(t[zip].data).entries);
    }
  }

  /** In a well-formed tree, a path with an entry strictly below it is a directory. */
  lemma DirAbove(t: Tree, p: Path, dir: Path)
    requires WellFormed(t) && p in t && StrictAncestor(dir, p)
    ensures IsDir(t, dir)
  {
    if |dir.segs| > 0 {
      assert Prefix(p, |dir.segs|) == dir;
    }
  }

  /** The download writes only the archive, strictly inside `dir`. */
  lemma DownloadInside(t: Tree, store: ObjectStore, id: ObjectId, zip: Path, dir: Path)
    requires WellFormed(t) && ValidPath(zip) && StrictAncestor(dir, zip)
    ensures WellFormed(Download(t, store, id, zip).0)
    ensures UnchangedOutside(t, Download(t, store, id, zip).0, dir)
    ensures Download(t, store, id, zip).1 ==> zip in Download(t, store, id, zip).0 && Download(t, store, id, zip).0[zip].File?
  {
    if id in store && CreateFileIn(t, zip, store[id]).Some? {
      WriteInside(t, zip, store[id], dir);
    }
  }

  /** Writing a new file strictly inside `dir` keeps the tree well-formed and changes nothing outside `dir`. */
  lemma WriteInside(t: Tree, p: Path, data: seq<byte>, dir: Path)
    requires WellFormed(t) && ValidPath(p) && StrictAncestor(dir, p)
    requires CreateFileIn(t, p, data).Some?
    ensures WellFormed(CreateFileIn(t, p, data).value)
    ensures UnchangedOutside(t, CreateFileIn(t, p, data).value, dir)
  {
  }

  /**
   * Extraction and the removal of the archive, from a well-formed tree
   * holding the archive inside the working directory.
   */
  lemma ExtractAndCleanInside(t: Tree, locked: set<Path>, zip: Path, workingDir: Path, unzip: seq<byte> -> Archive)
    requires WellFormed(t) && ValidPath(workingDir) && zip in t
    requires StrictAncestor(Normalize(workingDir), zip)
    ensures var x := ExtractArchive(t, locked, zip, workingDir, unzip);
            WellFormed(x.tree) && UnchangedOutside(t, x.tree, Normalize(workingDir)) &&
            zip in x.tree && IsDir(x.tree, Normalize(workingDir))
    ensures var x := ExtractArchive(t, locked, zip, workingDir, unzip);
            var d := DeleteIfExistsIn(x.tree, zip, locked);
            d.Some? ==> WellFormed(d.value) && UnchangedOutside(t, d.value, Normalize(workingDir)) &&
                        IsDir(d.value, Normalize(workingDir))
  {
    var dir := Normalize(workingDir);
    DirAbove(t, zip, dir);
    ExtractArchiveInside(t, locked, zip, workingDir, unzip);
    var x := ExtractArchive(t, locked, zip, workingDir, unzip);
    DirAbove(x.tree, zip, dir);
  }

  /**
   * Stages two to four, from a well-formed tree holding the working
   * directory: the tree stays well-formed, nothing outside the working
   * directory changes, the working directory stays a directory, and after
   * an extraction that threw the archive is still there.
   */
  lemma FromWorkspaceInside(t: Tree, locked: set<Path>, env: Environment, context: Context, workingDir: Path)
    requires WellFormed(t) && ValidPath(workingDir) && IsDir(t, Normalize(workingDir))
    ensures var r := FromWorkspace(t, locked, env, context, workingDir);
            WellFormed(r.tree) && UnchangedOutside(t, r.tree, Normalize(workingDir)) && IsDir(r.tree, Normalize(workingDir))
    ensures var r := FromWorkspace(t, locked, env, context, workingDir);
            r.result.Err? && r.result.error.cause == Extracting ==> Normalize(ArchivePath(workingDir)) in r.tree
  {
    var dir := Normalize(workingDir);
    var zip := Normalize(ArchivePath(workingDir));
    var id := ObjectId(context.s3Bucket, context.s3Key);
    DownloadInside(t, env.store, id, zip, dir);
    var download := Download(t, env.store, id, zip);
    var r := FromWorkspace(t, locked, env, context, workingDir);
    if download.1 {
      ExtractAndCleanInside(download.0, locked, zip, workingDir, env.unzip);
      var x := ExtractArchive(download.0, locked, zip, workingDir, env.unzip);
      var d := DeleteIfExistsIn(x.tree, zip, locked);
      if x.failed || d.None? {
        assert r.tree == x.tree;
        UnchangedOutsideTransitive(t, download.0, x.tree, dir);
      } else {
        assert r.tree == d.value;
        UnchangedOutsideTransitive(t, download.0, d.value, dir);
      }
    } else {
      assert r.tree == t;
    }
  }

  /**
   * Deleting the archive cannot fail once extraction has completed,
   * unless the system refuses to delete it: extraction leaves a regular
   * file at the archive path, and nothing lies below a regular file.
   */
  lemma ArchiveDeletionSucceeds(t: Tree, locked: set<Path>, env: Environment, context: Context, workingDir: Path)
    requires WellFormed(t) && ValidPath(workingDir)
    requires Normalize(ArchivePath(workingDir)) !in locked
    ensures var r := FromWorkspace(t, locked, env, context, workingDir);
            r.result.Err? ==> r.result.error.cause != DeletingArchive
  {
    var zip := Normalize(ArchivePath(workingDir));
    var id := ObjectId(context.s3Bucket, context.s3Key);
    var download := Download(t, env.store, id, zip);
    if download.1 {
      var u := download.0;
      assert zip in u && u[zip].File? && IsDir(u, Normalize(workingDir));
      assert WellFormed(u) by {
        assert CreateFileIn(t, zip, env.store[id]) == Some(u);
      }
      ExtractArchiveInside(u, locked, zip, workingDir, env.unzip);
      ExtractAllKeepsFiles(u, locked, workingDir, env.unzip(u[zip].data).entries);
      var x := ExtractArchive(u, locked, zip, workingDir, env.unzip);
      assert zip in x.tree && x.tree[zip].File?;
      forall c | c in x.tree && StrictAncestor(zip, c) ensures false {
        DirAbove(x.tree, c, zip);
      }
    }
  }

  /**
   * With the object in the store and nothing locked inside the working
   * directory, a run fails only in stage one or in extraction: the
   * download finds a fresh, empty directory, and deleting the archive
   * always succeeds.
   */
  lemma PrepareFailsOnlyAtExtraction(t: Tree, locked: set<Path>, env: Environment, msg: TaskMessage)
    requires WellFormed(t)
    requires NothingLockedUnder(locked, Normalize(WorkingDir(env.properties.taskBaseDir, msg.requestId)))
    requires ObjectId(ContextOf(env, msg).s3Bucket, ContextOf(env, msg).s3Key) in env.store
    ensures var r := Prepare(t, locked, env, msg);
            r.result.Err? ==> r.result.error.cause == CreatingWorkspace || r.result.error.cause == Extracting
  {
    var baseDir := env.properties.taskBaseDir;
    var w := WorkspaceStage(t, locked, baseDir, msg.requestId);
    if w.1.Some? {
      var workingDir := w.1.value;
      var dir := Normalize(workingDir);
      var zip := Normalize(ArchivePath(workingDir));
      WorkspaceStageConfined(t, locked, baseDir, msg.requestId);
      WorkspaceStartsEmpty(t, locked, baseDir, msg.requestId);
      assert StrictAncestor(dir, zip);
      assert zip !in w.0;
      assert zip !in locked;
      ArchiveDeletionSucceeds(w.0, locked, env, ContextOf(env, msg), workingDir);
    }
  }

  lemma UnchangedOutsideTransitive(t: Tree, u: Tree, v: Tree, dir: Path)
    requires UnchangedOutside(t, u, dir) && UnchangedOutside(u, v, dir)
    ensures UnchangedOutside(t, v, dir)
  {
  }

  /**
   * Confinement of a whole run: the file system stays well-formed, and
   * outside the working directory nothing is removed or changed; the only
   * entries added there are directories on the way to it.
   */
  lemma PrepareConfined(t: Tree, locked: set<Path>, env: Environment, msg: TaskMessage)
    requires WellFormed(t)
    ensures WellFormed(Prepare(t, locked, env, msg).tree)
    ensures ConfinedTo(t, Prepare(t, locked, env, msg).tree, Normalize(WorkingDir(env.properties.taskBaseDir, msg.requestId)))
  {
    var dir := Normalize(WorkingDir(env.properties.taskBaseDir, msg.requestId));
    var w := WorkspaceStage(t, locked, env.properties.taskBaseDir, msg.requestId);
    WorkspaceStageConfined(t, locked, env.properties.taskBaseDir, msg.requestId);
    if w.1.Some? {
      FromWorkspaceInside(w.0, locked, env, ContextOf(env, msg), w.1.value);
      ConfinedThenUnchanged(t, w.0, FromWorkspace(w.0, locked, env, ContextOf(env, msg), w.1.value).tree, dir);
    }
  }

  /**
   * Once the working directory exists, with nothing locked inside it, it
   * is an empty directory: no residue of an earlier run survives.
   */
  lemma WorkspaceStartsEmpty(t: Tree, locked: set<Path>, baseDir: string, requestId: string)
    requires WellFormed(t)
    requires NothingLockedUnder(locked, Normalize(WorkingDir(baseDir, requestId)))
    requires WorkspaceStage(t, locked, baseDir, requestId).1.Some?
    ensures var dir := Normalize(WorkingDir(baseDir, requestId));
            var u := WorkspaceStage(t, locked, baseDir, requestId).0;
            IsDir(u, dir) && !HasEntriesBelow(u, dir)
  {
    var dir := Normalize(WorkingDir(baseDir, requestId));
    CleanedIsOutside(t, locked, dir);
    var x := Outside(t, dir);
    var u := WorkspaceStage(t, locked, baseDir, requestId).0;
    assert u == CreateDirectoriesIn(x, dir).value;
    forall c | c in u && StartsWith(c, dir) ensures !StrictAncestor(dir, c) {
      assert c !in x;
    }
  }

  /**
   * The lenient teardown: an entry of a stale working directory that the
   * system refuses to delete stays, unchanged, beside the new content.
   */
  lemma LockedStaleEntrySurvives(t: Tree, locked: set<Path>, baseDir: string, requestId: string, p: Path)
    requires p in t && p in locked
    requires '\0' !in JoinNames(baseDir, requestId)
    ensures var u := WorkspaceStage(t, locked, baseDir, requestId).0;
            p in u && u[p] == t[p]
  {
    var u := WorkspaceStage(t, locked, baseDir, requestId).0;
  }

  /**
   * A failed download leaves the working directory as stage one made it:
   * with nothing locked inside, an empty directory, and no archive.
   */
  lemma DownloadFailureLeavesEmptyWorkspace(t: Tree, locked: set<Path>, env: Environment, msg: TaskMessage)
    requires WellFormed(t)
    requires NothingLockedUnder(locked, Normalize(WorkingDir(env.properties.taskBaseDir, msg.requestId)))
    requires Prepare(t, locked, env, msg).result.Err? && Prepare(t, locked, env, msg).result.error.cause.Downloading?
    ensures var dir := Normalize(WorkingDir(env.properties.taskBaseDir, msg.requestId));
            var u := Prepare(t, locked, env, msg).tree;
            IsDir(u, dir) && !HasEntriesBelow(u, dir)
  {
    var w := WorkspaceStage(t, locked, env.properties.taskBaseDir, msg.requestId);
    assert w.1.Some?;
    assert Prepare(t, locked, env, msg).tree == w.0;
    WorkspaceStartsEmpty(t, locked, env.properties.taskBaseDir, msg.requestId);
  }

  /**
   * The archive is removed only after an extraction that completed: when
   * extraction throws, the downloaded archive (or whatever an entry wrote
   * in its place) is still there.
   */
  lemma ExtractionFailureKeepsArchive(t: Tree, locked: set<Path>, env: Environment, msg: TaskMessage)
    requires WellFormed(t)
    requires Prepare(t, locked, env, msg).result.Err? && Prepare(t, locked, env, msg).result.error.cause == Extracting
    ensures Normalize(ArchivePath(WorkingDir(env.properties.taskBaseDir, msg.requestId))) in Prepare(t, locked, env, msg).tree
  {
    var w := WorkspaceStage(t, locked, env.properties.taskBaseDir, msg.requestId);
    WorkspaceStageConfined(t, locked, env.properties.taskBaseDir, msg.requestId);
    FromWorkspaceInside(w.0, locked, env, ContextOf(env, msg), w.1.value);
  }

  /**
   * A successful run leaves the working directory in place, as a
   * directory, and the archive gone.
   */
  lemma PrepareSucceeded(t: Tree, locked: set<Path>, env: Environment, msg: TaskMessage)
    requires WellFormed(t)
    requires Prepare(t, locked, env, msg).result.Ok?
    ensures var workingDir := WorkingDir(env.properties.taskBaseDir, msg.requestId);
            var u := Prepare(t, locked, env, msg).tree;
            IsDir(u, Normalize(workingDir)) && Normalize(ArchivePath(workingDir)) !in u
  {
    var w := WorkspaceStage(t, locked, env.properties.taskBaseDir, msg.requestId);
    WorkspaceStageConfined(t, locked, env.properties.taskBaseDir, msg.requestId);
    FromWorkspaceInside(w.0, locked, env, ContextOf(env, msg), w.1.value);
  }

  /**
   * Stale contents are irrelevant: two file systems that agree outside the
   * working directory, with nothing locked inside it, give the same run
   * (for a workspace name that `Paths.get` accepts).
   */
  lemma StaleContentsIrrelevant(t: Tree, t': Tree, locked: set<Path>, env: Environment, msg: TaskMessage)
    requires WellFormed(t) && WellFormed(t')
    requires '\0' !in JoinNames(env.properties.taskBaseDir, msg.requestId)
    requires var dir := Normalize(WorkingDir(env.properties.taskBaseDir, msg.requestId));
             NothingLockedUnder(locked, dir) && Outside(t, dir) == Outside(t', dir)
    ensures Prepare(t, locked, env, msg) == Prepare(t', locked, env, msg)
  {
    var baseDir := env.properties.taskBaseDir;
    var dir := Normalize(WorkingDir(baseDir, msg.requestId));
    CleanedIsOutside(t, locked, dir);
    CleanedIsOutside(t', locked, dir);
    assert WorkspaceStage(t, locked, baseDir, msg.requestId) == WorkspaceStage(t', locked, baseDir, msg.requestId);
  }

  /**
   * Creating the directories of `dir` again, after everything at or below
   * `dir` was torn down, gives back the same tree.
   */
  lemma RecreateAfterTeardown(x: Tree, dir: Path)
    requires forall p :: p in x ==> !StartsWith(p, dir)
    requires CreateDirectoriesIn(x, dir).Some?
    ensures CreateDirectoriesIn(Outside(CreateDirectoriesIn(x, dir).value, dir), dir) == CreateDirectoriesIn(x, dir)
  {
    var u := CreateDirectoriesIn(x, dir).value;
    var o := Outside(u, dir);
    assert forall p :: p in o ==> o[p] == u[p];
    assert !FileOnTheWay(o, dir);
    SameDirectories(x, u, o, CreateDirectoriesIn(o, dir).value, dir);
  }

  /**
   * The two trees `u` (directories created over `x`) and `v` (directories
   * created over `o`, which is `u` with the subtree at `dir` removed) agree.
   */
  lemma SameDirectories(x: Tree, u: Tree, o: Tree, v: Tree, dir: Path)
    requires forall p :: p in x ==> !StartsWith(p, dir)
    requires forall q :: q in x ==> q in u
    requires forall q :: q in u && q !in x ==> u[q] == Dir && StartsWith(dir, q) && |q.segs| > 0
    requires forall k :: 0 < k <= |dir.segs| ==> IsDir(u, Prefix(dir, k))
    requires forall p :: p in o <==> p in u && !StartsWith(p, dir)
    requires forall p :: p in o ==> o[p] == u[p]
    requires forall q :: q in o ==> q in v && v[q] == o[q]
    requires forall q :: q in v && q !in o ==> v[q] == Dir && StartsWith(dir, q) && |q.segs| > 0
    requires IsDir(v, dir)
    ensures v == u
  {
    forall p | p in u ensures p in v && v[p] == u[p] {
      if p !in o {
        assert StartsWith(p, dir) && p !in x;
        StartsWithSameLength(dir, p);
      }
    }
    forall p | p in v ensures p in u {
      if p !in o {
        assert p == Prefix(dir, |p.segs|);
      }
    }
    assert v.Keys == u.Keys;
  }

  /**
   * Running the pipeline again for the same request, once the first run
   * got its working directory, with nothing locked inside it, ends exactly
   * as the first run did: no residue of the first run remains.
   */
  lemma PrepareRerun(t: Tree, locked: set<Path>, env: Environment, msg: TaskMessage)
    requires WellFormed(t)
    requires NothingLockedUnder(locked, Normalize(WorkingDir(env.properties.taskBaseDir, msg.requestId)))
    requires WorkspaceStage(t, locked, env.properties.taskBaseDir, msg.requestId).1.Some?
    ensures Prepare(Prepare(t, locked, env, msg).tree, locked, env, msg) == Prepare(t, locked, env, msg)
  {
    var baseDir := env.properties.taskBaseDir;
    var requestId := msg.requestId;
    var dir := Normalize(WorkingDir(baseDir, requestId));
    var w := WorkspaceStage(t, locked, baseDir, requestId);
    CleanedIsOutside(t, locked, dir);
    var x := Outside(t, dir);
    assert w.0 == CreateDirectoriesIn(x, dir).value;
    WorkspaceStageConfined(t, locked, baseDir, requestId);
    var context := ContextOf(env, msg);
    FromWorkspaceInside(w.0, locked, env, context, w.1.value);
    var first := FromWorkspace(w.0, locked, env, context, w.1.value).tree;
    OutsideOfUnchanged(w.0, first, dir);
    CleanedIsOutside(first, locked, dir);
    RecreateAfterTeardown(x, dir);
    assert WorkspaceStage(first, locked, baseDir, requestId) == w;
  }

  /** The storage service: the object store, the configuration, the archive decoder, and the file system it works on. */
  class S3CodeStorageService {
    const s3Client: ObjectStore
    const agentProperties: AgentProperties
    const unzip: seq<byte> -> Archive
    const fs: FileSystem

    ghost predicate Valid()
      reads fs
    {
      fs.Valid()
    }

    function Env(): Environment {
      Environment(agentProperties, s3Client, unzip)
    }

    constructor (s3Client: ObjectStore, agentProperties: AgentProperties, unzip: seq<byte> -> Archive, fs: FileSystem)
      requires fs.Valid()
      ensures this.s3Client == s3Client && this.agentProperties == agentProperties && this.unzip == unzip && this.fs == fs
      ensures Valid()
    {
      this.s3Client := s3Client;
      this.agentProperties := agentProperties;
      this.unzip := unzip;
      this.fs := fs;
    }

    /** `prepareWorkingDirectory`: the four stages in order, each failure wrapped with the request's context. */
    method PrepareWorkingDirectory(taskMessage: TaskMessage) returns (r: Result<Path, PrepareError>)
      requires Valid()
      modifies fs
      ensures Valid()
      ensures Outcome(fs.nodes, r) == Prepare(old(fs.nodes), fs.locked, Env(), taskMessage)
    {
      var requestId := taskMessage.requestId;
      var s3Bucket := DetermineS3Bucket(taskMessage.s3Bucket, agentProperties.codeBucketName);
      var s3Key := taskMessage.s3Key;
      var context := Context(requestId, s3Bucket, s3Key);

      var workingDir := CreateWorkingDirectory(requestId);
      if workingDir.None? {
        return Err(PrepareError(context, CreatingWorkspace));
      }
      ghost var t1 := fs.nodes;
      var zipFilePath := DownloadFromS3(s3Bucket, s3Key, workingDir.value, requestId);
      if zipFilePath.Err? {
        return Err(PrepareError(context, zipFilePath.error));
      }
      var extracted, extractedFiles := ExtractZipFile(zipFilePath.value, workingDir.value, requestId);
      if !extracted {
        return Err(PrepareError(context, Extracting));
      }
      var deleted := fs.DeleteIfExists(Normalize(zipFilePath.value));
      if !deleted {
        return Err(PrepareError(context, DeletingArchive));
      }
      r := Ok(workingDir.value);
    }

    /** `createWorkingDirectory`: `None` where it throws. */
    method CreateWorkingDirectory(requestId: string) returns (r: Option<Path>)
      requires Valid()
      modifies fs
      ensures Valid()
      ensures (fs.nodes, r) == WorkspaceStage(old(fs.nodes), fs.locked, agentProperties.taskBaseDir, requestId)
    {
      var baseDir := agentProperties.taskBaseDir;
      var name := JoinNames(baseDir, requestId);
      if '\0' in name {
        // Paths.get throws InvalidPathException
        return None;
      }
      var workingDir := Parse(name);
      if fs.Exists(Normalize(workingDir)) {
        DeleteDirectory(workingDir);
      }
      var created := fs.CreateDirectories(Normalize(workingDir));
      r := if created then Some(workingDir) else None;
    }

    /** `downloadFromS3`: the archive path inside `workingDir`, or the stage's own wrapped error. */
    method DownloadFromS3(bucket: string, key: string, workingDir: Path, requestId: string) returns (r: Result<Path, Stage>)
      requires Valid() && ValidPath(workingDir)
      modifies fs
      ensures Valid()
      ensures var download := Download(old(fs.nodes), s3Client, ObjectId(bucket, key), Normalize(ArchivePath(workingDir)));
              fs.nodes == download.0 &&
              r == if download.1 then Ok(ArchivePath(workingDir)) else Err(Downloading(bucket, key, requestId))
    {
      var zipFilePath := ArchivePath(workingDir);
      var fetched := GetObject(ObjectId(bucket, key), zipFilePath);
      if !fetched {
        return Err(Downloading(bucket, key, requestId));
      }
      r := Ok(zipFilePath);
    }

    /** `s3Client.getObject(request, ResponseTransformer.toFile(destination))`. */
    method GetObject(id: ObjectId, destination: Path) returns (ok: bool)
      requires Valid() && ValidPath(destination)
      modifies fs
      ensures Valid()
      ensures (fs.nodes, ok) == Download(old(fs.nodes), s3Client, id, Normalize(destination))
    {
      if id !in s3Client {
        return false;
      }
      ok := fs.CreateFile(Normalize(destination), s3Client[id]);
    }

    /**
     * `extractZipFile`: the guarded loop over the archive's entries;
     * `ok` is false where it throws.
     */
    method ExtractZipFile(zipFilePath: Path, targetDir: Path, requestId: string) returns (ok: bool, extractedFiles: nat)
      requires Valid() && ValidPath(targetDir)
      modifies fs
      ensures Valid()
      ensures Progress(fs.nodes, extractedFiles, !ok) == ExtractArchive(old(fs.nodes), fs.locked, Normalize(zipFilePath), targetDir, unzip)
    {
      var zip := Normalize(zipFilePath);
      extractedFiles := 0;
      if zip !in fs.nodes || !fs.nodes[zip].File? {
        // Files.newInputStream throws
        return false, 0;
      }
      var archive := unzip(fs.nodes[zip].data);
      var failed;
      failed, extractedFiles := ExtractEntries(archive.entries, targetDir);
      ok := !failed && !archive.truncated;
    }

    /**
     * The `while` loop of `extractZipFile` over the entries read from the
     * stream; `failed` where an entry throws, which ends the loop.
     */
    method ExtractEntries(entries: seq<Entry>, targetDir: Path) returns (failed: bool, extractedFiles: nat)
      requires Valid() && ValidPath(targetDir)
      modifies fs
      ensures Valid()
      ensures Progress(fs.nodes, extractedFiles, failed) == ExtractAll(old(fs.nodes), fs.locked, targetDir, entries)
    {
      extractedFiles := 0;
      ghost var t0 := fs.nodes;
      var i := 0;
      while i < |entries|
        invariant 0 <= i <= |entries|
        invariant fs.Valid()
        invariant ExtractAll(t0, fs.locked, targetDir, entries[..i]) == Progress(fs.nodes, extractedFiles, false)
      {
        ExtractAllStep(t0, fs.locked, targetDir, entries, i);
        failed, extractedFiles := ExtractNextEntry(entries[i], targetDir, extractedFiles);
        i := i + 1;
        if failed {
          ExtractAllStops(t0, fs.locked, targetDir, entries, i);
          return;
        }
      }
      assert entries[..|entries|] == entries;
      failed := false;
    }

    /**
     * One pass of the loop body of `extractZipFile`: the traversal guard,
     * then the directory or the file; `failed` where it throws.
     */
    method ExtractNextEntry(entry: Entry, targetDir: Path, count: nat) returns (failed: bool, extractedFiles: nat)
      requires Valid() && ValidPath(targetDir)
      modifies fs
      ensures Valid()
      ensures Progress(fs.nodes, extractedFiles, failed) == ExtractEntry(old(fs.nodes), fs.locked, targetDir, entry, count)
    {
      extractedFiles := count;
      if '\0' in entry.name {
        // resolve throws InvalidPathException
        return true, count;
      }
      var targetPath := Resolve(targetDir, Parse(entry.name));
      if !StartsWith(Normalize(targetPath), Normalize(targetDir)) {
        // suspicious entry: skipped
        return false, count;
      }
      var target := Normalize(targetPath);
      if IsDirectory(entry) {
        var created := fs.CreateDirectories(target);
        return !created, count;
      }
      if |target.segs| == 0 {
        // getParent() is null
        return true, count;
      }
      var created := fs.CreateDirectories(Parent(target));
      if !created {
        return true, count;
      }
      var copied := fs.Copy(target, entry.contents);
      if !copied {
        return true, count;
      }
      extractedFiles := count + 1;
      failed := false;
    }

    /**
     * `deleteDirectory`: nothing when `directory` is absent; otherwise
     * the walked paths in descending order, each deleted best effort.
     */
    method DeleteDirectory(directory: Path)
      requires Valid()
      modifies fs
      ensures Valid()
      ensures var dir := Normalize(directory);
              fs.nodes == if ExistsIn(old(fs.nodes), dir) then Cleared(old(fs.nodes), fs.locked, dir) else old(fs.nodes)
    {
      var dir := Normalize(directory);
      if !fs.Exists(dir) {
        return;
      }
      var paths := Walk(fs.nodes, dir);
      var order := SortDescending(paths);
      ghost var t0 := fs.nodes;
      var i := 0;
      while i < |order|
        invariant 0 <= i <= |order|
        invariant fs.Valid()
        invariant fs.nodes == DeleteEach(t0, order[..i], fs.locked)
      {
        assert order[..i + 1][..i] == order[..i];
        // a failure is only logged
        var deleted := fs.Delete(order[i]);
        i := i + 1;
      }
      assert order[..|order|] == order;
      DeleteEachClears(t0, fs.locked, dir, order);
    }
  }
}
