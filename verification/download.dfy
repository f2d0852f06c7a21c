/** `DownloadData`: the recursive walk that fetches a datum, parses it and,
    depending on the cursor's mode, prints the hash, creates directories
    or appends chunk bytes to a file. The peer is an abstract map from a
    hash to the outcome of fetching it; the file system is a log of
    effects plus the paths whose open or write fails. A remote tree can be
    cyclic, so the walk carries fuel. */
module Download {
  import opened Bytes
  import opened Paths
  import opened Payload
  import Exchange

  datatype Op = PrintHash | DownloadHash | DownloadPath

  /** `DataObject` without its file handle: what to do, the entry's name,
      the remote directory it sits in, the remote path being looked for and
      the local directory to store into. */
  datatype Cursor = Cursor(op: Op, name: seq<byte>, path: seq<byte>, searchPath: seq<byte>, hddPath: seq<byte>)

  datatype Effect =
    | Fetch(hash: seq<byte>)                     // one GET_DATUM exchange
    | Print(line: seq<byte>, hash: seq<byte>)    // `path <=> hex(hash)`
    | Mkdir(dir: seq<byte>)
    | Open(file: seq<byte>)                      // create or truncate
    | Append(file: seq<byte>, data: seq<byte>)
    | Close(file: seq<byte>)

  /** RESULT_OK, RESULT_ERROR, or the walk running out of fuel. */
  datatype Status = Ok | Failed | OutOfFuel

  /** The result of a walk: its status, whether the cursor's file handle
      is open afterwards, and what it did. */
  datatype Run = Run(status: Status, open: bool, log: seq<Effect>)

  /** The peer, as the outcome of fetching each hash (a hash it never
      answers is absent), and the local paths whose open or write fails. */
  datatype Env = Env(remote: map<seq<byte>, Exchange.Outcome>, openFails: set<seq<byte>>, writeFails: set<seq<byte>>)

  /** Every value the peer delivers is one the parser can walk. */
  predicate Servable(env: Env)
  {
    forall h | h in env.remote && env.remote[h].Delivered? ::
      |env.remote[h].value| == 0 || Parsable(env.remote[h].value)
  }

  /** `value, _ := GetDataByHash(...)`: the error is dropped, so every
      outcome other than a delivered value reads as an empty value. */
  function Value(env: Env, h: seq<byte>): (v: seq<byte>)
    requires Servable(env)
    ensures |v| > 0 ==> h in env.remote && env.remote[h] == Exchange.Delivered(v) && Parsable(v)
    ensures h in env.remote && env.remote[h].Delivered? ==> v == env.remote[h].value
  {
    if h in env.remote && env.remote[h].Delivered? then env.remote[h].value else []
  }

  /** The local file a cursor writes chunk bytes to. */
  function FilePath(cur: Cursor): seq<byte>
  {
    Join(cur.hddPath, cur.name)
  }

  /** What every call does before looking at the value: the fetch, and in
      OP_PRINT_HASH mode the line naming the entry and its hash. */
  function Header(cur: Cursor, h: seq<byte>): seq<Effect>
  {
    [Fetch(h)] + if cur.op == PrintHash then [Print(Join(cur.path, cur.name), h)] else []
  }

  /** The cursor a directory entry is walked with: it sits in the parent's
      own path, stores under the parent's own local path, and switches
      from OP_DOWNLOAD_PATH to OP_DOWNLOAD_HASH exactly when the search
      path is that directory or that entry. */
  function ChildCursor(cur: Cursor, name: seq<byte>): (c: Cursor)
    ensures c.name == name && c.searchPath == cur.searchPath
    ensures c.path == Join(cur.path, cur.name) && c.hddPath == Join(cur.hddPath, cur.name)
    ensures c.op == DownloadHash <==>
              || cur.op == DownloadHash
              || (cur.op == DownloadPath && (cur.searchPath == c.path || cur.searchPath == Join(c.path, name)))
    ensures c.op != DownloadHash ==> c.op == cur.op
  {
    var dir := Join(cur.path, cur.name);
    var hdd := Join(cur.hddPath, cur.name);
    var op := if cur.op == DownloadPath && (cur.searchPath == dir || cur.searchPath == Join(dir, name))
              then DownloadHash else cur.op;
    Cursor(op, name, dir, cur.searchPath, hdd)
  }

  /** Only fetches and print lines. */
  predicate Quiet(log: seq<Effect>)
  {
    forall e | e in log :: e.Fetch? || e.Print?
  }

  predicate NoPrints(log: seq<Effect>)
  {
    forall e | e in log :: !e.Print?
  }

  /** Parsed objects as `ParceValue` produces them: a BIG_FILE object holds
      exactly its 32-byte hashes. */
  predicate WellFormedObject(o: StrObject)
  {
    o.BigFileObj? ==> |o.hashes| == HashSize * o.nbHash
  }

  /** `DownloadData(hash, cursor)`, with the cursor's handle state `open`.
      Print mode touches nothing on disk, only print mode prints, and a
      cursor outside OP_DOWNLOAD_HASH never changes its own handle. */
  function Download(fuel: nat, env: Env, h: seq<byte>, cur: Cursor, open: bool): (r: Run)
    requires Servable(env)
    decreases fuel, 0
    ensures cur.op == PrintHash ==> Quiet(r.log)
    ensures cur.op != PrintHash ==> NoPrints(r.log)
    ensures cur.op != DownloadHash ==> r.open == open
  {
    if fuel == 0 then Run(OutOfFuel, open, [])
    else
      var v := Value(env, h);
      var head := Header(cur, h);
      if |v| == 0 then Run(Ok, open, head)
      else
        match ParseValue(v)
        case None => Run(Ok, open, head)
        case Some(objs) =>
          assert forall o | o in objs :: WellFormedObject(o);
          var r := Objects(fuel - 1, env, objs, cur, open);
          Run(r.status, r.open, head + r.log)
  }

  /** The `for _, el := range listContent` loop: objects in order, stopping
      at the first result other than RESULT_OK. */
  function Objects(f: nat, env: Env, objs: seq<StrObject>, cur: Cursor, open: bool): (r: Run)
    requires Servable(env) && forall o | o in objs :: WellFormedObject(o)
    decreases f, 3, |objs|
    ensures cur.op == PrintHash ==> Quiet(r.log)
    ensures cur.op != PrintHash ==> NoPrints(r.log)
    ensures cur.op != DownloadHash ==> r.open == open
  {
    if |objs| == 0 then Run(Ok, open, [])
    else
      var first := Object(f, env, objs[0], cur, open);
      if first.status != Ok then first
      else
        var rest := Objects(f, env, objs[1..], cur, first.open);
        Run(rest.status, rest.open, first.log + rest.log)
  }

  /** One parsed object. A chunk is written, and a BIG_FILE's children are
      fetched, only in OP_DOWNLOAD_HASH mode; the handle is opened on the
      first chunk and dropped after a failed write. A directory entry is
      walked with its own cursor and handle, which is closed after a
      successful walk; the parent's cursor is left as it was. */
  function Object(f: nat, env: Env, o: StrObject, cur: Cursor, open: bool): (r: Run)
    requires Servable(env) && WellFormedObject(o)
    decreases f, 2
    ensures cur.op == PrintHash ==> Quiet(r.log)
    ensures cur.op != PrintHash ==> NoPrints(r.log)
    ensures cur.op != DownloadHash ==> r.open == open
  {
    match o
    case ChunkObj(data) =>
      var file := FilePath(cur);
      if cur.op != DownloadHash then Run(Ok, open, [])
      else if !open && file in env.openFails then Run(Failed, false, [])
      else
        var opening := if open then [] else [Open(file)];
        if file in env.writeFails then Run(Failed, false, opening + [Close(file)])
        else Run(Ok, true, opening + [Append(file, data)])
    case BigFileObj(nb, hashes) =>
      if cur.op != DownloadHash then Run(Ok, open, [])
      else Parts(f, env, nb, hashes, 0, cur, open)
    case EntryObj(name, hash) =>
      var child := ChildCursor(cur, name);
      var mk := if child.op == DownloadHash then [Mkdir(child.hddPath)] else [];
      var r := Download(f, env, hash, child, false);
      if r.status != Ok then Run(r.status, open, mk + r.log)
      else Run(Ok, open, mk + r.log + if r.open then [Close(FilePath(child))] else [])
  }

  /** The BIG_FILE loop: hash `i` is bytes `[32i, 32i+32)` of the list, each
      walked with the same cursor and handle, stopping at the first result
      other than RESULT_OK. */
  function Parts(f: nat, env: Env, nb: nat, hashes: seq<byte>, i: nat, cur: Cursor, open: bool): (r: Run)
    requires Servable(env) && i <= nb && |hashes| == HashSize * nb
    decreases f, 1, nb - i
    ensures cur.op == PrintHash ==> Quiet(r.log)
    ensures cur.op != PrintHash ==> NoPrints(r.log)
    ensures cur.op != DownloadHash ==> r.open == open
  {
    if i == nb then Run(Ok, open, [])
    else
      var first := Download(f, env, hashes[HashSize * i..HashSize * i + HashSize], cur, open);
      if first.status != Ok then first
      else
        var rest := Parts(f, env, nb, hashes, i + 1, cur, first.open);
        Run(rest.status, rest.open, first.log + rest.log)
  }

  // ---------------------------------------------------------------------
  // The starting cursors of the three commands.

  /** `HashesInfo`: print every hash from the root, storing nothing. */
  const PrintCursor: Cursor := Cursor(PrintHash, [], [Slash], [], [Dot])

  /** `DownloadHash`: store the tree under `hash` into `outputDir`. */
  function HashCursor(outputDir: seq<byte>): Cursor
  {
    Cursor(DownloadHash, [], [], [], outputDir)
  }

  /** `DownloadPath`: walk from the root and store what lies at `remotePath`. */
  function PathCursor(remotePath: seq<byte>, outputDir: seq<byte>): Cursor
  {
    Cursor(DownloadPath, [], [Slash], remotePath, outputDir)
  }

  // ---------------------------------------------------------------------
  // Properties of the walk.

  /** An empty value, which is what every failed fetch reads as, ends the
      call with RESULT_OK after the fetch and the print line: nothing is
      written, the handle is untouched. */
  lemma FailedFetchIsSilent(fuel: nat, env: Env, h: seq<byte>, cur: Cursor, open: bool)
    requires Servable(env) && fuel > 0
    requires h !in env.remote || !env.remote[h].Delivered?
    ensures Download(fuel, env, h, cur, open) == Run(Ok, open, Header(cur, h))
  {
    assert Value(env, h) == [];
    var r := Download(fuel, env, h, cur, open);
    assert r.status == Ok;
    assert r.open == open;
    assert r.log == Header(cur, h);
  }

  /** Outside OP_DOWNLOAD_HASH a file's datum, chunk or BIG_FILE, is fetched
      and nothing more: no bytes are written and no child is fetched. */
  lemma FilesOnlyInHashMode(fuel: nat, env: Env, h: seq<byte>, cur: Cursor, open: bool)
    requires Servable(env) && fuel > 0 && cur.op != DownloadHash
    requires |Value(env, h)| > 0 && Value(env, h)[0] <= NodeBigFile
    ensures Download(fuel, env, h, cur, open) == Run(Ok, open, Header(cur, h))
  {
    var v := Value(env, h);
    var objs := ParseValue(v).value;
    assert |objs| == 1;
    assert objs[1..] == [];
    assert Object(fuel - 1, env, objs[0], cur, open) == Run(Ok, open, []);
    assert Objects(fuel - 1, env, [], cur, open) == Run(Ok, open, []);
    assert Objects(fuel - 1, env, objs, cur, open).log == [] + [];
  }

  /** Walking any directory value leaves the cursor's own handle as it
      was: entries are written through their own handles. */
  lemma DirectoryKeepsHandle(fuel: nat, env: Env, h: seq<byte>, cur: Cursor, open: bool)
    requires Servable(env) && fuel > 0
    requires |Value(env, h)| > 0 && Value(env, h)[0] == NodeDirectory
    ensures Download(fuel, env, h, cur, open).open == open
  {
    var v := Value(env, h);
    if ParseValue(v).Some? {
      var objs := ParseValue(v).value;
      EntriesKeepHandle(fuel - 1, env, objs, cur, open);
      DownloadOfObjects(fuel, env, h, cur, open);
    }
  }

  /** One unfolding of `Download` on a value that parses. */
  lemma DownloadOfObjects(fuel: nat, env: Env, h: seq<byte>, cur: Cursor, open: bool)
    requires Servable(env) && fuel > 0
    requires |Value(env, h)| > 0 && ParseValue(Value(env, h)).Some?
    ensures var objs := ParseValue(Value(env, h)).value;
            && (forall o | o in objs :: WellFormedObject(o))
            && var os := Objects(fuel - 1, env, objs, cur, open);
               Download(fuel, env, h, cur, open) == Run(os.status, os.open, Header(cur, h) + os.log)
  {
    var objs := ParseValue(Value(env, h)).value;
    assert forall o | o in objs :: WellFormedObject(o);
  }

  lemma {:induction false} EntriesKeepHandle(f: nat, env: Env, objs: seq<StrObject>, cur: Cursor, open: bool)
    requires Servable(env) && forall o | o in objs :: o.EntryObj?
    ensures forall o | o in objs :: WellFormedObject(o)
    ensures Objects(f, env, objs, cur, open).open == open
    decreases |objs|
  {
    if |objs| > 0 {
      assert objs[0] in objs;
      assert forall o | o in objs[1..] :: o in objs;
      EntriesKeepHandle(f, env, objs[1..], cur, open);
    }
  }

  /** The starting cursor of `DownloadPath` with search path "/" switches
      every entry of the root directory to OP_DOWNLOAD_HASH. */
  lemma RootSearchTakesEverything(outputDir: seq<byte>, name: seq<byte>)
    ensures ChildCursor(PathCursor([Slash], outputDir), name).op == DownloadHash
  {
    assert Elements([Slash]) == Elements([]) by {
      assert [Slash][..0] == [];
    }
  }

  /** `filepath.Join` cleans what it joins, so a root entry whose name
      carries a trailing '/' still matches the search path of that name:
      searching "/b" switches the entry "b/" to OP_DOWNLOAD_HASH. */
  lemma SearchMatchesUncleanName(outputDir: seq<byte>, name: seq<byte>)
    requires IsPlainName(name)
    ensures ChildCursor(PathCursor([Slash] + name, outputDir), name + [Slash]).op == DownloadHash
  {
    assert Elements([Slash]) == Elements([]) by {
      assert [Slash][..0] == [];
    }
    assert Join([Slash], []) == [Slash];
    JoinDropsTrailingSlash([Slash], name);
    JoinName([Slash], name);
  }

  // ---------------------------------------------------------------------
  // A file hash and the bytes it stands for.

  datatype Walk = Walk(bytes: seq<byte>, fetched: seq<seq<byte>>)

  /** The bytes a file hash stands for and the hashes fetched to get them,
      in order: a chunk's data; the concatenation of a BIG_FILE's parts in
      hash order; nothing for a hash whose fetch failed or whose kind is
      unknown. `None` for a directory inside a file, or when fuel runs out. */
  function FileWalk(fuel: nat, env: Env, h: seq<byte>): Option<Walk>
    requires Servable(env)
    decreases fuel, 0
  {
    if fuel == 0 then None
    else
      var v := Value(env, h);
      if |v| == 0 || v[0] > NodeDirectory then Some(Walk([], [h]))
      else if v[0] == NodeChunk then Some(Walk(v[1..], [h]))
      else if v[0] == NodeDirectory then None
      else
        var nb := (|v| - 1) / HashSize;
        match PartsWalk(fuel - 1, env, nb, v[1..1 + HashSize * nb], 0)
        case None => None
        case Some(w) => Some(Walk(w.bytes, [h] + w.fetched))
  }

  function PartsWalk(f: nat, env: Env, nb: nat, hashes: seq<byte>, i: nat): Option<Walk>
    requires Servable(env) && i <= nb && |hashes| == HashSize * nb
    decreases f, 1, nb - i
  {
    if i == nb then Some(Walk([], []))
    else
      match FileWalk(f, env, hashes[HashSize * i..HashSize * i + HashSize])
      case None => None
      case Some(w) =>
        match PartsWalk(f, env, nb, hashes, i + 1)
        case None => None
        case Some(rest) => Some(Walk(w.bytes + rest.bytes, w.fetched + rest.fetched))
  }

  /** The bytes appended, across all files, in order. */
  function Appended(log: seq<Effect>): seq<byte>
  {
    if |log| == 0 then [] else (if log[0].Append? then log[0].data else []) + Appended(log[1..])
  }

  /** The hashes fetched, in order. */
  function Fetched(log: seq<Effect>): seq<seq<byte>>
  {
    if |log| == 0 then [] else (if log[0].Fetch? then [log[0].hash] else []) + Fetched(log[1..])
  }

  lemma {:induction false} LogConcat(a: seq<Effect>, b: seq<Effect>)
    ensures Appended(a + b) == Appended(a) + Appended(b)
    ensures Fetched(a + b) == Fetched(a) + Fetched(b)
  {
    if |a| > 0 {
      assert (a + b)[1..] == a[1..] + b;
      LogConcat(a[1..], b);
    } else {
      assert a + b == b;
    }
  }

  /** Only fetches, and opens of and appends to `file`. */
  predicate WritesOnly(log: seq<Effect>, file: seq<byte>)
  {
    forall e | e in log :: e.Fetch? || e == Open(file) || (e.Append? && e.file == file)
  }

  /** Downloading a file hash in OP_DOWNLOAD_HASH mode, when the local file
      opens and writes: RESULT_OK, the bytes appended are exactly the bytes
      the hash stands for, the hashes are fetched in order, and nothing but
      that one file is touched. */
  lemma {:induction false} FileDownload(fuel: nat, env: Env, h: seq<byte>, cur: Cursor, open: bool)
    requires Servable(env) && cur.op == DownloadHash
    requires FilePath(cur) !in env.openFails && FilePath(cur) !in env.writeFails
    requires FileWalk(fuel, env, h).Some?
    ensures var r := Download(fuel, env, h, cur, open);
            var w := FileWalk(fuel, env, h).value;
            && r.status == Ok
            && Appended(r.log) == w.bytes && Fetched(r.log) == w.fetched
            && WritesOnly(r.log, FilePath(cur))
    decreases fuel, 0, 1
  {
    var v := Value(env, h);
    if |v| == 0 || v[0] > NodeDirectory {
      assert |v| == 0 || ParseValue(v).None?;
      assert Download(fuel, env, h, cur, open) == Run(Ok, open, [Fetch(h)]);
      SingleEffect(Fetch(h));
    } else if v[0] == NodeChunk {
      ChunkDownload(fuel, env, h, cur, open);
    } else {
      assert fuel > 0;
      BigFileWalk(fuel, env, h, cur, open);
    }
  }

  lemma {:induction false} BigFileWalk(fuel: nat, env: Env, h: seq<byte>, cur: Cursor, open: bool)
    requires Servable(env) && cur.op == DownloadHash
    requires FilePath(cur) !in env.openFails && FilePath(cur) !in env.writeFails
    requires fuel > 0 && |Value(env, h)| > 0 && Value(env, h)[0] == NodeBigFile
    requires FileWalk(fuel, env, h).Some?
    ensures var r := Download(fuel, env, h, cur, open);
            var w := FileWalk(fuel, env, h).value;
            && r.status == Ok
            && Appended(r.log) == w.bytes && Fetched(r.log) == w.fetched
            && WritesOnly(r.log, FilePath(cur))
    decreases fuel, 0, 0
  {
    var v := Value(env, h);
    var nb := (|v| - 1) / HashSize;
    var hashes := v[1..1 + HashSize * nb];
    var r := Download(fuel, env, h, cur, open);
    var p := Parts(fuel - 1, env, nb, hashes, 0, cur, open);
    var pw := PartsWalk(fuel - 1, env, nb, hashes, 0);
    FileWalkOfBigFile(fuel, env, h);
    BigFileDownload(fuel, env, h, cur, open);
    assert Header(cur, h) == [Fetch(h)];
    assert r == Run(p.status, p.open, [Fetch(h)] + p.log);
    assert pw.Some? && FileWalk(fuel, env, h).value == Walk(pw.value.bytes, [h] + pw.value.fetched);
    PartsDownload(fuel - 1, env, nb, hashes, 0, cur, open);
    HeaderThenParts(r, p, FileWalk(fuel, env, h).value, pw.value, h, FilePath(cur));
  }

  lemma FileWalkOfBigFile(fuel: nat, env: Env, h: seq<byte>)
    requires Servable(env) && fuel > 0 && |Value(env, h)| > 0 && Value(env, h)[0] == NodeBigFile
    ensures var v := Value(env, h);
            var nb := (|v| - 1) / HashSize;
            var pw := PartsWalk(fuel - 1, env, nb, v[1..1 + HashSize * nb], 0);
            FileWalk(fuel, env, h) == if pw.None? then None else Some(Walk(pw.value.bytes, [h] + pw.value.fetched))
  {
  }

  lemma HeaderThenParts(r: Run, p: Run, w: Walk, pw: Walk, h: seq<byte>, file: seq<byte>)
    requires r == Run(p.status, p.open, [Fetch(h)] + p.log) && w == Walk(pw.bytes, [h] + pw.fetched)
    requires p.status == Ok && Appended(p.log) == pw.bytes && Fetched(p.log) == pw.fetched
    requires WritesOnly(p.log, file)
    ensures r.status == Ok && Appended(r.log) == w.bytes && Fetched(r.log) == w.fetched
    ensures WritesOnly(r.log, file)
  {
    SingleEffect(Fetch(h));
    LogConcat([Fetch(h)], p.log);
  }

  /** The header fetches the hash and writes, opens and closes nothing. */
  lemma HeaderLog(cur: Cursor, h: seq<byte>)
    ensures var head := Header(cur, h);
            && Appended(head) == [] && Fetched(head) == [h]
            && Opens(head) == 0 && Closes(head) == 0
  {
    var head := Header(cur, h);
    SingleEffect(Fetch(h));
    if cur.op == PrintHash {
      var p := Print(Join(cur.path, cur.name), h);
      assert head == [Fetch(h)] + [p];
      SingleEffect(p);
      LogConcat([Fetch(h)], [p]);
      CountsConcat([Fetch(h)], [p]);
    } else {
      assert head == [Fetch(h)];
    }
  }

  /** A chunk value: the fetch, an open unless the handle is open, and one
      append of the chunk's bytes. */
  lemma ChunkDownload(fuel: nat, env: Env, h: seq<byte>, cur: Cursor, open: bool)
    requires Servable(env) && fuel > 0 && cur.op == DownloadHash
    requires FilePath(cur) !in env.openFails && FilePath(cur) !in env.writeFails
    requires |Value(env, h)| > 0 && Value(env, h)[0] == NodeChunk
    ensures var r := Download(fuel, env, h, cur, open);
            && r.status == Ok
            && Appended(r.log) == Value(env, h)[1..] && Fetched(r.log) == [h]
            && WritesOnly(r.log, FilePath(cur))
  {
    var v := Value(env, h);
    var file := FilePath(cur);
    var tail := if open then [Append(file, v[1..])] else [Open(file), Append(file, v[1..])];
    ChunkRun(fuel, env, h, cur, open);
    ChunkLog(h, file, v[1..], open);
  }

  lemma ChunkRun(fuel: nat, env: Env, h: seq<byte>, cur: Cursor, open: bool)
    requires Servable(env) && fuel > 0 && cur.op == DownloadHash
    requires FilePath(cur) !in env.openFails && FilePath(cur) !in env.writeFails
    requires |Value(env, h)| > 0 && Value(env, h)[0] == NodeChunk
    ensures var file := FilePath(cur);
            var data := Value(env, h)[1..];
            Download(fuel, env, h, cur, open) ==
              Run(Ok, true, [Fetch(h)] + (if open then [] else [Open(file)]) + [Append(file, data)])
  {
    var v := Value(env, h);
    var file := FilePath(cur);
    var objs := ParseValue(v).value;
    assert objs == [ChunkObj(v[1..])];
    assert objs[1..] == [];
    var tail := (if open then [] else [Open(file)]) + [Append(file, v[1..])];
    var o := Object(fuel - 1, env, objs[0], cur, open);
    assert o == Run(Ok, true, tail);
    assert Objects(fuel - 1, env, [], cur, true) == Run(Ok, true, []);
    var os := Objects(fuel - 1, env, objs, cur, open);
    assert os.log == tail + [];
    assert os == Run(Ok, true, tail);
    var r := Download(fuel, env, h, cur, open);
    assert r.log == [Fetch(h)] + tail;
    assert r.status == Ok && r.open;
  }

  lemma ChunkLog(h: seq<byte>, file: seq<byte>, data: seq<byte>, open: bool)
    ensures var log := [Fetch(h)] + (if open then [] else [Open(file)]) + [Append(file, data)];
            Appended(log) == data && Fetched(log) == [h] && WritesOnly(log, file)
  {
    var mid := if open then [] else [Open(file)];
    var log := [Fetch(h)] + mid + [Append(file, data)];
    SingleEffect(Fetch(h));
    SingleEffect(Append(file, data));
    if !open {
      SingleEffect(Open(file));
    }
    LogConcat([Fetch(h)], mid);
    LogConcat([Fetch(h)] + mid, [Append(file, data)]);
  }

  lemma SingleEffect(e: Effect)
    ensures Appended([e]) == (if e.Append? then e.data else [])
    ensures Fetched([e]) == (if e.Fetch? then [e.hash] else [])
    ensures Opens([e]) == (if e.Open? then 1 else 0) && Closes([e]) == (if e.Close? then 1 else 0)
  {
    assert [e][1..] == [];
  }

  /** A BIG_FILE value: the fetch, then the parts loop over its hashes. */
  lemma BigFileDownload(fuel: nat, env: Env, h: seq<byte>, cur: Cursor, open: bool)
    requires Servable(env) && fuel > 0 && cur.op == DownloadHash
    requires |Value(env, h)| > 0 && Value(env, h)[0] == NodeBigFile
    ensures var v := Value(env, h);
            var nb := (|v| - 1) / HashSize;
            var p := Parts(fuel - 1, env, nb, v[1..1 + HashSize * nb], 0, cur, open);
            Download(fuel, env, h, cur, open) == Run(p.status, p.open, Header(cur, h) + p.log)
  {
    var v := Value(env, h);
    var nb := (|v| - 1) / HashSize;
    var hashes := v[1..1 + HashSize * nb];
    var objs := ParseValue(v).value;
    assert objs == [BigFileObj(nb, hashes)];
    var p := Parts(fuel - 1, env, nb, hashes, 0, cur, open);
    assert objs[1..] == [];
    assert Objects(fuel - 1, env, objs, cur, open).log == p.log + [];
    assert p.log + [] == p.log;
  }

  lemma {:induction false} PartsDownload(f: nat, env: Env, nb: nat, hashes: seq<byte>, i: nat, cur: Cursor, open: bool)
    requires Servable(env) && cur.op == DownloadHash
    requires i <= nb && |hashes| == HashSize * nb
    requires FilePath(cur) !in env.openFails && FilePath(cur) !in env.writeFails
    requires PartsWalk(f, env, nb, hashes, i).Some?
    ensures var r := Parts(f, env, nb, hashes, i, cur, open);
            var w := PartsWalk(f, env, nb, hashes, i).value;
            && r.status == Ok
            && Appended(r.log) == w.bytes && Fetched(r.log) == w.fetched
            && WritesOnly(r.log, FilePath(cur))
    decreases f, 1, nb - i
  {
    if i < nb {
      var hi := hashes[HashSize * i..HashSize * i + HashSize];
      FileDownload(f, env, hi, cur, open);
      var first := Download(f, env, hi, cur, open);
      PartsDownload(f, env, nb, hashes, i + 1, cur, first.open);
      var rest := Parts(f, env, nb, hashes, i + 1, cur, first.open);
      LogConcat(first.log, rest.log);
    }
  }

  /** A part whose fetch fails (a missing datum, a hash mismatch, NO_DATUM)
      is skipped: the file is still reported as RESULT_OK, holding only the
      other parts. */
  lemma IgnoredFetchError(fuel: nat, env: Env, h: seq<byte>, h1: seq<byte>, h2: seq<byte>, data: seq<byte>, cur: Cursor)
    requires Servable(env) && fuel >= 3 && cur.op == DownloadHash
    requires FilePath(cur) !in env.openFails && FilePath(cur) !in env.writeFails
    requires |h1| == HashSize && |h2| == HashSize
    requires h in env.remote && env.remote[h] == Exchange.Delivered([NodeBigFile] + h1 + h2)
    requires h1 in env.remote && env.remote[h1] == Exchange.ValueFault
    requires h2 in env.remote && env.remote[h2] == Exchange.Delivered([NodeChunk] + data)
    ensures var r := Download(fuel, env, h, cur, false);
            r.status == Ok && Appended(r.log) == data
  {
    var v := [NodeBigFile] + h1 + h2;
    assert Value(env, h) == v;
    assert (|v| - 1) / HashSize == 2;
    var hashes := v[1..1 + HashSize * 2];
    assert hashes == h1 + h2;
    assert hashes[0..32] == h1 && hashes[32..64] == h2;
    var c2 := [NodeChunk] + data;
    assert Value(env, h2) == c2 && c2[1..] == data;
    assert |Value(env, h1)| == 0;
    assert FileWalk(fuel - 2, env, h1) == Some(Walk([], [h1]));
    assert FileWalk(fuel - 2, env, h2) == Some(Walk(data, [h2]));
    assert PartsWalk(fuel - 1, env, 2, hashes, 2) == Some(Walk([], []));
    assert PartsWalk(fuel - 1, env, 2, hashes, 1) == Some(Walk(data + [], [h2] + []));
    assert PartsWalk(fuel - 1, env, 2, hashes, 0) == Some(Walk([] + (data + []), [h1] + ([h2] + [])));
    assert [] + (data + []) == data;
    FileDownload(fuel, env, h, cur, false);
  }
  // ---------------------------------------------------------------------
  // File handles.

  function Opens(log: seq<Effect>): nat
  {
    if |log| == 0 then 0 else (if log[0].Open? then 1 else 0) + Opens(log[1..])
  }

  function Closes(log: seq<Effect>): nat
  {
    if |log| == 0 then 0 else (if log[0].Close? then 1 else 0) + Closes(log[1..])
  }

  lemma {:induction false} CountsConcat(a: seq<Effect>, b: seq<Effect>)
    ensures Opens(a + b) == Opens(a) + Opens(b)
    ensures Closes(a + b) == Closes(a) + Closes(b)
  {
    if |a| > 0 {
      assert (a + b)[1..] == a[1..] + b;
      CountsConcat(a[1..], b);
    } else {
      assert a + b == b;
    }
  }

  /** A successful walk leaves an open handle open, and every file it
      opens is closed again, except the cursor's own file when the walk
      opened it. */
  predicate Balanced(r: Run, open: bool)
  {
    r.status == Ok ==>
      && (open ==> r.open)
      && Opens(r.log) == Closes(r.log) + if r.open && !open then 1 else 0
  }

  /** A successful walk of a directory value leaves no file open: each
      entry's handle is closed after its walk. */
  lemma DirectoryClosesFiles(fuel: nat, env: Env, h: seq<byte>, cur: Cursor, open: bool)
    requires Servable(env) && fuel > 0
    requires |Value(env, h)| > 0 && Value(env, h)[0] == NodeDirectory
    ensures var r := Download(fuel, env, h, cur, open);
            r.status == Ok ==> r.open == open && Opens(r.log) == Closes(r.log)
  {
    DirectoryKeepsHandle(fuel, env, h, cur, open);
    DownloadBalanced(fuel, env, h, cur, open);
  }

  lemma {:induction false} DownloadBalanced(fuel: nat, env: Env, h: seq<byte>, cur: Cursor, open: bool)
    requires Servable(env)
    ensures Balanced(Download(fuel, env, h, cur, open), open)
    decreases fuel, 0
  {
    if fuel > 0 {
      var v := Value(env, h);
      var head := Header(cur, h);
      HeaderLog(cur, h);
      if |v| > 0 && ParseValue(v).Some? {
        var objs := ParseValue(v).value;
        assert forall o | o in objs :: WellFormedObject(o);
        ObjectsBalanced(fuel - 1, env, objs, cur, open);
        CountsConcat(head, Objects(fuel - 1, env, objs, cur, open).log);
      }
    }
  }

  lemma {:induction false} ObjectsBalanced(f: nat, env: Env, objs: seq<StrObject>, cur: Cursor, open: bool)
    requires Servable(env) && forall o | o in objs :: WellFormedObject(o)
    ensures Balanced(Objects(f, env, objs, cur, open), open)
    decreases f, 3, |objs|
  {
    if |objs| > 0 {
      assert objs[0] in objs;
      var first := Object(f, env, objs[0], cur, open);
      ObjectBalanced(f, env, objs[0], cur, open);
      if first.status == Ok {
        ObjectsBalanced(f, env, objs[1..], cur, first.open);
        CountsConcat(first.log, Objects(f, env, objs[1..], cur, first.open).log);
      }
    }
  }

  lemma {:induction false} ObjectBalanced(f: nat, env: Env, o: StrObject, cur: Cursor, open: bool)
    requires Servable(env) && WellFormedObject(o)
    ensures Balanced(Object(f, env, o, cur, open), open)
    decreases f, 2, 1
  {
    match o
    case ChunkObj(data) =>
      ChunkBalanced(f, env, data, cur, open);
    case BigFileObj(nb, hashes) =>
      if cur.op == DownloadHash {
        PartsBalanced(f, env, nb, hashes, 0, cur, open);
      }
    case EntryObj(name, hash) =>
      EntryBalanced(f, env, name, hash, cur, open);
  }

  lemma ChunkBalanced(f: nat, env: Env, data: seq<byte>, cur: Cursor, open: bool)
    requires Servable(env)
    ensures Balanced(Object(f, env, ChunkObj(data), cur, open), open)
  {
    var file := FilePath(cur);
    var last := [Append(file, data)];
    assert Opens(last) == 0 && Closes(last) == 0 by {
      assert last[1..] == [];
    }
    if !open {
      assert ([Open(file)] + last)[1..] == last;
    } else {
      assert [] + last == last;
    }
  }

  lemma {:induction false} EntryBalanced(f: nat, env: Env, name: seq<byte>, hash: seq<byte>, cur: Cursor, open: bool)
    requires Servable(env) && WellFormedObject(EntryObj(name, hash))
    ensures Balanced(Object(f, env, EntryObj(name, hash), cur, open), open)
    decreases f, 2, 0
  {
    var child := ChildCursor(cur, name);
    var mk := if child.op == DownloadHash then [Mkdir(child.hddPath)] else [];
    assert Opens(mk) == 0 && Closes(mk) == 0 by {
      assert mk == [] || mk[1..] == [];
    }
    var r := Download(f, env, hash, child, false);
    DownloadBalanced(f, env, hash, child, false);
    CountsConcat(mk, r.log);
    if r.status == Ok {
      var close := if r.open then [Close(FilePath(child))] else [];
      assert Opens(close) == 0 && Closes(close) == if r.open then 1 else 0 by {
        assert close == [] || close[1..] == [];
      }
      CountsConcat(mk + r.log, close);
    }
  }

  lemma {:induction false} PartsBalanced(f: nat, env: Env, nb: nat, hashes: seq<byte>, i: nat, cur: Cursor, open: bool)
    requires Servable(env) && i <= nb && |hashes| == HashSize * nb
    ensures Balanced(Parts(f, env, nb, hashes, i, cur, open), open)
    decreases f, 1, nb - i
  {
    if i < nb {
      var hi := hashes[HashSize * i..HashSize * i + HashSize];
      var first := Download(f, env, hi, cur, open);
      DownloadBalanced(f, env, hi, cur, open);
      if first.status == Ok {
        PartsBalanced(f, env, nb, hashes, i + 1, cur, first.open);
        CountsConcat(first.log, Parts(f, env, nb, hashes, i + 1, cur, first.open).log);
      }
    }
  }
}
