/**
  The content-addressed vault: files in a directory tree, puts that run in small steps and may interleave,
  fail or be cut off by a crash at any of them, and reads that verify what they return. The digest is a
  parameter; where a property needs contents to be told apart, it says which contents must not collide.
 */
module Vault {
  import opened Wrappers
  import opened Octets

  type Bytes = seq<byte>

  /** Path components below the vault's root. */
  type Path = seq<string>

  /** `durable` is set once the file has been synced; before that a crash may leave anything under its name. */
  datatype Entry = File(bytes: Bytes, durable: bool) | NotAFile

  datatype VaultError = Io | InvalidDigest | NotRegularFile | TooLarge(limit: nat) | IntegrityMismatch

  datatype StoredContent = StoredContent(sha256: string, byteLength: nat, path: Path, duplicate: bool)

  // ---------------------------------------------------------------- paths

  predicate IsDigest(s: string) {
    |s| == 64 && forall c <- s :: '0' <= c <= '9' || 'a' <= c <= 'f'
  }

  /** `path_for_digest`. */
  function PathForDigest(digest: string): Result<Path, VaultError> {
    if !IsDigest(digest) then Err(InvalidDigest) else Ok([digest[0..2], digest[2..4], digest])
  }

  function TempPath(digest: string, uuid: string): Path
    requires IsDigest(digest)
  {
    [digest[0..2], digest[2..4], "." + digest + ".tmp-" + uuid]
  }

  /** The path of an object: `d` is the digest it belongs to. */
  predicate IsObject(path: Path, d: string) {
    PathForDigest(d) == Ok(path)
  }

  /** Every digest has its own path, and no temporary file is at one. */
  lemma PathsApart(d: string, e: string, uuid: string)
    requires IsDigest(d) && IsDigest(e)
    ensures PathForDigest(d) == PathForDigest(e) ==> d == e
    ensures PathForDigest(d).value != TempPath(e, uuid)
    ensures var path := PathForDigest(d).value;
      |path| == 3 && |path[0]| == |path[1]| == 2 && path[0] + path[1] <= d && path[2] == d
  {
    assert d[0..2] + d[2..4] == d[..4];
    var temp := TempPath(e, uuid);
    assert temp[2][0] == '.';
    assert PathForDigest(d).value[2] == d;
  }

  // ---------------------------------------------------------------- reading

  /** `read_verified_bytes`. The file is looked at once for its kind and size and then opened, and something
      may have replaced it in between. */
  function ReadVerified(hash: Bytes -> string, looked: Option<Entry>, read: Option<Entry>, digest: string,
                        maxBytes: nat)
    : Result<Bytes, VaultError>
  {
    if !IsDigest(digest) then Err(InvalidDigest)
    else if looked.None? then Err(Io)
    else if !looked.value.File? then Err(NotRegularFile)
    else if |looked.value.bytes| > maxBytes then Err(TooLarge(maxBytes))
    else if read.None? || !read.value.File? then Err(Io)
    else if |read.value.bytes| > maxBytes then Err(TooLarge(maxBytes))
    else if hash(read.value.bytes) != digest then Err(IntegrityMismatch)
    else Ok(read.value.bytes)
  }

  /** Whatever happened to the file, what is returned is small enough and has the digest asked for. */
  lemma ReadIsVerified(hash: Bytes -> string, looked: Option<Entry>, read: Option<Entry>, digest: string, maxBytes: nat)
    ensures var r := ReadVerified(hash, looked, read, digest, maxBytes);
      r.Ok? ==> hash(r.value) == digest && |r.value| <= maxBytes && IsDigest(digest)
  {
  }

  // ---------------------------------------------------------------- puts as a step system

  /** A put in progress: `Writing` has created its temporary file and written part of it. */
  datatype Put =
    | Starting(bytes: Bytes)
    | Creating(bytes: Bytes)
    | Writing(bytes: Bytes, uuid: string, written: nat)
    | Synced(bytes: Bytes, uuid: string)

  /** The files, the puts in progress, and the history: all contents ever passed to a put, and those of the
      puts that returned successfully. */
  datatype World = World(files: map<Path, Entry>, puts: map<nat, Put>, given: set<Bytes>, completed: set<Bytes>)

  const START := World(map[], map[], {}, {})

  /** `Stop` is an I/O error at whatever step the put is; `Crash` ends every put and scrambles what was not synced. */
  datatype Step =
    | Begin(put: nat, bytes: Bytes)
    | LookForObject(put: nat)
    | CreateTemp(put: nat, uuid: string)
    | Write(put: nat, amount: nat)
    | Sync(put: nat)
    | Rename(put: nat)
    | RenameFails(put: nat)
    | Stop(put: nat)
    | Crash(files: map<Path, Entry>)

  /** After a crash what was synced is still there, and what was not is anything or gone. */
  predicate Survives(files: map<Path, Entry>, after: map<Path, Entry>) {
    && (forall p <- after :: p in files && (files[p].File? && files[p].durable ==> after[p] == files[p]))
    && (forall p <- files :: files[p].File? && files[p].durable ==> p in after)
    && (forall p <- files ::
          p in after && !(files[p].File? && files[p].durable) && after[p].File? ==> !after[p].durable)
  }

  function Final(hash: Bytes -> string, bytes: Bytes): Path
    requires IsDigest(hash(bytes))
  {
    PathForDigest(hash(bytes)).value
  }

  function Temp(hash: Bytes -> string, bytes: Bytes, uuid: string): Path
    requires IsDigest(hash(bytes))
  {
    TempPath(hash(bytes), uuid)
  }

  predicate Allowed(hash: Bytes -> string, w: World, step: Step) {
    match step
    case Begin(p, bytes) => p !in w.puts && IsDigest(hash(bytes))
    case LookForObject(p) => p in w.puts && w.puts[p].Starting? && IsDigest(hash(w.puts[p].bytes))
    case CreateTemp(p, uuid) =>
      && p in w.puts && w.puts[p].Creating? && IsDigest(hash(w.puts[p].bytes))
      && Temp(hash, w.puts[p].bytes, uuid) !in w.files
    case Write(p, amount) =>
      && p in w.puts && w.puts[p].Writing? && IsDigest(hash(w.puts[p].bytes))
      && w.puts[p].written + amount <= |w.puts[p].bytes|
    case Sync(p) =>
      p in w.puts && w.puts[p].Writing? && IsDigest(hash(w.puts[p].bytes)) && w.puts[p].written == |w.puts[p].bytes|
    case Rename(p) =>
      && p in w.puts && w.puts[p].Synced? && IsDigest(hash(w.puts[p].bytes))
      && Temp(hash, w.puts[p].bytes, w.puts[p].uuid) in w.files
    case RenameFails(p) => p in w.puts && w.puts[p].Synced? && IsDigest(hash(w.puts[p].bytes))
    case Stop(p) => p in w.puts
    case Crash(files) => Survives(w.files, files)
  }

  function Complete(w: World, p: nat): World
    requires p in w.puts
  {
    w.(puts := w.puts - {p}, completed := w.completed + {w.puts[p].bytes})
  }

  function Next(hash: Bytes -> string, w: World, step: Step): World {
    if !Allowed(hash, w, step) then w
    else
      match step
      case Begin(p, bytes) => w.(puts := w.puts[p := Starting(bytes)], given := w.given + {bytes})
      case LookForObject(p) =>
        var bytes := w.puts[p].bytes;
        if Final(hash, bytes) in w.files then Complete(w, p) else w.(puts := w.puts[p := Creating(bytes)])
      case CreateTemp(p, uuid) =>
        var bytes := w.puts[p].bytes;
        w.(files := w.files[Temp(hash, bytes, uuid) := File([], false)], puts := w.puts[p := Writing(bytes, uuid, 0)])
      case Write(p, amount) =>
        var (bytes, uuid, written) := (w.puts[p].bytes, w.puts[p].uuid, w.puts[p].written + amount);
        w.(files := w.files[Temp(hash, bytes, uuid) := File(bytes[..written], false)],
           puts := w.puts[p := Writing(bytes, uuid, written)])
      case Sync(p) =>
        var (bytes, uuid) := (w.puts[p].bytes, w.puts[p].uuid);
        w.(files := w.files[Temp(hash, bytes, uuid) := File(bytes[..w.puts[p].written], true)],
           puts := w.puts[p := Synced(bytes, uuid)])
      case Rename(p) =>
        var (bytes, uuid) := (w.puts[p].bytes, w.puts[p].uuid);
        var temp := Temp(hash, bytes, uuid);
        Complete(w.(files := (w.files - {temp})[Final(hash, bytes) := w.files[temp]]), p)
      case RenameFails(p) =>
        var (bytes, uuid) := (w.puts[p].bytes, w.puts[p].uuid);
        var removed := w.(files := w.files - {Temp(hash, bytes, uuid)});
        if Final(hash, bytes) in w.files then Complete(removed, p) else removed.(puts := w.puts - {p})
      case Stop(p) => w.(puts := w.puts - {p})
      case Crash(files) => w.(files := files, puts := map[])
  }

  function RunSteps(hash: Bytes -> string, w: World, steps: seq<Step>): World {
    if |steps| == 0 then w else Next(hash, RunSteps(hash, w, steps[..|steps| - 1]), steps[|steps| - 1])
  }

  // ---------------------------------------------------------------- the invariant

  /** An object is a synced file of given contents that hashes to its path's digest. */
  ghost predicate ObjectsSound(hash: Bytes -> string, w: World) {
    forall d, path :: IsObject(path, d) && path in w.files ==>
        w.files[path].File? && w.files[path].durable && hash(w.files[path].bytes) == d && w.files[path].bytes in w.given
  }

  /** Every put in progress owns its temporary file, which holds what it has written so far. */
  ghost predicate PutsOwnTemps(hash: Bytes -> string, w: World) {
    && (forall p <- w.puts :: w.puts[p].bytes in w.given && IsDigest(hash(w.puts[p].bytes)))
    && (forall p <- w.puts :: w.puts[p].Writing? ==>
          var put := w.puts[p]; var temp := Temp(hash, put.bytes, put.uuid);
          put.written <= |put.bytes| && temp in w.files && w.files[temp] == File(put.bytes[..put.written], false))
    && (forall p <- w.puts :: w.puts[p].Synced? ==>
          var temp := Temp(hash, w.puts[p].bytes, w.puts[p].uuid);
          temp in w.files && w.files[temp] == File(w.puts[p].bytes, true))
    && (forall p, q :: p in w.puts && q in w.puts && p != q && HasTemp(w.puts[p]) && HasTemp(w.puts[q]) ==>
          Temp(hash, w.puts[p].bytes, w.puts[p].uuid) != Temp(hash, w.puts[q].bytes, w.puts[q].uuid))
  }

  predicate HasTemp(put: Put) {
    put.Writing? || put.Synced?
  }

  /** What a put has completed has an object. */
  ghost predicate CompletedStored(hash: Bytes -> string, w: World) {
    forall b <- w.completed :: b in w.given && IsDigest(hash(b)) && Final(hash, b) in w.files
  }

  ghost predicate Invariant(hash: Bytes -> string, w: World) {
    ObjectsSound(hash, w) && PutsOwnTemps(hash, w) && CompletedStored(hash, w)
  }

  /** Writing under a temporary name leaves every object alone. */
  lemma TempIsNoObject(hash: Bytes -> string, bytes: Bytes, uuid: string, path: Path, d: string)
    requires IsDigest(hash(bytes)) && IsObject(path, d)
    ensures path != Temp(hash, bytes, uuid)
  {
    PathsApart(d, hash(bytes), uuid);
  }

  lemma ObjectsStay(hash: Bytes -> string, w: World, bytes: Bytes, uuid: string, after: World)
    requires ObjectsSound(hash, w) && IsDigest(hash(bytes)) && w.given <= after.given
    requires forall path <- after.files ::
               path == Temp(hash, bytes, uuid) || (path in w.files && after.files[path] == w.files[path])
    ensures ObjectsSound(hash, after)
  {
    hide Temp, IsObject;
    forall d, path | IsObject(path, d) && path in after.files
      ensures path in w.files && after.files[path] == w.files[path]
    {
      TempIsNoObject(hash, bytes, uuid, path, d);
    }
  }

  lemma CompletedStay(hash: Bytes -> string, w: World, bytes: Bytes, uuid: string, after: World)
    requires CompletedStored(hash, w) && IsDigest(hash(bytes)) && w.given <= after.given
    requires after.completed == w.completed
    requires forall path <- w.files :: path == Temp(hash, bytes, uuid) || path in after.files
    ensures CompletedStored(hash, after)
  {
    hide Temp, Final, IsDigest;
    forall b | b in after.completed ensures b in after.given && IsDigest(hash(b)) && Final(hash, b) in after.files {
      FinalIsObject(hash, b);
      TempIsNoObject(hash, bytes, uuid, Final(hash, b), hash(b));
    }
  }

  lemma FinalIsObject(hash: Bytes -> string, bytes: Bytes)
    requires IsDigest(hash(bytes))
    ensures IsObject(Final(hash, bytes), hash(bytes))
  {
  }

  /** A put changes its own temporary file, or creates one where there was none. */
  lemma OwnWrite(hash: Bytes -> string, w: World, p: nat, put: Put, e: Entry)
    requires PutsOwnTemps(hash, w) && p in w.puts && put.bytes == w.puts[p].bytes && HasTemp(put)
    requires IsDigest(hash(put.bytes))
    requires if HasTemp(w.puts[p]) then put.uuid == w.puts[p].uuid else Temp(hash, put.bytes, put.uuid) !in w.files
    requires put.Writing? ==> put.written <= |put.bytes| && e == File(put.bytes[..put.written], false)
    requires put.Synced? ==> e == File(put.bytes, true)
    ensures PutsOwnTemps(hash, w.(files := w.files[Temp(hash, put.bytes, put.uuid) := e], puts := w.puts[p := put]))
  {
    hide Temp, IsDigest;
  }

  /** Creating, writing and syncing change one put and its own temporary file. */
  lemma WritingKeepsInvariant(hash: Bytes -> string, w: World, step: Step)
    requires Invariant(hash, w) && Allowed(hash, w, step)
    requires step.CreateTemp? || step.Write? || step.Sync?
    ensures Invariant(hash, Next(hash, w, step))
  {
    hide Temp, Final, IsDigest, ObjectsSound, CompletedStored;
    var bytes := w.puts[step.put].bytes;
    var uuid := if step.CreateTemp? then step.uuid else w.puts[step.put].uuid;
    var after := Next(hash, w, step);
    assert bytes[..|bytes|] == bytes && bytes[..0] == [];
    ObjectsStay(hash, w, bytes, uuid, after);
    CompletedStay(hash, w, bytes, uuid, after);
    OwnWrite(hash, w, step.put, after.puts[step.put], after.files[Temp(hash, bytes, uuid)]);
    hide PutsOwnTemps;
  }

  /** The rename puts a synced file of the right contents at the digest's path, replacing only its equal. */
  lemma RenameKeepsInvariant(hash: Bytes -> string, w: World, p: nat)
    requires Invariant(hash, w) && Allowed(hash, w, Rename(p))
    ensures Invariant(hash, Next(hash, w, Rename(p)))
  {
    var bytes, uuid := w.puts[p].bytes, w.puts[p].uuid;
    FinalIsObject(hash, bytes);
    hide Temp, Final, IsDigest;
    var after := Next(hash, w, Rename(p));
    forall d, path | IsObject(path, d) && path in after.files
      ensures after.files[path].File? && after.files[path].durable && hash(after.files[path].bytes) == d
              && after.files[path].bytes in after.given
    {
      if path == Final(hash, bytes) { PathsApart(d, hash(bytes), uuid); }
    }
  }

  lemma RenameFailsKeepsInvariant(hash: Bytes -> string, w: World, p: nat)
    requires Invariant(hash, w) && Allowed(hash, w, RenameFails(p))
    ensures Invariant(hash, Next(hash, w, RenameFails(p)))
  {
    var bytes, uuid := w.puts[p].bytes, w.puts[p].uuid;
    hide Temp, Final, IsDigest, ObjectsSound;
    var after := Next(hash, w, RenameFails(p));
    ObjectsStay(hash, w, bytes, uuid, after);
    CompletedStay(hash, w, bytes, uuid, after.(completed := w.completed));
    if Final(hash, bytes) in w.files {
      FinalIsObject(hash, bytes);
      TempIsNoObject(hash, bytes, uuid, Final(hash, bytes), hash(bytes));
    }
  }

  lemma CrashKeepsInvariant(hash: Bytes -> string, w: World, files: map<Path, Entry>)
    requires Invariant(hash, w) && Allowed(hash, w, Crash(files))
    ensures Invariant(hash, Next(hash, w, Crash(files)))
  {
    hide Temp, Final, IsDigest;
    assert PutsOwnTemps(hash, Next(hash, w, Crash(files)));
    hide PutsOwnTemps;
    forall b | b in w.completed ensures IsDigest(hash(b)) && Final(hash, b) in files {
      FinalIsObject(hash, b);
    }
  }

  /** A put that ends leaves the others alone. */
  lemma EndedPut(hash: Bytes -> string, w: World, p: nat)
    requires PutsOwnTemps(hash, w) && p in w.puts
    ensures PutsOwnTemps(hash, w.(puts := w.puts - {p}))
    ensures forall b :: PutsOwnTemps(hash, w.(puts := w.puts - {p}, completed := w.completed + {b}))
  {
    hide Temp, IsDigest;
  }

  /** A put that has no temporary file yet. */
  lemma EarlyPut(hash: Bytes -> string, w: World, p: nat, put: Put)
    requires PutsOwnTemps(hash, w) && !HasTemp(put) && IsDigest(hash(put.bytes))
    requires p in w.puts ==> !HasTemp(w.puts[p])
    ensures PutsOwnTemps(hash, w.(puts := w.puts[p := put], given := w.given + {put.bytes}))
  {
    hide Temp, IsDigest;
  }

  lemma NoFileChanges(hash: Bytes -> string, w: World, step: Step)
    requires Invariant(hash, w) && Allowed(hash, w, step)
    requires step.Begin? || step.LookForObject? || step.Stop?
    ensures Invariant(hash, Next(hash, w, step))
  {
    hide Temp, Final, IsDigest, ObjectsSound;
    SameFiles(hash, w, Next(hash, w, step));
    match step
    case Begin(p, bytes) => EarlyPut(hash, w, p, Starting(bytes));
    case LookForObject(p) =>
      assert w.given + {w.puts[p].bytes} == w.given;
      EarlyPut(hash, w, p, Creating(w.puts[p].bytes));
      EndedPut(hash, w, p);
    case Stop(p) => EndedPut(hash, w, p);
  }

  lemma SameFiles(hash: Bytes -> string, w: World, after: World)
    requires ObjectsSound(hash, w) && after.files == w.files && w.given <= after.given
    ensures ObjectsSound(hash, after)
  {
    hide IsObject;
  }

  lemma NextKeepsInvariant(hash: Bytes -> string, w: World, step: Step)
    requires Invariant(hash, w)
    ensures Invariant(hash, Next(hash, w, step))
  {
    hide Temp, Final, IsDigest, Allowed, Invariant, Complete;
    if Allowed(hash, w, step) {
      match step
      case Rename(p) => RenameKeepsInvariant(hash, w, p);
      case RenameFails(p) => RenameFailsKeepsInvariant(hash, w, p);
      case Crash(files) => CrashKeepsInvariant(hash, w, files);
      case CreateTemp(_, _) => WritingKeepsInvariant(hash, w, step);
      case Write(_, _) => WritingKeepsInvariant(hash, w, step);
      case Sync(_) => WritingKeepsInvariant(hash, w, step);
      case _ => NoFileChanges(hash, w, step);
    }
  }

  // ---------------------------------------------------------------- over every run

  lemma {:induction false} InvariantHolds(hash: Bytes -> string, steps: seq<Step>)
    ensures Invariant(hash, RunSteps(hash, START, steps))
  {
    hide Next, Invariant;
    if |steps| == 0 {
      StartInvariant(hash);
    } else {
      InvariantHolds(hash, steps[..|steps| - 1]);
      NextKeepsInvariant(hash, RunSteps(hash, START, steps[..|steps| - 1]), steps[|steps| - 1]);
    }
  }

  lemma StartInvariant(hash: Bytes -> string)
    ensures Invariant(hash, START)
  {
  }

  /** Under any interleaving of put steps, failures and crashes the object at a digest's path is absent or
      hashes to that digest. */
  lemma ObjectHashesToItsPath(hash: Bytes -> string, steps: seq<Step>, digest: string, path: Path)
    requires PathForDigest(digest) == Ok(path) && path in RunSteps(hash, START, steps).files
    ensures var entry := RunSteps(hash, START, steps).files[path]; entry.File? && hash(entry.bytes) == digest
  {
    hide RunSteps, PutsOwnTemps, CompletedStored;
    InvariantHolds(hash, steps);
    assert IsObject(path, digest);
  }

  function Lookup(files: map<Path, Entry>, digest: string): Option<Entry> {
    var path := PathForDigest(digest);
    if path.Ok? && path.value in files then Some(files[path.value]) else None
  }

  ghost predicate NoCollision(hash: Bytes -> string, contents: set<Bytes>) {
    forall a, b :: a in contents && b in contents && hash(a) == hash(b) ==> a == b
  }

  /** A put that completed stays completed, whatever steps and crashes follow. */
  lemma {:induction false} CompletedForever(hash: Bytes -> string, w: World, steps: seq<Step>)
    ensures w.completed <= RunSteps(hash, w, steps).completed && w.given <= RunSteps(hash, w, steps).given
  {
    hide Next;
    if |steps| > 0 {
      CompletedForever(hash, w, steps[..|steps| - 1]);
      NextForgetsNothing(hash, RunSteps(hash, w, steps[..|steps| - 1]), steps[|steps| - 1]);
    }
  }

  lemma NextForgetsNothing(hash: Bytes -> string, w: World, step: Step)
    ensures w.completed <= Next(hash, w, step).completed && w.given <= Next(hash, w, step).given
  {
    hide Temp, Final, IsDigest;
  }

  lemma {:induction false} RunJoins(hash: Bytes -> string, w: World, first: seq<Step>, rest: seq<Step>)
    ensures RunSteps(hash, w, first + rest) == RunSteps(hash, RunSteps(hash, w, first), rest)
  {
    hide Next;
    if |rest| == 0 {
      assert first + rest == first;
    } else {
      RunJoins(hash, w, first, rest[..|rest| - 1]);
      assert (first + rest)[..|first + rest| - 1] == first + rest[..|rest| - 1];
    }
  }

  lemma ReadsBack(hash: Bytes -> string, w: World, bytes: Bytes, maxBytes: nat)
    requires Invariant(hash, w) && bytes in w.completed && NoCollision(hash, w.given)
    ensures var found := Lookup(w.files, hash(bytes));
      ReadVerified(hash, found, found, hash(bytes), maxBytes)
      == (if |bytes| <= maxBytes then Ok(bytes) else Err(TooLarge(maxBytes)))
  {
    hide PutsOwnTemps, IsDigest;
    FinalIsObject(hash, bytes);
  }

  /** What a put completed reads back after any further steps, failures and crashes: the contents themselves if
      they fit the limit, and the limit error otherwise. */
  lemma CompletedReadsBack(hash: Bytes -> string, steps: seq<Step>, more: seq<Step>, bytes: Bytes, maxBytes: nat)
    requires bytes in RunSteps(hash, START, steps).completed
    requires NoCollision(hash, RunSteps(hash, START, steps + more).given)
    ensures var found := Lookup(RunSteps(hash, START, steps + more).files, hash(bytes));
      ReadVerified(hash, found, found, hash(bytes), maxBytes)
      == (if |bytes| <= maxBytes then Ok(bytes) else Err(TooLarge(maxBytes)))
  {
    hide RunSteps, Invariant, ReadVerified, Lookup, NoCollision;
    RunJoins(hash, START, steps, more);
    CompletedForever(hash, RunSteps(hash, START, steps), more);
    InvariantHolds(hash, steps + more);
    ReadsBack(hash, RunSteps(hash, START, steps + more), bytes, maxBytes);
  }

  // ---------------------------------------------------------------- one put, uninterrupted

  /** The files after a put that failed: a write or sync error leaves what was written under the temporary name. */
  function Abandoned(files: map<Path, Entry>, temp: Path, bytes: Bytes, fault: Fault): map<Path, Entry>
    requires fault.WriteFails? ==> fault.written <= |bytes|
  {
    if temp in files then files
    else
      match fault
      case WriteFails(written) => files[temp := File(bytes[..written], false)]
      case SyncFails => files[temp := File(bytes, false)]
      case _ => files
  }

  /** What each step of writing makes of the world. */
  lemma WritingSteps(hash: Bytes -> string, w: World, p: nat, bytes: Bytes, uuid: string, amount: nat)
    requires p in w.puts && IsDigest(hash(bytes)) && w.puts[p].bytes == bytes && amount <= |bytes|
    ensures Allowed(hash, w, Stop(p)) && Next(hash, w, Stop(p)) == w.(puts := w.puts - {p})
    ensures w.puts[p].Creating? && Temp(hash, bytes, uuid) !in w.files ==>
              && Allowed(hash, w, CreateTemp(p, uuid))
              && Next(hash, w, CreateTemp(p, uuid)) == AfterWrite(hash, w, p, bytes, uuid, 0)
    ensures w.puts[p] == Writing(bytes, uuid, 0) ==>
              && Allowed(hash, w, Write(p, amount))
              && Next(hash, w, Write(p, amount)) == AfterWrite(hash, w, p, bytes, uuid, amount)
    ensures w.puts[p] == Writing(bytes, uuid, |bytes|) ==>
              Allowed(hash, w, Sync(p)) && Next(hash, w, Sync(p)) ==
                w.(files := w.files[Temp(hash, bytes, uuid) := File(bytes, true)],
                   puts := w.puts[p := Synced(bytes, uuid)])
  {
    hide Temp, IsDigest;
    assert bytes[..|bytes|] == bytes && bytes[..0] == [];
  }

  /** What looking, renaming and failing to rename make of the world. */
  lemma MovingSteps(hash: Bytes -> string, w: World, p: nat, bytes: Bytes, uuid: string)
    requires IsDigest(hash(bytes)) && Final(hash, bytes) != Temp(hash, bytes, uuid)
    ensures p !in w.puts ==>
              Next(hash, w, Begin(p, bytes)) == w.(puts := w.puts[p := Starting(bytes)], given := w.given + {bytes})
    ensures p in w.puts && w.puts[p] == Starting(bytes) ==>
              Next(hash, w, LookForObject(p)) ==
              (if Final(hash, bytes) in w.files then Complete(w, p) else w.(puts := w.puts[p := Creating(bytes)]))
    ensures p in w.puts && w.puts[p] == Synced(bytes, uuid) && Temp(hash, bytes, uuid) in w.files ==>
              Next(hash, w, Rename(p)) == Complete(AfterRename(hash, w, bytes, uuid), p)
    ensures p in w.puts && w.puts[p] == Synced(bytes, uuid) ==>
              var removed := w.(files := w.files - {Temp(hash, bytes, uuid)});
              Next(hash, w, RenameFails(p)) ==
              (if Final(hash, bytes) in w.files then Complete(removed, p) else removed.(puts := w.puts - {p}))
  {
    hide Temp, Final, IsDigest;
  }

  function AfterRename(hash: Bytes -> string, w: World, bytes: Bytes, uuid: string): World
    requires IsDigest(hash(bytes)) && Temp(hash, bytes, uuid) in w.files
  {
    w.(files := (w.files - {Temp(hash, bytes, uuid)})[Final(hash, bytes) := w.files[Temp(hash, bytes, uuid)]])
  }

  function AfterWrite(hash: Bytes -> string, w: World, p: nat, bytes: Bytes, uuid: string, written: nat): World
    requires IsDigest(hash(bytes)) && written <= |bytes|
  {
    w.(files := w.files[Temp(hash, bytes, uuid) := File(bytes[..written], false)],
       puts := w.puts[p := Writing(bytes, uuid, written)])
  }

  datatype Fault = NoFault | CreateFails | WriteFails(written: nat) | SyncFails | RenameRefused

  class ContentVault {
    const hash: Bytes -> string
    var files: map<Path, Entry>
    ghost var world: World

    ghost predicate Valid()
      reads this
    {
      world.files == files && Invariant(hash, world)
    }

    constructor (hash: Bytes -> string)
      ensures Valid() && this.hash == hash && world == START
    {
      this.hash := hash;
      files := map[];
      world := START;
      new;
      StartInvariant(hash);
    }

    /** `put_bytes` with the put's number in the step system, the temporary file's UUID and the I/O error it meets. */
    method PutBytes(ghost p: nat, bytes: Bytes, uuid: string, fault: Fault)
      returns (r: Result<StoredContent, VaultError>)
      requires Valid() && p !in world.puts
      requires fault.WriteFails? ==> fault.written <= |bytes|
      modifies this
      ensures Valid() && p !in world.puts
      ensures !IsDigest(hash(bytes)) ==> r == Err(InvalidDigest) && files == old(files)
      ensures r.Ok? ==>
                && r.value == StoredContent(hash(bytes), |bytes|, Final(hash, bytes), Final(hash, bytes) in old(files))
                && files == (if r.value.duplicate then old(files)
                             else old(files)[Final(hash, bytes) := File(bytes, true)])
                && bytes in world.completed
      ensures IsDigest(hash(bytes)) ==>
                (r.Ok? <==>
                 (Final(hash, bytes) in old(files) || (fault.NoFault? && Temp(hash, bytes, uuid) !in old(files))))
      ensures IsDigest(hash(bytes)) && r.Err? ==>
                r == Err(Io) && files == Abandoned(old(files), Temp(hash, bytes, uuid), bytes, fault)
    {
      hide Invariant, ObjectsSound, PutsOwnTemps, CompletedStored, Temp, Final, IsDigest, Next, Allowed;
      var sha256 := hash(bytes);
      if !IsDigest(sha256) { return Err(InvalidDigest); }
      var final, temp := Final(hash, bytes), Temp(hash, bytes, uuid);
      assert final != temp by { FinalIsObject(hash, bytes); TempIsNoObject(hash, bytes, uuid, final, sha256); }
      var stored := StoredContent(sha256, |bytes|, final, true);
      MovingSteps(hash, world, p, bytes, uuid);
      Record(Begin(p, bytes));
      MovingSteps(hash, world, p, bytes, uuid);
      if final in files {
        Record(LookForObject(p));
        return Ok(stored);
      }
      Record(LookForObject(p));
      var synced := WriteDurably(p, bytes, uuid, fault);
      if !synced { return Err(Io); }
      MovingSteps(hash, world, p, bytes, uuid);
      if fault.RenameRefused? {
        var appeared := final in files;
        files := files - {temp};
        Record(RenameFails(p));
        return if appeared then Ok(stored) else Err(Io);
      }
      files := (files - {temp})[final := files[temp]];
      Record(Rename(p));
      return Ok(stored.(duplicate := false));
    }

    /** The temporary file is created, written and synced; after an error it is left as it is. */
    method WriteDurably(ghost p: nat, bytes: Bytes, uuid: string, fault: Fault) returns (synced: bool)
      requires Valid() && p in world.puts && world.puts[p] == Creating(bytes) && IsDigest(hash(bytes))
      requires fault.WriteFails? ==> fault.written <= |bytes|
      modifies this
      ensures Valid() && world.completed == old(world).completed
      ensures synced == (!(fault.CreateFails? || fault.WriteFails? || fault.SyncFails?)
                         && Temp(hash, bytes, uuid) !in old(files))
      ensures synced ==>
                files == old(files)[Temp(hash, bytes, uuid) := File(bytes, true)] && p in world.puts
                && world.puts[p] == Synced(bytes, uuid)
      ensures !synced ==>
                files == Abandoned(old(files), Temp(hash, bytes, uuid), bytes, fault) && p !in world.puts
    {
      hide Invariant, ObjectsSound, PutsOwnTemps, CompletedStored, Temp, Final, IsDigest, Next, Allowed;
      var temp := Temp(hash, bytes, uuid);
      WritingSteps(hash, world, p, bytes, uuid, 0);
      if fault.CreateFails? || temp in files { Record(Stop(p)); return false; }
      assert bytes[..0] == [] && bytes[..|bytes|] == bytes;
      files := files[temp := File([], false)];
      Record(CreateTemp(p, uuid));
      var written := if fault.WriteFails? then fault.written else |bytes|;
      files := files[temp := File(bytes[..written], false)];
      WritingSteps(hash, world, p, bytes, uuid, written);
      Record(Write(p, written));
      WritingSteps(hash, world, p, bytes, uuid, 0);
      if fault.WriteFails? || fault.SyncFails? { Record(Stop(p)); return false; }
      files := files[temp := File(bytes, true)];
      Record(Sync(p));
      return true;
    }

    /** The history takes the step that was just made. */
    ghost method Record(step: Step)
      modifies this`world
      ensures world == Next(hash, old(world), step)
      ensures Invariant(hash, old(world)) ==> Invariant(hash, world)
    {
      hide Invariant, Next;
      if Invariant(hash, world) { NextKeepsInvariant(hash, world, step); }
      world := Next(hash, world, step);
    }
  }
}
