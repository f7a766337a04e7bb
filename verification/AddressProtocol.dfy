/** The CLI's change of address, interleaved with panel starts that take their own steps. */
module AddressProtocol {
  import opened Basics
  import opened Seeds
  import opened PanelAddress

  /** A start in progress: it has read the file, or it has also decided its address. */
  datatype Launch = Read(seed: Seed) | Decided(eff: Effective, seed: Seed)

  /** How far the CLI has got since its first Set, or since the Set that begins its rollback. */
  datatype Phase = RowStored | FileWritten | Reseeded | RowBack | Restored

  datatype World = World(row: Stored, launches: map<nat, Launch>, phase: Phase)

  /** A launch reads the file, loads and decides, saves; a bound port is recorded; the CLI goes on. */
  datatype Step = ReadFile(id: nat) | Decide(id: nat) | Save(id: nat) | Record(port: int) | CliStep

  /** A reading of a file the panel starts on: nothing from flags, and a port in range. */
  predicate Plain(file: Option<Seed>) {
    file.Some? ==> !file.value.portFromFlag && !file.value.webPathFromFlag && IsPort(file.value.port)
  }

  /** Where the file names an address at all, it names this one. */
  predicate NamesNoOther(file: Option<Seed>, port: int, webPath: string) {
    file.Some? ==>
      && (file.value.portProvided ==> file.value.port == port)
      && (file.value.webPathProvided ==> file.value.webPath == webPath)
  }

  /** What the CLI was asked for, the seed it found, and what the panel makes of the file
      as found, as written and as put back (None where the panel refuses to start on it). */
  datatype Change = Change(port: int, webPath: string, found: Seed,
                           oldFile: Option<Seed>, newFile: Option<Seed>, restoredFile: Option<Seed>) {
    predicate Valid() { IsPort(port) && Plain(oldFile) && Plain(newFile) && restoredFile == oldFile }

    /** The file as found names no other address, and so does the file as written: a key that is
        assigned twice can hide what was written. */
    predicate AlreadyNamed() { NamesNoOther(oldFile, port, webPath) }

    predicate Named() { NamesNoOther(newFile, port, webPath) }

    /** What a start reads now. */
    function FileNow(phase: Phase): Option<Seed> {
      match phase
      case RowStored => oldFile
      case FileWritten => newFile
      case Reseeded => newFile
      case RowBack => newFile
      case Restored => restoredFile
    }
  }

  /** An address in a row that records this seed outlasts a start from this reading. */
  predicate Stands(read: Option<Seed>, seen: Seed, port: int, webPath: string) {
    read.Some? ==>
      && (read.value.portProvided ==> read.value.port == seen.port || read.value.port == port)
      && (read.value.webPathProvided ==> read.value.webPath == seen.webPath || read.value.webPath == webPath)
  }

  function SeedOf(row: Stored): Seed { Seed(row.seedPort, row.seedWebPath, false, false, false, false) }

  predicate Serves(c: Change, eff: Effective) { eff.port == c.port && eff.webPath == c.webPath }

  /** The address is the one asked for, whatever has been recorded as the seed. */
  predicate Holds(c: Change, row: Stored) { At(row, c.port, c.webPath) }

  function Next(c: Change, w: World, s: Step): World {
    match s
    case ReadFile(id) =>
      if id in w.launches || c.FileNow(w.phase).None? then w
      else w.(launches := w.launches[id := Read(c.FileNow(w.phase).value)])
    case Decide(id) =>
      if id in w.launches && w.launches[id].Read? then
        w.(launches := w.launches[id := Decided(Resolve(w.row, w.launches[id].seed), w.launches[id].seed)])
      else w
    case Save(id) =>
      if id in w.launches && w.launches[id].Decided? then
        var l := w.launches[id];
        w.(row := Written(w.row, l.eff.port, l.eff.webPath, l.seed), launches := w.launches - {id})
      else w
    case Record(port) => w.(row := WithLastGood(w.row, port))
    case CliStep =>
      match w.phase
      case RowStored => w.(phase := FileWritten)
      case FileWritten =>
        w.(row := Written(w.row, c.port, c.webPath, Seed(c.port, c.webPath, false, false, false, false)),
           phase := Reseeded)
      case Reseeded => w
      case RowBack => w.(phase := Restored)
      case Restored => w
  }

  function After(c: Change, w: World, steps: seq<Step>): World {
    if steps == [] then w else Next(c, After(c, w, steps[..|steps| - 1]), steps[|steps| - 1])
  }

  /** The CLI has just run its first Set; starts in progress have read the file as found,
      and may have decided on anything. */
  predicate JustStored(c: Change, w: World) {
    && w.phase == RowStored && Holds(c, w.row)
    && forall id | id in w.launches :: Some(w.launches[id].seed) == c.oldFile
  }

  /** Every start that has decided has decided on the address asked for. */
  predicate DecidedServe(c: Change, w: World) {
    forall id | id in w.launches && w.launches[id].Decided? :: Serves(c, w.launches[id].eff)
  }

  /** The start read the file as found, and decides on a row that has recorded another reading
      of it since: the CLI's of the file it has written, or another start's. */
  predicate Overtaken(c: Change, w: World, s: Step) {
    && s.Decide? && s.id in w.launches && w.launches[s.id].Read?
    && Some(w.launches[s.id].seed) == c.oldFile
    && var seed := w.launches[s.id].seed;
       (seed.portProvided && seed.port != w.row.seedPort) || (seed.webPathProvided && seed.webPath != w.row.seedWebPath)
  }

  // ------------------------------------------------------------------ what never changes

  ghost predicate LaunchOk(c: Change, phase: Phase, l: Launch) {
    && (Some(l.seed) == c.oldFile || (phase != RowStored && Some(l.seed) == c.newFile))
    && (l.Decided? ==> Serves(c, l.eff))
  }

  ghost predicate Invariant(c: Change, w: World) {
    && w.phase in {RowStored, FileWritten, Reseeded} && Holds(c, w.row)
    && forall id | id in w.launches :: LaunchOk(c, w.phase, w.launches[id])
  }

  /** No step but an overtaken decision can disturb the change. */
  lemma {:induction false} StepKeeps(c: Change, w: World, s: Step)
    requires c.Valid() && c.Named() && Invariant(c, w)
    requires Overtaken(c, w, s) ==> c.AlreadyNamed()
    ensures Invariant(c, Next(c, w, s))
  {
    if (s.Decide? || s.Save?) && s.id in w.launches {
      assert LaunchOk(c, w.phase, w.launches[s.id]);
    }
  }

  /** Along the run, no start is overtaken. */
  ghost predicate NeverOvertaken(c: Change, w: World, steps: seq<Step>) {
    forall k | 0 <= k < |steps| :: !Overtaken(c, After(c, w, steps[..k]), steps[k])
  }

  lemma {:induction false} RunKeeps(c: Change, w: World, steps: seq<Step>)
    requires c.Valid() && c.Named() && JustStored(c, w) && DecidedServe(c, w)
    requires NeverOvertaken(c, w, steps) || c.AlreadyNamed()
    ensures Invariant(c, After(c, w, steps))
  {
    if steps != [] {
      var n := |steps| - 1;
      assert forall k | 0 <= k < n :: steps[..n][..k] == steps[..k];
      RunKeeps(c, w, steps[..n]);
      StepKeeps(c, After(c, w, steps[..n]), steps[n]);
    }
  }

  /** Until the file is written, the found file has nothing to say that the row has not on record. */
  ghost predicate FoundRecorded(c: Change, w: World) {
    && Stands(c.oldFile, SeedOf(w.row), c.port, c.webPath)
    && forall id | id in w.launches :: Some(w.launches[id].seed) == c.oldFile
  }

  lemma {:induction false} FoundStep(c: Change, w: World, s: Step)
    requires w.phase == RowStored && FoundRecorded(c, w) && Next(c, w, s).phase == RowStored
    ensures FoundRecorded(c, Next(c, w, s))
  {
  }

  lemma {:induction false} FoundStays(c: Change, w: World, steps: seq<Step>)
    requires w.phase == RowStored && FoundRecorded(c, w)
    ensures After(c, w, steps).phase == RowStored ==> FoundRecorded(c, After(c, w, steps))
  {
    if steps != [] {
      var n := |steps| - 1;
      FoundStays(c, w, steps[..n]);
      if After(c, w, steps).phase == RowStored {
        FoundStep(c, After(c, w, steps[..n]), steps[n]);
      }
    }
  }

  /** No lost change: from the first Set on, however starts interleave with the CLI step by step,
      the row keeps the wanted address, every start in progress has decided on it, and a start made
      now from the file as it stands would serve it (the file as found, if the first Set's row had
      anything it supplies on record). */
  lemma {:induction false} NoLostChange(c: Change, w: World, steps: seq<Step>)
    requires c.Valid() && c.Named() && JustStored(c, w) && DecidedServe(c, w)
    requires NeverOvertaken(c, w, steps) || c.AlreadyNamed()
    ensures var now := After(c, w, steps);
            && Holds(c, now.row) && DecidedServe(c, now)
            && (c.FileNow(now.phase).Some? && (now.phase != RowStored || Stands(c.oldFile, SeedOf(w.row), c.port, c.webPath)) ==>
                  Serves(c, Resolve(now.row, c.FileNow(now.phase).value)))
  {
    RunKeeps(c, w, steps);
    if Stands(c.oldFile, SeedOf(w.row), c.port, c.webPath) {
      FoundStays(c, w, steps);
    }
    var now := After(c, w, steps);
    forall id | id in now.launches && now.launches[id].Decided? ensures Serves(c, now.launches[id].eff) {
      assert LaunchOk(c, now.phase, now.launches[id]);
    }
  }

  // -------------------------------------------------------------------- the exact condition

  /** Every interleaving keeps the address in the row exactly when neither the file as found nor the
      file as written names another, and every start caught between deciding and saving by the
      first Set had decided on it. */
  lemma {:induction false} EveryRunKeepsIff(c: Change, w: World)
    requires c.Valid() && JustStored(c, w)
    ensures c.AlreadyNamed() && c.Named() && DecidedServe(c, w)
            <==> forall steps: seq<Step> :: Holds(c, After(c, w, steps).row)
  {
    if c.AlreadyNamed() && c.Named() && DecidedServe(c, w) {
      forall steps: seq<Step> ensures Holds(c, After(c, w, steps).row) {
        NoLostChange(c, w, steps);
      }
    } else {
      var steps := LosingRun(c, w);
    }
  }

  lemma {:induction false} LosingRun(c: Change, w: World) returns (steps: seq<Step>)
    requires c.Valid() && JustStored(c, w) && !(c.AlreadyNamed() && c.Named() && DecidedServe(c, w))
    ensures !Holds(c, After(c, w, steps).row)
  {
    if !DecidedServe(c, w) {
      steps := SavedTooLate(c, w);
    } else if !c.AlreadyNamed() {
      steps := OvertakenRun(c, w);
    } else {
      steps := HiddenRun(c, w);
    }
  }

  /** The decision that was already made, saved. */
  lemma {:induction false} SavedTooLate(c: Change, w: World) returns (steps: seq<Step>)
    requires !DecidedServe(c, w)
    ensures !Holds(c, After(c, w, steps).row)
  {
    var id :| id in w.launches && w.launches[id].Decided? && !Serves(c, w.launches[id].eff);
    steps := OneMore(c, w, [], Save(id));
  }

  /** The CLI's own two steps, with a start's reading of the file before or after them. */
  lemma {:induction false} Reseed(c: Change, w: World, steps: seq<Step>) returns (more: seq<Step>)
    requires After(c, w, steps).phase == RowStored
    ensures more == steps + [CliStep] + [CliStep]
    ensures After(c, w, more) == World(Written(After(c, w, steps).row, c.port, c.webPath,
                                               Seed(c.port, c.webPath, false, false, false, false)),
                                       After(c, w, steps).launches, Reseeded)
  {
    more := OneMore(c, w, steps, CliStep);
    more := OneMore(c, w, more, CliStep);
  }

  /** A start that decides on a row with the wanted seed, from a file that names another address. */
  lemma {:induction false} DecidesOther(c: Change, w: World, steps: seq<Step>, id: nat, seed: Seed) returns (more: seq<Step>)
    requires c.Valid() && Plain(Some(seed)) && !NamesNoOther(Some(seed), c.port, c.webPath)
    requires var now := After(c, w, steps);
             && id in now.launches && now.launches[id] == Read(seed)
             && Holds(c, now.row) && now.row.seedPort == c.port && now.row.seedWebPath == c.webPath
    ensures !Holds(c, After(c, w, more).row)
  {
    more := OneMore(c, w, steps, Decide(id));
    more := OneMore(c, w, more, Save(id));
  }

  /** The schedule that loses the change to the file as found: read, write, reseed, decide, save. */
  lemma {:induction false} OvertakenRun(c: Change, w: World) returns (steps: seq<Step>)
    requires c.Valid() && JustStored(c, w) && !c.AlreadyNamed()
    ensures !Holds(c, After(c, w, steps).row)
  {
    var id := FreshId(w.launches);
    steps := OneMore(c, w, [], ReadFile(id));
    steps := Reseed(c, w, steps);
    steps := DecidesOther(c, w, steps, id, c.oldFile.value);
  }

  /** And to the file as written, where it hides what was written: write, reseed, read, decide, save. */
  lemma {:induction false} HiddenRun(c: Change, w: World) returns (steps: seq<Step>)
    requires c.Valid() && JustStored(c, w) && !c.Named()
    ensures !Holds(c, After(c, w, steps).row)
  {
    var id := FreshId(w.launches);
    steps := Reseed(c, w, []);
    steps := OneMore(c, w, steps, ReadFile(id));
    steps := DecidesOther(c, w, steps, id, c.newFile.value);
  }

  lemma {:induction false} AfterSnoc(c: Change, w: World, steps: seq<Step>, s: Step)
    ensures After(c, w, steps + [s]) == Next(c, After(c, w, steps), s)
  {
    assert (steps + [s])[..|steps|] == steps;
  }

  /** There is always a name for one more start. */
  lemma {:induction false} FreshId(launches: map<nat, Launch>) returns (id: nat)
    ensures forall k | k in launches :: k < id
    decreases |launches|
  {
    id := 0;
    if launches != map[] {
      var k :| k in launches;
      var others := launches - {k};
      assert others.Keys == launches.Keys - {k} && |others.Keys| == |launches.Keys| - 1;
      var below := FreshId(others);
      id := if below <= k then k + 1 else below;
      forall j | j in launches ensures j < id {
        assert j != k ==> j in others;
      }
    }
  }

  lemma {:induction false} OneMore(c: Change, w: World, steps: seq<Step>, s: Step) returns (more: seq<Step>)
    ensures more == steps + [s] && After(c, w, more) == Next(c, After(c, w, steps), s)
  {
    AfterSnoc(c, w, steps, s);
    more := steps + [s];
  }

  // ------------------------------------------------------------------------ after a stale save

  /** What the start after a stale save makes of the written file, for whatever address was saved
      with the found file's reading: each half comes right exactly when the written file has the
      wanted value to say and it is news, or has nothing new to say and the saved value is right. */
  lemma {:induction false} AfterStaleSave(c: Change, row: Stored, eff: Effective)
    requires c.Valid() && c.oldFile.Some? && c.newFile.Some? && IsPort(eff.port)
    ensures var later := Resolve(Written(row, eff.port, eff.webPath, c.oldFile.value), c.newFile.value);
            && (later.port == c.port <==> (if PortStays(c) then eff.port else c.newFile.value.port) == c.port)
            && (later.webPath == c.webPath <==> (if PathStays(c) then eff.webPath else c.newFile.value.webPath) == c.webPath)
  {
  }

  /** The written file has nothing new to say about a value, to one who has read the found file. */
  predicate PortStays(c: Change)
    requires c.oldFile.Some?
  {
    c.newFile.Some? && c.newFile.value.portProvided ==> c.newFile.value.port == c.oldFile.value.port
  }

  predicate PathStays(c: Change)
    requires c.oldFile.Some?
  {
    c.newFile.Some? && c.newFile.value.webPathProvided ==> c.newFile.value.webPath == c.oldFile.value.webPath
  }

  /** One half of an address stays as a stale save left it: in the row, and in every decision. */
  ghost predicate Stale(c: Change, eff: Effective, w: World)
    requires c.oldFile.Some?
  {
    && w.phase == Reseeded && w.row.present
    && (PortStays(c) ==> w.row.port == eff.port && Recorded(c.newFile.Some? && c.newFile.value.portProvided,
                                                            c.oldFile.value.port, w.row.seedPort))
    && (PathStays(c) ==> w.row.webPath == eff.webPath && Recorded(c.newFile.Some? && c.newFile.value.webPathProvided,
                                                                  c.oldFile.value.webPath, w.row.seedWebPath))
    && IsPort(w.row.port)
    && forall id | id in w.launches ::
         && Some(w.launches[id].seed) == c.newFile
         && (w.launches[id].Decided? ==>
               && IsPort(w.launches[id].eff.port)
               && (PortStays(c) ==> w.launches[id].eff.port == eff.port)
               && (PathStays(c) ==> w.launches[id].eff.webPath == eff.webPath))
  }

  predicate Recorded<T(==)>(supplied: bool, value: T, seed: T) { supplied ==> seed == value }

  /** A half that the next start does not get right, no later start gets right either. */
  lemma {:induction false} StaleForever(c: Change, row: Stored, eff: Effective, steps: seq<Step>)
    requires c.Valid() && c.oldFile.Some? && IsPort(eff.port)
    ensures Stale(c, eff, After(c, World(Written(row, eff.port, eff.webPath, c.oldFile.value), map[], Reseeded), steps))
  {
    if steps != [] {
      var n := |steps| - 1;
      StaleForever(c, row, eff, steps[..n]);
      StaleStep(c, eff, After(c, World(Written(row, eff.port, eff.webPath, c.oldFile.value), map[], Reseeded), steps[..n]),
                steps[n]);
    }
  }

  lemma {:induction false} StaleStep(c: Change, eff: Effective, w: World, s: Step)
    requires c.Valid() && c.oldFile.Some? && Stale(c, eff, w)
    ensures Stale(c, eff, Next(c, w, s))
  {
  }

  /** A file that already names the address does not protect it from a start that had decided on
      another before the first Set and saves after the second: no later start brings it back. */
  lemma {:induction false} DecidedTooEarly(later: seq<Step>)
    ensures var found := Seed(9000, "x", false, false, true, true);
            var c := Change(9000, "x", found, Some(found), Some(found), Some(found));
            var stale := Effective(8000, "x", FromDatabase, FromDatabase);
            var w := World(Stored(9000, "x", 0, 9000, "x", true), map[7 := Decided(stale, found)], RowStored);
            && c.Valid() && c.AlreadyNamed() && JustStored(c, w)
            && After(c, w, [CliStep, CliStep, Save(7)] + later).row.port == 8000
  {
    var found := Seed(9000, "x", false, false, true, true);
    var c := Change(9000, "x", found, Some(found), Some(found), Some(found));
    var stale := Effective(8000, "x", FromDatabase, FromDatabase);
    var row := Stored(9000, "x", 0, 9000, "x", true);
    var w := World(row, map[7 := Decided(stale, found)], RowStored);
    var steps := OneMore(c, w, [], CliStep);
    steps := OneMore(c, w, steps, CliStep);
    steps := OneMore(c, w, steps, Save(7));
    var saved := World(Written(row, 8000, "x", found), map[], Reseeded);
    assert After(c, w, steps) == saved;
    assert steps == [CliStep, CliStep, Save(7)];
    AfterConcat(c, w, steps, later);
    StaleForever(c, row, stale, later);
  }

  lemma {:induction false} AfterConcat(c: Change, w: World, first: seq<Step>, rest: seq<Step>)
    ensures After(c, w, first + rest) == After(c, After(c, w, first), rest)
    decreases |rest|
  {
    if rest == [] {
      assert first + rest == first;
    } else {
      var n := |rest| - 1;
      AfterConcat(c, w, first, rest[..n]);
      assert (first + rest)[..|first| + n] == first + rest[..n];
    }
  }

  // -------------------------------------------------------------------------- rolling back

  /** The rollback's Set: the row goes back, the starts in progress go on. */
  function PutBack(c: Change, w: World, was: Effective): World {
    World(Written(w.row, was.port, was.webPath, c.found), w.launches, RowBack)
  }

  predicate Same(a: Effective, b: Effective) { a.port == b.port && a.webPath == b.webPath }

  /** Starts in progress have read the file as found or as written. */
  predicate ReadEither(c: Change, w: World) {
    forall id | id in w.launches ::
      && (Some(w.launches[id].seed) == c.oldFile || Some(w.launches[id].seed) == c.newFile)
      && (w.launches[id].Decided? ==> IsPort(w.launches[id].eff.port))
  }

  /** One value ends where it was, whoever starts meanwhile. Where the restored file supplies it, that
      is the old value, or what the CLI had found and the written file says too; where it does not,
      the written file supplies none either, or the old value, or says to nobody anything new. */
  predicate Settles<T(==)>(found: T, was: T, restored: T, supplied: bool, written: T, writtenSupplies: bool) {
    if supplied then restored == was || (restored == found && restored == written)
    else !writtenSupplies || written == was || (written == found && written == restored)
  }

  predicate RollbackSettles(c: Change, was: Effective)
    requires c.oldFile.Some?
  {
    && Settles(c.found.port, was.port, c.oldFile.value.port, c.oldFile.value.portProvided,
               AsWritten(c).port, c.newFile.Some? && AsWritten(c).portProvided)
    && Settles(c.found.webPath, was.webPath, c.oldFile.value.webPath, c.oldFile.value.webPathProvided,
               AsWritten(c).webPath, c.newFile.Some? && AsWritten(c).webPathProvided)
  }

  /** The written file's reading; where the panel refuses it nobody reads it, and the other will do. */
  function AsWritten(c: Change): Seed
    requires c.oldFile.Some?
  {
    if c.newFile.Some? then c.newFile.value else c.oldFile.value
  }

  /** A decision on one value does no harm: it is the old value, or the restored file overrides it. */
  predicate Harmless<T(==)>(was: T, restored: T, supplied: bool, decided: T, seed: T) {
    decided == was || (supplied && seed != restored)
  }

  predicate HarmlessLaunch(c: Change, was: Effective, l: Launch)
    requires c.oldFile.Some?
  {
    l.Decided? ==>
      && Harmless(was.port, c.oldFile.value.port, c.oldFile.value.portProvided, l.eff.port, l.seed.port)
      && Harmless(was.webPath, c.oldFile.value.webPath, c.oldFile.value.webPathProvided, l.eff.webPath, l.seed.webPath)
  }

  /** Once the file is back, a start that reads it decides on the old address. */
  predicate Ends(c: Change, was: Effective, w: World) {
    w.phase == Restored && c.restoredFile.Some? ==> Same(Resolve(w.row, c.restoredFile.value), was)
  }

  /** A value and the seed beside it, in the row or about to be. */
  predicate FieldBack<T(==)>(found: T, was: T, restored: T, supplied: bool, written: T, value: T, seed: T) {
    || (seed == found && value == was)
    || ((seed == restored || seed == written) && Harmless(was, restored, supplied, value, seed))
  }

  predicate PortBack(c: Change, was: Effective, port: int, seed: int)
    requires c.oldFile.Some?
  {
    FieldBack(c.found.port, was.port, c.oldFile.value.port, c.oldFile.value.portProvided, AsWritten(c).port, port, seed)
  }

  predicate PathBack(c: Change, was: Effective, webPath: string, seed: string)
    requires c.oldFile.Some?
  {
    FieldBack(c.found.webPath, was.webPath, c.oldFile.value.webPath, c.oldFile.value.webPathProvided, AsWritten(c).webPath,
              webPath, seed)
  }

  ghost predicate Returning(c: Change, was: Effective, w: World)
    requires c.oldFile.Some?
  {
    && w.phase in {RowBack, Restored} && w.row.present && IsPort(w.row.port)
    && PortBack(c, was, w.row.port, w.row.seedPort) && PathBack(c, was, w.row.webPath, w.row.seedWebPath)
    && ReadEither(c, w) && forall id | id in w.launches :: HarmlessLaunch(c, was, w.launches[id])
  }

  /** What one start makes of one value. */
  function Taken<T(==)>(supplied: bool, file: T, value: T, seed: T): T {
    if supplied && file != seed then file else value
  }

  /** A decision passes on what holds of the row, whichever of the two files was read. */
  lemma {:induction false} TakenBack<T>(found: T, was: T, restored: T, supplied: bool, written: T, writtenSupplies: bool,
                                        value: T, seed: T)
    requires Settles(found, was, restored, supplied, written, writtenSupplies)
    requires FieldBack(found, was, restored, supplied, written, value, seed)
    ensures Taken(supplied, restored, value, seed) == was
    ensures FieldBack(found, was, restored, supplied, written, Taken(writtenSupplies, written, value, seed), written)
    ensures Harmless(was, restored, supplied, Taken(writtenSupplies, written, value, seed), written)
  {
  }

  lemma {:induction false} ReturningDecision(c: Change, was: Effective, row: Stored, seed: Seed)
    requires c.Valid() && c.oldFile.Some? && RollbackSettles(c, was)
    requires row.present && IsPort(row.port)
    requires PortBack(c, was, row.port, row.seedPort) && PathBack(c, was, row.webPath, row.seedWebPath)
    requires Some(seed) == c.oldFile || Some(seed) == c.newFile
    ensures var eff := Resolve(row, seed);
            && HarmlessLaunch(c, was, Decided(eff, seed))
            && (Some(seed) == c.oldFile ==> Same(eff, was))
  {
    var asFound, asWritten := c.oldFile.value, AsWritten(c);
    TakenBack(c.found.port, was.port, asFound.port, asFound.portProvided, asWritten.port,
              c.newFile.Some? && asWritten.portProvided, row.port, row.seedPort);
    TakenBack(c.found.webPath, was.webPath, asFound.webPath, asFound.webPathProvided, asWritten.webPath,
              c.newFile.Some? && asWritten.webPathProvided, row.webPath, row.seedWebPath);
    assert Resolve(row, seed).port == Taken(seed.portProvided, seed.port, row.port, row.seedPort);
    assert Resolve(row, seed).webPath == Taken(seed.webPathProvided, seed.webPath, row.webPath, row.seedWebPath);
  }

  lemma {:induction false} ReturningStep(c: Change, was: Effective, w: World, s: Step)
    requires c.Valid() && c.oldFile.Some? && RollbackSettles(c, was) && Returning(c, was, w)
    ensures Returning(c, was, Next(c, w, s))
  {
    if s.Decide? && s.id in w.launches && w.launches[s.id].Read? {
      ReturningDecision(c, was, w.row, w.launches[s.id].seed);
    } else if s.Save? && s.id in w.launches {
      assert HarmlessLaunch(c, was, w.launches[s.id]);
    }
  }

  lemma {:induction false} ReturningAlways(c: Change, was: Effective, w: World, steps: seq<Step>)
    requires c.Valid() && c.oldFile.Some? && RollbackSettles(c, was) && Returning(c, was, w)
    ensures Returning(c, was, After(c, w, steps)) && Ends(c, was, After(c, w, steps))
  {
    if steps != [] {
      var n := |steps| - 1;
      ReturningAlways(c, was, w, steps[..n]);
      ReturningStep(c, was, After(c, w, steps[..n]), steps[n]);
    }
    ReturningDecision(c, was, After(c, w, steps).row, c.oldFile.value);
  }

  predicate RollbackStands(c: Change, was: Effective, w: World) {
    c.oldFile.Some? ==>
      && RollbackSettles(c, was)
      && forall id | id in w.launches :: HarmlessLaunch(c, was, w.launches[id])
  }

  /** Rollback restores: with starts in progress when it begins and starts beginning before its file
      is back, every interleaving ends with starts on the address resolved before the change, exactly
      when each value settles and no decision in hand does harm (or the panel refuses the file). */
  lemma {:induction false} RollbackEndsIff(c: Change, was: Effective, w: World)
    requires c.Valid() && IsPort(was.port) && ReadEither(c, w)
    ensures RollbackStands(c, was, w) <==> forall steps: seq<Step> :: Ends(c, was, After(c, PutBack(c, w, was), steps))
  {
    var back := PutBack(c, w, was);
    if c.oldFile.Some? {
      if RollbackSettles(c, was) && forall id | id in w.launches :: HarmlessLaunch(c, was, w.launches[id]) {
        forall steps: seq<Step> ensures Ends(c, was, After(c, back, steps)) {
          ReturningAlways(c, was, back, steps);
        }
      } else if !RollbackSettles(c, was) {
        var steps := CaughtBetween(c, was, w);
        assert !Ends(c, was, After(c, back, steps));
      } else {
        var steps := HarmfulSave(c, was, w);
        assert !Ends(c, was, After(c, back, steps));
      }
    }
  }

  /** A decision made before the rollback's Set, saved once the file is back. */
  lemma {:induction false} HarmfulSave(c: Change, was: Effective, w: World) returns (steps: seq<Step>)
    requires c.Valid() && ReadEither(c, w) && c.oldFile.Some?
    requires exists id | id in w.launches :: !HarmlessLaunch(c, was, w.launches[id])
    ensures !Ends(c, was, After(c, PutBack(c, w, was), steps))
  {
    var id :| id in w.launches && !HarmlessLaunch(c, was, w.launches[id]);
    steps := OneMore(c, PutBack(c, w, was), [], CliStep);
    steps := OneMore(c, PutBack(c, w, was), steps, Save(id));
  }

  /** A schedule that ends elsewhere: no start at all, one between the rollback's Set and its file, or
      one that has read the written file by then and decides after another has read the restored one. */
  lemma {:induction false} CaughtBetween(c: Change, was: Effective, w: World) returns (steps: seq<Step>)
    requires c.Valid() && IsPort(was.port) && ReadEither(c, w) && c.oldFile.Some? && !RollbackSettles(c, was)
    ensures !Ends(c, was, After(c, PutBack(c, w, was), steps))
  {
    var undisturbed := OneMore(c, PutBack(c, w, was), [], CliStep);
    if !Ends(c, was, After(c, PutBack(c, w, was), undisturbed)) {
      steps := undisturbed;
    } else {
      var id := FreshId(w.launches);
      var between := StartBetween(c, was, w, id);
      if !Ends(c, was, After(c, PutBack(c, w, was), between)) {
        steps := between;
      } else {
        steps := StartAcross(c, was, w, id);
      }
    }
  }

  lemma {:induction false} StartBetween(c: Change, was: Effective, w: World, id: nat) returns (steps: seq<Step>)
    requires c.Valid() && IsPort(was.port) && id !in w.launches && c.oldFile.Some?
    ensures var back := PutBack(c, w, was);
            After(c, back, steps).phase == Restored
            && After(c, back, steps).row
               == if c.newFile.Some? then AfterStart(back.row, c.newFile.value, None) else back.row
  {
    var back := PutBack(c, w, was);
    steps := OneMore(c, back, [], ReadFile(id));
    steps := OneMore(c, back, steps, Decide(id));
    steps := OneMore(c, back, steps, Save(id));
    steps := OneMore(c, back, steps, CliStep);
  }

  lemma {:induction false} StartAcross(c: Change, was: Effective, w: World, id: nat) returns (steps: seq<Step>)
    requires c.Valid() && IsPort(was.port) && c.oldFile.Some? && !RollbackSettles(c, was)
    requires forall k | k in w.launches :: k < id
    requires Undisturbed(c, was, PutBack(c, w, was).row)
    ensures !Ends(c, was, After(c, PutBack(c, w, was), steps))
  {
    var back := PutBack(c, w, was);
    AcrossDiffers(c, was, back.row);
    steps := OneMore(c, back, [], ReadFile(id));
    steps := OneMore(c, back, steps, CliStep);
    steps := OneMore(c, back, steps, ReadFile(id + 1));
    steps := OneMore(c, back, steps, Decide(id + 1));
    steps := OneMore(c, back, steps, Save(id + 1));
    steps := OneMore(c, back, steps, Decide(id));
    steps := OneMore(c, back, steps, Save(id));
  }

  /** The row put back outlasts a start from either file alone. */
  predicate Undisturbed(c: Change, was: Effective, row: Stored)
    requires c.oldFile.Some?
  {
    && Same(Resolve(row, c.oldFile.value), was)
    && (c.newFile.Some? ==> Same(Resolve(AfterStart(row, c.newFile.value, None), c.oldFile.value), was))
  }

  /** But not one from the restored file and then one from the written. */
  lemma {:induction false} AcrossDiffers(c: Change, was: Effective, row: Stored)
    requires c.Valid() && IsPort(was.port) && c.oldFile.Some? && !RollbackSettles(c, was)
    requires row.present && row.port == was.port && row.webPath == was.webPath
    requires row.seedPort == c.found.port && row.seedWebPath == c.found.webPath && Undisturbed(c, was, row)
    ensures c.newFile.Some?
    ensures !Same(Resolve(AfterStart(AfterStart(row, c.oldFile.value, None), c.newFile.value, None), c.oldFile.value), was)
  {
  }

  /** Such are the starts that any run of the change leaves in progress. */
  lemma {:induction false} RollbackAfterAnyRun(c: Change, was: Effective, w: World, steps: seq<Step>)
    requires c.Valid() && IsPort(was.port) && JustStored(c, w) && ReadEither(c, w)
    ensures var failed := After(c, w, steps);
            RollbackStands(c, was, failed)
            <==> forall later: seq<Step> :: Ends(c, was, After(c, PutBack(c, failed, was), later))
  {
    RunReadsEither(c, w, steps);
    RollbackEndsIff(c, was, After(c, w, steps));
  }

  /** File 9000, row 8000, a failed change to 7000: caught between, the rollback ends at 9000, which is neither. */
  lemma {:induction false} RollbackLandsElsewhere()
    ensures var found := Seed(9000, "x", false, false, true, true);
            var c := Change(7000, "x", found, Some(found), Some(Seed(7000, "x", false, false, true, true)), Some(found));
            var w := World(Stored(7000, "x", 0, 7000, "x", true), map[], Reseeded);
            var was := Effective(8000, "x", FromDatabase, FromDatabase);
            var now := After(c, PutBack(c, w, was), [ReadFile(0), Decide(0), Save(0), CliStep]);
            c.Valid() && Resolve(now.row, found).port == 9000
  {
    var found := Seed(9000, "x", false, false, true, true);
    var c := Change(7000, "x", found, Some(found), Some(Seed(7000, "x", false, false, true, true)), Some(found));
    var w := World(Stored(7000, "x", 0, 7000, "x", true), map[], Reseeded);
    var back := PutBack(c, w, Effective(8000, "x", FromDatabase, FromDatabase));
    var steps := OneMore(c, back, [], ReadFile(0));
    steps := OneMore(c, back, steps, Decide(0));
    steps := OneMore(c, back, steps, Save(0));
    steps := OneMore(c, back, steps, CliStep);
    assert steps == [ReadFile(0), Decide(0), Save(0), CliStep];
  }

  /** Where starts in progress come from: whatever the change's own run left behind. */
  lemma {:induction false} RunReadsEither(c: Change, w: World, steps: seq<Step>)
    requires c.Valid() && ReadEither(c, w) && (w.row.present ==> IsPort(w.row.port))
    ensures ReadEither(c, After(c, w, steps))
    ensures After(c, w, steps).row.present ==> IsPort(After(c, w, steps).row.port)
  {
    if steps != [] {
      var n := |steps| - 1;
      RunReadsEither(c, w, steps[..n]);
      StepReadsEither(c, After(c, w, steps[..n]), steps[n]);
    }
  }

  lemma {:induction false} StepReadsEither(c: Change, w: World, s: Step)
    requires c.Valid() && ReadEither(c, w) && (w.row.present ==> IsPort(w.row.port))
    ensures ReadEither(c, Next(c, w, s)) && (Next(c, w, s).row.present ==> IsPort(Next(c, w, s).row.port))
  {
  }

  /** The old address is in the row, in every decision, and in what a start would decide. */
  ghost predicate IsBack(c: Change, was: Effective, w: World) {
    && w.row.port == was.port && w.row.webPath == was.webPath
    && (forall id | id in w.launches && w.launches[id].Decided? :: Same(w.launches[id].eff, was))
    && (c.FileNow(w.phase).Some? ==> Same(Resolve(w.row, c.FileNow(w.phase).value), was))
  }

  /** The rollback done, and nothing starting yet. */
  function AllBack(c: Change, was: Effective, failed: Stored): World {
    World(Written(failed, was.port, was.webPath, c.found), map[], Restored)
  }

  /** With nothing starting until the file is back, every later start decides on the old address and
      every save keeps it, however they interleave, exactly when each value the found file supplies
      the panel with is the old one or the one the CLI had found. */
  lemma {:induction false} RollbackRestoresIff(c: Change, was: Effective, failed: Stored)
    requires c.Valid() && IsPort(was.port)
    ensures Stands(c.oldFile, c.found, was.port, was.webPath)
            <==> forall steps: seq<Step> :: IsBack(c, was, After(c, AllBack(c, was, failed), steps))
  {
    if Stands(c.oldFile, c.found, was.port, was.webPath) {
      forall steps: seq<Step> ensures IsBack(c, was, After(c, AllBack(c, was, failed), steps)) {
        BackForever(c, was, AllBack(c, was, failed), steps);
      }
    } else {
      assert !IsBack(c, was, After(c, AllBack(c, was, failed), []));
    }
  }

  ghost predicate Back(c: Change, was: Effective, w: World) {
    && w.phase == Restored && At(w.row, was.port, was.webPath)
    && Stands(c.oldFile, SeedOf(w.row), was.port, was.webPath)
    && forall id | id in w.launches ::
         Some(w.launches[id].seed) == c.oldFile && (w.launches[id].Decided? ==> Same(w.launches[id].eff, was))
  }

  lemma {:induction false} BackForever(c: Change, was: Effective, w: World, steps: seq<Step>)
    requires c.Valid() && IsPort(was.port) && Back(c, was, w)
    ensures Back(c, was, After(c, w, steps)) && IsBack(c, was, After(c, w, steps))
  {
    if steps != [] {
      BackForever(c, was, w, steps[..|steps| - 1]);
      BackStep(c, was, After(c, w, steps[..|steps| - 1]), steps[|steps| - 1]);
    }
  }

  lemma {:induction false} BackStep(c: Change, was: Effective, w: World, s: Step)
    requires c.Valid() && IsPort(was.port) && Back(c, was, w)
    ensures Back(c, was, Next(c, w, s))
  {
  }

  /** When the file could not be put back, the next start keeps each old value exactly when the written
      file supplies none, or what the CLI had found, or the old value itself. */
  lemma {:induction false} RollbackWithoutFile(c: Change, was: Effective, failed: Stored)
    requires c.Valid() && c.newFile.Some? && IsPort(was.port)
    ensures Stands(c.newFile, c.found, was.port, was.webPath)
            <==> Same(Resolve(Written(failed, was.port, was.webPath, c.found), c.newFile.value), was)
  {
  }
}
