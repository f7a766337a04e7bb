/** The CLI's change of address carried out on a real file: the protocol's readings and its steps. */
module AddressChange {
  import opened Basics
  import opened Text
  import opened Decimal
  import opened WebPath
  import opened Assignments
  import opened EnvironmentFile
  import opened Seeds
  import opened PanelAddress
  import Protocol = AddressProtocol

  function Reading(lines: seq<string>): Option<Seed> {
    match PanelReads(lines)
    case Ok(seed) => Some(seed)
    case Err(_) => None
  }

  /** The file's three states during a change, as the panel would read them from disk. */
  function ChangeOf(text: string, port: int, webPath: string): Protocol.Change
    requires IsPort(port) && CliReads(ScanLines(text)).Ok?
  {
    var before := ScanLines(text);
    var after := WriteAddress(before, Itoa(port), webPath);
    Protocol.Change(port, webPath, CliReads(before).value,
                    Reading(before), Reading(ScanLines(Render(after))),
                    Reading(ScanLines(Render(RestoreEnv(after, Entries(before))))))
  }

  lemma {:induction false} ReadingPlain(lines: seq<string>)
    ensures Protocol.Plain(Reading(lines))
  {
    PanelFromCli(Entries(lines));
  }

  /** A change of any file the CLI can read is one the protocol's theorems speak of, through the
      bytes written and read back. */
  lemma {:induction false} ChangeIsValid(text: string, port: int, webPath: string)
    requires IsPort(port) && IsWebPath(webPath) && CliReads(ScanLines(text)).Ok?
    ensures ChangeOf(text, port, webPath).Valid()
  {
    var before := ScanLines(text);
    var after := WriteAddress(before, Itoa(port), webPath);
    PlainNumber(port);
    PlainPath(webPath);
    RestoredText(text, Itoa(port), webPath);
    ReadingPlain(before);
    ReadingPlain(ScanLines(Render(after)));
  }

  // ------------------------------------------------------- what the files make of the change

  /** A second assignment of a key that the panel refuses to start on. */
  predicate StillRefused(entries: seq<Entry>) {
    || (!Once(entries, ENV_BIND_PORT) && BadPort(Getenv(LastValues(entries), ENV_BIND_PORT)))
    || (!Once(entries, ENV_WEB_PATH) && BadPath(Getenv(LastValues(entries), ENV_WEB_PATH)))
  }

  /** No key has a second assignment that says anything else. */
  predicate Unopposed(entries: seq<Entry>, port: int, webPath: string) {
    var lastPort, lastPath := Getenv(LastValues(entries), ENV_BIND_PORT), Getenv(LastValues(entries), ENV_WEB_PATH);
    && (Once(entries, ENV_BIND_PORT) || Trim(lastPort) == "" || ReadsPort(lastPort, port))
    && (Once(entries, ENV_WEB_PATH) || Trim(lastPath) == "" || NormalizeWebPath(lastPath) == Ok(webPath))
  }

  /** The written file names no other address to the panel exactly when it has a second assignment the
      panel refuses, or none that says anything else. */
  lemma {:induction false} NamedIff(text: string, port: int, webPath: string)
    requires IsPort(port) && IsWebPath(webPath) && CliReads(ScanLines(text)).Ok?
    ensures ChangeOf(text, port, webPath).Named()
            <==> StillRefused(Entries(ScanLines(text))) || Unopposed(Entries(ScanLines(text)), port, webPath)
  {
    WriteThenReadText(text, port, webPath);
    WriteAddressEntries(ScanLines(text), Itoa(port), webPath);
    WrittenSays(Entries(ScanLines(text)), port, webPath);
  }

  lemma {:induction false} WrittenSays(entries: seq<Entry>, port: int, webPath: string)
    requires IsPort(port) && IsWebPath(webPath)
    ensures var read := PanelSeed(LastValues(PutAddress(entries, Itoa(port), webPath)));
            && (read.Err? <==> StillRefused(entries))
            && (read.Ok? ==> (Protocol.NamesNoOther(Some(read.value), port, webPath) <==> Unopposed(entries, port, webPath)))
  {
    var out := PutAddress(entries, Itoa(port), webPath);
    PlainNumber(port);
    PlainPath(webPath);
    WrittenValues(entries, Itoa(port), webPath);
    DuplicatedIsAssigned(entries, ENV_BIND_PORT);
    DuplicatedIsAssigned(entries, ENV_WEB_PATH);
    RefusalIff(out);
    if PanelSeed(LastValues(out)).Ok? {
      SaysIff(out, port, webPath);
    }
  }

  /** When both keys are assigned, what the panel reads names no other address exactly when each last
      value is blank or says this one. */
  lemma {:induction false} SaysIff(entries: seq<Entry>, port: int, webPath: string)
    requires LastValue(entries, ENV_BIND_PORT).Some? && LastValue(entries, ENV_WEB_PATH).Some?
    requires PanelSeed(LastValues(entries)).Ok?
    ensures Protocol.NamesNoOther(Some(PanelSeed(LastValues(entries)).value), port, webPath) <==>
              var lastPort, lastPath := LastValue(entries, ENV_BIND_PORT).value, LastValue(entries, ENV_WEB_PATH).value;
              && (Trim(lastPort) == "" || ReadsPort(lastPort, port))
              && (Trim(lastPath) == "" || NormalizeWebPath(lastPath) == Ok(webPath))
  {
    PanelFromCli(entries);
  }

  /** Where neither key is assigned twice, the written file names no other address, and the panel has
      read in the found file what the CLI found there. */
  lemma {:induction false} UnduplicatedChange(text: string, port: int, webPath: string)
    requires IsPort(port) && IsWebPath(webPath)
    requires Unduplicated(Entries(ScanLines(text))) && CliReads(ScanLines(text)).Ok?
    ensures var c := ChangeOf(text, port, webPath);
            && c.Named()
            && (c.oldFile.Some? ==> c.oldFile.value.port == c.found.port && c.oldFile.value.webPath == c.found.webPath)
  {
    var entries := Entries(ScanLines(text));
    NamedIff(text, port, webPath);
    OneReading(entries, ENV_BIND_PORT);
    OneReading(entries, ENV_WEB_PATH);
    PanelFromCli(entries);
  }

  // ------------------------------------------------------------------------ the procedure

  /** The environment file on disk. */
  class Disk {
    var text: string

    constructor (text: string)
      ensures this.text == text
    {
      this.text := text;
    }
  }

  /** What the world answers along the way; the health poll gets through, if there is anything to poll. */
  datatype Answers = Answers(portAccepted: bool, confirmed: bool, written: bool, installed: bool,
                             restarted: bool, pollGetsThrough: bool, restored: bool, restartedAgain: bool,
                             open: int -> Option<string>)

  datatype Outcome = Unreadable(why: SeedError) | AlreadyThere | PortRefused | Declined | WriteFailed
                   | StoredOnly | Applied | RolledBack

  /** The port a start from this reading gets. */
  function Gets(row: Stored, read: Option<Seed>, world: Answers): Option<int> {
    if read.Some? then BoundPort(world.open, row, read.value) else None
  }

  /** The row a start from this reading leaves, where the restart happens at all. */
  function Restarted(row: Stored, read: Option<Seed>, happens: bool, world: Answers): Stored {
    if happens && read.Some? then AfterStart(row, read.value, Gets(row, read, world)) else row
  }

  /** A panel started from this reading serves this address. */
  predicate ServesAt(row: Stored, read: Option<Seed>, world: Answers, port: int, webPath: string) {
    Gets(row, read, world) == Some(port) && Resolve(row, read.value).webPath == webPath
  }

  /** The row once the change has been made. */
  function MadeRow(c: Protocol.Change, row: Stored): Stored {
    Written(Written(row, c.port, c.webPath, c.found), c.port, c.webPath, NewSeed(c.port, c.webPath))
  }

  /** The seed the CLI records once it has written the file. */
  function NewSeed(port: int, webPath: string): Seed { Seed(port, webPath, false, false, false, false) }

  /** The restarted panel answers at the new address. */
  predicate Answered(c: Protocol.Change, row: Stored, world: Answers) {
    world.restarted && world.pollGetsThrough && ServesAt(MadeRow(c, row), c.newFile, world, c.port, c.webPath)
  }

  /** The row the failed change leaves, the row put back, and the row after the second restart. */
  function FailedRow(c: Protocol.Change, row: Stored, world: Answers): Stored {
    Restarted(MadeRow(c, row), c.newFile, world.restarted, world)
  }

  function BackRow(c: Protocol.Change, row: Stored, world: Answers): Stored {
    var was := Resolve(row, c.found);
    Written(FailedRow(c, row, world), was.port, was.webPath, c.found)
  }

  function UndoneRow(c: Protocol.Change, row: Stored, world: Answers): Stored {
    Restarted(BackRow(c, row, world), if world.restored then c.restoredFile else c.newFile, world.restartedAgain, world)
  }

  /** The outcome of a procedure that the file did not stop, and the row it leaves. */
  function Changed(c: Protocol.Change, row: Stored, world: Answers): (Outcome, Stored) {
    var was := Resolve(row, c.found);
    if was.port == c.port && was.webPath == c.webPath then (AlreadyThere, row)
    else if !world.portAccepted then (PortRefused, row)
    else if !world.confirmed then (Declined, row)
    else Proceeded(c, row, world)
  }

  function Proceeded(c: Protocol.Change, row: Stored, world: Answers): (Outcome, Stored) {
    if !world.written then (WriteFailed, Written(row, c.port, c.webPath, c.found))
    else if !world.installed then (StoredOnly, MadeRow(c, row))
    else Verified(c, row, world)
  }

  function Verified(c: Protocol.Change, row: Stored, world: Answers): (Outcome, Stored) {
    if Answered(c, row, world) then (Applied, FailedRow(c, row, world)) else (RolledBack, UndoneRow(c, row, world))
  }

  /** And the file it leaves, of the one found, the one written and the one put back. */
  function FileAfter(found: string, written: string, restored: string, r: Outcome, world: Answers): string {
    if r.StoredOnly? || r.Applied? || (r.RolledBack? && !world.restored) then written
    else if r.RolledBack? then restored
    else found
  }

  function WrittenText(lines: seq<string>, port: int, webPath: string): string
    requires IsPort(port)
  {
    Render(WriteAddress(lines, Itoa(port), webPath))
  }

  function RestoredTo(lines: seq<string>, port: int, webPath: string): string
    requires IsPort(port)
  {
    Render(RestoreEnv(WriteAddress(lines, Itoa(port), webPath), Entries(lines)))
  }

  /** systemctl restart: the panel starts on the file as it is on disk. */
  method Restart(db: Database, disk: Disk, happens: bool, world: Answers, port: int, webPath: string) returns (serves: bool)
    modifies db
    ensures var read := Reading(ScanLines(disk.text));
            && db.row == Restarted(old(db.row), read, happens, world)
            && (serves <==> happens && ServesAt(old(db.row), read, world, port, webPath))
  {
    if !happens {
      return false;
    }
    var values := ReadEnvFile(disk.text);
    var r := StartPanel(db, values, world.open);
    return r.Serving? && r.port == port && r.eff.webPath == webPath;
  }

  /** Writes the file, and once it is written refreshes the seed to match. */
  method SyncEnvFile(db: Database, disk: Disk, file: EnvFile, port: int, webPath: string, written: bool)
    requires IsPort(port)
    modifies db, disk, file
    ensures file.lines == WriteAddress(old(file.lines), Itoa(port), webPath)
    ensures written ==> disk.text == Render(file.lines) && db.row == Written(old(db.row), port, webPath, NewSeed(port, webPath))
    ensures !written ==> disk.text == old(disk.text) && db.row == old(db.row)
  {
    file.Set(ENV_BIND_PORT, Itoa(port));
    file.Set(ENV_WEB_PATH, webPath);
    if written {
      disk.text := Render(file.lines);
      db.Set(port, webPath, Seed(port, webPath, false, false, false, false));
    }
  }

  /** The change, step by step, with the undo sequence when the panel does not answer. */
  method SetAddress(db: Database, disk: Disk, port: int, webPath: string, world: Answers) returns (r: Outcome)
    requires IsPort(port) && IsWebPath(webPath)
    modifies db, disk
    ensures r.Unreadable? <==> CliReads(ScanLines(old(disk.text))).Err?
    ensures r.Unreadable? ==> db.row == old(db.row) && disk.text == old(disk.text)
    ensures !r.Unreadable? ==>
              var c := ChangeOf(old(disk.text), port, webPath);
              && (r, db.row) == Changed(c, old(db.row), world)
              && disk.text == FileAfter(old(disk.text), WrittenText(ScanLines(old(disk.text)), port, webPath),
                                        RestoredTo(ScanLines(old(disk.text)), port, webPath), r, world)
              && Follows(c, old(db.row), world, r, db.row)
              && EndsAs(c, old(db.row), world, r)
    ensures var lines := ScanLines(old(disk.text));
            var after := WriteAddress(lines, Itoa(port), webPath);
            && (r.StoredOnly? || r.Applied? ==> disk.text == Render(after))
            && (r.RolledBack? ==> disk.text == Render(if world.restored then RestoreEnv(after, Entries(lines)) else after))
            && (!r.StoredOnly? && !r.Applied? && !r.RolledBack? ==> disk.text == old(disk.text))
    ensures db.row != old(db.row) || disk.text != old(disk.text) ==> world.portAccepted && world.confirmed
  {
    var file := new EnvFile.Load(disk.text);
    var read := ReadPanelEnv(file);
    if read.Err? {
      return Unreadable(read.error);
    }
    var seed := read.value;
    ghost var c := ChangeOf(disk.text, port, webPath);
    ChangeIsValid(disk.text, port, webPath);
    ChangedFollows(c, db.row, world);
    OutcomeLaw(c, db.row, world);
    r := AskFirst(db, disk, file, port, webPath, seed, world, c, WrittenText(file.lines, port, webPath),
                  RestoredTo(file.lines, port, webPath));
  }

  /** The texts are those the change's readings are of. */
  ghost predicate AreReadings(c: Protocol.Change, written: string, restored: string) {
    c.newFile == Reading(ScanLines(written)) && c.restoredFile == Reading(ScanLines(restored))
  }

  /** What can be refused before anything is changed. */
  method AskFirst(db: Database, disk: Disk, file: EnvFile, port: int, webPath: string, seed: Seed, world: Answers,
                  ghost c: Protocol.Change, ghost written: string, ghost restored: string)
    returns (r: Outcome)
    requires IsPort(port) && c.port == port && c.webPath == webPath && c.found == seed && AreReadings(c, written, restored)
    requires written == WrittenText(file.lines, port, webPath) && restored == RestoredTo(file.lines, port, webPath)
    modifies db, disk, file
    ensures (r, db.row) == Changed(c, old(db.row), world)
    ensures disk.text == FileAfter(old(disk.text), written, restored, r, world)
  {
    var current := Resolve(db.row, seed);
    if port == current.port && webPath == current.webPath {
      return AlreadyThere;
    }
    if !world.portAccepted {
      return PortRefused;
    }
    if !world.confirmed {
      return Declined;
    }
    r := MakeChange(db, disk, file, port, webPath, seed, current, world, c, written, restored);
  }

  /** From the first thing the procedure changes. */
  method MakeChange(db: Database, disk: Disk, file: EnvFile, port: int, webPath: string, seed: Seed, current: Effective,
                    world: Answers, ghost c: Protocol.Change, ghost written: string, ghost restored: string)
    returns (r: Outcome)
    requires IsPort(port) && c.port == port && c.webPath == webPath && c.found == seed && AreReadings(c, written, restored)
    requires written == WrittenText(file.lines, port, webPath) && restored == RestoredTo(file.lines, port, webPath)
    requires current == Resolve(db.row, seed)
    modifies db, disk, file
    ensures (r, db.row) == Proceeded(c, old(db.row), world)
    ensures disk.text == FileAfter(old(disk.text), written, restored, r, world)
  {
    var previousPort := file.Get(ENV_BIND_PORT);
    var previousPath := file.Get(ENV_WEB_PATH);
    ghost var before, row := Entries(file.lines), db.row;

    db.Set(port, webPath, seed);
    SyncEnvFile(db, disk, file, port, webPath, world.written);
    if !world.written {
      return WriteFailed;
    }
    if !world.installed {
      return StoredOnly;
    }
    r := RestartAndVerify(db, disk, file, port, webPath, seed, current, previousPort, previousPath, world, row, before, c, restored);
  }

  /** Restarts the panel, and undoes the change unless it answers at the new address. */
  method RestartAndVerify(db: Database, disk: Disk, file: EnvFile, port: int, webPath: string, seed: Seed, current: Effective,
                          previousPort: Option<string>, previousPath: Option<string>, world: Answers,
                          ghost row: Stored, ghost before: seq<Entry>, ghost c: Protocol.Change, ghost restored: string)
    returns (r: Outcome)
    requires c.port == port && c.webPath == webPath && c.found == seed
    requires db.row == MadeRow(c, row) && current == Resolve(row, seed)
    requires AreReadings(c, disk.text, restored) && restored == Render(RestoreEnv(file.lines, before))
    requires previousPort == FirstValue(before, ENV_BIND_PORT) && previousPath == FirstValue(before, ENV_WEB_PATH)
    modifies db, disk, file
    ensures (r, db.row) == Verified(c, row, world)
    ensures disk.text == if r.RolledBack? && world.restored then restored else old(disk.text)
  {
    var serves := Restart(db, disk, world.restarted, world, port, webPath);
    if serves && world.pollGetsThrough {
      return Applied;
    }
    RollBack(db, disk, file, current, seed, previousPort, previousPath, world, before, c, restored);
    return RolledBack;
  }

  /** The undo sequence: the row, then the file, then another restart. */
  method RollBack(db: Database, disk: Disk, file: EnvFile, current: Effective, seed: Seed,
                  previousPort: Option<string>, previousPath: Option<string>, world: Answers,
                  ghost before: seq<Entry>, ghost c: Protocol.Change, ghost restored: string)
    requires AreReadings(c, disk.text, restored) && restored == Render(RestoreEnv(file.lines, before))
    requires previousPort == FirstValue(before, ENV_BIND_PORT) && previousPath == FirstValue(before, ENV_WEB_PATH)
    modifies db, disk, file
    ensures db.row == Restarted(Written(old(db.row), current.port, current.webPath, seed),
                                if world.restored then c.restoredFile else c.newFile, world.restartedAgain, world)
    ensures disk.text == if world.restored then restored else old(disk.text)
  {
    db.Set(current.port, current.webPath, seed);
    PutEnvBack(file, previousPort, previousPath, before);
    if world.restored {
      disk.text := Render(file.lines);
    }
    var _ := Restart(db, disk, world.restartedAgain, world, current.port, current.webPath);
  }

  /** The two keys as they were, in the lines if not yet in the file. */
  method PutEnvBack(file: EnvFile, previousPort: Option<string>, previousPath: Option<string>, ghost before: seq<Entry>)
    requires previousPort == FirstValue(before, ENV_BIND_PORT) && previousPath == FirstValue(before, ENV_WEB_PATH)
    modifies file
    ensures file.lines == RestoreEnv(old(file.lines), before)
  {
    file.Set(ENV_BIND_PORT, if previousPort.Some? then previousPort.value else "");
    if previousPath.Some? {
      file.Set(ENV_WEB_PATH, previousPath.value);
    } else {
      file.Set(ENV_WEB_PATH, "");
    }
  }

  // ------------------------------------------------------------ what the outcomes amount to

  /** Which outcome comes when, from the old row, the readings and the world's answers: each exactly in
      its case, and no other. */
  ghost predicate EndsAs(c: Protocol.Change, row: Stored, world: Answers, r: Outcome) {
    var was := Resolve(row, c.found);
    var same := was.port == c.port && was.webPath == c.webPath;
    var goesAhead := !same && world.portAccepted && world.confirmed;
    var stored := Stored(c.port, c.webPath, if row.present then row.lastGoodPort else 0, c.port, c.webPath, true);
    var answers := world.restarted && world.pollGetsThrough && c.newFile.Some?
                   && BoundPort(world.open, stored, c.newFile.value) == Some(c.port)
                   && Resolve(stored, c.newFile.value).webPath == c.webPath;
    && !r.Unreadable?
    && (r.AlreadyThere? <==> same)
    && (r.PortRefused? <==> !same && !world.portAccepted)
    && (r.Declined? <==> !same && world.portAccepted && !world.confirmed)
    && (r.WriteFailed? <==> goesAhead && !world.written)
    && (r.StoredOnly? <==> goesAhead && world.written && !world.installed)
    && (r.Applied? <==> goesAhead && world.written && world.installed && answers)
    && (r.RolledBack? <==> goesAhead && world.written && world.installed && !answers)
  }

  lemma {:induction false} OutcomeLaw(c: Protocol.Change, row: Stored, world: Answers)
    ensures EndsAs(c, row, world, Changed(c, row, world).0)
    ensures Changed(c, row, world).1 != row ==> world.portAccepted && world.confirmed
  {
  }

  /** A start that runs to its end, as the protocol's steps. */
  function Launching(bound: Option<int>): seq<Protocol.Step> {
    [Protocol.ReadFile(0), Protocol.Decide(0), Protocol.Save(0)]
    + (if bound.Some? then [Protocol.Record(bound.value)] else [])
  }

  /** A restart is such a start, or nothing. */
  function Restarting(row: Stored, read: Option<Seed>, happens: bool, world: Answers): seq<Protocol.Step> {
    if happens then Launching(Gets(row, read, world)) else []
  }

  lemma {:induction false} RestartIsLaunch(c: Protocol.Change, w: Protocol.World, happens: bool, world: Answers)
    requires w.launches == map[]
    ensures var read := c.FileNow(w.phase);
            Protocol.After(c, w, Restarting(w.row, read, happens, world)) == w.(row := Restarted(w.row, read, happens, world))
  {
    if happens {
      var bound := Gets(w.row, c.FileNow(w.phase), world);
      var steps := Protocol.OneMore(c, w, [], Protocol.ReadFile(0));
      steps := Protocol.OneMore(c, w, steps, Protocol.Decide(0));
      steps := Protocol.OneMore(c, w, steps, Protocol.Save(0));
      assert Launching(None) == steps;
      if bound.Some? {
        steps := Protocol.OneMore(c, w, steps, Protocol.Record(bound.value));
        assert Launching(bound) == steps;
      }
    }
  }

  /** The protocol's world just after the first Set, and once the CLI's own steps are done. */
  function FirstSet(c: Protocol.Change, row: Stored): Protocol.World {
    Protocol.World(Written(row, c.port, c.webPath, c.found), map[], Protocol.RowStored)
  }

  function Made(c: Protocol.Change, row: Stored): Protocol.World {
    Protocol.After(c, FirstSet(c, row), [Protocol.CliStep, Protocol.CliStep])
  }

  /** Between the first Set and the file, the row has the found file on record: where the panel has read
      there what the CLI has, starts go on serving the wanted address however they interleave. */
  lemma {:induction false} FirstSetStands(c: Protocol.Change, row: Stored, steps: seq<Protocol.Step>)
    requires c.Valid() && c.Named()
    requires c.oldFile.Some? ==> c.oldFile.value.port == c.found.port && c.oldFile.value.webPath == c.found.webPath
    requires Protocol.NeverOvertaken(c, FirstSet(c, row), steps)
    ensures var now := Protocol.After(c, FirstSet(c, row), steps);
            At(now.row, c.port, c.webPath)
            && (c.FileNow(now.phase).Some? ==> Protocol.Serves(c, Resolve(now.row, c.FileNow(now.phase).value)))
  {
    Protocol.NoLostChange(c, FirstSet(c, row), steps);
  }

  lemma {:induction false} MadeIs(c: Protocol.Change, row: Stored)
    ensures Made(c, row) == Protocol.World(MadeRow(c, row), map[], Protocol.Reseeded)
  {
    var steps := Protocol.OneMore(c, FirstSet(c, row), [], Protocol.CliStep);
    steps := Protocol.OneMore(c, FirstSet(c, row), steps, Protocol.CliStep);
    assert steps == [Protocol.CliStep, Protocol.CliStep];
  }

  /** The protocol's world when the change has not answered, and when the file has been put back or not. */
  function Failed(c: Protocol.Change, row: Stored, world: Answers): Protocol.World {
    Protocol.After(c, Made(c, row), Restarting(MadeRow(c, row), c.newFile, world.restarted, world))
  }

  function PutBack(c: Protocol.Change, row: Stored, world: Answers): Protocol.World {
    var back := Protocol.PutBack(c, Failed(c, row, world), Resolve(row, c.found));
    if world.restored then Protocol.Next(c, back, Protocol.CliStep) else back
  }

  /** The fallback that can hide that the panel serves elsewhere: the file sends it to another port,
      that does not open, and the wanted one is the next that does. */
  predicate AnswersByFallback(c: Protocol.Change, row: Stored, world: Answers) {
    && c.newFile.Some? && c.newFile.value.portProvided && c.newFile.value.port != c.port
    && world.open(c.newFile.value.port).Some?
    && (c.port == DEFAULT_BIND_PORT || (row.present && row.lastGoodPort == c.port))
  }

  /** What each outcome says of the row: where the protocol's own steps leave it, restarts included,
      and whether it has the address it is meant to have. */
  ghost predicate Follows(c: Protocol.Change, row: Stored, world: Answers, r: Outcome, rowNow: Stored) {
    var was := Resolve(row, c.found);
    match r
    case Unreadable(_) => false
    case AlreadyThere => rowNow == row && was.port == c.port && was.webPath == c.webPath
    case PortRefused => rowNow == row
    case Declined => rowNow == row
    case WriteFailed =>
      && Protocol.World(rowNow, map[], Protocol.RowStored) == FirstSet(c, row)
      && At(rowNow, c.port, c.webPath)
      && rowNow.seedPort == c.found.port && rowNow.seedWebPath == c.found.webPath
    case StoredOnly =>
      && Protocol.World(rowNow, map[], Protocol.Reseeded) == Made(c, row)
      && At(rowNow, c.port, c.webPath)
    case Applied =>
      && Protocol.World(rowNow, map[], Protocol.Reseeded) == Failed(c, row, world)
      && rowNow.webPath == c.webPath && world.open(c.port).None? && c.newFile.Some?
      && (At(rowNow, c.port, c.webPath) <==> c.newFile.value.portProvided ==> c.newFile.value.port == c.port)
      && (!At(rowNow, c.port, c.webPath) ==> AnswersByFallback(c, row, world) && rowNow.port == c.newFile.value.port)
    case RolledBack =>
      && Protocol.World(rowNow, map[], PutBack(c, row, world).phase)
         == Protocol.After(c, PutBack(c, row, world),
                           Restarting(BackRow(c, row, world), if world.restored then c.restoredFile else c.newFile,
                                      world.restartedAgain, world))
      && (At(rowNow, was.port, was.webPath) <==>
            !world.restartedAgain
            || Protocol.Stands(if world.restored then c.oldFile else c.newFile, c.found, was.port, was.webPath))
  }

  lemma {:induction false} ChangedFollows(c: Protocol.Change, row: Stored, world: Answers)
    requires c.Valid()
    ensures var (r, rowNow) := Changed(c, row, world); Follows(c, row, world, r, rowNow)
  {
    MadeIs(c, row);
    FailedIs(c, row, world);
    var r := Changed(c, row, world).0;
    if r.Applied? {
      AppliedMeans(c, row, world);
    } else if r.RolledBack? {
      UndoneIs(c, row, world);
      UndoneStands(c, row, world);
    }
  }

  lemma {:induction false} FailedIs(c: Protocol.Change, row: Stored, world: Answers)
    ensures Failed(c, row, world) == Protocol.World(FailedRow(c, row, world), map[], Protocol.Reseeded)
    ensures PutBack(c, row, world) == Protocol.World(BackRow(c, row, world), map[],
                                                     if world.restored then Protocol.Restored else Protocol.RowBack)
  {
    MadeIs(c, row);
    RestartIsLaunch(c, Made(c, row), world.restarted, world);
  }

  lemma {:induction false} UndoneIs(c: Protocol.Change, row: Stored, world: Answers)
    requires c.Valid()
    ensures Protocol.World(UndoneRow(c, row, world), map[], PutBack(c, row, world).phase)
            == Protocol.After(c, PutBack(c, row, world),
                              Restarting(BackRow(c, row, world), if world.restored then c.restoredFile else c.newFile,
                                         world.restartedAgain, world))
  {
    FailedIs(c, row, world);
    RestartIsLaunch(c, PutBack(c, row, world), world.restartedAgain, world);
  }

  /** An address in the row outlasts a restart exactly when the reading started from lets it stand. */
  lemma {:induction false} RestartStands(row: Stored, read: Option<Seed>, happens: bool, world: Answers, port: int, webPath: string)
    requires At(row, port, webPath) && IsPort(port) && Protocol.Plain(read)
    ensures At(Restarted(row, read, happens, world), port, webPath)
            <==> !happens || Protocol.Stands(read, Protocol.SeedOf(row), port, webPath)
  {
  }

  lemma {:induction false} UndoneStands(c: Protocol.Change, row: Stored, world: Answers)
    requires c.Valid()
    ensures var was := Resolve(row, c.found);
            At(UndoneRow(c, row, world), was.port, was.webPath) <==>
              !world.restartedAgain
              || Protocol.Stands(if world.restored then c.oldFile else c.newFile, c.found, was.port, was.webPath)
  {
    var was := Resolve(row, c.found);
    RestartStands(BackRow(c, row, world), if world.restored then c.restoredFile else c.newFile, world.restartedAgain, world,
                  was.port, was.webPath);
  }

  /** An answer at the new address means that the row has it, except by fallback. */
  lemma {:induction false} AppliedMeans(c: Protocol.Change, row: Stored, world: Answers)
    requires c.Valid() && Answered(c, row, world)
    ensures var rowNow := FailedRow(c, row, world);
            && rowNow.webPath == c.webPath && world.open(c.port).None? && c.newFile.Some?
            && (At(rowNow, c.port, c.webPath) <==> c.newFile.value.portProvided ==> c.newFile.value.port == c.port)
            && (!At(rowNow, c.port, c.webPath) ==> AnswersByFallback(c, row, world) && rowNow.port == c.newFile.value.port)
  {
    BoundPortLaw(world.open, MadeRow(c, row), c.newFile.value);
  }

  /** Such a fallback: the file's second port assignment says 9000, which does not open, and 7000 is
      the last good port. The panel answers at 7000, and the row says 9000. */
  lemma {:induction false} AnsweredElsewhere(world: Answers)
    requires world.restarted && world.pollGetsThrough
    requires world.open(9000).Some? && world.open(7000).None?
    ensures var found := Seed(8000, "x", false, false, true, true);
            var written := Seed(9000, "x", false, false, true, true);
            var c := Protocol.Change(7000, "x", found, Some(written), Some(written), Some(written));
            var row := Stored(8000, "x", 7000, 8000, "x", true);
            c.Valid() && Answered(c, row, world) && FailedRow(c, row, world).port == 9000
  {
    var found := Seed(8000, "x", false, false, true, true);
    var written := Seed(9000, "x", false, false, true, true);
    var c := Protocol.Change(7000, "x", found, Some(written), Some(written), Some(written));
    var made := MadeRow(c, Stored(8000, "x", 7000, 8000, "x", true));
    var eff := Resolve(made, written);
    var candidates := BindCandidates(eff, made, written);
    assert candidates[0] == 9000 && candidates[1] == 7000 && candidates[..0] == [];
    AttemptsStep(candidates, 0);
    AttemptsStep(candidates, 1);
    FirstOpenAt(world.open, Attempts(candidates), 1);
  }
}
