/** What each program makes of the environment file: the seed it hands the address resolver. */
module Seeds {
  import opened Basics
  import opened Text
  import opened Decimal
  import opened WebPath
  import opened Assignments
  import opened EnvironmentFile

  const ENV_BIND_PORT := "GRE_PANEL_BIND_PORT"
  const ENV_WEB_PATH := "GRE_PANEL_WEB_PATH"
  const DEFAULT_BIND_PORT := 8787

  /** What a program makes of its configuration by itself, to be weighed against the stored row. */
  datatype Seed = Seed(port: int, webPath: string,
                       portFromFlag: bool, webPathFromFlag: bool,
                       portProvided: bool, webPathProvided: bool)

  datatype SeedError = NotANumber | BadWebPath(why: PathError) | PortOutOfRange

  predicate IsPort(n: int) { 1 <= n <= 65535 }

  /** A seed read from the file alone: neither value came from a flag. */
  function FileSeed(port: Option<int>, webPath: Option<string>): Seed {
    Seed(if port.Some? then port.value else DEFAULT_BIND_PORT, if webPath.Some? then webPath.value else "",
         false, false, port.Some?, webPath.Some?)
  }

  /** The CLI's rule for two raw values: a blank port is ignored, any web path taken as given. */
  function SeedFrom(rawPort: Option<string>, rawPath: Option<string>): Result<Seed, SeedError> {
    var hasPort := rawPort.Some? && Trim(rawPort.value) != "";
    var port := if hasPort then Atoi(Trim(rawPort.value)) else None;
    if hasPort && port.None? then Err(NotANumber)
    else if rawPath.None? then Ok(FileSeed(port, None))
    else
      match NormalizeWebPath(rawPath.value)
      case Err(e) => Err(BadWebPath(e))
      case Ok(path) => Ok(FileSeed(port, Some(path)))
  }

  /** The CLI: first match. */
  function CliSeed(entries: seq<Entry>): Result<Seed, SeedError> {
    SeedFrom(FirstValue(entries, ENV_BIND_PORT), FirstValue(entries, ENV_WEB_PATH))
  }

  function Getenv(values: map<string, string>, key: string): string {
    if key in values then values[key] else ""
  }

  /** A blank value counts as unset. */
  function Lookup(values: map<string, string>, key: string): Option<string> {
    var v := Trim(Getenv(values, key));
    if v == "" then None else Some(v)
  }

  /** The panel: last match, blank values ignored, and the port range enforced. */
  function PanelSeed(values: map<string, string>): Result<Seed, SeedError> {
    var rawPort, rawPath := Lookup(values, ENV_BIND_PORT), Lookup(values, ENV_WEB_PATH);
    var port := if rawPort.Some? then Atoi(Trim(rawPort.value)) else None;
    if rawPort.Some? && port.None? then Err(NotANumber)
    else
      match NormalizeWebPath(if rawPath.Some? then rawPath.value else "")
      case Err(e) => Err(BadWebPath(e))
      case Ok(path) =>
        var seed := FileSeed(port, if rawPath.Some? then Some(path) else None);
        if IsPort(seed.port) then Ok(seed) else Err(PortOutOfRange)
  }

  /** Both programs on one file. */
  function CliReads(lines: seq<string>): Result<Seed, SeedError> { CliSeed(Entries(lines)) }

  function PanelReads(lines: seq<string>): Result<Seed, SeedError> { PanelSeed(LastValues(Entries(lines))) }

  /** The CLI's reading, as it is assembled from lookups in the edited file. */
  method ReadPanelEnv(file: EnvFile) returns (r: Result<Seed, SeedError>)
    ensures r == CliReads(file.lines)
  {
    var port, portSet := DEFAULT_BIND_PORT, false;
    var v := file.Get(ENV_BIND_PORT);
    if v.Some? && Trim(v.value) != "" {
      var n := Atoi(Trim(v.value));
      if n.None? {
        return Err(NotANumber);
      }
      port, portSet := n.value, true;
    }
    var webPath, webPathSet := "", false;
    v := file.Get(ENV_WEB_PATH);
    if v.Some? {
      var path := NormalizeWebPath(v.value);
      if path.Err? {
        return Err(BadWebPath(path.error));
      }
      webPath, webPathSet := path.value, true;
    }
    return Ok(Seed(port, webPath, false, false, portSet, webPathSet));
  }

  /** Two raw values that are accepted: the port is the number read or 8787, the path the normal form or
      the root, and provided is what was there to read (a blank port is not). */
  lemma {:induction false} AcceptedSeed(rawPort: Option<string>, rawPath: Option<string>)
    requires SeedFrom(rawPort, rawPath).Ok?
    ensures var seed := SeedFrom(rawPort, rawPath).value;
            && !seed.portFromFlag && !seed.webPathFromFlag
            && (seed.portProvided <==> rawPort.Some? && Trim(rawPort.value) != "")
            && (if seed.portProvided then Atoi(Trim(rawPort.value)) == Some(seed.port) else seed.port == 8787)
            && (seed.webPathProvided <==> rawPath.Some?)
            && (if seed.webPathProvided then NormalizeWebPath(rawPath.value) == Ok(seed.webPath) else seed.webPath == "")
  {
  }

  /** A file that assigns neither key, however much else, leaves both programs with 8787 and the root. */
  lemma {:induction false} NothingAssigned(entries: seq<Entry>)
    requires forall e | e in entries :: !Assigns(e, ENV_BIND_PORT) && !Assigns(e, ENV_WEB_PATH)
    ensures CliSeed(entries) == Ok(Seed(8787, "", false, false, false, false))
    ensures PanelSeed(LastValues(entries)) == CliSeed(entries)
  {
    assert forall i | 0 <= i < |entries| :: entries[i] in entries;
    LastValuesAbsent(entries, ENV_BIND_PORT);
    LastValuesAbsent(entries, ENV_WEB_PATH);
    PanelFromCli(entries);
  }

  lemma {:induction false} KeysAreKeys()
    ensures IsKey(ENV_BIND_PORT) && IsKey(ENV_WEB_PATH) && ENV_BIND_PORT != ENV_WEB_PATH
  {
    assert ENV_BIND_PORT[10] == 'B' && ENV_WEB_PATH[10] == 'W';
  }

  // ------------------------------------------------------------ two readers, one meaning

  /** Neither address key is assigned twice. */
  predicate Unduplicated(entries: seq<Entry>) {
    Once(entries, ENV_BIND_PORT) && Once(entries, ENV_WEB_PATH)
  }

  /** Assigned, but to nothing. */
  predicate IsBlank(value: Option<string>) { value.Some? && Trim(value.value) == "" }

  /** Both accept with the same seed, or both refuse. */
  predicate SameReading(a: Result<Seed, SeedError>, b: Result<Seed, SeedError>) {
    (a.Err? && b.Err?) || a == b
  }

  lemma {:induction false} TrimmedValue(s: string)
    ensures Trim(Trim(s)) == Trim(s)
    ensures NormalizeWebPath(Trim(s)) == NormalizeWebPath(s)
    ensures Trim(s) == "" ==> NormalizeWebPath(s) == Ok("")
  {
    TrimTwice(s, IsSpace);
    NormalizeTrimmed(s);
  }

  /** What the panel makes of any file: the CLI's rule on the last values instead of the first,
      a blank web path taken for none, and the port's range enforced. */
  lemma {:induction false} PanelFromCli(entries: seq<Entry>)
    ensures var rawPort, rawPath := LastValue(entries, ENV_BIND_PORT), LastValue(entries, ENV_WEB_PATH);
            PanelSeed(LastValues(entries)) ==
            match SeedFrom(rawPort, rawPath)
            case Err(e) => Err(e)
            case Ok(seed) =>
              if IsPort(seed.port) then Ok(seed.(webPathProvided := seed.webPathProvided && !IsBlank(rawPath)))
              else Err(PortOutOfRange)
  {
    var values := LastValues(entries);
    TrimmedValue(Getenv(values, ENV_BIND_PORT));
    TrimmedValue(Getenv(values, ENV_WEB_PATH));
    TrimmedValue("");
  }

  lemma {:induction false} BothAssigned(entries: seq<Entry>, key: string)
    ensures FirstValue(entries, key).Some? <==> LastValue(entries, key).Some?
  {
    LastValuesLookup(entries, key);
  }

  function OrBlank(value: Option<string>): string { if value.Some? then value.value else "" }

  /** A port that is there and is no number, or is no port. */
  predicate BadNumber(raw: string) { Trim(raw) != "" && Atoi(Trim(raw)).None? }

  predicate BadPort(raw: string) {
    Trim(raw) != "" && (Atoi(Trim(raw)).None? || !(1 <= Atoi(Trim(raw)).value <= 65535))
  }

  predicate BadPath(raw: string) { NormalizeWebPath(raw).Err? }

  /** Two raw ports that say the same: nothing, or one number. */
  predicate SamePort(a: string, b: string) {
    (Trim(a) == "" <==> Trim(b) == "") && (Trim(a) != "" ==> Atoi(Trim(a)) == Atoi(Trim(b)))
  }

  lemma {:induction false} RefusedBy(rawPort: Option<string>, rawPath: Option<string>)
    ensures SeedFrom(rawPort, rawPath).Err? <==> BadNumber(OrBlank(rawPort)) || BadPath(OrBlank(rawPath))
    ensures SeedFrom(rawPort, rawPath) == Err(NotANumber) <==> BadNumber(OrBlank(rawPort))
    ensures SeedFrom(rawPort, rawPath).Err? && !BadNumber(OrBlank(rawPort)) ==>
              SeedFrom(rawPort, rawPath) == Err(BadWebPath(NormalizeWebPath(OrBlank(rawPath)).error))
    ensures SeedFrom(rawPort, rawPath).Ok? ==>
              (IsPort(SeedFrom(rawPort, rawPath).value.port) <==> !BadPort(OrBlank(rawPort)))
  {
    TrimmedValue("");
  }

  /** What each program refuses, by the raw values it reads. */
  lemma {:induction false} RefusalIff(entries: seq<Entry>)
    ensures CliSeed(entries).Err? <==>
              BadNumber(OrBlank(FirstValue(entries, ENV_BIND_PORT))) || BadPath(OrBlank(FirstValue(entries, ENV_WEB_PATH)))
    ensures PanelSeed(LastValues(entries)).Err? <==>
              BadPort(OrBlank(LastValue(entries, ENV_BIND_PORT))) || BadPath(OrBlank(LastValue(entries, ENV_WEB_PATH)))
  {
    PanelFromCli(entries);
    RefusedBy(FirstValue(entries, ENV_BIND_PORT), FirstValue(entries, ENV_WEB_PATH));
    RefusedBy(LastValue(entries, ENV_BIND_PORT), LastValue(entries, ENV_WEB_PATH));
  }

  /** On any file at all, the two programs agree exactly when both refuse it, or neither does and the
      last values say what the first do, the web path not being assigned blank. */
  lemma {:induction false} ReadersAgreeIff(entries: seq<Entry>)
    ensures var port, path := OrBlank(FirstValue(entries, ENV_BIND_PORT)), OrBlank(FirstValue(entries, ENV_WEB_PATH));
            var lastPort, lastPath := OrBlank(LastValue(entries, ENV_BIND_PORT)), OrBlank(LastValue(entries, ENV_WEB_PATH));
            SameReading(CliSeed(entries), PanelSeed(LastValues(entries)))
            <==> if BadNumber(port) || BadPath(path) then BadPort(lastPort) || BadPath(lastPath)
                 else
                   && !BadPort(lastPort) && !BadPath(lastPath)
                   && SamePort(port, lastPort) && NormalizeWebPath(path) == NormalizeWebPath(lastPath)
                   && !IsBlank(LastValue(entries, ENV_WEB_PATH))
  {
    RefusalIff(entries);
    PanelFromCli(entries);
    BothAssigned(entries, ENV_BIND_PORT);
    BothAssigned(entries, ENV_WEB_PATH);
    TrimmedValue("");
  }

  /** So with no key assigned twice they agree unless the CLI accepts a blank web path or an unusable port. */
  lemma {:induction false} ReadersAgree(entries: seq<Entry>)
    requires Unduplicated(entries)
    ensures var first := CliSeed(entries);
            SameReading(first, PanelSeed(LastValues(entries)))
            <==> !(first.Ok? && (IsBlank(FirstValue(entries, ENV_WEB_PATH)) || !IsPort(first.value.port)))
  {
    OneReading(entries, ENV_BIND_PORT);
    OneReading(entries, ENV_WEB_PATH);
    PanelFromCli(entries);
  }

  /** A file whose only line assigns a blank web path: provided, to one program, and not to the other. */
  lemma {:induction false} BlankPathDiffers()
    ensures var lines := [ENV_WEB_PATH + "=" + ""];
            CliReads(lines) == Ok(FileSeed(None, Some(""))) && PanelReads(lines) == Ok(FileSeed(None, None))
  {
    var lines := [ENV_WEB_PATH + "=" + ""];
    KeysAreKeys();
    SplitWritten(ENV_WEB_PATH, "");
    assert lines[..0] == [] && Entries(lines)[..0] == [];
    assert Entries(lines) == [Some((ENV_WEB_PATH, ""))];
    assert FirstValue(Entries(lines), ENV_BIND_PORT) == None && LastValues(Entries(lines)) == map[ENV_WEB_PATH := ""];
    TrimmedValue("");
    PanelFromCli(Entries(lines));
  }

  // --------------------------------------------------------------- write, then read back

  /** The lines after the CLI has written an address. */
  function WriteAddress(lines: seq<string>, port: string, webPath: string): seq<string> {
    SetLine(SetLine(lines, ENV_BIND_PORT, port), ENV_WEB_PATH, webPath)
  }

  /** The same on what the lines assign. */
  function PutAddress(entries: seq<Entry>, port: string, webPath: string): seq<Entry> {
    Put(Put(entries, ENV_BIND_PORT, Unquote(Trim(port))), ENV_WEB_PATH, Unquote(Trim(webPath)))
  }

  lemma {:induction false} WriteAddressEntries(lines: seq<string>, port: string, webPath: string)
    ensures Entries(WriteAddress(lines, port, webPath)) == PutAddress(Entries(lines), port, webPath)
  {
    KeysAreKeys();
    SetIsPut(lines, ENV_BIND_PORT, port);
    SetIsPut(SetLine(lines, ENV_BIND_PORT, port), ENV_WEB_PATH, webPath);
  }

  /** A key the last-match reader follows takes the new value; an assigned-twice key keeps its last. */
  function Followed(entries: seq<Entry>, key: string, value: string): Option<string> {
    if Once(entries, key) then Some(value) else LastValue(entries, key)
  }

  /** After a write, what each reader sees of the two values, and whether they are still assigned once. */
  lemma {:induction false} WrittenValues(entries: seq<Entry>, port: string, webPath: string)
    ensures var out := PutAddress(entries, port, webPath);
            && FirstValue(out, ENV_BIND_PORT) == Some(Unquote(Trim(port)))
            && FirstValue(out, ENV_WEB_PATH) == Some(Unquote(Trim(webPath)))
            && LastValue(out, ENV_BIND_PORT) == Followed(entries, ENV_BIND_PORT, Unquote(Trim(port)))
            && LastValue(out, ENV_WEB_PATH) == Followed(entries, ENV_WEB_PATH, Unquote(Trim(webPath)))
            && (Once(out, ENV_BIND_PORT) <==> Once(entries, ENV_BIND_PORT))
            && (Once(out, ENV_WEB_PATH) <==> Once(entries, ENV_WEB_PATH))
  {
    KeysAreKeys();
    var p, w := Unquote(Trim(port)), Unquote(Trim(webPath));
    var mid := Put(entries, ENV_BIND_PORT, p);
    PutThenGet(entries, ENV_BIND_PORT, p, ENV_BIND_PORT);
    PutThenGet(mid, ENV_WEB_PATH, w, ENV_BIND_PORT);
    PutThenGet(mid, ENV_WEB_PATH, w, ENV_WEB_PATH);
    PutOnceSame(entries, ENV_BIND_PORT, p);
    PutOnceSame(mid, ENV_WEB_PATH, w);
    PutOnceIff(entries, ENV_BIND_PORT, p, ENV_WEB_PATH);
    PutOnceIff(mid, ENV_WEB_PATH, w, ENV_BIND_PORT);
    PutThenLast(entries, ENV_BIND_PORT, p);
    PutThenLastOther(entries, ENV_BIND_PORT, p, ENV_WEB_PATH);
    PutThenLast(mid, ENV_WEB_PATH, w);
    PutThenLastOther(mid, ENV_WEB_PATH, w, ENV_BIND_PORT);
  }

  lemma {:induction false} PlainNumber(n: nat)
    requires IsPort(n)
    ensures Trim(Itoa(n)) == Itoa(n) && Unquote(Itoa(n)) == Itoa(n) && OneLine(Itoa(n))
    ensures Atoi(Itoa(n)) == Some(n)
  {
    var s := Itoa(n);
    assert IsDigit(s[0]) && IsDigit(s[|s| - 1]);
    TrimBare(s, IsSpace);
    AtoiOfItoa(n);
  }

  lemma {:induction false} PlainPath(webPath: string)
    requires IsWebPath(webPath)
    ensures Trim(webPath) == webPath && Unquote(webPath) == webPath && OneLine(webPath)
    ensures NormalizeWebPath(webPath) == Ok(webPath)
  {
    PlainBare(webPath);
    TrimBare(webPath, IsSpace);
    NormalizeIdempotent(webPath, webPath);
  }

  /** A raw value that the panel reads as the port. */
  predicate ReadsPort(raw: string, port: int) { Atoi(Trim(raw)) == Some(port) }

  /** A raw value that the panel reads as the web path, blank if and only if it is the root. */
  predicate ReadsPath(raw: string, webPath: string) {
    NormalizeWebPath(raw) == Ok(webPath) && (Trim(raw) == "" <==> webPath == "")
  }

  /** The panel sees a port the CLI writes: it is assigned at most once, or its last value says so already. */
  predicate PortTakes(entries: seq<Entry>, port: int) {
    Once(entries, ENV_BIND_PORT) || ReadsPort(Getenv(LastValues(entries), ENV_BIND_PORT), port)
  }

  predicate PathTakes(entries: seq<Entry>, webPath: string) {
    Once(entries, ENV_WEB_PATH) || ReadsPath(Getenv(LastValues(entries), ENV_WEB_PATH), webPath)
  }

  /** The CLI's write of a new address, read back: the CLI reads exactly that address from any file,
      and the panel does exactly when each value takes. A root web path is written blank, which the
      panel takes as "not an instruction". */
  lemma {:induction false} WriteThenRead(lines: seq<string>, port: int, webPath: string)
    requires IsPort(port) && IsWebPath(webPath)
    ensures var out := WriteAddress(lines, Itoa(port), webPath);
            && CliReads(out) == Ok(Seed(port, webPath, false, false, true, true))
            && (PanelReads(out) == Ok(Seed(port, webPath, false, false, true, webPath != ""))
                <==> PortTakes(Entries(lines), port) && PathTakes(Entries(lines), webPath))
  {
    PlainNumber(port);
    PlainPath(webPath);
    WriteAddressEntries(lines, Itoa(port), webPath);
    CliReadsWritten(Entries(lines), port, webPath);
    PanelReadsWritten(Entries(lines), port, webPath);
  }

  lemma {:induction false} CliReadsWritten(entries: seq<Entry>, port: int, webPath: string)
    requires IsPort(port) && IsWebPath(webPath)
    ensures CliSeed(PutAddress(entries, Itoa(port), webPath)) == Ok(Seed(port, webPath, false, false, true, true))
  {
    PlainNumber(port);
    PlainPath(webPath);
    WrittenValues(entries, Itoa(port), webPath);
  }

  lemma {:induction false} PanelReadsWritten(entries: seq<Entry>, port: int, webPath: string)
    requires IsPort(port) && IsWebPath(webPath)
    ensures PanelSeed(LastValues(PutAddress(entries, Itoa(port), webPath)))
            == Ok(Seed(port, webPath, false, false, true, webPath != ""))
            <==> PortTakes(entries, port) && PathTakes(entries, webPath)
  {
    PlainNumber(port);
    PlainPath(webPath);
    WrittenValues(entries, Itoa(port), webPath);
    DuplicatedIsAssigned(entries, ENV_BIND_PORT);
    DuplicatedIsAssigned(entries, ENV_WEB_PATH);
    PanelReadsIff(PutAddress(entries, Itoa(port), webPath), port, webPath);
  }

  lemma {:induction false} DuplicatedIsAssigned(entries: seq<Entry>, key: string)
    ensures !Once(entries, key) ==> LastValue(entries, key) == Some(Getenv(LastValues(entries), key))
  {
    PutThenLast(entries, key, "");
  }

  /** When both keys are assigned, the panel reads an address exactly when each last value reads so. */
  lemma {:induction false} PanelReadsIff(entries: seq<Entry>, port: int, webPath: string)
    requires LastValue(entries, ENV_BIND_PORT).Some? && LastValue(entries, ENV_WEB_PATH).Some? && IsPort(port)
    ensures PanelSeed(LastValues(entries)) == Ok(Seed(port, webPath, false, false, true, webPath != ""))
            <==> ReadsPort(LastValue(entries, ENV_BIND_PORT).value, port)
                 && ReadsPath(LastValue(entries, ENV_WEB_PATH).value, webPath)
  {
    PanelFromCli(entries);
  }

  /** A file that assigns the port twice: the CLI writes over the first, and reads what it wrote; the
      panel still reads the second. */
  lemma {:induction false} DuplicateHides(first: int, second: int, port: int, webPath: string)
    requires IsPort(first) && IsPort(second) && IsPort(port) && IsWebPath(webPath) && webPath != ""
    ensures var lines := [ENV_BIND_PORT + "=" + Itoa(first), ENV_BIND_PORT + "=" + Itoa(second)];
            var out := WriteAddress(lines, Itoa(port), webPath);
            && CliReads(out) == Ok(Seed(port, webPath, false, false, true, true))
            && PanelReads(out) == Ok(Seed(second, webPath, false, false, true, true))
  {
    var lines := [ENV_BIND_PORT + "=" + Itoa(first), ENV_BIND_PORT + "=" + Itoa(second)];
    var entries := Entries(lines);
    WriteThenRead(lines, port, webPath);
    TwoPorts(first, second);
    PlainNumber(second);
    PlainPath(webPath);
    WriteAddressEntries(lines, Itoa(port), webPath);
    WrittenValues(entries, Itoa(port), webPath);
    PanelReadsIff(PutAddress(entries, Itoa(port), webPath), second, webPath);
  }

  lemma {:induction false} TwoPorts(first: int, second: int)
    requires IsPort(first) && IsPort(second)
    ensures var entries := Entries([ENV_BIND_PORT + "=" + Itoa(first), ENV_BIND_PORT + "=" + Itoa(second)]);
            && !Once(entries, ENV_BIND_PORT) && LastValue(entries, ENV_BIND_PORT) == Some(Itoa(second))
            && Once(entries, ENV_WEB_PATH)
  {
    var lines := [ENV_BIND_PORT + "=" + Itoa(first), ENV_BIND_PORT + "=" + Itoa(second)];
    KeysAreKeys();
    PlainNumber(first);
    PlainNumber(second);
    SplitWritten(ENV_BIND_PORT, Itoa(first));
    SplitWritten(ENV_BIND_PORT, Itoa(second));
    EntriesAt(lines, 0);
    EntriesAt(lines, 1);
    TwiceAssigned(Entries(lines), Itoa(second));
  }

  lemma {:induction false} TwiceAssigned(entries: seq<Entry>, port: string)
    requires |entries| == 2 && Assigns(entries[0], ENV_BIND_PORT) && entries[1] == Some((ENV_BIND_PORT, port))
    ensures !Once(entries, ENV_BIND_PORT) && LastValue(entries, ENV_BIND_PORT) == Some(port)
    ensures Once(entries, ENV_WEB_PATH)
  {
    KeysAreKeys();
  }

  lemma {:induction false} WriteKeepsOneLine(lines: seq<string>, port: string, webPath: string)
    requires forall l | l in lines :: OneLine(l)
    requires OneLine(port) && OneLine(webPath)
    ensures forall l | l in WriteAddress(lines, port, webPath) :: OneLine(l)
  {
    KeysAreKeys();
    SetKeepsOneLine(lines, ENV_BIND_PORT, port);
    SetKeepsOneLine(SetLine(lines, ENV_BIND_PORT, port), ENV_WEB_PATH, webPath);
  }

  /** The same through the file's bytes. */
  lemma {:induction false} WriteThenReadText(text: string, port: int, webPath: string)
    requires IsPort(port) && IsWebPath(webPath)
    ensures var lines := ScanLines(text);
            var out := ScanLines(Render(WriteAddress(lines, Itoa(port), webPath)));
            && CliReads(out) == Ok(Seed(port, webPath, false, false, true, true))
            && PanelReads(out) == PanelReads(WriteAddress(lines, Itoa(port), webPath))
            && (PanelReads(out) == Ok(Seed(port, webPath, false, false, true, webPath != ""))
                <==> PortTakes(Entries(lines), port) && PathTakes(Entries(lines), webPath))
  {
    var lines := ScanLines(text);
    PlainNumber(port);
    PlainPath(webPath);
    WriteKeepsOneLine(lines, Itoa(port), webPath);
    RenderedMeaning(WriteAddress(lines, Itoa(port), webPath));
    WriteThenRead(lines, port, webPath);
  }

  // ------------------------------------------------------------------- what a write keeps

  const ADDRESS_KEYS := {ENV_BIND_PORT, ENV_WEB_PATH}

  /** Every other key reads as it did, to either reader. */
  ghost predicate SameElsewhere(before: seq<Entry>, after: seq<Entry>) {
    forall key | key !in ADDRESS_KEYS ::
      FirstValue(after, key) == FirstValue(before, key) && LastValue(after, key) == LastValue(before, key)
  }

  /** Writing an address leaves every other key's value to both readers, and every line that
      assigns neither of the two, in its order. */
  lemma {:induction false} WriteKeepsTheRest(lines: seq<string>, port: string, webPath: string)
    ensures var out := WriteAddress(lines, port, webPath);
            && SameElsewhere(Entries(lines), Entries(out))
            && Others(out, ADDRESS_KEYS) == Others(lines, ADDRESS_KEYS)
  {
    KeysAreKeys();
    var mid := SetLine(lines, ENV_BIND_PORT, port);
    SetKeepsOthers(lines, ENV_BIND_PORT, port, ADDRESS_KEYS);
    SetKeepsOthers(mid, ENV_WEB_PATH, webPath, ADDRESS_KEYS);
    WriteAddressEntries(lines, port, webPath);
    forall key | key !in ADDRESS_KEYS
      ensures FirstValue(Entries(WriteAddress(lines, port, webPath)), key) == FirstValue(Entries(lines), key)
      ensures LastValue(Entries(WriteAddress(lines, port, webPath)), key) == LastValue(Entries(lines), key)
    {
      PutKeepsKey(Entries(lines), Unquote(Trim(port)), Unquote(Trim(webPath)), key);
    }
  }

  lemma {:induction false} PutKeepsKey(entries: seq<Entry>, port: string, webPath: string, key: string)
    requires key !in ADDRESS_KEYS
    ensures var out := Put(Put(entries, ENV_BIND_PORT, port), ENV_WEB_PATH, webPath);
            FirstValue(out, key) == FirstValue(entries, key) && LastValue(out, key) == LastValue(entries, key)
  {
    var mid := Put(entries, ENV_BIND_PORT, port);
    PutThenGet(entries, ENV_BIND_PORT, port, key);
    PutThenGet(mid, ENV_WEB_PATH, webPath, key);
    PutThenLastOther(entries, ENV_BIND_PORT, port, key);
    PutThenLastOther(mid, ENV_WEB_PATH, webPath, key);
  }

  /** The same through the file's bytes, where at most trailing returns are lost. */
  lemma {:induction false} WriteKeepsTheRestOfTheText(text: string, port: string, webPath: string)
    requires OneLine(port) && OneLine(webPath)
    ensures var lines := ScanLines(text);
            var out := ScanLines(Render(WriteAddress(lines, port, webPath)));
            && SameElsewhere(Entries(lines), Entries(out))
            && Others(out, ADDRESS_KEYS) == DropCRs(Others(lines, ADDRESS_KEYS))
  {
    var lines := ScanLines(text);
    WriteKeepsTheRest(lines, port, webPath);
    WriteKeepsOneLine(lines, port, webPath);
    RenderedMeaning(WriteAddress(lines, port, webPath));
    RenderedOthers(WriteAddress(lines, port, webPath), ADDRESS_KEYS);
  }

  // ------------------------------------------------------------------- putting them back

  /** What restoreEnv writes: the raw values found before, blank where there was none. */
  function RestoreEnv(lines: seq<string>, before: seq<Entry>): seq<string> {
    WriteAddress(lines, OrBlank(FirstValue(before, ENV_BIND_PORT)), OrBlank(FirstValue(before, ENV_WEB_PATH)))
  }

  lemma {:induction false} NumberUnquoted(s: string)
    requires Atoi(Trim(s)).Some?
    ensures Unquote(Trim(s)) == Trim(s)
  {
    AtoiCharacters(Trim(s));
    assert Trim(s)[0] in Trim(s);
  }

  /** Raw values the CLI accepts lose nothing to a second trimming and unquoting. */
  lemma {:induction false} AcceptedRaw(rawPort: Option<string>, rawPath: Option<string>)
    requires SeedFrom(rawPort, rawPath).Ok?
    ensures Unquote(Trim(OrBlank(rawPort))) == Trim(OrBlank(rawPort))
    ensures Unquote(Trim(OrBlank(rawPath))) == Trim(OrBlank(rawPath))
    ensures Trim(Trim(OrBlank(rawPort))) == Trim(OrBlank(rawPort))
    ensures Trim(Trim(OrBlank(rawPath))) == Trim(OrBlank(rawPath))
  {
    TrimmedValue("");
    TrimmedValue(OrBlank(rawPort));
    TrimmedValue(OrBlank(rawPath));
    if Trim(OrBlank(rawPort)) != "" {
      NumberUnquoted(rawPort.value);
    }
    if rawPath.Some? {
      AcceptedUnquoted(rawPath.value);
    }
  }

  /** One key, written over and put back: the panel looks up what it did before. */
  lemma {:induction false} RestoredLookup(before: seq<Entry>, after: seq<Entry>, key: string, value: string)
    requires var raw := OrBlank(FirstValue(before, key));
             && Trim(value) == Trim(raw)
             && LastValue(after, key) == if Once(before, key) then Some(value) else LastValue(before, key)
    ensures Lookup(LastValues(after), key) == Lookup(LastValues(before), key)
  {
    if Once(before, key) {
      OneReading(before, key);
    }
  }

  lemma {:induction false} RestoredEntries(before: seq<Entry>, port: string, webPath: string)
    requires CliSeed(before).Ok?
    ensures var rawPort, rawPath := FirstValue(before, ENV_BIND_PORT), FirstValue(before, ENV_WEB_PATH);
            var out := PutAddress(PutAddress(before, port, webPath), OrBlank(rawPort), OrBlank(rawPath));
            && Lookup(LastValues(out), ENV_BIND_PORT) == Lookup(LastValues(before), ENV_BIND_PORT)
            && Lookup(LastValues(out), ENV_WEB_PATH) == Lookup(LastValues(before), ENV_WEB_PATH)
  {
    var rawPort, rawPath := FirstValue(before, ENV_BIND_PORT), FirstValue(before, ENV_WEB_PATH);
    var after := PutAddress(before, port, webPath);
    var out := PutAddress(after, OrBlank(rawPort), OrBlank(rawPath));
    WrittenValues(before, port, webPath);
    WrittenValues(after, OrBlank(rawPort), OrBlank(rawPath));
    AcceptedRaw(rawPort, rawPath);
    RestoredLookup(before, out, ENV_BIND_PORT, Trim(OrBlank(rawPort)));
    RestoredLookup(before, out, ENV_WEB_PATH, Trim(OrBlank(rawPath)));
  }

  /** The panel's seed is made of the two lookups and nothing else. */
  lemma {:induction false} SameLookups(a: map<string, string>, b: map<string, string>)
    requires Lookup(a, ENV_BIND_PORT) == Lookup(b, ENV_BIND_PORT) && Lookup(a, ENV_WEB_PATH) == Lookup(b, ENV_WEB_PATH)
    ensures PanelSeed(a) == PanelSeed(b)
  {
  }

  lemma {:induction false} RestoreEnvEntries(lines: seq<string>, before: seq<Entry>)
    ensures Entries(RestoreEnv(lines, before))
            == PutAddress(Entries(lines), OrBlank(FirstValue(before, ENV_BIND_PORT)), OrBlank(FirstValue(before, ENV_WEB_PATH)))
  {
    WriteAddressEntries(lines, OrBlank(FirstValue(before, ENV_BIND_PORT)), OrBlank(FirstValue(before, ENV_WEB_PATH)));
  }

  /** Once the raw values are put back, the panel reads the file as it was found, whatever address
      had been written over it and however often the keys are assigned. */
  lemma {:induction false} RestoredReading(lines: seq<string>, port: string, webPath: string)
    requires CliReads(lines).Ok?
    ensures PanelReads(RestoreEnv(WriteAddress(lines, port, webPath), Entries(lines))) == PanelReads(lines)
  {
    WriteAddressEntries(lines, port, webPath);
    RestoreEnvEntries(WriteAddress(lines, port, webPath), Entries(lines));
    RestoredEntries(Entries(lines), port, webPath);
    SameLookups(LastValues(Entries(RestoreEnv(WriteAddress(lines, port, webPath), Entries(lines)))),
                LastValues(Entries(lines)));
  }

  lemma {:induction false} SplitValueOneLine(line: string)
    requires OneLine(line) && SplitEnvLine(line).Some?
    ensures OneLine(SplitEnvLine(line).value.1)
  {
    TrimBare(line, IsSpace);
    var (before, after) := Cut(Trim(line), '=').value;
    TrimBare(after, IsSpace);
  }

  lemma {:induction false} FirstValueOneLine(lines: seq<string>, key: string)
    requires forall l | l in lines :: OneLine(l)
    ensures OneLine(OrBlank(FirstValue(Entries(lines), key)))
  {
    var i := FirstAt(Entries(lines), key);
    if i < |lines| {
      EntriesAt(lines, i);
      SplitValueOneLine(lines[i]);
    }
  }

  /** The same through the file's bytes: the restored file reads as the found one did, and has
      kept everything else. */
  lemma {:induction false} RestoredText(text: string, port: string, webPath: string)
    requires OneLine(port) && OneLine(webPath) && CliReads(ScanLines(text)).Ok?
    ensures var before := ScanLines(text);
            var out := ScanLines(Render(RestoreEnv(WriteAddress(before, port, webPath), Entries(before))));
            && PanelReads(out) == PanelReads(before)
            && SameElsewhere(Entries(before), Entries(out))
            && Others(out, ADDRESS_KEYS) == DropCRs(Others(before, ADDRESS_KEYS))
  {
    var before := ScanLines(text);
    var after := WriteAddress(before, port, webPath);
    var rawPort, rawPath := FirstValue(Entries(before), ENV_BIND_PORT), FirstValue(Entries(before), ENV_WEB_PATH);
    WriteKeepsOneLine(before, port, webPath);
    FirstValueOneLine(before, ENV_BIND_PORT);
    FirstValueOneLine(before, ENV_WEB_PATH);
    WriteKeepsOneLine(after, OrBlank(rawPort), OrBlank(rawPath));
    RenderedMeaning(RestoreEnv(after, Entries(before)));
    RestoredReading(before, port, webPath);
    WriteKeepsTheRest(before, port, webPath);
    WriteKeepsTheRest(after, OrBlank(rawPort), OrBlank(rawPath));
    RenderedOthers(RestoreEnv(after, Entries(before)), ADDRESS_KEYS);
  }
}
