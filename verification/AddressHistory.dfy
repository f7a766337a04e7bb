/** Whole histories of an installation: who had the last word on its address. */
module AddressHistory {
  import opened Basics
  import opened Seeds
  import opened PanelAddress

  /** A flagless start, a change made in the panel, a change made by the CLI, and an edit
      of the file, which supplies or withholds each value. */
  datatype Event = Start(bound: Option<int>)
                 | PanelSet(port: int, webPath: string)
                 | CliSet(port: int, webPath: string)
                 | Edit(filePort: Option<int>, filePath: Option<string>)

  /** The row, the file, and the file as the running panel read it. */
  datatype State = State(row: Stored, file: Seed, known: Option<Seed>)

  function Next(s: State, e: Event): State {
    match e
    case Start(bound) => State(AfterStart(s.row, s.file, bound), s.file, Some(s.file))
    case PanelSet(port, webPath) =>
      if s.known.None? then s else s.(row := Written(s.row, port, webPath, s.known.value))
    case CliSet(port, webPath) => s.(row := Written(s.row, port, webPath, s.file))
    case Edit(port, webPath) => s.(file := FileSeed(port, webPath))
  }

  function Run(s: State, h: seq<Event>): State {
    if h == [] then s else Next(Run(s, h[..|h| - 1]), h[|h| - 1])
  }

  /** Ports are checked before they are stored or served; the panel refuses a file without one. */
  predicate InRangeEvent(e: Event) {
    match e
    case Start(_) => true
    case PanelSet(port, _) => IsPort(port)
    case CliSet(port, _) => IsPort(port)
    case Edit(port, _) => port.Some? ==> IsPort(port.value)
  }

  predicate InRange(h: seq<Event>) { forall e | e in h :: InRangeEvent(e) }

  /** A reading of a file the panel would start on. */
  predicate Plain(seed: Seed) {
    && seed == FileSeed(if seed.portProvided then Some(seed.port) else None,
                        if seed.webPathProvided then Some(seed.webPath) else None)
    && IsPort(seed.port)
  }

  predicate Initial(s: State) { s.known.None? && Plain(s.file) && (s.row.present ==> IsPort(s.row.port)) }

  // ----------------------------------------------- one value's history, without the row

  datatype FieldEvent<T> = Started | SetByPanel(v: T) | SetByCli(v: T) | Edited(file: Option<T>)

  /** What the file supplies at the outset, what stands in for a value it withholds, and what
      an earlier row says: the file then, and the value. */
  datatype Origin<T> = Origin(file: Option<T>, standIn: T, seen: Option<T>, word: Option<T>)

  ghost function FileNow<T>(o: Origin<T>, h: seq<FieldEvent<T>>): Option<T> {
    if h == [] then o.file
    else if h[|h| - 1].Edited? then h[|h| - 1].file else FileNow(o, h[..|h| - 1])
  }

  /** The file's value, or what stands in for it. */
  ghost function Reads<T>(o: Origin<T>, h: seq<FieldEvent<T>>): T {
    if FileNow(o, h).Some? then FileNow(o, h).value else o.standIn
  }

  /** The file as the last start read it. */
  ghost function KnownNow<T>(o: Origin<T>, h: seq<FieldEvent<T>>): Option<T> {
    if h == [] then None
    else if h[|h| - 1].Started? then Some(Reads(o, h[..|h| - 1])) else KnownNow(o, h[..|h| - 1])
  }

  /** The file as the last program to write the row had seen it. */
  ghost function SeenNow<T>(o: Origin<T>, h: seq<FieldEvent<T>>): Option<T> {
    if h == [] then o.seen
    else
      var before := h[..|h| - 1];
      match h[|h| - 1]
      case Started => Some(Reads(o, before))
      case SetByCli(_) => Some(Reads(o, before))
      case SetByPanel(_) => if KnownNow(o, before).Some? then KnownNow(o, before) else SeenNow(o, before)
      case Edited(_) => SeenNow(o, before)
  }

  /** What is new in a file to one who has seen it say this, if they have seen it at all. */
  predicate IsNews<T(==)>(file: Option<T>, seen: Option<T>) {
    seen.None? || (file.Some? && file != seen)
  }

  ghost predicate News<T>(o: Origin<T>, h: seq<FieldEvent<T>>) { IsNews(FileNow(o, h), SeenNow(o, h)) }

  /** The last word: a change somebody made, or news a start found in the file. */
  ghost function WordNow<T>(o: Origin<T>, h: seq<FieldEvent<T>>): Option<T> {
    if h == [] then o.word
    else
      var before := h[..|h| - 1];
      match h[|h| - 1]
      case Started => if News(o, before) then Some(Reads(o, before)) else WordNow(o, before)
      case SetByPanel(v) => if KnownNow(o, before).Some? then Some(v) else WordNow(o, before)
      case SetByCli(v) => Some(v)
      case Edited(_) => WordNow(o, before)
  }

  /** What a start now serves. */
  ghost function Answer<T>(o: Origin<T>, h: seq<FieldEvent<T>>): Option<T> {
    if News(o, h) then Some(Reads(o, h)) else WordNow(o, h)
  }

  function PortEvent(e: Event): FieldEvent<int> {
    match e
    case Start(_) => Started
    case PanelSet(port, _) => SetByPanel(port)
    case CliSet(port, _) => SetByCli(port)
    case Edit(port, _) => Edited(port)
  }

  function PathEvent(e: Event): FieldEvent<string> {
    match e
    case Start(_) => Started
    case PanelSet(_, webPath) => SetByPanel(webPath)
    case CliSet(_, webPath) => SetByCli(webPath)
    case Edit(_, webPath) => Edited(webPath)
  }

  ghost function Ports(h: seq<Event>): (r: seq<FieldEvent<int>>)
    ensures |r| == |h|
  {
    if h == [] then [] else Ports(h[..|h| - 1]) + [PortEvent(h[|h| - 1])]
  }

  ghost function Paths(h: seq<Event>): (r: seq<FieldEvent<string>>)
    ensures |r| == |h|
  {
    if h == [] then [] else Paths(h[..|h| - 1]) + [PathEvent(h[|h| - 1])]
  }

  function PortOf(seed: Seed): Option<int> { if seed.portProvided then Some(seed.port) else None }

  function PathOf(seed: Seed): Option<string> { if seed.webPathProvided then Some(seed.webPath) else None }

  function PortOrigin(s: State): Origin<int> {
    Origin(PortOf(s.file), DEFAULT_BIND_PORT, if s.row.present then Some(s.row.seedPort) else None,
           if s.row.present then Some(s.row.port) else None)
  }

  function PathOrigin(s: State): Origin<string> {
    Origin(PathOf(s.file), "", if s.row.present then Some(s.row.seedWebPath) else None,
           if s.row.present then Some(s.row.webPath) else None)
  }

  ghost predicate WellFormed(s: State) {
    && Plain(s.file) && (s.known.Some? ==> Plain(s.known.value))
    && (s.row.present ==> IsPort(s.row.port))
  }

  /** One value of the machine's state, said in terms of its own history. */
  ghost predicate MirrorsField<T>(o: Origin<T>, h: seq<FieldEvent<T>>,
                                  file: Option<T>, known: Option<T>, seen: Option<T>, word: Option<T>)
  {
    FileNow(o, h) == file && KnownNow(o, h) == known && SeenNow(o, h) == seen && WordNow(o, h) == word
  }

  ghost predicate MirrorsPort(o: Origin<int>, h: seq<FieldEvent<int>>, s: State) {
    && o.standIn == DEFAULT_BIND_PORT
    && MirrorsField(o, h, PortOf(s.file), if s.known.Some? then Some(s.known.value.port) else None,
                    if s.row.present then Some(s.row.seedPort) else None,
                    if s.row.present then Some(s.row.port) else None)
  }

  ghost predicate MirrorsPath(o: Origin<string>, h: seq<FieldEvent<string>>, s: State) {
    && o.standIn == ""
    && MirrorsField(o, h, PathOf(s.file), if s.known.Some? then Some(s.known.value.webPath) else None,
                    if s.row.present then Some(s.row.seedWebPath) else None,
                    if s.row.present then Some(s.row.webPath) else None)
  }

  lemma {:induction false} FieldSnoc<T>(o: Origin<T>, h: seq<FieldEvent<T>>, e: FieldEvent<T>)
    ensures var h' := h + [e];
            && FileNow(o, h') == (if e.Edited? then e.file else FileNow(o, h))
            && KnownNow(o, h') == (if e.Started? then Some(Reads(o, h)) else KnownNow(o, h))
            && SeenNow(o, h') == (if e.Started? || e.SetByCli? then Some(Reads(o, h))
                                  else if e.SetByPanel? && KnownNow(o, h).Some? then KnownNow(o, h)
                                  else SeenNow(o, h))
            && WordNow(o, h') == (if e.Started? then Answer(o, h)
                                  else if e.SetByCli? || (e.SetByPanel? && KnownNow(o, h).Some?) then Some(e.v)
                                  else WordNow(o, h))
  {
    assert (h + [e])[..|h|] == h;
  }

  lemma {:induction false} WellFormedStep(s: State, e: Event)
    requires WellFormed(s) && InRangeEvent(e)
    ensures WellFormed(Next(s, e))
  {
  }

  lemma {:induction false} PortStep(o: Origin<int>, h: seq<FieldEvent<int>>, s: State, e: Event)
    requires WellFormed(s) && MirrorsPort(o, h, s)
    ensures MirrorsPort(o, h + [PortEvent(e)], Next(s, e))
  {
    FieldSnoc(o, h, PortEvent(e));
  }

  lemma {:induction false} PathStep(o: Origin<string>, h: seq<FieldEvent<string>>, s: State, e: Event)
    requires WellFormed(s) && MirrorsPath(o, h, s)
    ensures MirrorsPath(o, h + [PathEvent(e)], Next(s, e))
  {
    FieldSnoc(o, h, PathEvent(e));
  }

  lemma {:induction false} MirrorsAlways(s0: State, h: seq<Event>)
    requires Initial(s0) && InRange(h)
    ensures WellFormed(Run(s0, h))
    ensures MirrorsPort(PortOrigin(s0), Ports(h), Run(s0, h))
    ensures MirrorsPath(PathOrigin(s0), Paths(h), Run(s0, h))
  {
    if h != [] {
      var before, e := h[..|h| - 1], h[|h| - 1];
      assert e in h && forall x | x in before :: x in h;
      MirrorsAlways(s0, before);
      WellFormedStep(Run(s0, before), e);
      PortStep(PortOrigin(s0), Ports(before), Run(s0, before), e);
      PathStep(PathOrigin(s0), Paths(before), Run(s0, before), e);
    }
  }

  /** Over any history, a start serves for each value, independently, what its own history says. */
  lemma {:induction false} StartServesLastWord(s0: State, h: seq<Event>)
    requires Initial(s0) && InRange(h)
    ensures var s := Run(s0, h);
            var eff := Resolve(s.row, s.file);
            && Answer(PortOrigin(s0), Ports(h)) == Some(eff.port)
            && Answer(PathOrigin(s0), Paths(h)) == Some(eff.webPath)
  {
    MirrorsAlways(s0, h);
  }

  // ------------------------------------------------------------------- last writer wins

  /** The last start among the events, or -1. */
  ghost function LastStart<T>(h: seq<FieldEvent<T>>): (k: int)
    ensures -1 <= k < |h|
    ensures k >= 0 ==> h[k].Started?
    ensures forall i | k < i < |h| :: !h[i].Started?
  {
    if h == [] || h[|h| - 1].Started? then |h| - 1 else LastStart(h[..|h| - 1])
  }

  /** A change made by the CLI, or in a panel that was running to make it in. */
  ghost predicate IsSet<T>(h: seq<FieldEvent<T>>, i: nat)
    requires i < |h|
  {
    h[i].SetByCli? || (h[i].SetByPanel? && LastStart(h[..i]) >= 0)
  }

  /** The last event to write the row: a start or a change, or -1. */
  ghost function LastWrite<T>(h: seq<FieldEvent<T>>): (k: int)
    ensures -1 <= k < |h|
    ensures k >= 0 ==> h[k].Started? || IsSet(h, k)
    ensures forall i | k < i < |h| :: !h[i].Started? && !IsSet(h, i)
  {
    var n := |h| - 1;
    if h == [] || h[n].Started? || IsSet(h, n) then n
    else
      assert forall i | 0 <= i < n :: h[..n][..i] == h[..i];
      LastWrite(h[..n])
  }

  /** When whoever last wrote the row had read the file: a start and the CLI as they wrote it,
      the panel when it was last started. */
  ghost function LastReading<T>(h: seq<FieldEvent<T>>): (k: int)
    ensures -1 <= k < |h|
  {
    var w := LastWrite(h);
    if w >= 0 && h[w].SetByPanel? then LastStart(h[..w]) else w
  }

  /** A start after these events finds in the file a value that differs from the file as whoever
      last wrote the row had read it, or finds no row at all. */
  ghost predicate SeesChange<T>(o: Origin<T>, h: seq<FieldEvent<T>>) {
    var r := LastReading(h);
    IsNews(FileNow(o, h), if r == -1 then o.seen else Some(Reads(o, h[..r])))
  }

  /** The most recent start that saw the file change, or -1. */
  ghost function LastChange<T>(o: Origin<T>, h: seq<FieldEvent<T>>): (k: int)
    ensures -1 <= k < |h|
    ensures k >= 0 ==> h[k].Started? && SeesChange(o, h[..k])
    ensures forall i | k < i < |h| && h[i].Started? :: !SeesChange(o, h[..i])
  {
    var n := |h| - 1;
    if h == [] || (h[n].Started? && SeesChange(o, h[..n])) then n
    else
      assert forall i | 0 <= i < n :: h[..n][..i] == h[..i];
      LastChange(o, h[..n])
  }

  /** The last change made, or -1. */
  ghost function LastSet<T>(h: seq<FieldEvent<T>>): (k: int)
    ensures -1 <= k < |h|
    ensures k >= 0 ==> IsSet(h, k)
    ensures forall i | k < i < |h| :: !IsSet(h, i)
  {
    var n := |h| - 1;
    if h == [] || IsSet(h, n) then n
    else
      assert forall i | 0 <= i < n :: IsSet(h[..n], i) <==> IsSet(h, i) by {
        forall i | 0 <= i < n ensures IsSet(h[..n], i) <==> IsSet(h, i) {
          assert h[..n][..i] == h[..i];
        }
      }
      LastSet(h[..n])
  }

  /** The last change made since the last start that saw the file change, or else the file as
      that start read it, or else what was there to begin with. */
  ghost function LastWriter<T>(o: Origin<T>, h: seq<FieldEvent<T>>): Option<T> {
    var k, i := LastChange(o, h), LastSet(h);
    if i > k then Some(h[i].v) else if k >= 0 then Some(Reads(o, h[..k])) else o.word
  }

  lemma {:induction false} KnownIsLastStart<T>(o: Origin<T>, h: seq<FieldEvent<T>>)
    ensures KnownNow(o, h) == if LastStart(h) == -1 then None else Some(Reads(o, h[..LastStart(h)]))
  {
    if h != [] && !h[|h| - 1].Started? {
      KnownIsLastStart(o, h[..|h| - 1]);
      assert LastStart(h) >= 0 ==> h[..|h| - 1][..LastStart(h)] == h[..LastStart(h)];
    }
  }

  lemma {:induction false} SeenIsLastReading<T>(o: Origin<T>, h: seq<FieldEvent<T>>)
    ensures SeenNow(o, h) == if LastReading(h) == -1 then o.seen else Some(Reads(o, h[..LastReading(h)]))
  {
    if h != [] {
      var n := |h| - 1;
      KnownIsLastStart(o, h[..n]);
      if LastWrite(h) == n {
        assert LastStart(h[..n]) >= 0 ==> h[..n][..LastStart(h[..n])] == h[..LastStart(h[..n])];
      } else {
        SeenIsLastReading(o, h[..n]);
        var w := LastWrite(h);
        assert w >= 0 ==> h[..n][..w] == h[..w];
        assert LastReading(h) == LastReading(h[..n]);
        assert LastReading(h) >= 0 ==> h[..n][..LastReading(h)] == h[..LastReading(h)];
      }
    }
  }

  lemma {:induction false} LastChangeSnoc<T>(o: Origin<T>, h: seq<FieldEvent<T>>, e: FieldEvent<T>)
    ensures LastChange(o, h + [e]) == if e.Started? && SeesChange(o, h) then |h| else LastChange(o, h)
  {
    assert (h + [e])[..|h|] == h;
  }

  lemma {:induction false} LastSetSnoc<T>(h: seq<FieldEvent<T>>, e: FieldEvent<T>)
    ensures LastSet(h + [e]) == if IsSet(h + [e], |h|) then |h| else LastSet(h)
  {
    assert (h + [e])[..|h|] == h;
  }

  lemma {:induction false} LastWriterSnoc<T>(o: Origin<T>, h: seq<FieldEvent<T>>, e: FieldEvent<T>)
    ensures LastWriter(o, h + [e]) ==
            if e.Started? && SeesChange(o, h) then Some(Reads(o, h))
            else if IsSet(h + [e], |h|) then Some(e.v)
            else LastWriter(o, h)
  {
    var h', k := h + [e], LastChange(o, h);
    LastChangeSnoc(o, h, e);
    LastSetSnoc(h, e);
    assert h'[..|h|] == h && (k >= 0 ==> h'[..k] == h[..k]);
  }

  lemma {:induction false} WordIsLastWriter<T>(o: Origin<T>, h: seq<FieldEvent<T>>)
    ensures WordNow(o, h) == LastWriter(o, h)
  {
    if h != [] {
      var before, e := h[..|h| - 1], h[|h| - 1];
      assert h == before + [e];
      WordIsLastWriter(o, before);
      SeenIsLastReading(o, before);
      KnownIsLastStart(o, before);
      FieldSnoc(o, before, e);
      LastWriterSnoc(o, before, e);
    }
  }

  /** Last writer wins: in any history of starts, changes made in the panel or by the CLI, and
      edits, each start serves the last change since the most recent start that saw the file
      change, or else the file as it was at that start. The start itself counts as the event at
      the end. */
  lemma {:induction false} LastWriterWins(s0: State, h: seq<Event>, bound: Option<int>)
    requires Initial(s0) && InRange(h)
    ensures var eff := Resolve(Run(s0, h).row, Run(s0, h).file);
            && LastWriter(PortOrigin(s0), Ports(h + [Start(bound)])) == Some(eff.port)
            && LastWriter(PathOrigin(s0), Paths(h + [Start(bound)])) == Some(eff.webPath)
  {
    StartServesLastWord(s0, h);
    assert (h + [Start(bound)])[..|h|] == h;
    AnswerIsWord(PortOrigin(s0), Ports(h));
    AnswerIsWord(PathOrigin(s0), Paths(h));
  }

  lemma {:induction false} AnswerIsWord<T>(o: Origin<T>, h: seq<FieldEvent<T>>)
    ensures Answer(o, h) == LastWriter(o, h + [Started])
  {
    FieldSnoc(o, h, Started);
    WordIsLastWriter(o, h + [Started]);
  }

  /** Where the CLI makes no change, "whoever last wrote the row" had read the file at the last start. */
  lemma {:induction false} ReadAtLastStart<T>(h: seq<FieldEvent<T>>)
    requires forall e | e in h :: !e.SetByCli?
    ensures LastReading(h) == LastStart(h)
  {
    var w := LastWrite(h);
    if w >= 0 {
      assert h[w] in h;
      LastStartPrefix(h, w);
    } else {
      assert forall i | 0 <= i < |h| :: !h[i].Started?;
    }
  }

  lemma {:induction false} LastStartPrefix<T>(h: seq<FieldEvent<T>>, w: nat)
    requires w < |h| && forall i | w < i < |h| :: !h[i].Started?
    ensures LastStart(h) == if h[w].Started? then w else LastStart(h[..w])
  {
    var k := LastStart(h[..w]);
    assert k >= 0 ==> h[k].Started?;
    assert forall i | k < i < w :: h[i] == h[..w][i];
  }

  /** An edit is consumed by the start that sees it: however often the panel is started on one file,
      and whatever ports it gets, it serves what the first of those starts serves, from the row. */
  lemma {:induction false} EditConsumedOnce(s: State, h: seq<Event>)
    requires WellFormed(s) && forall e | e in h :: e.Start?
    ensures var now := Run(s, h);
            var first, later := Resolve(s.row, s.file), Resolve(now.row, now.file);
            && now.file == s.file && later.port == first.port && later.webPath == first.webPath
            && (h != [] ==> later.portSource == FromDatabase && later.webPathSource == FromDatabase)
  {
    if h != [] {
      var n := |h| - 1;
      assert h[n] in h && forall e | e in h[..n] :: e in h;
      EditConsumedOnce(s, h[..n]);
      StartsWellFormed(s, h[..n]);
      StartAgain(Run(s, h[..n]), h[n]);
    }
  }

  lemma {:induction false} StartsWellFormed(s: State, h: seq<Event>)
    requires WellFormed(s) && forall e | e in h :: e.Start?
    ensures WellFormed(Run(s, h))
  {
    if h != [] {
      var n := |h| - 1;
      assert h[n] in h && forall e | e in h[..n] :: e in h;
      StartsWellFormed(s, h[..n]);
      WellFormedStep(Run(s, h[..n]), h[n]);
    }
  }

  lemma {:induction false} StartAgain(s: State, e: Event)
    requires WellFormed(s) && e.Start?
    ensures var eff := Resolve(s.row, s.file);
            Resolve(Next(s, e).row, s.file) == Effective(eff.port, eff.webPath, FromDatabase, FromDatabase)
  {
  }

  // ---------------------------------------------------------- the changes that can be lost

  /** A change made in the running panel is what the next start serves exactly when the file is
      still as that panel read it, or supplies nothing, or happens to say the same. */
  lemma {:induction false} PanelSetSurvivesIff(s0: State, h: seq<Event>, port: int, webPath: string)
    requires Initial(s0) && InRange(h) && IsPort(port) && Run(s0, h).known.Some?
    ensures var s := Run(s0, h);
            var next := Next(s, PanelSet(port, webPath));
            var eff := Resolve(next.row, next.file);
            && (eff.port == port <==>
                  !s.file.portProvided || s.file.port == s.known.value.port || s.file.port == port)
            && (eff.webPath == webPath <==>
                  !s.file.webPathProvided || s.file.webPath == s.known.value.webPath || s.file.webPath == webPath)
  {
    MirrorsAlways(s0, h);
  }

  /** The file is edited while the panel runs, then the panel's address is changed in the panel. */
  lemma {:induction false} PanelSetLost()
    ensures var s0 := State(NO_ROW, FileSeed(Some(8443), None), None);
            var s := Run(s0, [Start(Some(8443)), Edit(Some(9000), None), PanelSet(7000, "x")]);
            Initial(s0) && s.row.port == 7000 && Resolve(s.row, s.file).port == 9000
  {
    var s0 := State(NO_ROW, FileSeed(Some(8443), None), None);
    var s1 := RunOne(s0, [], Start(Some(8443)));
    var s2 := RunOne(s0, [Start(Some(8443))], Edit(Some(9000), None));
    var s3 := RunOne(s0, [Start(Some(8443)), Edit(Some(9000), None)], PanelSet(7000, "x"));
  }

  lemma {:induction false} RunOne(s0: State, h: seq<Event>, e: Event) returns (s: State)
    ensures s == Run(s0, h + [e]) == Next(Run(s0, h), e)
  {
    assert (h + [e])[..|h|] == h;
    s := Run(s0, h + [e]);
  }

  /** The events that are not starts. */
  function Acts(h: seq<Event>): seq<Event> {
    if h == [] then []
    else Acts(h[..|h| - 1]) + (if h[|h| - 1].Start? then [] else [h[|h| - 1]])
  }

  /** What the CLI does to the row and the file: store, write (a root path is written blank,
      which supplies nothing), store again. */
  function CliSequence(port: int, webPath: string): seq<Event> {
    [CliSet(port, webPath), Edit(Some(port), if webPath == "" then None else Some(webPath)), CliSet(port, webPath)]
  }

  /** From its first store on, wherever the CLI has got to and however many starts have run to
      their end in between, the row has the wanted address and a start serves it. */
  lemma {:induction false} CliSetSurvives(s0: State, h: seq<Event>, port: int, webPath: string, g: seq<Event>)
    requires Initial(s0) && InRange(h) && IsPort(port)
    requires Acts(g) != [] && Acts(g) <= CliSequence(port, webPath)
    ensures var now := Run(Run(s0, h), g);
            var eff := Resolve(now.row, now.file);
            && now.row.port == port && now.row.webPath == webPath
            && eff.port == port && eff.webPath == webPath
  {
    MirrorsAlways(s0, h);
    CliHolds(Run(s0, h), port, webPath, g);
    CliServes(Run(s0, h), port, webPath, |Acts(g)|, Run(Run(s0, h), g));
  }

  /** How things stand when the CLI has taken k of its steps. */
  ghost predicate CliAt(s: State, port: int, webPath: string, k: nat, now: State) {
    var written := FileSeed(Some(port), if webPath == "" then None else Some(webPath));
    && now.file == (if k <= 1 then s.file else written)
    && (k == 0 ==> WellFormed(now))
    && (k > 0 ==>
          && now.row.present && now.row.port == port && now.row.webPath == webPath
          && (now.row.seedPort == s.file.port || (k > 1 && now.row.seedPort == port))
          && (now.row.seedWebPath == s.file.webPath || (k > 1 && now.row.seedWebPath == webPath)))
  }

  lemma {:induction false} CliHolds(s: State, port: int, webPath: string, g: seq<Event>)
    requires WellFormed(s) && IsPort(port) && Acts(g) <= CliSequence(port, webPath)
    ensures CliAt(s, port, webPath, |Acts(g)|, Run(s, g))
  {
    if g != [] {
      var before, e := g[..|g| - 1], g[|g| - 1];
      assert Acts(before) <= Acts(g);
      CliHolds(s, port, webPath, before);
      if e.Start? {
        CliStart(s, port, webPath, |Acts(before)|, Run(s, before), e);
      } else {
        assert e == CliSequence(port, webPath)[|Acts(before)|];
      }
    }
  }

  lemma {:induction false} CliServes(s: State, port: int, webPath: string, k: nat, now: State)
    requires WellFormed(s) && IsPort(port) && k > 0 && CliAt(s, port, webPath, k, now)
    ensures Resolve(now.row, now.file).port == port && Resolve(now.row, now.file).webPath == webPath
  {
    assert Plain(s.file);
    assert !now.file.portFromFlag && !now.file.webPathFromFlag;
    assert now.file.portProvided ==> now.file.port == now.row.seedPort || now.file.port == port;
    assert now.file.webPathProvided ==> now.file.webPath == now.row.seedWebPath || now.file.webPath == webPath;
  }

  lemma {:induction false} CliStart(s: State, port: int, webPath: string, k: nat, now: State, e: Event)
    requires WellFormed(s) && IsPort(port) && CliAt(s, port, webPath, k, now) && e.Start?
    ensures CliAt(s, port, webPath, k, Next(now, e))
  {
  }

  /** A file that is taken away for one start and then put back as it was is news again, in each value
      it supplies, unless it says what stands in for it or what is stored: a change is reverted. */
  lemma {:induction false} RemovedFileReverts(s: State, bound: Option<int>)
    requires WellFormed(s) && s.row.present
    ensures var now := Run(s, Removal(s.file, bound));
            var eff := Resolve(now.row, now.file);
            && now.file == s.file
            && (eff.port == s.row.port <==>
                  !s.file.portProvided || s.file.port == DEFAULT_BIND_PORT || s.file.port == s.row.port)
            && (eff.webPath == s.row.webPath <==>
                  !s.file.webPathProvided || s.file.webPath == "" || s.file.webPath == s.row.webPath)
  {
    var gone, back := Edit(None, None), Edit(PortOf(s.file), PathOf(s.file));
    var s1 := RunOne(s, [], gone);
    var s2 := RunOne(s, [gone], Start(bound));
    var s3 := RunOne(s, [gone, Start(bound)], back);
    assert [] + [gone] == [gone] && [gone] + [Start(bound)] == [gone, Start(bound)];
    assert [gone, Start(bound)] + [back] == Removal(s.file, bound);
    assert s2.row.port == s.row.port && s2.row.webPath == s.row.webPath
           && s2.row.seedPort == DEFAULT_BIND_PORT && s2.row.seedWebPath == "";
    assert s3.row == s2.row && s3.file == s.file;
  }

  /** The file goes, a start does without it, and the file is back. */
  function Removal(file: Seed, bound: Option<int>): seq<Event> {
    [Edit(None, None), Start(bound), Edit(PortOf(file), PathOf(file))]
  }
}
