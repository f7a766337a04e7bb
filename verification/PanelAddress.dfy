/** Where the panel listens: the stored row, the precedence rules, and binding a port. */
module PanelAddress {
  import opened Basics
  import opened Seeds

  datatype Source = FromFlag | FromEnvironment | FromDatabase | FromDefault

  /** The stored address, with the file's values as they were when it was stored; absent at first. */
  datatype Stored = Stored(port: int, webPath: string, lastGoodPort: int,
                           seedPort: int, seedWebPath: string, present: bool)

  /** The row says this address. */
  predicate At(row: Stored, port: int, webPath: string) {
    row.present && row.port == port && row.webPath == webPath
  }

  const NO_ROW := Stored(0, "", 0, 0, "", false)

  datatype Effective = Effective(port: int, webPath: string, portSource: Source, webPathSource: Source)

  /** The precedence rules: flag, then a changed environment, then the database, then the default. */
  function Resolve(stored: Stored, seed: Seed): (out: Effective)
    ensures IsPort(out.port)
  {
    var (port, portSource) :=
      if seed.portFromFlag then (seed.port, FromFlag)
      else if !stored.present then (seed.port, FromEnvironment)
      else if !seed.portProvided then (stored.port, FromDatabase)
      else if seed.port != stored.seedPort then (seed.port, FromEnvironment)
      else (stored.port, FromDatabase);
    var (webPath, webPathSource) :=
      if seed.webPathFromFlag then (seed.webPath, FromFlag)
      else if !stored.present then (seed.webPath, FromEnvironment)
      else if !seed.webPathProvided then (stored.webPath, FromDatabase)
      else if seed.webPath != stored.seedWebPath then (seed.webPath, FromEnvironment)
      else (stored.webPath, FromDatabase);
    if IsPort(port) then Effective(port, webPath, portSource, webPathSource)
    else Effective(DEFAULT_BIND_PORT, webPath, FromDefault, webPathSource)
  }

  /** The row after an address and the seed it was decided against are written. */
  function Written(row: Stored, port: int, webPath: string, seed: Seed): Stored {
    Stored(port, webPath, if row.present then row.lastGoodPort else 0, seed.port, seed.webPath, true)
  }

  function WithLastGood(row: Stored, port: int): Stored {
    if row.present then row.(lastGoodPort := port) else row
  }

  /** A stored value stands exactly when no flag and no news in the file says otherwise; the port
      and the web path are settled separately. */
  lemma {:induction false} StoredStandsIff(row: Stored, seed: Seed)
    requires row.present && IsPort(row.port) && IsPort(seed.port)
    ensures var eff := Resolve(row, seed);
            && (eff.port == row.port <==>
                  seed.port == row.port || (!seed.portFromFlag && (!seed.portProvided || seed.port == row.seedPort)))
            && (eff.webPath == row.webPath <==>
                  seed.webPath == row.webPath
                  || (!seed.webPathFromFlag && (!seed.webPathProvided || seed.webPath == row.seedWebPath)))
            && eff.port in {row.port, seed.port} && eff.webPath in {row.webPath, seed.webPath}
  {
  }

  /** A first start takes what it is given; flags win over any row; with no port in range anywhere the
      port is 8787, and the web path is settled as ever. */
  lemma {:induction false} ResolveEdges(row: Stored, seed: Seed)
    ensures var eff := Resolve(row, seed);
            && (!row.present ==> eff.webPath == seed.webPath && (IsPort(seed.port) ==> eff.port == seed.port))
            && (!row.present && !seed.portFromFlag && !seed.webPathFromFlag && IsPort(seed.port) ==>
                  eff.portSource == FromEnvironment && eff.webPathSource == FromEnvironment)
            && (seed.portFromFlag && IsPort(seed.port) ==> eff.port == seed.port && eff.portSource == FromFlag)
            && (seed.webPathFromFlag ==> eff.webPath == seed.webPath && eff.webPathSource == FromFlag)
            && (!IsPort(row.port) && !IsPort(seed.port) ==> eff.port == 8787 && eff.portSource == FromDefault)
            && (eff.portSource == FromDefault ==> eff.port == 8787 && (!IsPort(row.port) || !IsPort(seed.port)))
            && eff.webPath == Resolve(row.(port := 1), seed.(port := 1)).webPath
  {
  }

  /** The last good port decides nothing: it is tried second, and only when the resolved port does
      not open. */
  lemma {:induction false} LastGoodIsAFallback(row: Stored, port: int, seed: Seed)
    requires row.present && IsPort(port)
    ensures var later := WithLastGood(row, port);
            var eff := Resolve(row, seed);
            && Resolve(later, seed) == eff
            && (eff.port != port ==> [eff.port, port] <= Attempts(BindCandidates(eff, later, seed)))
  {
    var eff := Resolve(row, seed);
    var c := BindCandidates(eff, WithLastGood(row, port), seed);
    assert c[0] == eff.port && c[1] == port && c[..0] == [];
    AttemptsStep(c, 0);
    AttemptsStep(c, 1);
  }

  /** The PanelAddress table, which holds one row or none. */
  class Database {
    var row: Stored

    constructor Empty()
      ensures row == NO_ROW
    {
      row := NO_ROW;
    }

    /** An upsert: insert the row, or overwrite four of its columns. */
    method Save(eff: Effective, seed: Seed)
      modifies this
      ensures row == Written(old(row), eff.port, eff.webPath, seed)
      ensures row.present && row.port == eff.port && row.webPath == eff.webPath
      ensures row.seedPort == seed.port && row.seedWebPath == seed.webPath
      ensures row.lastGoodPort == if old(row).present then old(row).lastGoodPort else 0
    {
      if row.present {
        row := row.(port := eff.port, webPath := eff.webPath, seedPort := seed.port, seedWebPath := seed.webPath);
      } else {
        row := Stored(eff.port, eff.webPath, 0, seed.port, seed.webPath, true);
      }
    }

    /** A deliberate change: update, and insert when nothing was there to update. */
    method Set(port: int, webPath: string, seed: Seed)
      modifies this
      ensures row == Written(old(row), port, webPath, seed)
      ensures row.present && row.port == port && row.webPath == webPath
      ensures row.seedPort == seed.port && row.seedWebPath == seed.webPath
      ensures row.lastGoodPort == if old(row).present then old(row).lastGoodPort else 0
    {
      var affected := if row.present then 1 else 0;
      if affected == 1 {
        row := row.(port := port, webPath := webPath, seedPort := seed.port, seedWebPath := seed.webPath);
      }
      if affected == 0 {
        row := Stored(port, webPath, 0, seed.port, seed.webPath, true);
      }
    }

    method RecordLastGood(port: int)
      modifies this
      ensures row == WithLastGood(old(row), port)
    {
      if row.present {
        row := row.(lastGoodPort := port);
      }
    }
  }

  // --------------------------------------------------------------------- binding a port

  datatype Fallback = Fallback(wanted: int, serving: int, reason: string)

  datatype Listening = Bound(port: int, fallback: Option<Fallback>)
                     | NoUsablePort
                     | CannotBind(reason: string)

  /** The in-range candidates, each where it first appears. */
  function Attempts(candidates: seq<int>): seq<int> {
    if candidates == [] then []
    else
      var n := |candidates| - 1;
      var before := Attempts(candidates[..n]);
      if IsPort(candidates[n]) && candidates[n] !in before then before + [candidates[n]] else before
  }

  /** They are in range, all of those that are, and each once. */
  lemma {:induction false} AttemptsLaw(candidates: seq<int>)
    ensures var a := Attempts(candidates);
            && (forall i | 0 <= i < |a| :: IsPort(a[i]) && a[i] in candidates)
            && (forall i, j | 0 <= i < j < |a| :: a[i] != a[j])
            && (forall p | p in candidates && IsPort(p) :: p in a)
  {
    if candidates != [] {
      var n := |candidates| - 1;
      AttemptsLaw(candidates[..n]);
      assert candidates == candidates[..n] + [candidates[n]];
    }
  }

  lemma {:induction false} AttemptsPrefix(candidates: seq<int>, k: nat)
    requires k <= |candidates|
    ensures Attempts(candidates[..k]) <= Attempts(candidates)
    decreases |candidates| - k
  {
    if k == |candidates| {
      assert candidates[..k] == candidates;
    } else {
      assert candidates[..k + 1][..k] == candidates[..k];
      AttemptsPrefix(candidates, k + 1);
    }
  }

  lemma {:induction false} AttemptsStep(candidates: seq<int>, i: nat)
    requires i < |candidates|
    ensures var before, port := Attempts(candidates[..i]), candidates[i];
            Attempts(candidates[..i + 1])
            == if IsPort(port) && port !in before then before + [port] else before
    ensures Attempts(candidates[..i + 1]) <= Attempts(candidates)
  {
    assert candidates[..i + 1][..i] == candidates[..i];
    AttemptsPrefix(candidates, i + 1);
  }

  /** What the loop knows: each candidate so far was tried or passed over, and the first failure is kept. */
  ghost predicate Failing(open: int -> Option<string>, tried: seq<int>, seen: set<int>, first: Option<string>, firstPort: int) {
    && (forall p :: p in seen <==> p in tried)
    && (forall k | 0 <= k < |tried| :: open(tried[k]).Some?)
    && (first.None? <==> tried == [])
    && (tried != [] ==> firstPort == tried[0] && first == open(firstPort))
  }

  lemma {:induction false} FailedAgain(open: int -> Option<string>, tried: seq<int>, seen: set<int>,
                                       first: Option<string>, firstPort: int, port: int)
    requires Failing(open, tried, seen, first, firstPort) && open(port).Some?
    ensures Failing(open, tried + [port], seen + {port}, if first.None? then open(port) else first,
                    if first.None? then port else firstPort)
  {
  }

  /** What a port that opened comes to. */
  function Opened(port: int, first: Option<string>, firstPort: int): Listening {
    Bound(port, if first.None? then None else Some(Fallback(firstPort, port, first.value)))
  }

  /** The outcome, told from the attempts made. */
  ghost predicate Concludes(open: int -> Option<string>, tried: seq<int>, r: Listening) {
    && (forall i | 0 <= i < |tried| - 1 :: open(tried[i]).Some?)
    && (r.Bound? ==>
          && tried != [] && r.port == tried[|tried| - 1] && open(r.port).None?
          && (r.fallback.None? <==> |tried| == 1)
          && (r.fallback.Some? ==> r.fallback.value == Fallback(tried[0], r.port, open(tried[0]).value)))
    && (!r.Bound? ==> forall i | 0 <= i < |tried| :: open(tried[i]).Some?)
    && (r.NoUsablePort? <==> tried == [])
    && (r.CannotBind? ==> tried != [] && open(tried[0]) == Some(r.reason))
  }

  lemma {:induction false} OpenedAt(open: int -> Option<string>, tried: seq<int>, seen: set<int>,
                                    first: Option<string>, firstPort: int, port: int)
    requires Failing(open, tried, seen, first, firstPort) && open(port).None?
    ensures Concludes(open, tried + [port], Opened(port, first, firstPort))
  {
    var more := tried + [port];
    assert more[|tried|] == port && forall i | 0 <= i < |tried| :: more[i] == tried[i];
  }

  /** Candidates are tried in order, each once, up to the first that opens. */
  method ListenWith(open: int -> Option<string>, candidates: seq<int>) returns (r: Listening, ghost tried: seq<int>)
    ensures tried <= Attempts(candidates) && (!r.Bound? ==> tried == Attempts(candidates))
    ensures Concludes(open, tried, r)
    ensures IsOutcome(open, Attempts(candidates), r)
  {
    tried := [];
    var first: Option<string>, firstPort := None, 0;
    var seen: set<int> := {};
    for i := 0 to |candidates|
      invariant tried == Attempts(candidates[..i]) && Failing(open, tried, seen, first, firstPort)
    {
      AttemptsStep(candidates, i);
      var port := candidates[i];
      if !IsPort(port) || port in seen {
        continue;
      }
      ghost var before := tried;
      tried := before + [port];
      var err := open(port);
      if err.None? {
        OpenedAt(open, before, seen, first, firstPort, port);
        ConcludedIsFirst(open, tried, Attempts(candidates), Opened(port, first, firstPort));
        if first.None? {
          return Bound(port, None), tried;
        }
        return Bound(port, Some(Fallback(firstPort, port, first.value))), tried;
      }
      FailedAgain(open, before, seen, first, firstPort, port);
      seen := seen + {port};
      if first.None? {
        first, firstPort := err, port;
      }
    }
    assert candidates[..|candidates|] == candidates;
    r := if first.None? then NoUsablePort else CannotBind(first.value);
    ConcludedIsFirst(open, tried, tried, r);
  }

  /** What was asked for, what last worked, what the file says, the default. */
  function BindCandidates(eff: Effective, stored: Stored, seed: Seed): seq<int> {
    [eff.port]
    + (if stored.lastGoodPort > 0 then [stored.lastGoodPort] else [])
    + (if seed.port > 0 then [seed.port] else [])
    + [DEFAULT_BIND_PORT]
  }

  /** The configured port is always the first one tried, so there is always one to try. */
  lemma {:induction false} ConfiguredPortFirst(stored: Stored, seed: Seed, other: Stored)
    ensures var eff := Resolve(stored, seed);
            var a := Attempts(BindCandidates(eff, other, seed));
            a != [] && a[0] == eff.port && DEFAULT_BIND_PORT in a
  {
    var eff := Resolve(stored, seed);
    var c := BindCandidates(eff, other, seed);
    assert c[..1] == [eff.port] && [eff.port][..0] == [];
    assert Attempts(c[..1]) == [eff.port];
    AttemptsPrefix(c, 1);
    AttemptsLaw(c);
    assert DEFAULT_BIND_PORT == c[|c| - 1];
  }

  /** The first of some ports that opens. */
  function FirstOpen(open: int -> Option<string>, ports: seq<int>): Option<int> {
    if ports == [] then None
    else if open(ports[0]).None? then Some(ports[0]) else FirstOpen(open, ports[1..])
  }

  lemma {:induction false} FirstOpenAt(open: int -> Option<string>, ports: seq<int>, k: nat)
    requires k <= |ports| && forall i | 0 <= i < k :: open(ports[i]).Some?
    ensures FirstOpen(open, ports)
            == if k == |ports| then None else if open(ports[k]).None? then Some(ports[k]) else FirstOpen(open, ports[k..])
  {
    if k > 0 {
      FirstOpenAt(open, ports[1..], k - 1);
      assert ports[1..][k - 1..] == ports[k..];
    } else {
      assert ports[0..] == ports;
    }
  }

  /** The outcome, told from the ports to be attempted: the first that opens, and a fallback that names
      the very first and its failure unless that is the one. */
  predicate IsOutcome(open: int -> Option<string>, all: seq<int>, r: Listening) {
    && FirstOpen(open, all) == (if r.Bound? then Some(r.port) else None)
    && (r.Bound? ==>
          && all != [] && (r.fallback.None? <==> r.port == all[0] && open(r.port).None?)
          && (r.fallback.Some? ==> r.fallback.value == Fallback(all[0], r.port, OrBlank(open(all[0])))))
    && (r.NoUsablePort? <==> all == [])
    && (r.CannotBind? ==> all != [] && open(all[0]) == Some(r.reason))
  }

  /** An attempt-by-attempt outcome is that. */
  lemma {:induction false} ConcludedIsFirst(open: int -> Option<string>, tried: seq<int>, all: seq<int>, r: Listening)
    requires tried <= all && (!r.Bound? ==> tried == all) && Concludes(open, tried, r)
    ensures IsOutcome(open, all, r)
  {
    FirstOpenAt(open, all, if r.Bound? then |tried| - 1 else |tried|);
  }

  // -------------------------------------------------------------------- starting the panel

  /** The port a start gets, if any opens. */
  function BoundPort(open: int -> Option<string>, row: Stored, seed: Seed): Option<int> {
    FirstOpen(open, Attempts(BindCandidates(Resolve(row, seed), row, seed)))
  }

  /** It is the resolved one exactly when that opens, and otherwise one of the fallbacks. */
  lemma {:induction false} BoundPortLaw(open: int -> Option<string>, row: Stored, seed: Seed)
    ensures var eff, bound := Resolve(row, seed), BoundPort(open, row, seed);
            && (bound == Some(eff.port) <==> open(eff.port).None?)
            && (bound.Some? ==>
                  && IsPort(bound.value) && open(bound.value).None?
                  && bound.value in {eff.port, row.lastGoodPort, seed.port, DEFAULT_BIND_PORT})
            && (bound.None? ==> open(DEFAULT_BIND_PORT).Some?)
  {
    var eff := Resolve(row, seed);
    var c := BindCandidates(eff, row, seed);
    ConfiguredPortFirst(row, seed, row);
    AttemptsLaw(c);
    FirstOpenIs(open, Attempts(c));
    FirstOpenAt(open, Attempts(c), 0);
  }

  lemma {:induction false} FirstOpenIs(open: int -> Option<string>, ports: seq<int>)
    ensures FirstOpen(open, ports).Some? ==> FirstOpen(open, ports).value in ports && open(FirstOpen(open, ports).value).None?
    ensures FirstOpen(open, ports).None? ==> forall p | p in ports :: open(p).Some?
    decreases |ports|
  {
    if ports != [] {
      FirstOpenIs(open, ports[1..]);
    }
  }

  /** The first in-range candidate that opens. */
  function FirstUsable(open: int -> Option<string>, candidates: seq<int>): Option<int> {
    if candidates == [] then None
    else
      var n := |candidates| - 1;
      var before := FirstUsable(open, candidates[..n]);
      if before.Some? then before
      else if IsPort(candidates[n]) && open(candidates[n]).None? then Some(candidates[n]) else None
  }

  lemma {:induction false} FirstOpenSnoc(open: int -> Option<string>, ports: seq<int>, p: int)
    ensures FirstOpen(open, ports + [p])
            == if FirstOpen(open, ports).Some? then FirstOpen(open, ports) else if open(p).None? then Some(p) else None
    decreases |ports|
  {
    if ports != [] {
      FirstOpenSnoc(open, ports[1..], p);
      assert (ports + [p])[1..] == ports[1..] + [p];
    }
  }

  /** Trying each only once makes no difference to which one opens first. */
  lemma {:induction false} FirstAttemptThatOpens(open: int -> Option<string>, candidates: seq<int>)
    ensures FirstOpen(open, Attempts(candidates)) == FirstUsable(open, candidates)
  {
    if candidates != [] {
      var n := |candidates| - 1;
      var before := Attempts(candidates[..n]);
      FirstAttemptThatOpens(open, candidates[..n]);
      FirstOpenIs(open, before);
      FirstOpenSnoc(open, before, candidates[n]);
    }
  }

  lemma {:induction false} FirstUsableConcat(open: int -> Option<string>, a: seq<int>, b: seq<int>)
    ensures FirstUsable(open, a + b) == if FirstUsable(open, a).Some? then FirstUsable(open, a) else FirstUsable(open, b)
    decreases |b|
  {
    if b == [] {
      assert a + b == a;
    } else {
      var n := |b| - 1;
      FirstUsableConcat(open, a, b[..n]);
      assert (a + b)[..|a| + n] == a + b[..n];
    }
  }

  lemma {:induction false} FirstUsableOne(open: int -> Option<string>, p: int)
    ensures FirstUsable(open, [p]) == if IsPort(p) && open(p).None? then Some(p) else None
  {
    assert [p][..0] == [];
  }

  /** The order in which a start's ports are tried: what was resolved, what last worked, what the file
      says, 8787; of those the first that is a port and opens is served. */
  lemma {:induction false} BoundPortIs(open: int -> Option<string>, row: Stored, seed: Seed)
    ensures var eff := Resolve(row, seed);
            BoundPort(open, row, seed) ==
            if open(eff.port).None? then Some(eff.port)
            else if IsPort(row.lastGoodPort) && open(row.lastGoodPort).None? then Some(row.lastGoodPort)
            else if IsPort(seed.port) && open(seed.port).None? then Some(seed.port)
            else if open(8787).None? then Some(8787) else None
  {
    var eff := Resolve(row, seed);
    var lastGood := if row.lastGoodPort > 0 then [row.lastGoodPort] else [];
    var fromFile := if seed.port > 0 then [seed.port] else [];
    FirstAttemptThatOpens(open, BindCandidates(eff, row, seed));
    FirstUsableConcat(open, [eff.port] + lastGood + fromFile, [DEFAULT_BIND_PORT]);
    FirstUsableConcat(open, [eff.port] + lastGood, fromFile);
    FirstUsableConcat(open, [eff.port], lastGood);
    FirstUsableOne(open, eff.port);
    FirstUsableOne(open, row.lastGoodPort);
    FirstUsableOne(open, seed.port);
    FirstUsableOne(open, DEFAULT_BIND_PORT);
  }

  /** The row a start leaves behind: the answer, its seed, and the port it got. */
  function AfterStart(row: Stored, seed: Seed, bound: Option<int>): Stored {
    var eff := Resolve(row, seed);
    var saved := Written(row, eff.port, eff.webPath, seed);
    if bound.Some? then WithLastGood(saved, bound.value) else saved
  }

  /** What listening comes to for a start: never a want of ports. */
  lemma {:induction false} StartOutcome(open: int -> Option<string>, row: Stored, seed: Seed, r: Listening)
    requires IsOutcome(open, Attempts(BindCandidates(Resolve(row, seed), row, seed)), r)
    ensures var eff, bound := Resolve(row, seed), BoundPort(open, row, seed);
            && !r.NoUsablePort?
            && (r.Bound? ==> bound == Some(r.port) && r.fallback == NamedFallback(open, eff.port, r.port))
            && (r.CannotBind? ==> bound.None? && open(eff.port) == Some(r.reason))
  {
    ConfiguredPortFirst(row, seed, row);
    BoundPortLaw(open, row, seed);
  }

  /** The fallback reported when another port than the wanted one is served. */
  function NamedFallback(open: int -> Option<string>, wanted: int, serving: int): Option<Fallback> {
    if serving == wanted then None else Some(Fallback(wanted, serving, OrBlank(open(wanted))))
  }

  datatype Started = Refused(why: SeedError) | Serving(eff: Effective, port: int, fallback: Option<Fallback>)
                   | NotBound(reason: string)

  /** The start sequence: load, resolve, save, listen, remember the port. */
  method StartPanel(db: Database, values: map<string, string>, open: int -> Option<string>) returns (r: Started)
    modifies db
    ensures PanelSeed(values).Err? ==> r == Refused(PanelSeed(values).error) && db.row == old(db.row)
    ensures PanelSeed(values).Ok? ==>
              var seed := PanelSeed(values).value;
              var eff, bound := Resolve(old(db.row), seed), BoundPort(open, old(db.row), seed);
              && db.row == AfterStart(old(db.row), seed, bound)
              && At(db.row, eff.port, eff.webPath) && db.row.seedPort == seed.port && db.row.seedWebPath == seed.webPath
              && (bound.Some? ==> db.row.lastGoodPort == bound.value)
              && (bound.None? && old(db.row).present ==> db.row.lastGoodPort == old(db.row).lastGoodPort)
              && (bound.Some? ==> r == Serving(eff, bound.value, NamedFallback(open, eff.port, bound.value)))
              && (bound.None? ==> r.NotBound? && Some(r.reason) == open(eff.port))
  {
    var read := PanelSeed(values);
    if read.Err? {
      return Refused(read.error);
    }
    var seed, stored := read.value, db.row;
    var eff := Resolve(stored, seed);
    db.Save(eff, seed);
    var candidates := BindCandidates(eff, stored, seed);
    var listening, tried := ListenWith(open, candidates);
    StartOutcome(open, stored, seed, listening);
    match listening {
      case Bound(port, fallback) =>
        db.RecordLastGood(port);
        return Serving(eff, port, fallback);
      case CannotBind(reason) =>
        return NotBound(reason);
      case NoUsablePort =>
        assert false;
    }
  }
}
