/** The dependency closure of scripts/generate_runtime_requirements.py: a worklist over
    (package, extras) that revisits a package when it is asked for new extras. */
module LockClosure {
  import opened Prelude

  /** A marker field of the lock: absent or blank, one expression per group, or one expression. */
  datatype Marker = NoMarker | PerGroup(main: Option<string>) | Expression(text: string)

  /** One option of a dependency, one parsed requirement, one package of the lock. */
  datatype Choice = Choice(optional: bool, markers: Marker, extras: set<string>)
  datatype Requirement = Requirement(name: string, marker: Option<string>, extras: set<string>)
  datatype Dependency = Dependency(name: string, options: seq<Choice>)
  datatype Package =
    | Locked(version: string, dependencies: seq<Dependency>, extras: map<string, seq<Requirement>>)
    | Ambiguous(versions: seq<string>)

  type Lock = map<string, Package>

  /** Name canonicalisation and the evaluation of a marker for one extra. */
  datatype Env = Env(canon: string -> string, evaluate: (string, string) -> bool)

  /** `_marker_applies`. */
  predicate MarkerApplies(env: Env, marker: Marker, extras: set<string>) {
    match marker
    case NoMarker => true
    case PerGroup(None) => false
    case PerGroup(Some(text)) => text != "" && TextApplies(env, text, extras)
    case Expression(text) => text == "" || TextApplies(env, text, extras)
  }

  predicate TextApplies(env: Env, text: string, extras: set<string>) {
    text == "<empty>" || exists e :: e in (if extras == {} then {""} else extras) && env.evaluate(text, e)
  }

  // ----- what a package asks for under a set of extras

  predicate Usable(env: Env, o: Choice, live: set<string>) { !o.optional && MarkerApplies(env, o.markers, live) }

  predicate Applicable(env: Env, d: Dependency, live: set<string>) {
    exists o :: o in d.options && Usable(env, o, live)
  }

  function ChildExtras(env: Env, d: Dependency, live: set<string>): set<string> {
    set o, e | o in d.options && Usable(env, o, live) && e in o.extras :: e
  }

  predicate Wanted(env: Env, q: Requirement, extra: string) {
    q.marker.Some? && q.marker.value != "" ==> env.evaluate(q.marker.value, extra)
  }

  /** `p`, with extras `live`, asks for `child` with `extras` through a dependency. */
  ghost predicate DependencyEdge(env: Env, p: Package, live: set<string>, child: string, extras: set<string>) {
    p.Locked? && exists d :: d in p.dependencies && Applicable(env, d, live)
                             && env.canon(d.name) == child && ChildExtras(env, d, live) == extras
  }

  /** ... or through a requirement of one of the extras. */
  ghost predicate ExtraEdge(env: Env, p: Package, live: set<string>, child: string, extras: set<string>) {
    p.Locked? && exists e, q :: e in live && e in p.extras && q in p.extras[e] && Wanted(env, q, e)
                                && env.canon(q.name) == child && q.extras == extras
  }

  ghost predicate Edge(env: Env, p: Package, live: set<string>, child: string, extras: set<string>) {
    DependencyEdge(env, p, live, child, extras) || ExtraEdge(env, p, live, child, extras)
  }

  // ----- the worklist

  /** One call of `enqueue`, and whether its extras were taken. */
  datatype Request = Request(asker: Option<string>, live: set<string>, child: string, extras: set<string>, taken: bool)

  /** `log` is a record of the calls for the specification; the script does not keep it. */
  datatype Machine = Machine(
    requested: map<string, set<string>>, queue: seq<string>, visited: map<string, set<string>>, log: seq<Request>)

  datatype Error = NotInLock(name: string) | AmbiguousVersions(name: string) | SetChangedDuringIteration(name: string)

  const EMPTY := Machine(map[], [], map[], [])

  function Recorded(m: Machine, name: string): set<string> { if name in m.requested then m.requested[name] else {} }

  predicate Takes(m: Machine, name: string, extras: set<string>) {
    name !in m.queue && (extras - Recorded(m, name) != {} || Recorded(m, name) == {})
  }

  /** `enqueue`: extras asked of a package that is already waiting are dropped. */
  function Enqueue(env: Env, lock: Lock, m: Machine, asker: Option<string>, live: set<string>, name: string, extras: set<string>)
    : Result<Machine, Error>
  {
    var c := env.canon(name);
    if c !in lock then Err(NotInLock(c))
    else
      var log := m.log + [Request(asker, live, c, extras, Takes(m, c, extras))];
      if Takes(m, c, extras) then
        Ok(m.(requested := m.requested[c := Recorded(m, c) + extras], queue := m.queue + [c], log := log))
      else
        Ok(m.(requested := m.requested[c := Recorded(m, c)], log := log))
  }

  /** A call records everything it asks for exactly when the package is not already waiting, or
      it asks for nothing new. */
  lemma EnqueueRecordsAllExactlyWhen(env: Env, lock: Lock, m: Machine, asker: Option<string>, live: set<string>,
                                     name: string, extras: set<string>)
    requires env.canon(name) in lock
    ensures var c, m' := env.canon(name), Enqueue(env, lock, m, asker, live, name, extras).value;
      extras <= m'.requested[c] <==> (c !in m.queue || extras <= Recorded(m, c))
  {
    var c := env.canon(name);
    if c !in m.queue && extras - Recorded(m, c) == {} {
      assert forall e :: e in extras && e !in Recorded(m, c) ==> e in extras - Recorded(m, c);
    }
  }

  function EnqueueRoots(env: Env, lock: Lock, roots: seq<Requirement>): Result<Machine, Error>
    decreases |roots|
  {
    if roots == [] then Ok(EMPTY)
    else
      var last := roots[|roots| - 1];
      match EnqueueRoots(env, lock, roots[..|roots| - 1])
      case Err(e) => Err(e)
      case Ok(m) => Enqueue(env, lock, m, None, {}, last.name, last.extras)
  }

  // ----- the runs of the worklist

  /** The requests for the dependencies of a package, in order. */
  function AskAll(env: Env, lock: Lock, name: string, m: Machine, ds: seq<Dependency>): Result<Machine, Error>
    decreases |ds|
  {
    if ds == [] then Ok(m)
    else
      match AskAll(env, lock, name, m, ds[..|ds| - 1])
      case Err(e) => Err(e)
      case Ok(n) => AskOne(env, lock, name, n, ds[|ds| - 1])
  }

  function AskOne(env: Env, lock: Lock, name: string, m: Machine, d: Dependency): Result<Machine, Error> {
    var live := Recorded(m, name);
    if Applicable(env, d, live) then Enqueue(env, lock, m, Some(name), live, d.name, ChildExtras(env, d, live)) else Ok(m)
  }

  /** The requests for the requirements of one of its extras, in order. */
  function RequireAll(env: Env, lock: Lock, name: string, m: Machine, e: string, qs: seq<Requirement>): Result<Machine, Error>
    decreases |qs|
  {
    if qs == [] then Ok(m)
    else
      match RequireAll(env, lock, name, m, e, qs[..|qs| - 1])
      case Err(error) => Err(error)
      case Ok(n) => RequireOne(env, lock, name, n, e, qs[|qs| - 1])
  }

  function RequireOne(env: Env, lock: Lock, name: string, m: Machine, e: string, q: Requirement): Result<Machine, Error> {
    if Wanted(env, q, e) then Enqueue(env, lock, m, Some(name), Recorded(m, name), q.name, q.extras) else Ok(m)
  }

  /** One turn of the loop over the extras, which fails if the set has changed. */
  function ExtraStep(env: Env, lock: Lock, name: string, table: map<string, seq<Requirement>>, m: Machine, e: string)
    : Result<Machine, Error>
  {
    match if e in table then RequireAll(env, lock, name, m, e, table[e]) else Ok(m)
    case Err(error) => Err(error)
    case Ok(n) => if Recorded(n, name) != Recorded(m, name) then Err(SetChangedDuringIteration(name)) else Ok(n)
  }

  /** What the loop over the extras may give: a set is iterated in any order. */
  ghost predicate ExtrasGive(env: Env, lock: Lock, name: string, table: map<string, seq<Requirement>>, todo: set<string>,
                             m: Machine, r: Result<Machine, Error>)
    decreases todo, 1
  {
    if todo == {} then r == Ok(m) else exists e :: e in todo && ExtraLeads(env, lock, name, table, todo, m, e, r)
  }

  /** ... when `e` is the next one. */
  ghost predicate ExtraLeads(env: Env, lock: Lock, name: string, table: map<string, seq<Requirement>>, todo: set<string>,
                             m: Machine, e: string, r: Result<Machine, Error>)
    requires e in todo
    decreases todo, 0
  {
    match ExtraStep(env, lock, name, table, m, e)
    case Err(error) => r == Err(error)
    case Ok(n) => ExtrasGive(env, lock, name, table, todo - {e}, n, r)
  }

  /** What a visit of a package may give. */
  ghost predicate VisitGives(env: Env, lock: Lock, name: string, p: Package, m: Machine, r: Result<Machine, Error>)
    requires p.Locked?
  {
    match AskAll(env, lock, name, m, p.dependencies)
    case Err(error) => r == Err(error)
    case Ok(n) => ExtrasGive(env, lock, name, p.extras, Recorded(n, name), n, r)
  }

  /** What a turn of the main loop may give. */
  ghost predicate TurnGives(env: Env, lock: Lock, m: Machine, r: Result<Machine, Error>)
    requires m.queue != []
  {
    var name, rest := m.queue[0], m.(queue := m.queue[1..]);
    name in lock &&
    if lock[name].Ambiguous? then r == Err(AmbiguousVersions(name))
    else if name in m.visited && m.visited[name] == Recorded(m, name) then r == Ok(rest)
    else VisitGives(env, lock, name, lock[name], rest.(visited := m.visited[name := Recorded(m, name)]), r)
  }

  /** `n` turns may lead from one state to another. */
  ghost predicate Turns(env: Env, lock: Lock, start: Machine, n: nat, m: Machine) {
    if n == 0 then m == start
    else exists before :: Turns(env, lock, start, n - 1, before) && before.queue != [] && TurnGives(env, lock, before, Ok(m))
  }

  /** How the worklist may end: with an empty queue, or with an error. */
  ghost predicate RunGives(env: Env, lock: Lock, roots: seq<Requirement>, r: Result<Machine, Error>) {
    match EnqueueRoots(env, lock, roots)
    case Err(error) => r == Err(error)
    case Ok(start) =>
      exists n: nat, m :: Turns(env, lock, start, n, m) &&
        if m.queue == [] then r == Ok(m) else r.Err? && TurnGives(env, lock, m, r)
  }

  /** A failed request ends the loop that made it. */
  lemma {:induction false} AskAllFails(env: Env, lock: Lock, name: string, m: Machine, ds: seq<Dependency>, i: nat)
    requires i <= |ds| && AskAll(env, lock, name, m, ds[..i]).Err?
    ensures AskAll(env, lock, name, m, ds) == AskAll(env, lock, name, m, ds[..i])
    decreases |ds|
  {
    if i == |ds| {
      assert ds[..i] == ds;
    } else {
      assert ds[..|ds| - 1][..i] == ds[..i];
      AskAllFails(env, lock, name, m, ds[..|ds| - 1], i);
    }
  }

  lemma {:induction false} RequireAllFails(env: Env, lock: Lock, name: string, m: Machine, e: string, qs: seq<Requirement>, i: nat)
    requires i <= |qs| && RequireAll(env, lock, name, m, e, qs[..i]).Err?
    ensures RequireAll(env, lock, name, m, e, qs) == RequireAll(env, lock, name, m, e, qs[..i])
    decreases |qs|
  {
    if i == |qs| {
      assert qs[..i] == qs;
    } else {
      assert qs[..|qs| - 1][..i] == qs[..i];
      RequireAllFails(env, lock, name, m, e, qs[..|qs| - 1], i);
    }
  }

  lemma AskAllStep(env: Env, lock: Lock, name: string, m: Machine, ds: seq<Dependency>, i: nat, n: Machine)
    requires i < |ds| && AskAll(env, lock, name, m, ds[..i]) == Ok(n)
    ensures AskAll(env, lock, name, m, ds[..i + 1]) == AskOne(env, lock, name, n, ds[i])
  {
    assert ds[..i + 1][..i] == ds[..i];
  }

  lemma RequireAllStep(env: Env, lock: Lock, name: string, m: Machine, e: string, qs: seq<Requirement>, i: nat, n: Machine)
    requires i < |qs| && RequireAll(env, lock, name, m, e, qs[..i]) == Ok(n)
    ensures RequireAll(env, lock, name, m, e, qs[..i + 1]) == RequireOne(env, lock, name, n, e, qs[i])
  {
    assert qs[..i + 1][..i] == qs[..i];
  }

  /** A state with an error, as a result. */
  function Outcome(m: Machine, error: Option<Error>): Result<Machine, Error> {
    if error.Some? then Err(error.value) else Ok(m)
  }

  // ----- what every state keeps

  /** Extras taken for a name. */
  function Taken(log: seq<Request>, name: string): set<string>
    decreases |log|
  {
    if log == [] then {}
    else
      var q := log[|log| - 1];
      Taken(log[..|log| - 1], name) + (if q.child == name && q.taken then q.extras else {})
  }

  ghost predicate Asked(log: seq<Request>, name: string) { exists q :: q in log && q.child == name }

  /** A request comes from a root, or along an edge of a package that was asked for before, under
      exactly the extras that are recorded for it at that moment. */
  ghost predicate Justified(env: Env, lock: Lock, roots: seq<Requirement>, past: seq<Request>, q: Request) {
    match q.asker
    case None => exists r :: r in roots && env.canon(r.name) == q.child && r.extras == q.extras
    case Some(p) =>
      p in lock && Asked(past, p) && q.live == Taken(past, p) && Edge(env, lock[p], q.live, q.child, q.extras)
  }

  ghost predicate AllJustified(env: Env, lock: Lock, roots: seq<Requirement>, log: seq<Request>)
    decreases |log|
  {
    if log == [] then true
    else
      var past := log[..|log| - 1];
      AllJustified(env, lock, roots, past) && Justified(env, lock, roots, past, log[|log| - 1])
  }

  ghost predicate Served(env: Env, p: Package, log: seq<Request>, name: string, live: set<string>) {
    p.Locked? && forall child, extras :: Edge(env, p, live, child, extras) ==> Has(log, name, live, child, extras)
  }

  ghost predicate Has(log: seq<Request>, name: string, live: set<string>, child: string, extras: set<string>) {
    exists q :: q in log && q.asker == Some(name) && q.live == live && q.child == child && q.extras == extras
  }

  /** Every extra that occurs anywhere in the roots and the lock. */
  ghost function Universe(lock: Lock, roots: seq<Requirement>): set<string> {
    (set r, e | r in roots && e in r.extras :: e)
    + (set n, d, o, e | n in lock && lock[n].Locked? && d in lock[n].dependencies && o in d.options && e in o.extras :: e)
    + (set n, x, q, e | n in lock && lock[n].Locked? && x in lock[n].extras && q in lock[n].extras[x] && e in q.extras :: e)
  }

  ghost predicate Consistent(env: Env, lock: Lock, roots: seq<Requirement>, m: Machine) {
    AllJustified(env, lock, roots, m.log) && Tables(lock, Universe(lock, roots), m) && FirstsTaken(m.log)
  }

  /** The first request for a package is always taken. */
  ghost predicate FirstsTaken(log: seq<Request>)
    decreases |log|
  {
    if log == [] then true
    else
      var past, q := log[..|log| - 1], log[|log| - 1];
      FirstsTaken(past) && (q.taken || Asked(past, q.child))
  }

  ghost predicate TakenFor(log: seq<Request>, n: string) { exists q :: q in log && q.child == n && q.taken }

  ghost predicate Tables(lock: Lock, universe: set<string>, m: Machine) {
    && (forall n :: n in m.requested <==> Asked(m.log, n))
    && (forall n :: n in m.requested ==> n in lock && m.requested[n] == Taken(m.log, n) <= universe)
    && (forall n :: n in m.queue ==> n in m.requested)
    && (forall n :: n in m.visited ==> n in m.requested && m.visited[n] <= m.requested[n] && lock[n].Locked?)
    && (forall n :: n in m.requested ==> n in m.queue || (n in m.visited && m.visited[n] == m.requested[n]))
  }

  /** Every visit that is still current has made all its requests; `busy` is still being visited. */
  ghost predicate Current(env: Env, lock: Lock, m: Machine, busy: set<string>) {
    forall n :: n in m.visited && n in m.requested && n in lock && n !in busy && m.visited[n] == m.requested[n] ==>
      Served(env, lock[n], m.log, n, m.visited[n])
  }

  /** What the worklist promises when it runs empty. */
  ghost predicate Final(env: Env, lock: Lock, roots: seq<Requirement>, m: Machine) {
    && m.queue == []
    && Consistent(env, lock, roots, m)
    && Current(env, lock, m, {})
    && EnqueueRoots(env, lock, roots).Ok?
    && EnqueueRoots(env, lock, roots).value.log <= m.log
    && RootCalls(m.log) == RootCalls(EnqueueRoots(env, lock, roots).value.log)
  }

  /** Requests made for the roots rather than by a package. */
  function RootCalls(log: seq<Request>): nat
    decreases |log|
  {
    if log == [] then 0
    else RootCalls(log[..|log| - 1]) + (if log[|log| - 1].asker.None? then 1 else 0)
  }

  // ----- one request keeps the invariant

  lemma JustifiedExtends(env: Env, lock: Lock, roots: seq<Requirement>, log: seq<Request>, q: Request)
    requires AllJustified(env, lock, roots, log) && Justified(env, lock, roots, log, q)
    ensures AllJustified(env, lock, roots, log + [q])
  {
    assert (log + [q])[..|log|] == log;
  }

  lemma EdgeExtrasKnown(env: Env, lock: Lock, roots: seq<Requirement>, n: string, live: set<string>, child: string, extras: set<string>)
    requires n in lock && Edge(env, lock[n], live, child, extras)
    ensures extras <= Universe(lock, roots)
  {
    if DependencyEdge(env, lock[n], live, child, extras) {
      var d :| d in lock[n].dependencies && Applicable(env, d, live)
               && env.canon(d.name) == child && ChildExtras(env, d, live) == extras;
    } else {
      var e, q :| e in live && e in lock[n].extras && q in lock[n].extras[e] && Wanted(env, q, e)
                  && env.canon(q.name) == child && q.extras == extras;
    }
  }

  lemma RequestKnown(env: Env, lock: Lock, roots: seq<Requirement>, past: seq<Request>, q: Request)
    requires Justified(env, lock, roots, past, q)
    ensures q.extras <= Universe(lock, roots)
  {
    if q.asker.Some? { EdgeExtrasKnown(env, lock, roots, q.asker.value, q.live, q.child, q.extras); }
  }

  /** `m'` is a later state of the same visit: nothing recorded was lost. */
  ghost predicate Grows(m: Machine, m': Machine) {
    && m'.visited == m.visited
    && m.log <= m'.log && RootCalls(m'.log) == RootCalls(m.log)
    && m.requested.Keys <= m'.requested.Keys
    && (forall n :: n in m.requested ==> m.requested[n] <= m'.requested[n])
  }

  lemma ServedGrows(env: Env, p: Package, log: seq<Request>, log': seq<Request>, name: string, live: set<string>)
    requires Served(env, p, log, name, live) && log <= log'
    ensures Served(env, p, log', name, live)
  {
    forall child, extras | Edge(env, p, live, child, extras) ensures Has(log', name, live, child, extras) {
      assert Has(log, name, live, child, extras);
    }
  }

  lemma CurrentGrows(env: Env, lock: Lock, roots: seq<Requirement>, m: Machine, m': Machine, busy: set<string>)
    requires Consistent(env, lock, roots, m) && Current(env, lock, m, busy) && Grows(m, m')
    ensures Current(env, lock, m', busy)
  {
    forall n | n in m'.visited && n in m'.requested && n in lock && n !in busy && m'.visited[n] == m'.requested[n]
      ensures Served(env, lock[n], m'.log, n, m'.visited[n])
    {
      assert m.visited[n] == m.requested[n];
      ServedGrows(env, lock[n], m.log, m'.log, n, m.visited[n]);
    }
  }

  lemma LogAppend(log: seq<Request>, q: Request)
    ensures forall n :: Asked(log + [q], n) <==> Asked(log, n) || n == q.child
    ensures forall n :: Taken(log + [q], n) == Taken(log, n) + (if q.child == n && q.taken then q.extras else {})
  {
    assert (log + [q])[..|log|] == log;
    assert q in log + [q];
    forall n | Asked(log, n) ensures Asked(log + [q], n) {
      var r :| r in log && r.child == n;
      assert r in log + [q];
    }
  }

  lemma AppendedTo(queue: seq<string>, c: string)
    ensures forall n :: n in queue + [c] <==> n in queue || n == c
  {
  }

  lemma TakeKeepsTables(lock: Lock, universe: set<string>, m: Machine, q: Request)
    requires Tables(lock, universe, m) && q.taken && q.child in lock && q.extras <= universe
    ensures Tables(lock, universe, Machine(m.requested[q.child := Recorded(m, q.child) + q.extras],
                                           m.queue + [q.child], m.visited, m.log + [q]))
  {
    hide Asked, Taken;
    var c, log := q.child, m.log + [q];
    var requested := m.requested[c := Recorded(m, c) + q.extras];
    LogAppend(m.log, q);
    AppendedTo(m.queue, c);
    forall n ensures n in requested <==> Asked(log, n) {
      assert n in m.requested <==> Asked(m.log, n);
    }
    forall n | n in requested ensures n in lock && requested[n] == Taken(log, n) <= universe {
      if n == c {
        NothingTaken(m.log, c);
        assert Recorded(m, c) == Taken(m.log, c);
      } else {
        assert n in m.requested && Taken(log, n) == Taken(m.log, n);
      }
    }
    forall n | n in m.visited ensures n in requested && m.visited[n] <= requested[n] && lock[n].Locked? {
      assert n in m.requested;
    }
    forall n | n in requested && n !in m.queue + [c] ensures n in m.visited && m.visited[n] == requested[n] {
      assert n in m.requested && n != c;
    }
  }

  lemma SkipKeepsTables(lock: Lock, universe: set<string>, m: Machine, q: Request)
    requires Tables(lock, universe, m) && !q.taken && q.child in m.requested
    ensures Tables(lock, universe, m.(log := m.log + [q]))
  {
    LogAppend(m.log, q);
  }

  lemma EnqueueGrows(env: Env, lock: Lock, m: Machine, asker: Option<string>, live: set<string>, name: string, extras: set<string>)
    requires env.canon(name) in lock && asker.Some?
    ensures Grows(m, Enqueue(env, lock, m, asker, live, name, extras).value)
  {
    var m' := Enqueue(env, lock, m, asker, live, name, extras).value;
    assert m'.log[..|m'.log| - 1] == m.log;
  }

  lemma EnqueueShape(env: Env, lock: Lock, m: Machine, q: Request, name: string)
    requires env.canon(name) == q.child && q.child in lock && q.taken == Takes(m, q.child, q.extras)
    requires q.taken || q.child in m.requested
    ensures Enqueue(env, lock, m, q.asker, q.live, name, q.extras).value ==
      if q.taken then
        Machine(m.requested[q.child := Recorded(m, q.child) + q.extras], m.queue + [q.child], m.visited, m.log + [q])
      else m.(log := m.log + [q])
  {
    if !q.taken {
      assert m.requested[q.child := Recorded(m, q.child)] == m.requested;
    }
  }

  lemma FirstsExtend(log: seq<Request>, q: Request)
    requires FirstsTaken(log) && (q.taken || Asked(log, q.child))
    ensures FirstsTaken(log + [q])
  {
    assert (log + [q])[..|log|] == log;
  }

  lemma {:induction false} SomeTaken(log: seq<Request>, n: string)
    requires FirstsTaken(log) && Asked(log, n)
    ensures TakenFor(log, n)
    decreases |log|
  {
    var past, q := log[..|log| - 1], log[|log| - 1];
    assert log == past + [q];
    LogAppend(past, q);
    if Asked(past, n) {
      SomeTaken(past, n);
      var r :| r in past && r.child == n && r.taken;
      assert r in log;
    }
  }

  lemma EnqueueKeeps(env: Env, lock: Lock, roots: seq<Requirement>, m: Machine, asker: Option<string>, live: set<string>,
                     name: string, extras: set<string>)
    requires Consistent(env, lock, roots, m)
    requires Justified(env, lock, roots, m.log, Request(asker, live, env.canon(name), extras, Takes(m, env.canon(name), extras)))
    requires env.canon(name) in lock
    ensures Consistent(env, lock, roots, Enqueue(env, lock, m, asker, live, name, extras).value)
  {
    var q := Request(asker, live, env.canon(name), extras, Takes(m, env.canon(name), extras));
    JustifiedExtends(env, lock, roots, m.log, q);
    RequestKnown(env, lock, roots, m.log, q);
    EnqueueShape(env, lock, m, q, name);
    FirstsExtend(m.log, q);
    if q.taken {
      TakeKeepsTables(lock, Universe(lock, roots), m, q);
    } else {
      SkipKeepsTables(lock, Universe(lock, roots), m, q);
    }
  }

  lemma {:induction false} NothingTaken(log: seq<Request>, name: string)
    ensures !Asked(log, name) ==> Taken(log, name) == {}
    decreases |log|
  {
    if log != [] {
      var init := log[..|log| - 1];
      NothingTaken(init, name);
      assert log[|log| - 1] in log;
      if Asked(init, name) {
        var q :| q in init && q.child == name;
        assert q in log;
      }
    }
  }

  // ----- one visit

  /** Why a run failed. */
  ghost predicate Blamed(env: Env, lock: Lock, roots: seq<Requirement>, m: Machine, e: Error) {
    && AllJustified(env, lock, roots, m.log)
    && match e
       case NotInLock(n) => n !in lock && exists q: Request :: q.child == n && Justified(env, lock, roots, m.log, q)
       case AmbiguousVersions(n) => Asked(m.log, n) && n in lock && lock[n].Ambiguous?
       case SetChangedDuringIteration(n) => AsksItselfForMore(m.log, n)
  }

  ghost predicate AsksItselfForMore(log: seq<Request>, n: string) {
    exists q :: q in log && q.asker == Some(n) && q.child == n && !(q.extras <= q.live)
  }

  /** The state in which `name` is being visited. */
  ghost predicate Visiting(env: Env, lock: Lock, roots: seq<Requirement>, m: Machine, name: string) {
    && Consistent(env, lock, roots, m)
    && name in m.requested && name in lock && lock[name].Locked?
  }

  ghost predicate DependenciesServed(env: Env, log: seq<Request>, name: string, live: set<string>, ds: seq<Dependency>) {
    forall d :: d in ds && Applicable(env, d, live) ==> Has(log, name, live, env.canon(d.name), ChildExtras(env, d, live))
  }

  ghost predicate ExtrasServed(env: Env, log: seq<Request>, name: string, live: set<string>, extras: set<string>,
                               table: map<string, seq<Requirement>>) {
    forall e :: e in extras && e in table ==> RequirementsServed(env, log, name, live, e, table[e])
  }

  ghost predicate RequirementsServed(env: Env, log: seq<Request>, name: string, live: set<string>, e: string, qs: seq<Requirement>) {
    forall q :: q in qs && Wanted(env, q, e) ==> Has(log, name, live, env.canon(q.name), q.extras)
  }

  lemma HasGrows(log: seq<Request>, log': seq<Request>, name: string, live: set<string>, child: string, extras: set<string>)
    requires Has(log, name, live, child, extras) && log <= log'
    ensures Has(log', name, live, child, extras)
  {
  }

  lemma RequestedWasTaken(lock: Lock, universe: set<string>, m: Machine, name: string)
    requires Tables(lock, universe, m) && name in m.requested
    ensures Asked(m.log, name) && m.requested[name] == Taken(m.log, name) <= universe
  {
  }

  /** `m'` and `error` are what the answer `r` makes of `m`. */
  ghost predicate Answers(r: Result<Machine, Error>, m: Machine, m': Machine, error: Option<Error>) {
    match r
    case Ok(next) => error == None && m' == next
    case Err(e) => error == Some(e) && m' == m
  }

  /** One request made by the package being visited. */
  method Ask(env: Env, lock: Lock, ghost roots: seq<Requirement>, m: Machine, name: string, child: string, extras: set<string>)
    returns (m': Machine, error: Option<Error>)
    requires Visiting(env, lock, roots, m, name)
    requires Edge(env, lock[name], m.requested[name], env.canon(child), extras)
    ensures Answers(Enqueue(env, lock, m, Some(name), m.requested[name], child, extras), m, m', error)
    ensures Visiting(env, lock, roots, m', name) && Grows(m, m')
    ensures error.Some? ==> Blamed(env, lock, roots, m', error.value)
    ensures error.None? ==> Has(m'.log, name, m.requested[name], env.canon(child), extras)
    ensures m'.requested[name] == m.requested[name] || AsksItselfForMore(m'.log, name)
  {
    hide AllJustified, Tables, Universe;
    RequestedWasTaken(lock, Universe(lock, roots), m, name);
    var live := m.requested[name];
    ghost var q := Request(Some(name), live, env.canon(child), extras, Takes(m, env.canon(child), extras));
    assert Justified(env, lock, roots, m.log, q);
    match Enqueue(env, lock, m, Some(name), live, child, extras) {
      case Err(e) =>
        m', error := m, Some(e);
      case Ok(next) =>
        m', error := next, None;
        EnqueueKeeps(env, lock, roots, m, Some(name), live, child, extras);
        EnqueueGrows(env, lock, m, Some(name), live, child, extras);
        assert m'.log[|m.log|] == q;
    }
  }

  lemma AskNothing(env: Env, lock: Lock, name: string, m: Machine)
    ensures AskAll(env, lock, name, m, []) == Ok(m) && forall e :: RequireAll(env, lock, name, m, e, []) == Ok(m)
  {
  }

  /** The loop over dependencies. The extras are the live set, so they are looked up each time. */
  method VisitDependencies(env: Env, lock: Lock, ghost roots: seq<Requirement>, m0: Machine, name: string)
    returns (m: Machine, error: Option<Error>)
    requires Visiting(env, lock, roots, m0, name)
    ensures Visiting(env, lock, roots, m, name) && Grows(m0, m)
    ensures AskAll(env, lock, name, m0, lock[name].dependencies) == Outcome(m, error)
    ensures error.Some? ==> Blamed(env, lock, roots, m, error.value)
    ensures error.None? && m.requested[name] == m0.requested[name] ==>
      DependenciesServed(env, m.log, name, m0.requested[name], lock[name].dependencies)
  {
    hide AllJustified, Tables, Universe, Blamed, AskAll, Enqueue;
    AskNothing(env, lock, name, m0);
    m, error := m0, None;
    var ds := lock[name].dependencies;
    for i := 0 to |ds|
      invariant error.None? && Visiting(env, lock, roots, m, name) && Grows(m0, m)
      invariant AskAll(env, lock, name, m0, ds[..i]) == Ok(m)
      invariant m.requested[name] == m0.requested[name] ==>
        DependenciesServed(env, m.log, name, m0.requested[name], ds[..i])
    {
      var live := m.requested[name];
      var before := m;
      AskAllStep(env, lock, name, m0, ds, i, m);
      if exists o :: o in ds[i].options && Usable(env, o, live) {
        assert Edge(env, lock[name], live, env.canon(ds[i].name), ChildExtras(env, ds[i], live));
        m, error := Ask(env, lock, roots, m, name, ds[i].name, ChildExtras(env, ds[i], live));
        if error.Some? {
          AskAllFails(env, lock, name, m0, ds, i + 1);
          return;
        }
      }
      StillServed(env, before.log, m.log, name, m0.requested[name], ds, i, live == m0.requested[name]);
    }
    assert ds[..|ds|] == ds;
  }

  lemma StillServed(env: Env, log: seq<Request>, log': seq<Request>, name: string, live: set<string>, ds: seq<Dependency>, i: nat, same: bool)
    requires i < |ds| && log <= log'
    ensures same && DependenciesServed(env, log, name, live, ds[..i])
      && (Applicable(env, ds[i], live) ==> Has(log', name, live, env.canon(ds[i].name), ChildExtras(env, ds[i], live)))
      ==> DependenciesServed(env, log', name, live, ds[..i + 1])
  {
    assert ds[..i + 1] == ds[..i] + [ds[i]];
    if same && DependenciesServed(env, log, name, live, ds[..i])
      && (Applicable(env, ds[i], live) ==> Has(log', name, live, env.canon(ds[i].name), ChildExtras(env, ds[i], live)))
    {
      forall d | d in ds[..i + 1] && Applicable(env, d, live)
        ensures Has(log', name, live, env.canon(d.name), ChildExtras(env, d, live))
      {
        if d in ds[..i] {
          HasGrows(log, log', name, live, env.canon(d.name), ChildExtras(env, d, live));
        }
      }
    }
  }

  /** The requirements of one extra. */
  method VisitRequirements(env: Env, lock: Lock, ghost roots: seq<Requirement>, m0: Machine, name: string, e: string)
    returns (m: Machine, error: Option<Error>)
    requires Visiting(env, lock, roots, m0, name) && e in lock[name].extras && e in m0.requested[name]
    ensures Visiting(env, lock, roots, m, name) && Grows(m0, m)
    ensures RequireAll(env, lock, name, m0, e, lock[name].extras[e]) == Outcome(m, error)
    ensures error.Some? ==> Blamed(env, lock, roots, m, error.value)
    ensures error.None? && m.requested[name] == m0.requested[name] ==>
      RequirementsServed(env, m.log, name, m0.requested[name], e, lock[name].extras[e])
    ensures m.requested[name] == m0.requested[name] || AsksItselfForMore(m.log, name)
  {
    hide AllJustified, Tables, Universe, Blamed, RequireAll, Enqueue;
    AskNothing(env, lock, name, m0);
    m, error := m0, None;
    var qs := lock[name].extras[e];
    for i := 0 to |qs|
      invariant error.None? && Visiting(env, lock, roots, m, name) && Grows(m0, m)
      invariant RequireAll(env, lock, name, m0, e, qs[..i]) == Ok(m)
      invariant m.requested[name] == m0.requested[name] ==>
        RequirementsServed(env, m.log, name, m0.requested[name], e, qs[..i])
      invariant m.requested[name] == m0.requested[name] || AsksItselfForMore(m.log, name)
    {
      var live, before := m.requested[name], m;
      RequireAllStep(env, lock, name, m0, e, qs, i, m);
      if Wanted(env, qs[i], e) {
        assert ExtraEdge(env, lock[name], live, env.canon(qs[i].name), qs[i].extras);
        m, error := Ask(env, lock, roots, m, name, qs[i].name, qs[i].extras);
        if AsksItselfForMore(before.log, name) { MoreGrows(before.log, m.log, name); }
        if error.Some? {
          RequireAllFails(env, lock, name, m0, e, qs, i + 1);
          return;
        }
      }
      StillRequired(env, before.log, m.log, name, m0.requested[name], e, qs, i, live == m0.requested[name]);
    }
    assert qs[..|qs|] == qs;
  }

  lemma StillRequired(env: Env, log: seq<Request>, log': seq<Request>, name: string, live: set<string>, e: string,
                      qs: seq<Requirement>, i: nat, same: bool)
    requires i < |qs| && log <= log'
    ensures same && RequirementsServed(env, log, name, live, e, qs[..i])
      && (Wanted(env, qs[i], e) ==> Has(log', name, live, env.canon(qs[i].name), qs[i].extras))
      ==> RequirementsServed(env, log', name, live, e, qs[..i + 1])
  {
    assert qs[..i + 1] == qs[..i] + [qs[i]];
    if same && RequirementsServed(env, log, name, live, e, qs[..i])
      && (Wanted(env, qs[i], e) ==> Has(log', name, live, env.canon(qs[i].name), qs[i].extras))
    {
      forall q | q in qs[..i + 1] && Wanted(env, q, e)
        ensures Has(log', name, live, env.canon(q.name), q.extras)
      {
        if q in qs[..i] {
          HasGrows(log, log', name, live, env.canon(q.name), q.extras);
        }
      }
    }
  }

  lemma MoreGrows(log: seq<Request>, log': seq<Request>, name: string)
    requires AsksItselfForMore(log, name) && log <= log'
    ensures AsksItselfForMore(log', name)
  {
    var q :| q in log && q.asker == Some(name) && q.child == name && !(q.extras <= q.live);
    assert q in log';
  }

  /** The loop over the extras themselves. A set that changes while it is iterated raises. */
  method VisitExtras(env: Env, lock: Lock, ghost roots: seq<Requirement>, m0: Machine, name: string)
    returns (m: Machine, error: Option<Error>)
    requires Visiting(env, lock, roots, m0, name)
    ensures Visiting(env, lock, roots, m, name) && Grows(m0, m)
    ensures ExtrasGive(env, lock, name, lock[name].extras, m0.requested[name], m0, Outcome(m, error))
    ensures error.Some? ==> Blamed(env, lock, roots, m, error.value)
    ensures error.None? ==> m.requested[name] == m0.requested[name]
    ensures error.None? ==> ExtrasServed(env, m.log, name, m0.requested[name], m0.requested[name], lock[name].extras)
  {
    hide AllJustified, Tables, Universe, RequireAll, ExtrasGive;
    m, error := m0, None;
    var extras := m0.requested[name];
    var table := lock[name].extras;
    var todo := extras;
    while todo != {}
      invariant todo <= extras
      invariant error.None? && Visiting(env, lock, roots, m, name) && Grows(m0, m) && m.requested[name] == extras
      invariant forall r :: ExtrasGive(env, lock, name, table, todo, m, r) ==> ExtrasGive(env, lock, name, table, extras, m0, r)
      invariant ExtrasServed(env, m.log, name, extras, extras - todo, table)
      decreases todo
    {
      var e :| e in todo;
      var before := m;
      if e in table {
        m, error := VisitRequirements(env, lock, roots, m, name, e);
        if error.Some? {
          ExtraGives(env, lock, name, table, todo, before, e, Err(error.value));
          return;
        }
      }
      if m.requested[name] != extras {
        error := Some(SetChangedDuringIteration(name));
        ExtraGives(env, lock, name, table, todo, before, e, Err(error.value));
        return;
      }
      forall x, q | x in extras - todo && x in table && q in table[x] && Wanted(env, q, x)
        ensures Has(m.log, name, extras, env.canon(q.name), q.extras)
      {
        assert RequirementsServed(env, before.log, name, extras, x, table[x]);
        HasGrows(before.log, m.log, name, extras, env.canon(q.name), q.extras);
      }
      forall r | ExtrasGive(env, lock, name, table, todo - {e}, m, r) ensures ExtrasGive(env, lock, name, table, extras, m0, r) {
        ExtraGives(env, lock, name, table, todo, before, e, r);
      }
      todo := todo - {e};
    }
    NoExtrasGive(env, lock, name, table, m);
    assert extras - todo == extras;
  }

  lemma ExtraGives(env: Env, lock: Lock, name: string, table: map<string, seq<Requirement>>, todo: set<string>, m: Machine,
                   e: string, r: Result<Machine, Error>)
    requires e in todo
    requires ExtraLeads(env, lock, name, table, todo, m, e, r)
    ensures ExtrasGive(env, lock, name, table, todo, m, r)
  {
    hide ExtraLeads;
  }

  lemma NoExtrasGive(env: Env, lock: Lock, name: string, table: map<string, seq<Requirement>>, m: Machine)
    ensures ExtrasGive(env, lock, name, table, {}, m, Ok(m))
  {
  }

  // ----- the whole run

  /** Visits that are still possible: a package not visited yet, or visited without some extra. */
  ghost function Remaining(lock: Lock, universe: set<string>, m: Machine): set<(string, Option<string>)> {
    (set n | n in lock && n !in m.visited :: (n, None))
    + (set n, e | n in lock && e in universe && !(n in m.visited && e in m.visited[n]) :: (n, Some(e)))
  }

  lemma VisitShrinksRemaining(lock: Lock, universe: set<string>, m: Machine, m': Machine, name: string, sig: set<string>)
    requires name in lock && sig <= universe && m'.visited == m.visited[name := sig]
    requires name in m.visited ==> m.visited[name] < sig
    ensures Remaining(lock, universe, m') < Remaining(lock, universe, m)
  {
    if name in m.visited {
      var e :| e in sig && e !in m.visited[name];
      assert (name, Some(e)) in Remaining(lock, universe, m) && (name, Some(e)) !in Remaining(lock, universe, m');
    } else {
      assert (name, None) in Remaining(lock, universe, m) && (name, None) !in Remaining(lock, universe, m');
    }
  }

  lemma ServedWhole(env: Env, p: Package, log: seq<Request>, log': seq<Request>, name: string, live: set<string>)
    requires p.Locked? && DependenciesServed(env, log, name, live, p.dependencies) && log <= log'
    requires ExtrasServed(env, log', name, live, live, p.extras)
    ensures Served(env, p, log', name, live)
  {
    forall child, extras | Edge(env, p, live, child, extras) ensures Has(log', name, live, child, extras) {
      if DependencyEdge(env, p, live, child, extras) {
        var d :| d in p.dependencies && Applicable(env, d, live)
                 && env.canon(d.name) == child && ChildExtras(env, d, live) == extras;
        HasGrows(log, log', name, live, child, extras);
      } else {
        var e, q :| e in live && e in p.extras && q in p.extras[e] && Wanted(env, q, e)
                    && env.canon(q.name) == child && q.extras == extras;
        assert RequirementsServed(env, log', name, live, e, p.extras[e]);
      }
    }
  }

  lemma EmptyIsConsistent(env: Env, lock: Lock, roots: seq<Requirement>)
    ensures Consistent(env, lock, roots, EMPTY) && Current(env, lock, EMPTY, {})
    ensures EnqueueRoots(env, lock, []) == Ok(EMPTY)
  {
  }

  /** The first loop: the roots are enqueued in order. */
  method Begin(env: Env, lock: Lock, roots: seq<Requirement>) returns (m: Machine, error: Option<Error>)
    ensures error.None? ==> Consistent(env, lock, roots, m) && Current(env, lock, m, {})
    ensures EnqueueRoots(env, lock, roots) == Outcome(m, error)
    ensures error.Some? ==> Blamed(env, lock, roots, m, error.value)
  {
    hide AllJustified, Tables, Universe;
    m, error := EMPTY, None;
    EmptyIsConsistent(env, lock, roots);
    for i := 0 to |roots|
      invariant error.None? && Consistent(env, lock, roots, m) && m.visited == map[]
      invariant EnqueueRoots(env, lock, roots[..i]) == Ok(m)
    {
      assert roots[..i + 1][..i] == roots[..i] && roots[..i + 1][i] == roots[i];
      var root := roots[i];
      ghost var q := Request(None, {}, env.canon(root.name), root.extras, Takes(m, env.canon(root.name), root.extras));
      assert Justified(env, lock, roots, m.log, q);
      match Enqueue(env, lock, m, None, {}, root.name, root.extras) {
        case Err(e) =>
          error := Some(e);
          RootsFail(env, lock, roots, i + 1);
          return;
        case Ok(next) =>
          EnqueueKeeps(env, lock, roots, m, None, {}, root.name, root.extras);
          m := next;
      }
    }
    assert roots[..|roots|] == roots;
  }

  lemma {:induction false} RootsFail(env: Env, lock: Lock, roots: seq<Requirement>, i: nat)
    requires i <= |roots| && EnqueueRoots(env, lock, roots[..i]).Err?
    ensures EnqueueRoots(env, lock, roots) == EnqueueRoots(env, lock, roots[..i])
    decreases |roots|
  {
    if i == |roots| {
      assert roots[..i] == roots;
    } else {
      assert roots[..|roots| - 1][..i] == roots[..i];
      RootsFail(env, lock, roots[..|roots| - 1], i);
    }
  }

  lemma QueueTail(queue: seq<string>)
    requires queue != []
    ensures forall n :: n in queue[1..] ==> n in queue
    ensures forall n :: n in queue ==> n == queue[0] || n in queue[1..]
  {
    forall n | n in queue && n != queue[0] ensures n in queue[1..] {
      var i :| 0 <= i < |queue| && queue[i] == n;
      assert queue[1..][i - 1] == n;
    }
  }

  /** Taking the head off the queue is safe if its last visit is current, or is marked now. */
  lemma PopKeepsTables(lock: Lock, universe: set<string>, m: Machine, m': Machine)
    requires m.queue != [] && Tables(lock, universe, m)
    requires m'.requested == m.requested && m'.log == m.log && m'.queue == m.queue[1..]
    requires var name := m.queue[0]; name in m.requested && name in lock ==>
      || (m'.visited == m.visited && name in m.visited && m.visited[name] == m.requested[name])
      || (m'.visited == m.visited[name := m.requested[name]] && lock[name].Locked?)
    ensures Tables(lock, universe, m')
  {
    QueueTail(m.queue);
    assert m.queue[0] in m.queue;
  }

  lemma HeadIsRequested(lock: Lock, universe: set<string>, m: Machine)
    requires m.queue != [] && Tables(lock, universe, m)
    ensures m.queue[0] in m.requested && m.queue[0] in lock && Asked(m.log, m.queue[0])
    ensures m.requested[m.queue[0]] <= universe
    ensures m.queue[0] in m.visited ==> m.visited[m.queue[0]] <= m.requested[m.queue[0]]
  {
    assert m.queue[0] in m.queue;
  }

  /** Marking a package as visited leaves the other visits current. */
  lemma MarkKeepsCurrent(env: Env, lock: Lock, m: Machine, m': Machine, name: string, sig: set<string>)
    requires Current(env, lock, m, {}) && m'.log == m.log && m'.requested == m.requested
    requires m'.visited == m.visited || m'.visited == m.visited[name := sig]
    ensures Current(env, lock, m', {name})
    ensures m'.visited == m.visited ==> Current(env, lock, m', {})
  {
  }

  /** One turn of the main loop: take the first name, and visit it unless its extras are the ones
      it was last visited with. */
  method Turn(env: Env, lock: Lock, ghost roots: seq<Requirement>, m0: Machine) returns (m: Machine, error: Option<Error>)
    requires m0.queue != [] && Consistent(env, lock, roots, m0) && Current(env, lock, m0, {})
    ensures TurnGives(env, lock, m0, Outcome(m, error))
    ensures error.None? ==>
      Consistent(env, lock, roots, m) && Current(env, lock, m, {}) && m0.log <= m.log && RootCalls(m.log) == RootCalls(m0.log)
    ensures error.None? ==>
      || Remaining(lock, Universe(lock, roots), m) < Remaining(lock, Universe(lock, roots), m0)
      || (m.visited == m0.visited && |m.queue| < |m0.queue|)
    ensures error.Some? ==> Blamed(env, lock, roots, m, error.value)
  {
    hide AllJustified, Tables, Universe, VisitGives;
    var name := m0.queue[0];
    m, error := m0.(queue := m0.queue[1..]), None;
    HeadIsRequested(lock, Universe(lock, roots), m0);
    if lock[name].Ambiguous? {
      error := Some(AmbiguousVersions(name));
      return;
    }
    var sig := m.requested[name];
    if name in m.visited && m.visited[name] == sig {
      PopKeepsTables(lock, Universe(lock, roots), m0, m);
      MarkKeepsCurrent(env, lock, m0, m, name, sig);
      return;
    }
    m := m.(visited := m.visited[name := sig]);
    PopKeepsTables(lock, Universe(lock, roots), m0, m);
    MarkKeepsCurrent(env, lock, m0, m, name, sig);
    VisitShrinksRemaining(lock, Universe(lock, roots), m0, m, name, sig);
    m, error := Visit(env, lock, roots, m, name);
  }

  /** The body of a turn, for a package that has just been marked. */
  method Visit(env: Env, lock: Lock, ghost roots: seq<Requirement>, m0: Machine, name: string)
    returns (m: Machine, error: Option<Error>)
    requires Visiting(env, lock, roots, m0, name) && Current(env, lock, m0, {name})
    requires name in m0.visited && m0.visited[name] == m0.requested[name]
    ensures VisitGives(env, lock, name, lock[name], m0, Outcome(m, error))
    ensures error.None? ==> Consistent(env, lock, roots, m) && Current(env, lock, m, {})
    ensures m.visited == m0.visited && m0.log <= m.log && RootCalls(m.log) == RootCalls(m0.log)
    ensures error.Some? ==> Blamed(env, lock, roots, m, error.value)
  {
    hide AllJustified, Tables, Universe, AskAll, ExtrasGive;
    var m1;
    m1, error := VisitDependencies(env, lock, roots, m0, name);
    m := m1;
    if error.Some? { return; }
    m, error := VisitExtras(env, lock, roots, m1, name);
    if error.Some? { return; }
    CurrentGrows(env, lock, roots, m0, m1, {name});
    CurrentGrows(env, lock, roots, m1, m, {name});
    if m.requested[name] == m0.requested[name] {
      ServedWhole(env, lock[name], m1.log, m.log, name, m0.requested[name]);
    }
  }

  lemma EmptyQueueIsFinal(env: Env, lock: Lock, roots: seq<Requirement>, start: Machine, m: Machine)
    requires EnqueueRoots(env, lock, roots) == Ok(start)
    requires m.queue == [] && Consistent(env, lock, roots, m) && Current(env, lock, m, {})
    requires start.log <= m.log && RootCalls(m.log) == RootCalls(start.log)
    ensures Final(env, lock, roots, m)
  {
  }

  lemma NoTurns(env: Env, lock: Lock, m: Machine)
    ensures Turns(env, lock, m, 0, m)
  {
  }

  lemma OneMoreTurn(env: Env, lock: Lock, start: Machine, n: nat, before: Machine, m: Machine)
    requires Turns(env, lock, start, n, before) && before.queue != [] && TurnGives(env, lock, before, Ok(m))
    ensures Turns(env, lock, start, n + 1, m)
  {
    hide TurnGives;
    assert n + 1 - 1 == n;
  }

  /** `_closure`. Besides the sorted names the last state is returned, for what it records. */
  method Closure(env: Env, lock: Lock, roots: seq<Requirement>) returns (r: Result<seq<string>, Error>, m: Machine)
    ensures RunGives(env, lock, roots, if r.Ok? then Ok(m) else Err(r.error))
    ensures r.Ok? ==> Final(env, lock, roots, m) && Lists(r.value, m.requested.Keys)
    ensures r.Err? ==> Blamed(env, lock, roots, m, r.error)
  {
    hide AllJustified, Tables, Universe, TurnGives, Turns;
    var error: Option<Error>;
    m, error := Begin(env, lock, roots);
    if error.Some? {
      r := Err(error.value);
      return;
    }
    ghost var first, turns: nat := m, 0;
    NoTurns(env, lock, m);
    while m.queue != []
      invariant Turns(env, lock, first, turns, m)
      invariant Consistent(env, lock, roots, m) && Current(env, lock, m, {})
      invariant first.log <= m.log && RootCalls(m.log) == RootCalls(first.log)
      decreases Remaining(lock, Universe(lock, roots), m), |m.queue|
    {
      ghost var before := m;
      m, error := Turn(env, lock, roots, m);
      if error.Some? {
        assert TurnGives(env, lock, before, Err(error.value));
        r := Err(error.value);
        return;
      }
      OneMoreTurn(env, lock, first, turns, before, m);
      turns := turns + 1;
    }
    EmptyQueueIsFinal(env, lock, roots, first, m);
    var names := Sorted(m.requested.Keys);
    r := Ok(names);
  }

  // ----- what the result means

  /** A chain of requests of a log, from a root: each made by the package that the one before asked
      for, with the extras that were recorded for it at that moment, along an edge that applied under
      them. */
  ghost predicate Chain(env: Env, lock: Lock, roots: seq<Requirement>, log: seq<Request>, chain: seq<nat>) {
    && chain != [] && (forall k :: 0 <= k < |chain| ==> chain[k] < |log|)
    && IsRoot(env, roots, log[chain[0]])
    && forall k :: 0 <= k < |chain| - 1 ==> Link(env, lock, log, chain[k], chain[k + 1])
  }

  ghost predicate IsRoot(env: Env, roots: seq<Requirement>, q: Request) {
    q.asker == None && exists r :: r in roots && env.canon(r.name) == q.child && r.extras == q.extras
  }

  ghost predicate Link(env: Env, lock: Lock, log: seq<Request>, i: nat, j: nat)
    requires i < |log| && j < |log|
  {
    var p, q := log[i].child, log[j];
    && i < j && q.asker == Some(p) && p in lock
    && q.live == Taken(log[..j], p) && Edge(env, lock[p], q.live, q.child, q.extras)
  }

  ghost predicate Reachable(env: Env, lock: Lock, roots: seq<Requirement>, log: seq<Request>, name: string) {
    exists chain: seq<nat> :: Chain(env, lock, roots, log, chain) && log[chain[|chain| - 1]].child == name
  }

  lemma LinkGrows(env: Env, lock: Lock, past: seq<Request>, log: seq<Request>, i: nat, j: nat)
    requires i < |past| && j < |past| && past <= log && Link(env, lock, past, i, j)
    ensures Link(env, lock, log, i, j)
  {
    assert log[..j] == past[..j];
  }

  lemma ChainGrows(env: Env, lock: Lock, roots: seq<Requirement>, past: seq<Request>, log: seq<Request>, chain: seq<nat>)
    requires past <= log && Chain(env, lock, roots, past, chain)
    ensures Chain(env, lock, roots, log, chain)
  {
    hide Link;
    forall k | 0 <= k < |chain| - 1 ensures Link(env, lock, log, chain[k], chain[k + 1]) {
      LinkGrows(env, lock, past, log, chain[k], chain[k + 1]);
    }
  }

  lemma {:induction false} AskedIsReachable(env: Env, lock: Lock, roots: seq<Requirement>, log: seq<Request>, name: string)
    requires AllJustified(env, lock, roots, log) && Asked(log, name)
    ensures Reachable(env, lock, roots, log, name)
    decreases |log|, 0
  {
    var past, q := log[..|log| - 1], log[|log| - 1];
    assert log == past + [q];
    LogAppend(past, q);
    if Asked(past, name) {
      AskedIsReachable(env, lock, roots, past, name);
      var chain: seq<nat> :| Chain(env, lock, roots, past, chain) && past[chain[|chain| - 1]].child == name;
      ChainGrows(env, lock, roots, past, log, chain);
    } else {
      LastIsReachable(env, lock, roots, past, q);
    }
  }

  lemma LastIsReachable(env: Env, lock: Lock, roots: seq<Requirement>, past: seq<Request>, q: Request)
    requires AllJustified(env, lock, roots, past) && Justified(env, lock, roots, past, q)
    ensures Reachable(env, lock, roots, past + [q], q.child)
    decreases |past|, 1
  {
    var log, last: nat := past + [q], |past|;
    match q.asker
    case None =>
      assert Chain(env, lock, roots, log, [last]);
    case Some(p) =>
      AskedIsReachable(env, lock, roots, past, p);
      var chain: seq<nat> :| Chain(env, lock, roots, past, chain) && past[chain[|chain| - 1]].child == p;
      ChainGrows(env, lock, roots, past, log, chain);
      assert log[..last] == past;
      assert Link(env, lock, log, chain[|chain| - 1], last);
      LongerChain(env, lock, roots, log, chain, last);
  }

  lemma LongerChain(env: Env, lock: Lock, roots: seq<Requirement>, log: seq<Request>, chain: seq<nat>, last: nat)
    requires Chain(env, lock, roots, log, chain) && last < |log| && Link(env, lock, log, chain[|chain| - 1], last)
    ensures Chain(env, lock, roots, log, chain + [last])
    ensures (chain + [last])[|chain + [last]| - 1] == last
  {
    hide Link, IsRoot;
    var longer := chain + [last];
    forall k | 0 <= k < |longer| - 1 ensures Link(env, lock, log, longer[k], longer[k + 1]) {
      if k < |chain| - 1 { assert Link(env, lock, log, chain[k], chain[k + 1]); }
    }
  }

  lemma {:induction false} RootsAreAsked(env: Env, lock: Lock, roots: seq<Requirement>, r: Requirement)
    requires EnqueueRoots(env, lock, roots).Ok? && r in roots
    ensures Asked(EnqueueRoots(env, lock, roots).value.log, env.canon(r.name))
    decreases |roots|
  {
    var init, last := roots[..|roots| - 1], roots[|roots| - 1];
    assert roots == init + [last];
    var m := EnqueueRoots(env, lock, init).value;
    var c := env.canon(last.name);
    LogAppend(m.log, Request(None, {}, c, last.extras, Takes(m, c, last.extras)));
    if r in init { RootsAreAsked(env, lock, init, r); }
  }

  /** The closure is closed and sound: the extras recorded for each name are those of its last
      visit; everything that applies under them is in the result; no name is ambiguous; and every
      name is reached from a root along edges that were asked along, each of which applied under the
      extras recorded at that moment. */
  lemma ClosedAndSound(env: Env, lock: Lock, roots: seq<Requirement>, m: Machine)
    requires Final(env, lock, roots, m)
    ensures forall r :: r in roots ==> env.canon(r.name) in m.requested
    ensures forall n :: n in m.requested ==> n in lock && lock[n].Locked?
    ensures forall n :: n in m.requested ==> n in m.visited && m.visited[n] == m.requested[n]
    ensures forall n, child, extras :: n in m.requested && n in lock && Edge(env, lock[n], m.requested[n], child, extras) ==>
      child in m.requested
    ensures forall n :: n in m.requested ==> Reachable(env, lock, roots, m.log, n)
  {
    forall r | r in roots ensures env.canon(r.name) in m.requested {
      RootsAreAsked(env, lock, roots, r);
      var q :| q in EnqueueRoots(env, lock, roots).value.log && q.child == env.canon(r.name);
      assert q in m.log;
    }
    forall n, child, extras | n in m.requested && Edge(env, lock[n], m.requested[n], child, extras)
      ensures child in m.requested
    {
      assert Served(env, lock[n], m.log, n, m.visited[n]);
      assert Has(m.log, n, m.visited[n], child, extras);
      assert Asked(m.log, child);
    }
    forall n | n in m.requested ensures Reachable(env, lock, roots, m.log, n) {
      AskedIsReachable(env, lock, roots, m.log, n);
    }
  }

  /** A lock that has everything any edge can name, no ambiguous package, and no package that asks
      itself for new extras. */
  ghost predicate WellMade(env: Env, lock: Lock, roots: seq<Requirement>) {
    && (forall r :: r in roots ==> env.canon(r.name) in lock)
    && (forall n :: n in lock ==> lock[n].Locked? && EdgesResolve(env, lock, lock[n], n))
  }

  ghost predicate EdgesResolve(env: Env, lock: Lock, p: Package, n: string) {
    forall live, child, extras :: Edge(env, p, live, child, extras) ==> child in lock && (child == n ==> extras <= live)
  }

  lemma {:induction false} TakenGrows(log: seq<Request>, log': seq<Request>, name: string)
    requires log <= log'
    ensures Taken(log, name) <= Taken(log', name)
    decreases |log'|
  {
    if log != log' {
      TakenGrows(log, log'[..|log'| - 1], name);
    }
  }

  /** What the whole log says about one of its requests. */
  ghost predicate Grounded(env: Env, lock: Lock, roots: seq<Requirement>, log: seq<Request>, q: Request) {
    match q.asker
    case None => IsRoot(env, roots, q)
    case Some(p) =>
      p in lock && Asked(log, p) && q.live <= Taken(log, p) && Edge(env, lock[p], q.live, q.child, q.extras)
  }

  lemma {:induction false} EveryRequestGrounded(env: Env, lock: Lock, roots: seq<Requirement>, log: seq<Request>, q: Request)
    requires AllJustified(env, lock, roots, log) && q in log
    ensures Grounded(env, lock, roots, log, q)
    decreases |log|
  {
    var past, last := log[..|log| - 1], log[|log| - 1];
    assert log == past + [last];
    if q in past {
      EveryRequestGrounded(env, lock, roots, past, q);
    }
    if q.asker.Some? {
      TakenGrows(past, log, q.asker.value);
      LogAppend(past, last);
    }
  }

  lemma WellMadeRequest(env: Env, lock: Lock, roots: seq<Requirement>, past: seq<Request>, q: Request)
    requires WellMade(env, lock, roots) && Justified(env, lock, roots, past, q)
    ensures q.child in lock
  {
    match q.asker
    case None =>
    case Some(n) => assert EdgesResolve(env, lock, lock[n], n);
  }

  lemma WellMadeAsksNoMore(env: Env, lock: Lock, roots: seq<Requirement>, log: seq<Request>, n: string)
    requires WellMade(env, lock, roots) && AllJustified(env, lock, roots, log)
    ensures !AsksItselfForMore(log, n)
  {
    forall q | q in log && q.asker == Some(n) && q.child == n ensures q.extras <= q.live {
      EveryRequestGrounded(env, lock, roots, log, q);
      assert EdgesResolve(env, lock, lock[n], n);
    }
  }

  /** On such a lock nothing can be blamed, so the run returns normally. */
  lemma WellMadeLockHasClosure(env: Env, lock: Lock, roots: seq<Requirement>, m: Machine, e: Error)
    requires WellMade(env, lock, roots)
    ensures !Blamed(env, lock, roots, m, e)
  {
    if Blamed(env, lock, roots, m, e) {
      if e.NotInLock? {
        var q: Request :| q.child == e.name && Justified(env, lock, roots, m.log, q);
        WellMadeRequest(env, lock, roots, m.log, q);
      } else if e.SetChangedDuringIteration? {
        WellMadeAsksNoMore(env, lock, roots, m.log, e.name);
      }
    }
  }
}
