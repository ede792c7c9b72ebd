/** Which requested extras scripts/generate_runtime_requirements.py records: a package that already
    waits drops the extras asked of it. */
module LockExtras {
  import opened Prelude
  import opened LockClosure

  // ----- when nothing is lost

  /** A root or an edge, under extras that can occur, asks `child` for `extras`. */
  ghost predicate Asks(env: Env, lock: Lock, roots: seq<Requirement>, child: string, extras: set<string>) {
    || (exists r :: r in roots && env.canon(r.name) == child && r.extras == extras)
    || (exists n, live :: n in lock && live <= Universe(lock, roots) && Edge(env, lock[n], live, child, extras))
  }

  /** Whoever asks for a package asks for the same extras. */
  ghost predicate Uniform(env: Env, lock: Lock, roots: seq<Requirement>) {
    forall child, one, other :: Asks(env, lock, roots, child, one) && Asks(env, lock, roots, child, other) ==> one == other
  }

  lemma EdgeAsks(env: Env, lock: Lock, roots: seq<Requirement>, p: string, live: set<string>, child: string, extras: set<string>)
    requires p in lock && live <= Universe(lock, roots) && Edge(env, lock[p], live, child, extras)
    ensures Asks(env, lock, roots, child, extras)
  {
    hide Edge, Universe;
  }

  lemma RequestAsks(env: Env, lock: Lock, roots: seq<Requirement>, m: Machine, q: Request)
    requires Consistent(env, lock, roots, m) && q in m.log
    ensures Asks(env, lock, roots, q.child, q.extras)
  {
    hide AllJustified, Tables, Universe, Taken, Edge;
    EveryRequestGrounded(env, lock, roots, m.log, q);
    if q.asker.Some? {
      hide Asks;
      AskedWasTaken(lock, Universe(lock, roots), m, q.asker.value);
      EdgeAsks(env, lock, roots, q.asker.value, q.live, q.child, q.extras);
    }
  }

  lemma AskedWasTaken(lock: Lock, universe: set<string>, m: Machine, name: string)
    requires Tables(lock, universe, m) && Asked(m.log, name)
    ensures Taken(m.log, name) <= universe
  {
    RequestedWasTaken(lock, universe, m, name);
  }

  lemma {:induction false} TakenHasExtras(log: seq<Request>, q: Request)
    requires q in log && q.taken
    ensures q.extras <= Taken(log, q.child)
    decreases |log|
  {
    var past, last := log[..|log| - 1], log[|log| - 1];
    assert log == past + [last];
    if q in past { TakenHasExtras(past, q); }
  }

  /** If requests are uniform, every run records every extra that anyone asks for, whenever it is
      asked: of the roots, of every request made, and of every edge that applies at the end. */
  lemma UniformRequestsAreRecorded(env: Env, lock: Lock, roots: seq<Requirement>, m: Machine)
    requires Final(env, lock, roots, m) && Uniform(env, lock, roots)
    ensures forall q :: q in m.log ==> q.child in m.requested && q.extras <= m.requested[q.child]
    ensures forall r :: r in roots ==> env.canon(r.name) in m.requested && r.extras <= m.requested[env.canon(r.name)]
    ensures forall n, child, extras :: n in m.requested && n in lock && Edge(env, lock[n], m.requested[n], child, extras) ==>
      child in m.requested && extras <= m.requested[child]
  {
    hide Edge, AllJustified, Reachable;
    ClosedAndSound(env, lock, roots, m);
    forall child, extras | child in m.requested && Asks(env, lock, roots, child, extras)
      ensures extras <= m.requested[child]
    {
      RequestedWasTaken(lock, Universe(lock, roots), m, child);
      SomeTaken(m.log, child);
      var q :| q in m.log && q.child == child && q.taken;
      RequestAsks(env, lock, roots, m, q);
      TakenHasExtras(m.log, q);
    }
    forall q | q in m.log ensures q.child in m.requested && q.extras <= m.requested[q.child] {
      assert Asked(m.log, q.child);
      RequestAsks(env, lock, roots, m, q);
    }
    forall n, child, extras | n in m.requested && n in lock && Edge(env, lock[n], m.requested[n], child, extras)
      ensures extras <= m.requested[child]
    {
      assert Asks(env, lock, roots, child, extras);
    }
  }

  // ----- when the order of the roots does not matter

  /** The same roots in another order, or repeated. */
  ghost predicate SameRoots(roots: seq<Requirement>, shuffled: seq<Requirement>) {
    forall r :: r in roots <==> r in shuffled
  }

  lemma SameRootsSameAsks(env: Env, lock: Lock, roots: seq<Requirement>, shuffled: seq<Requirement>)
    requires SameRoots(roots, shuffled)
    ensures Universe(lock, roots) == Universe(lock, shuffled)
    ensures forall child, extras :: Asks(env, lock, roots, child, extras) <==> Asks(env, lock, shuffled, child, extras)
    ensures Uniform(env, lock, roots) <==> Uniform(env, lock, shuffled)
  {
    hide Edge;
    UniverseOfRoots(lock, roots, shuffled);
    UniverseOfRoots(lock, shuffled, roots);
  }

  lemma UniverseOfRoots(lock: Lock, roots: seq<Requirement>, shuffled: seq<Requirement>)
    requires SameRoots(roots, shuffled)
    ensures Universe(lock, roots) <= Universe(lock, shuffled)
  {
  }

  /** What has been asked for has been taken with the only extras that anyone asks with. */
  lemma {:induction false} TakenIsUniform(log: seq<Request>, n: string, extras: set<string>)
    requires FirstsTaken(log) && Asked(log, n)
    requires forall q :: q in log && q.child == n ==> q.extras == extras
    ensures Taken(log, n) == extras
    decreases |log|
  {
    var past, q := log[..|log| - 1], log[|log| - 1];
    assert log == past + [q];
    LogAppend(past, q);
    if Asked(past, n) {
      TakenIsUniform(past, n, extras);
    } else {
      NothingTaken(past, n);
    }
  }

  /** In a uniform run the extras recorded for a package never change once it has been asked for. */
  lemma UniformRecords(env: Env, lock: Lock, roots: seq<Requirement>, m: Machine, past: seq<Request>, n: string, extras: set<string>)
    requires Consistent(env, lock, roots, m) && Uniform(env, lock, roots)
    requires past <= m.log && FirstsTaken(past) && Asked(past, n) && Asks(env, lock, roots, n, extras)
    ensures Taken(past, n) == extras
  {
    hide Asks, AllJustified, Tables;
    forall q | q in past && q.child == n ensures q.extras == extras {
      assert q in m.log;
      RequestAsks(env, lock, roots, m, q);
    }
    TakenIsUniform(past, n, extras);
  }

  /** Whatever one run asks for, another run over the same roots has in its result. */
  lemma {:induction false} RunsAskAlike(env: Env, lock: Lock, roots: seq<Requirement>, shuffled: seq<Requirement>,
                                        m: Machine, other: Machine, past: seq<Request>, n: string)
    requires SameRoots(roots, shuffled) && Uniform(env, lock, roots)
    requires Final(env, lock, roots, m) && Final(env, lock, shuffled, other)
    requires past <= m.log && AllJustified(env, lock, roots, past) && FirstsTaken(past) && Asked(past, n)
    ensures n in other.requested
    decreases |past|
  {
    hide Final, AllJustified, FirstsTaken, Uniform;
    var before, q := past[..|past| - 1], past[|past| - 1];
    assert past == before + [q];
    PastOf(env, lock, roots, past);
    if Asked(before, n) {
      RunsAskAlike(env, lock, roots, shuffled, m, other, before, n);
    } else {
      LogAppend(before, q);
      if q.asker.Some? {
        RunsAskAlike(env, lock, roots, shuffled, m, other, before, q.asker.value);
      }
      NextAskedAlike(env, lock, roots, shuffled, m, other, before, q);
    }
  }

  lemma PastOf(env: Env, lock: Lock, roots: seq<Requirement>, past: seq<Request>)
    requires past != [] && AllJustified(env, lock, roots, past) && FirstsTaken(past)
    ensures AllJustified(env, lock, roots, past[..|past| - 1]) && FirstsTaken(past[..|past| - 1])
    ensures Justified(env, lock, roots, past[..|past| - 1], past[|past| - 1])
  {
  }

  lemma NextAskedAlike(env: Env, lock: Lock, roots: seq<Requirement>, shuffled: seq<Requirement>, m: Machine, other: Machine,
                       before: seq<Request>, q: Request)
    requires SameRoots(roots, shuffled) && Uniform(env, lock, roots)
    requires Final(env, lock, roots, m) && Final(env, lock, shuffled, other)
    requires before <= m.log && FirstsTaken(before) && Justified(env, lock, roots, before, q)
    requires q.asker.Some? ==> q.asker.value in other.requested
    ensures q.child in other.requested
  {
    hide Reachable, Edge, Current, AllJustified, Uniform, Tables, Universe, FirstsTaken;
    ClosedAndSound(env, lock, shuffled, other);
    if q.asker.Some? {
      var p := q.asker.value;
      SameRecords(env, lock, roots, shuffled, m, other, before, p);
      assert Edge(env, lock[p], other.requested[p], q.child, q.extras);
    }
  }

  lemma SameRecords(env: Env, lock: Lock, roots: seq<Requirement>, shuffled: seq<Requirement>, m: Machine, other: Machine,
                    past: seq<Request>, n: string)
    requires SameRoots(roots, shuffled) && Uniform(env, lock, roots)
    requires Consistent(env, lock, roots, m) && Consistent(env, lock, shuffled, other)
    requires past <= m.log && FirstsTaken(past) && Asked(past, n) && n in other.requested
    ensures Taken(past, n) == other.requested[n]
  {
    hide AllJustified, Uniform, Asks, Universe, FirstsTaken;
    SameRootsSameAsks(env, lock, roots, shuffled);
    RequestedWasTaken(lock, Universe(lock, shuffled), other, n);
    var q :| q in past && q.child == n;
    assert q in m.log;
    RequestAsks(env, lock, roots, m, q);
    UniformRecords(env, lock, roots, m, past, n, q.extras);
    UniformRecords(env, lock, shuffled, other, other.log, n, q.extras);
  }

  /** If requests are uniform, the order of the roots does not matter: two runs that end normally
      have the same packages with the same extras. */
  lemma UniformRunsAgree(env: Env, lock: Lock, roots: seq<Requirement>, shuffled: seq<Requirement>, m: Machine, other: Machine)
    requires SameRoots(roots, shuffled) && Uniform(env, lock, roots)
    requires Final(env, lock, roots, m) && Final(env, lock, shuffled, other)
    ensures m.requested == other.requested
  {
    hide AllJustified, Uniform, Universe, Current, FirstsTaken;
    SameRootsSameAsks(env, lock, roots, shuffled);
    forall n ensures n in m.requested <==> n in other.requested {
      if n in m.requested {
        RunsAskAlike(env, lock, roots, shuffled, m, other, m.log, n);
      }
      if n in other.requested {
        RunsAskAlike(env, lock, shuffled, roots, other, m, other.log, n);
      }
    }
    forall n | n in m.requested ensures m.requested[n] == other.requested[n] {
      SameRecords(env, lock, roots, shuffled, m, other, m.log, n);
    }
  }

  // ----- extras that only roots ask for

  /** The extras of the first root that names a package. */
  function FirstFor(env: Env, roots: seq<Requirement>, c: string): Option<set<string>>
    decreases |roots|
  {
    if roots == [] then None
    else
      var last := roots[|roots| - 1];
      match FirstFor(env, roots[..|roots| - 1], c)
      case Some(extras) => Some(extras)
      case None => if env.canon(last.name) == c then Some(last.extras) else None
  }

  function NextFirst(before: Option<set<string>>, named: bool, last: Requirement): Option<set<string>> {
    if before.Some? then before else if named then Some(last.extras) else None
  }

  /** The state after the roots: every package waits, with the extras of its first root. */
  ghost predicate RootsStand(env: Env, roots: seq<Requirement>, m: Machine) {
    && m.visited == map[]
    && (forall n :: n in m.queue <==> n in m.requested)
    && (forall n :: n in m.requested <==> FirstFor(env, roots, n).Some?)
    && (forall n :: n in m.requested ==> m.requested[n] == FirstFor(env, roots, n).value)
    && (forall n :: Taken(m.log, n) == Recorded(m, n))
    && (forall q :: q in m.log ==> q.asker.None?)
  }

  lemma {:induction false} RootsRecordTheFirst(env: Env, lock: Lock, roots: seq<Requirement>)
    requires EnqueueRoots(env, lock, roots).Ok?
    ensures RootsStand(env, roots, EnqueueRoots(env, lock, roots).value)
    decreases |roots|
  {
    if roots != [] {
      var init, last := roots[..|roots| - 1], roots[|roots| - 1];
      RootsRecordTheFirst(env, lock, init);
      OneMoreRoot(env, lock, init, last, EnqueueRoots(env, lock, init).value);
      assert init + [last] == roots;
    }
  }

  lemma OneMoreRoot(env: Env, lock: Lock, init: seq<Requirement>, last: Requirement, m: Machine)
    requires RootsStand(env, init, m) && env.canon(last.name) in lock
    ensures RootsStand(env, init + [last], Enqueue(env, lock, m, None, {}, last.name, last.extras).value)
  {
    var c := env.canon(last.name);
    assert (init + [last])[..|init|] == init;
    forall n ensures FirstFor(env, init + [last], n) == NextFirst(FirstFor(env, init, n), env.canon(last.name) == n, last) {}
    var q := Request(None, {}, c, last.extras, Takes(m, c, last.extras));
    LogAppend(m.log, q);
    EnqueueShape(env, lock, m, q, last.name);
    AppendedTo(m.queue, c);
  }

  /** Some edge, under extras that can occur, asks `c` for the extra `e`. */
  ghost predicate EdgeBrings(env: Env, lock: Lock, roots: seq<Requirement>, c: string, e: string) {
    exists n, live, extras ::
      n in lock && live <= Universe(lock, roots) && Edge(env, lock[n], live, c, extras) && e in extras
  }

  lemma {:induction false} RootCallsGrow(log: seq<Request>, log': seq<Request>)
    requires log <= log'
    ensures RootCalls(log) <= RootCalls(log')
    decreases |log'|
  {
    if log != log' {
      RootCallsGrow(log, log'[..|log'| - 1]);
    }
  }

  /** Requests after the roots add an extra only if one of them asks for it. */
  lemma {:induction false} LaterRequestsAdd(start: seq<Request>, log: seq<Request>, c: string, e: string)
    requires start <= log && RootCalls(log) == RootCalls(start)
    requires forall q :: q in log && q.asker.Some? && q.child == c ==> e !in q.extras
    ensures e in Taken(log, c) <==> e in Taken(start, c)
    decreases |log|
  {
    if start != log {
      var past, q := log[..|log| - 1], log[|log| - 1];
      assert log == past + [q];
      assert start <= past;
      RootCallsGrow(start, past);
      LaterRequestsAdd(start, past, c, e);
    }
  }

  lemma EdgeDoesBring(env: Env, lock: Lock, roots: seq<Requirement>, p: string, live: set<string>, c: string,
                      extras: set<string>, e: string)
    requires p in lock && live <= Universe(lock, roots) && Edge(env, lock[p], live, c, extras) && e in extras
    ensures EdgeBrings(env, lock, roots, c, e)
  {
    hide Edge, Universe;
  }

  lemma NoRequestBrings(env: Env, lock: Lock, roots: seq<Requirement>, m: Machine, c: string, e: string, q: Request)
    requires Consistent(env, lock, roots, m) && !EdgeBrings(env, lock, roots, c, e)
    requires q in m.log && q.asker.Some? && q.child == c
    ensures e !in q.extras
  {
    hide AllJustified, Tables, Universe, Taken, Edge;
    EveryRequestGrounded(env, lock, roots, m.log, q);
    AskedWasTaken(lock, Universe(lock, roots), m, q.asker.value);
    if e in q.extras {
      EdgeDoesBring(env, lock, roots, q.asker.value, q.live, c, q.extras, e);
    }
  }

  /** An extra that no edge brings is recorded in the end exactly when the first root that names the
      package asks for it; later roots do not count. */
  lemma RootExtraKeptExactlyWhen(env: Env, lock: Lock, roots: seq<Requirement>, m: Machine, c: string, e: string)
    requires Final(env, lock, roots, m) && !EdgeBrings(env, lock, roots, c, e)
    ensures e in Recorded(m, c) <==> FirstFor(env, roots, c).Some? && e in FirstFor(env, roots, c).value
  {
    hide AllJustified, Universe, EdgeBrings, Current;
    var start := EnqueueRoots(env, lock, roots).value;
    RootsRecordTheFirst(env, lock, roots);
    forall q | q in m.log && q.asker.Some? && q.child == c ensures e !in q.extras {
      NoRequestBrings(env, lock, roots, m, c, e, q);
    }
    LaterRequestsAdd(start.log, m.log, c, e);
    RecordedIsTaken(lock, Universe(lock, roots), m, c);
  }

  lemma RecordedIsTaken(lock: Lock, universe: set<string>, m: Machine, c: string)
    requires Tables(lock, universe, m)
    ensures Recorded(m, c) == Taken(m.log, c)
  {
    NothingTaken(m.log, c);
  }

  /** Where edges carry no extras, as in a lock that only the roots use extras of, the extras of all
      roots are recorded exactly when every root asks no more than the first root of its package. */
  lemma RootExtrasKeptExactlyWhen(env: Env, lock: Lock, roots: seq<Requirement>, m: Machine)
    requires Final(env, lock, roots, m) && forall c, e :: !EdgeBrings(env, lock, roots, c, e)
    ensures (forall r :: r in roots ==> r.extras <= Recorded(m, env.canon(r.name))) <==>
      forall r :: r in roots ==>
        FirstFor(env, roots, env.canon(r.name)).Some? && r.extras <= FirstFor(env, roots, env.canon(r.name)).value
  {
    hide EdgeBrings;
    forall r | r in roots ensures FirstFor(env, roots, env.canon(r.name)).Some? {
      FirstExists(env, roots, r);
    }
    forall c, e ensures e in Recorded(m, c) <==> FirstFor(env, roots, c).Some? && e in FirstFor(env, roots, c).value {
      RootExtraKeptExactlyWhen(env, lock, roots, m, c, e);
    }
  }

  lemma {:induction false} FirstExists(env: Env, roots: seq<Requirement>, r: Requirement)
    requires r in roots
    ensures FirstFor(env, roots, env.canon(r.name)).Some?
    decreases |roots|
  {
    var init, last := roots[..|roots| - 1], roots[|roots| - 1];
    assert roots == init + [last];
    if r in init { FirstExists(env, init, r); }
  }

  // ----- the smallest example

  function Plain(name: string): string { name }
  predicate Always(text: string, extra: string) { true }
  const ANY_MARKER := Env(Plain, Always)

  /** Package `a`, whose extra `x` needs `b`. */
  const TWO_PACKAGES: Lock :=
    map["a" := Locked("1", [], map["x" := [Requirement("b", None, {})]]), "b" := Locked("1", [], map[])]

  const BARE_FIRST := [Requirement("a", None, {}), Requirement("a", None, {"x"})]

  const EXTRA_FIRST := [Requirement("a", None, {"x"}), Requirement("a", None, {})]

  lemma NoEdgeBringsX(roots: seq<Requirement>)
    ensures !EdgeBrings(ANY_MARKER, TWO_PACKAGES, roots, "a", "x")
  {
    OnlyEdge();
  }

  /** The lock has one edge: to `b`, for a package whose extra `x` is live. */
  lemma OnlyEdge()
    ensures forall n, live, child, extras :: n in TWO_PACKAGES && Edge(ANY_MARKER, TWO_PACKAGES[n], live, child, extras) ==>
      child == "b" && extras == {} && n == "a" && "x" in live
  {
  }

  lemma FirstOf(r: Requirement, s: Requirement)
    requires r.name == "a" && s.name == "a"
    ensures FirstFor(ANY_MARKER, [r, s], "a") == Some(r.extras)
  {
    var roots := [r, s];
    assert roots[..1] == [r] && roots[..1][..0] == [];
    assert FirstFor(ANY_MARKER, roots[..1], "a") == Some(r.extras);
  }

  lemma OnlyXExists(roots: seq<Requirement>)
    requires forall r :: r in roots ==> r.extras <= {"x"}
    ensures Universe(TWO_PACKAGES, roots) <= {"x"}
  {
  }

  /** Not every requested extra is recorded: with the roots `a` and `a[x]`, in this order, every
      run ends with `a` alone and without `x`, although a root asked for it. */
  lemma RequestedExtraIsLost(m: Machine)
    requires Final(ANY_MARKER, TWO_PACKAGES, BARE_FIRST, m)
    ensures m.requested == map["a" := {}]
  {
    hide Final, EdgeBrings, FirstFor;
    NoEdgeBringsX(BARE_FIRST);
    FirstOf(BARE_FIRST[0], BARE_FIRST[1]);
    RootExtraKeptExactlyWhen(ANY_MARKER, TWO_PACKAGES, BARE_FIRST, m, "a", "x");
    ExamplesOfNames(BARE_FIRST, m);
    assert m.requested.Keys == {"a"} && m.requested["a"] == {};
  }

  lemma ExamplesOfNames(roots: seq<Requirement>, m: Machine)
    requires Final(ANY_MARKER, TWO_PACKAGES, roots, m) && roots != []
    requires forall r :: r in roots ==> r.name == "a" && r.extras <= {"x"}
    ensures "a" in m.requested && m.requested["a"] <= {"x"} && m.requested.Keys <= {"a", "b"}
    ensures "b" in m.requested <==> "x" in m.requested["a"]
  {
    hide AllJustified, Current, Reachable, Edge, Universe;
    OnlyXExists(roots);
    ClosedAndSound(ANY_MARKER, TWO_PACKAGES, roots, m);
    assert roots[0] in roots;
    assert TWO_PACKAGES.Keys == {"a", "b"};
    if "x" in m.requested["a"] {
      NeedsB(m.requested["a"]);
    }
    if "b" in m.requested {
      BNeedsX(roots, m);
    }
  }

  lemma BNeedsX(roots: seq<Requirement>, m: Machine)
    requires Consistent(ANY_MARKER, TWO_PACKAGES, roots, m) && "b" in m.requested
    requires forall r :: r in roots ==> r.name == "a"
    ensures "a" in m.requested && "x" in m.requested["a"]
  {
    hide AllJustified, Edge, Universe, Taken;
    var q :| q in m.log && q.child == "b";
    EveryRequestGrounded(ANY_MARKER, TWO_PACKAGES, roots, m.log, q);
    OnlyEdge();
    RecordedIsTaken(TWO_PACKAGES, Universe(TWO_PACKAGES, roots), m, "a");
  }

  /** The same two roots in the other order bring in `b` as well. */
  lemma RequestedExtraIsKept(m: Machine)
    requires Final(ANY_MARKER, TWO_PACKAGES, EXTRA_FIRST, m)
    ensures m.requested.Keys == {"a", "b"} && m.requested["a"] == {"x"}
  {
    hide Final, EdgeBrings, FirstFor;
    NoEdgeBringsX(EXTRA_FIRST);
    FirstOf(EXTRA_FIRST[0], EXTRA_FIRST[1]);
    RootExtraKeptExactlyWhen(ANY_MARKER, TWO_PACKAGES, EXTRA_FIRST, m, "a", "x");
    ExamplesOfNames(EXTRA_FIRST, m);
  }

  lemma NeedsB(live: set<string>)
    requires "x" in live
    ensures Edge(ANY_MARKER, TWO_PACKAGES["a"], live, "b", {})
  {
    var b := Requirement("b", None, {});
    assert b in TWO_PACKAGES["a"].extras["x"] && Wanted(ANY_MARKER, b, "x") && ANY_MARKER.canon(b.name) == "b";
    assert ExtraEdge(ANY_MARKER, TWO_PACKAGES["a"], live, "b", {});
  }

  /** This lock resolves every edge, so its runs return normally. */
  lemma TwoPackagesWellMade(roots: seq<Requirement>)
    requires forall r :: r in roots ==> r.name == "a"
    ensures WellMade(ANY_MARKER, TWO_PACKAGES, roots)
  {
    forall n | n in TWO_PACKAGES ensures EdgesResolve(ANY_MARKER, TWO_PACKAGES, TWO_PACKAGES[n], n) {
      forall live, child, extras | Edge(ANY_MARKER, TWO_PACKAGES[n], live, child, extras)
        ensures child == "b" && extras == {}
      {
      }
    }
  }

  lemma SortedNames(names: seq<string>)
    ensures Lists(names, {"a"}) ==> names == ["a"]
    ensures Lists(names, {"a", "b"}) ==> names == ["a", "b"]
  {
    assert Lists(["a"], {"a"}) && Lists(["a", "b"], {"a", "b"});
    if Lists(names, {"a"}) {
      ListingIsUnique(names, ["a"], {"a"});
    }
    if Lists(names, {"a", "b"}) {
      ListingIsUnique(names, ["a", "b"], {"a", "b"});
    }
  }

  /** The two runs themselves: the second root list only differs in its order. */
  method CloseBareFirst() returns (names: seq<string>)
    ensures names == ["a"]
  {
    hide Final, Blamed, WellMade;
    var r, m := Closure(ANY_MARKER, TWO_PACKAGES, BARE_FIRST);
    TwoPackagesWellMade(BARE_FIRST);
    if r.Err? {
      WellMadeLockHasClosure(ANY_MARKER, TWO_PACKAGES, BARE_FIRST, m, r.error);
    }
    RequestedExtraIsLost(m);
    names := r.value;
    SortedNames(names);
  }

  method CloseExtraFirst() returns (names: seq<string>)
    ensures names == ["a", "b"]
  {
    hide Final, Blamed, WellMade;
    var r, m := Closure(ANY_MARKER, TWO_PACKAGES, EXTRA_FIRST);
    TwoPackagesWellMade(EXTRA_FIRST);
    if r.Err? {
      WellMadeLockHasClosure(ANY_MARKER, TWO_PACKAGES, EXTRA_FIRST, m, r.error);
    }
    RequestedExtraIsKept(m);
    names := r.value;
    SortedNames(names);
  }
}
