/** What the worklist of scripts/generate_runtime_requirements.py asks for, spelled out on the lock:
    which options of a dependency count, which extras they bring, and which requirements of an extra
    are followed. */
module LockRequests {
  import opened Prelude
  import opened LockClosure

  // ----- markers

  /** A marker under several extras applies if it does under one of them; without extras it is
      evaluated for the empty one. */
  lemma MarkerByExtras(env: Env, marker: Marker, extras: set<string>)
    ensures extras != {} ==> (MarkerApplies(env, marker, extras) <==> exists e :: e in extras && MarkerApplies(env, marker, {e}))
    ensures MarkerApplies(env, marker, {}) <==> MarkerApplies(env, marker, {""})
  {
    if extras != {} {
      var x :| x in extras;
      assert MarkerApplies(env, marker, extras) ==> exists e :: e in extras && MarkerApplies(env, marker, {e}) by {
        if MarkerApplies(env, marker, extras) {
          var e := SingleExtra(env, marker, extras, x);
        }
      }
    }
  }

  lemma SingleExtra(env: Env, marker: Marker, extras: set<string>, x: string) returns (e: string)
    requires x in extras && MarkerApplies(env, marker, extras)
    ensures e in extras && MarkerApplies(env, marker, {e})
  {
    e := x;
    var text := match marker case PerGroup(Some(t)) => t case Expression(t) => t case _ => "";
    if text != "" && text != "<empty>" {
      e :| e in extras && env.evaluate(text, e);
    }
  }

  /** Under one extra: no marker or a blank one always applies, a marker without a `main` part or with
      a blank one never does, the empty marker always, and any other when it evaluates to true. */
  lemma MarkerForOne(env: Env, text: string, e: string)
    ensures MarkerApplies(env, NoMarker, {e}) && !MarkerApplies(env, PerGroup(None), {e})
    ensures MarkerApplies(env, Expression(text), {e}) <==> text == "" || text == "<empty>" || env.evaluate(text, e)
    ensures MarkerApplies(env, PerGroup(Some(text)), {e}) <==> text == "<empty>" || (text != "" && env.evaluate(text, e))
  {
  }

  // ----- dependencies

  predicate Counts(env: Env, o: Choice, live: set<string>) { !o.optional && MarkerApplies(env, o.markers, live) }

  /** `q` asks for the dependency with exactly the extras of its options that count. */
  ghost predicate AsksFor(env: Env, q: Request, n: string, live: set<string>, d: Dependency) {
    && q.asker == Some(n) && q.live == live && q.child == env.canon(d.name)
    && forall e :: e in q.extras <==> exists o :: o in d.options && Counts(env, o, live) && e in o.extras
  }

  /** In the end every package has asked, under its recorded extras, for each of its dependencies that
      has an option that counts, with the extras of all the options that do. */
  lemma DependenciesAreAsked(env: Env, lock: Lock, roots: seq<Requirement>, m: Machine, n: string, d: Dependency, o: Choice)
    requires Final(env, lock, roots, m) && n in m.requested && n in lock && lock[n].Locked?
    requires d in lock[n].dependencies && o in d.options && Counts(env, o, m.requested[n])
    ensures exists q :: q in m.log && AsksFor(env, q, n, m.requested[n], d)
  {
    hide AllJustified, Universe, Reachable, MarkerApplies;
    var live := m.requested[n];
    ClosedAndSound(env, lock, roots, m);
    assert Usable(env, o, live) && Applicable(env, d, live);
    assert DependencyEdge(env, lock[n], live, env.canon(d.name), ChildExtras(env, d, live));
    assert Served(env, lock[n], m.log, n, live);
    assert Has(m.log, n, live, env.canon(d.name), ChildExtras(env, d, live));
    var q :| q in m.log && q.asker == Some(n) && q.live == live && q.child == env.canon(d.name)
             && q.extras == ChildExtras(env, d, live);
    assert AsksFor(env, q, n, live, d);
  }

  // ----- requirements of extras

  predicate Holds(env: Env, q: Requirement, e: string) {
    q.marker == None || q.marker == Some("") || env.evaluate(q.marker.value, e)
  }

  /** ... and for each requirement of each of them whose marker is absent, blank or true for it. */
  lemma RequirementsAreAsked(env: Env, lock: Lock, roots: seq<Requirement>, m: Machine, n: string, e: string, r: Requirement)
    requires Final(env, lock, roots, m) && n in m.requested && n in lock && lock[n].Locked?
    requires e in m.requested[n] && e in lock[n].extras && r in lock[n].extras[e] && Holds(env, r, e)
    ensures exists q :: q in m.log && q.asker == Some(n) && q.live == m.requested[n]
                        && q.child == env.canon(r.name) && q.extras == r.extras
  {
    hide AllJustified, Universe, Reachable;
    var live := m.requested[n];
    ClosedAndSound(env, lock, roots, m);
    assert Wanted(env, r, e);
    assert ExtraEdge(env, lock[n], live, env.canon(r.name), r.extras);
    assert Served(env, lock[n], m.log, n, live);
    assert Has(m.log, n, live, env.canon(r.name), r.extras);
  }

  // ----- nothing else

  ghost predicate FromDependency(env: Env, lock: Lock, n: string, q: Request) {
    n in lock && lock[n].Locked? &&
    exists d, o :: d in lock[n].dependencies && o in d.options && Counts(env, o, q.live) && AsksFor(env, q, n, q.live, d)
  }

  ghost predicate FromExtra(env: Env, lock: Lock, n: string, q: Request) {
    n in lock && lock[n].Locked? &&
    exists e, r :: e in q.live && e in lock[n].extras && r in lock[n].extras[e] && Holds(env, r, e)
                   && q.child == env.canon(r.name) && q.extras == r.extras
  }

  /** Every request of a package comes from one of its dependencies or from one of its extras. */
  lemma NothingElseIsAsked(env: Env, lock: Lock, roots: seq<Requirement>, m: Machine, q: Request)
    requires Consistent(env, lock, roots, m) && q in m.log && q.asker.Some?
    ensures FromDependency(env, lock, q.asker.value, q) || FromExtra(env, lock, q.asker.value, q)
  {
    hide AllJustified, Tables, Universe, MarkerApplies;
    EveryRequestGrounded(env, lock, roots, m.log, q);
    var n := q.asker.value;
    if DependencyEdge(env, lock[n], q.live, q.child, q.extras) {
      var d :| d in lock[n].dependencies && Applicable(env, d, q.live)
               && env.canon(d.name) == q.child && ChildExtras(env, d, q.live) == q.extras;
      var o :| o in d.options && Usable(env, o, q.live);
      assert Counts(env, o, q.live) && AsksFor(env, q, n, q.live, d);
    } else {
      var e, r :| e in q.live && e in lock[n].extras && r in lock[n].extras[e] && Wanted(env, r, e)
                  && env.canon(r.name) == q.child && r.extras == q.extras;
      assert Holds(env, r, e);
    }
  }
}
