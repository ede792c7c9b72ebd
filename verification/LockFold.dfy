/** Reading the lock in scripts/generate_runtime_requirements.py: entries of the same package are
    folded into one, and a package locked at several versions becomes ambiguous. */
module LockFold {
  import opened Prelude
  import opened LockClosure

  datatype EntryMarker = Absent | Text(text: string) | ByGroup(texts: map<string, string>)

  datatype Entry = Entry(
    name: string, version: string, groups: Option<set<string>>, markers: EntryMarker,
    dependencies: seq<Dependency>, extras: map<string, seq<Requirement>>)
  {
    function Package(): Package { Locked(version, dependencies, extras) }
  }

  /** Entries without groups are in `main`; a marker per group binds only in its own group. */
  predicate Counts(env: Env, group: string, e: Entry) {
    && group in (match e.groups case None => {"main"} case Some(gs) => gs)
    && MarkerApplies(env,
         (match e.markers
          case Absent => NoMarker
          case Text(t) => Expression(t)
          case ByGroup(ts) => if group in ts then Expression(ts[group]) else NoMarker), {})
  }

  /** An entry counts if it belongs to the group (to `main`, if it names none) and its marker for the
      group is absent, blank, the empty marker, or true without extras. */
  lemma CountsExactlyWhen(env: Env, group: string, e: Entry)
    ensures Counts(env, group, e) <==>
      && (e.groups == None ==> group == "main") && (e.groups.Some? ==> group in e.groups.value)
      && (e.markers.Text? ==> TextHolds(env, e.markers.text))
      && (e.markers.ByGroup? && group in e.markers.texts ==> TextHolds(env, e.markers.texts[group]))
  {
  }

  predicate TextHolds(env: Env, text: string) { text == "" || text == "<empty>" || env.evaluate(text, "") }

  predicate CountsFor(env: Env, group: string, n: string, e: Entry) { Counts(env, group, e) && env.canon(e.name) == n }

  /** The distinct versions of a package among the entries that count. */
  function Versions(env: Env, group: string, entries: seq<Entry>, n: string): set<string> {
    set e | e in entries && CountsFor(env, group, n, e) :: e.version
  }

  /** What the folded entry of `n` must be. */
  ghost predicate FoldedTo(env: Env, group: string, entries: seq<Entry>, n: string, p: Package) {
    var vs := Versions(env, group, entries, n);
    match p
    case Ambiguous(listed) => |listed| >= 2 && Lists(listed, vs)
    case Locked(v, _, _) => vs == {v} && exists i: nat :: LastFor(env, group, entries, n, i) && entries[i].Package() == p
  }

  ghost predicate LastFor(env: Env, group: string, entries: seq<Entry>, n: string, i: nat) {
    && i < |entries| && CountsFor(env, group, n, entries[i])
    && forall j :: i < j < |entries| ==> !CountsFor(env, group, n, entries[j])
  }

  ghost predicate Folded(env: Env, group: string, entries: seq<Entry>, packages: Lock) {
    && (forall n :: n in packages <==> Versions(env, group, entries, n) != {})
    && (forall n :: n in packages ==> FoldedTo(env, group, entries, n, packages[n]))
  }

  lemma VersionsAppend(env: Env, group: string, entries: seq<Entry>, e: Entry)
    ensures forall n ::
      (Versions(env, group, entries + [e], n) ==
       Versions(env, group, entries, n) + (if CountsFor(env, group, n, e) then {e.version} else {}))
  {
  }

  lemma VersionsAppendOne(env: Env, group: string, entries: seq<Entry>, e: Entry, n: string)
    requires CountsFor(env, group, n, e)
    ensures Versions(env, group, entries + [e], n) == Versions(env, group, entries, n) + {e.version}
  {
    VersionsAppend(env, group, entries, e);
  }

  /** An entry of another package, or one more entry of an ambiguous package's versions, changes nothing. */
  lemma FoldedToAppend(env: Env, group: string, entries: seq<Entry>, e: Entry, n: string, p: Package)
    requires FoldedTo(env, group, entries, n, p)
    requires CountsFor(env, group, n, e) ==> p.Ambiguous? && e.version in Versions(env, group, entries, n)
    ensures FoldedTo(env, group, entries + [e], n, p)
  {
    assert Versions(env, group, entries + [e], n) == Versions(env, group, entries, n) by {
      VersionsAppend(env, group, entries, e);
    }
    if p.Locked? {
      var i: nat :| LastFor(env, group, entries, n, i) && entries[i].Package() == p;
      assert LastFor(env, group, entries + [e], n, i) && (entries + [e])[i].Package() == p;
    }
  }

  /** `_locked_packages`, for entries already parsed from the lock file. */
  method LockedPackages(env: Env, group: string, entries: seq<Entry>) returns (packages: Lock)
    ensures Folded(env, group, entries, packages)
  {
    packages := map[];
    for i := 0 to |entries|
      invariant Folded(env, group, entries[..i], packages)
    {
      var e := entries[i];
      var n := env.canon(e.name);
      assert entries[..i + 1] == entries[..i] + [e];
      VersionsAppend(env, group, entries[..i], e);
      var before := packages;
      if Counts(env, group, e) {
        var p := Add(env, group, entries[..i], packages, e);
        packages := packages[n := p];
      }
      forall k | k in packages && !CountsFor(env, group, k, e)
        ensures FoldedTo(env, group, entries[..i + 1], k, packages[k])
      {
        assert k in before && packages[k] == before[k];
        FoldedToAppend(env, group, entries[..i], e, k, packages[k]);
      }
    }
    assert entries[..|entries|] == entries;
  }

  /** The new entry for one package: unchanged, replaced, or ambiguous. */
  method Add(env: Env, group: string, ghost past: seq<Entry>, packages: Lock, e: Entry) returns (p: Package)
    requires Folded(env, group, past, packages) && Counts(env, group, e)
    ensures FoldedTo(env, group, past + [e], env.canon(e.name), p)
  {
    hide Counts, Versions;
    var n := env.canon(e.name);
    VersionsAppendOne(env, group, past, e, n);
    if n in packages {
      var existing := packages[n];
      var versions := match existing case Ambiguous(vs) => vs case Locked(v, _, _) => [v];
      if e.version !in versions {
        var listed := Insert(versions, e.version, Versions(env, group, past, n));
        p := Ambiguous(listed);
        return;
      }
      if existing.Ambiguous? {
        FoldedToAppend(env, group, past, e, n, existing);
        p := existing;
        return;
      }
    }
    p := e.Package();
    assert LastFor(env, group, past + [e], n, |past|) && (past + [e])[|past|].Package() == p;
  }

  /** A package is ambiguous exactly when two distinct versions of it count, and then it lists
      exactly those versions in order. */
  lemma AmbiguousExactlyWhen(env: Env, group: string, entries: seq<Entry>, packages: Lock, n: string)
    requires Folded(env, group, entries, packages)
    ensures (n in packages && packages[n].Ambiguous?) <==>
      exists d, e :: d in entries && e in entries && CountsFor(env, group, n, d) && CountsFor(env, group, n, e)
                     && d.version != e.version
    ensures n in packages && packages[n].Ambiguous? ==> Lists(packages[n].versions, Versions(env, group, entries, n))
  {
    var vs := Versions(env, group, entries, n);
    if n in packages && packages[n].Ambiguous? {
      var listed := packages[n].versions;
      assert listed[0] in vs && listed[1] in vs && Less(listed[0], listed[1]);
      LessIsIrreflexive(listed[0]);
    }
    if d, e :| d in entries && e in entries && CountsFor(env, group, n, d) && CountsFor(env, group, n, e)
               && d.version != e.version
    {
      assert d.version in vs && e.version in vs;
    }
  }

  lemma VersionsIgnoreOrder(env: Env, group: string, a: seq<Entry>, b: seq<Entry>, n: string)
    requires multiset(a) == multiset(b)
    ensures Versions(env, group, a, n) == Versions(env, group, b, n)
  {
    forall e ensures e in a <==> e in b {
      assert e in a <==> e in multiset(a);
      assert e in b <==> e in multiset(b);
    }
  }

  /** Two folded entries over the same versions differ at most in which equal version they hold. */
  lemma SameVersionsSameEntry(env: Env, group: string, a: seq<Entry>, b: seq<Entry>, n: string, p: Package, q: Package)
    requires Versions(env, group, a, n) == Versions(env, group, b, n)
    requires FoldedTo(env, group, a, n, p) && FoldedTo(env, group, b, n, q)
    ensures p.Ambiguous? == q.Ambiguous?
    ensures p.Ambiguous? ==> p.versions == q.versions
    ensures p.Locked? ==> p.version == q.version
  {
    var vs := Versions(env, group, a, n);
    if p.Ambiguous? {
      TwoListed(p.versions, vs);
      if q.Ambiguous? { ListingIsUnique(p.versions, q.versions, vs); }
    } else if q.Ambiguous? {
      TwoListed(q.versions, vs);
    }
  }

  lemma TwoListed(listed: seq<string>, vs: set<string>)
    requires Lists(listed, vs) && |listed| >= 2
    ensures exists x, y :: x in vs && y in vs && x != y
  {
    assert listed[0] in vs && listed[1] in vs && Less(listed[0], listed[1]);
    LessIsIrreflexive(listed[0]);
  }

  /** Folding the same entries in another order gives the same names, the same ambiguous names and
      the same versions everywhere. */
  lemma FoldIgnoresOrder(env: Env, group: string, a: seq<Entry>, b: seq<Entry>, pa: Lock, pb: Lock)
    requires multiset(a) == multiset(b)
    requires Folded(env, group, a, pa) && Folded(env, group, b, pb)
    ensures pa.Keys == pb.Keys
    ensures forall n :: n in pa && n in pb ==>
      && pa[n].Ambiguous? == pb[n].Ambiguous?
      && (pa[n].Ambiguous? ==> pa[n].versions == pb[n].versions)
      && (pa[n].Locked? ==> pa[n].version == pb[n].version)
  {
    forall n ensures Versions(env, group, a, n) == Versions(env, group, b, n) {
      VersionsIgnoreOrder(env, group, a, b, n);
    }
    forall n ensures n in pa <==> n in pb {
      assert n in pa <==> Versions(env, group, a, n) != {};
      assert n in pb <==> Versions(env, group, b, n) != {};
    }
    forall n | n in pa && n in pb
      ensures pa[n].Ambiguous? == pb[n].Ambiguous?
      ensures pa[n].Ambiguous? ==> pa[n].versions == pb[n].versions
      ensures pa[n].Locked? ==> pa[n].version == pb[n].version
    {
      SameVersionsSameEntry(env, group, a, b, n, pa[n], pb[n]);
    }
  }

  // ----- when the whole folded lock is the same

  ghost predicate SameSingleVersion(env: Env, group: string, entries: seq<Entry>, n: string, d: Entry, e: Entry) {
    && d in entries && e in entries && CountsFor(env, group, n, d) && CountsFor(env, group, n, e)
    && Versions(env, group, entries, n) == {d.version}
  }

  /** The entries of a package with a single version say the same. */
  ghost predicate EqualEntries(env: Env, group: string, entries: seq<Entry>) {
    forall n, d, e :: SameSingleVersion(env, group, entries, n, d, e) ==> d.Package() == e.Package()
  }

  lemma FoldedNameExists(env: Env, group: string, entries: seq<Entry>, n: string) returns (p: Package)
    requires Versions(env, group, entries, n) != {}
    ensures FoldedTo(env, group, entries, n, p)
  {
    var vs := Versions(env, group, entries, n);
    var listed := ListingExists(vs);
    if |listed| >= 2 {
      p := Ambiguous(listed);
    } else {
      EmptyListing(listed, vs);
      assert forall v :: v in vs <==> v == listed[0];
      var i := LastOf(env, group, entries, n);
      p := entries[i].Package();
      assert entries[i].version in vs;
    }
  }

  lemma LastOf(env: Env, group: string, entries: seq<Entry>, n: string) returns (i: nat)
    requires Versions(env, group, entries, n) != {}
    ensures LastFor(env, group, entries, n, i)
  {
    var v :| v in Versions(env, group, entries, n);
    var e :| e in entries && CountsFor(env, group, n, e) && e.version == v;
    var k := |entries|;
    while k > 0 && !CountsFor(env, group, n, entries[k - 1])
      invariant 0 <= k <= |entries|
      invariant forall j :: k <= j < |entries| ==> !CountsFor(env, group, n, entries[j])
    {
      k := k - 1;
    }
    i := k - 1;
  }

  lemma FoldExists(env: Env, group: string, entries: seq<Entry>) returns (packages: Lock)
    ensures Folded(env, group, entries, packages)
  {
    var names := set e | e in entries && Counts(env, group, e) :: env.canon(e.name);
    forall n ensures n in names <==> Versions(env, group, entries, n) != {} {
      NameCounts(env, group, entries, n);
    }
    forall n | n in names ensures exists p :: FoldedTo(env, group, entries, n, p) {
      var p := FoldedNameExists(env, group, entries, n);
    }
    packages := map n | n in names :: var p :| FoldedTo(env, group, entries, n, p); p;
  }

  lemma NameCounts(env: Env, group: string, entries: seq<Entry>, n: string)
    ensures Versions(env, group, entries, n) != {} <==> exists e :: e in entries && CountsFor(env, group, n, e)
  {
    if e :| e in entries && CountsFor(env, group, n, e) {
      assert e.version in Versions(env, group, entries, n);
    }
    if Versions(env, group, entries, n) != {} {
      var v :| v in Versions(env, group, entries, n);
    }
  }

  function MovedLast(entries: seq<Entry>, i: nat): seq<Entry>
    requires i < |entries|
  {
    entries[..i] + entries[i + 1..] + [entries[i]]
  }

  lemma MovedIsShuffled(entries: seq<Entry>, i: nat)
    requires i < |entries|
    ensures multiset(MovedLast(entries, i)) == multiset(entries)
  {
    assert entries == entries[..i] + [entries[i]] + entries[i + 1..];
  }

  /** Moved to the end, an entry of a package with one version is what the package folds to. */
  lemma MovedWins(env: Env, group: string, entries: seq<Entry>, n: string, i: nat, p: Package)
    requires i < |entries| && CountsFor(env, group, n, entries[i])
    requires Versions(env, group, entries, n) == {entries[i].version}
    requires FoldedTo(env, group, MovedLast(entries, i), n, p)
    ensures p == entries[i].Package()
  {
    var moved := MovedLast(entries, i);
    MovedIsShuffled(entries, i);
    VersionsIgnoreOrder(env, group, moved, entries, n);
    if p.Ambiguous? {
      TwoListed(p.versions, Versions(env, group, moved, n));
    } else {
      var k: nat :| LastFor(env, group, moved, n, k) && moved[k].Package() == p;
      assert moved[|moved| - 1] == entries[i];
    }
  }

  lemma EqualEntriesFoldAlike(env: Env, group: string, entries: seq<Entry>, s: seq<Entry>, p: Lock, q: Lock)
    requires EqualEntries(env, group, entries) && multiset(s) == multiset(entries)
    requires Folded(env, group, entries, p) && Folded(env, group, s, q)
    ensures p == q
  {
    FoldIgnoresOrder(env, group, entries, s, p, q);
    forall n | n in p ensures p[n] == q[n] {
      if p[n].Locked? {
        VersionsIgnoreOrder(env, group, entries, s, n);
        var i: nat :| LastFor(env, group, entries, n, i) && entries[i].Package() == p[n];
        var j: nat :| LastFor(env, group, s, n, j) && s[j].Package() == q[n];
        assert s[j] in multiset(s) && s[j] in multiset(entries);
        assert entries[i] in entries && s[j] in entries;
        assert SameSingleVersion(env, group, entries, n, entries[i], s[j]);
      }
    }
  }

  /** The whole folded lock, dependencies included, is the same for every order of the entries
      exactly when the entries of every package with a single version say the same. */
  lemma WholeFoldIgnoresOrderExactlyWhen(env: Env, group: string, entries: seq<Entry>)
    ensures (forall s, p, q :: multiset(s) == multiset(entries) && Folded(env, group, entries, p) && Folded(env, group, s, q) ==> p == q)
      <==> EqualEntries(env, group, entries)
  {
    if EqualEntries(env, group, entries) {
      forall s, p, q | multiset(s) == multiset(entries) && Folded(env, group, entries, p) && Folded(env, group, s, q) ensures p == q {
        EqualEntriesFoldAlike(env, group, entries, s, p, q);
      }
    } else {
      var n, d, e :| SameSingleVersion(env, group, entries, n, d, e) && d.Package() != e.Package();
      TwoFolds(env, group, entries, n, d, e);
    }
  }

  /** Two orders with different folds. */
  lemma TwoFolds(env: Env, group: string, entries: seq<Entry>, n: string, d: Entry, e: Entry)
    requires SameSingleVersion(env, group, entries, n, d, e) && d.Package() != e.Package()
    ensures exists s, p, q ::
      multiset(s) == multiset(entries) && Folded(env, group, entries, p) && Folded(env, group, s, q) && p != q
  {
    var i :| 0 <= i < |entries| && entries[i] == d;
    var j :| 0 <= j < |entries| && entries[j] == e;
    assert e.version in Versions(env, group, entries, n);
    var p := FoldExists(env, group, entries);
    var first := FoldOfMoved(env, group, entries, n, i);
    var second := FoldOfMoved(env, group, entries, n, j);
    MovedIsShuffled(entries, i);
    MovedIsShuffled(entries, j);
    assert p != first || p != second;
  }

  lemma FoldOfMoved(env: Env, group: string, entries: seq<Entry>, n: string, i: nat) returns (q: Lock)
    requires i < |entries| && CountsFor(env, group, n, entries[i])
    requires Versions(env, group, entries, n) == {entries[i].version}
    ensures Folded(env, group, MovedLast(entries, i), q) && n in q && q[n] == entries[i].Package()
  {
    var moved := MovedLast(entries, i);
    q := FoldExists(env, group, moved);
    MovedIsShuffled(entries, i);
    VersionsIgnoreOrder(env, group, moved, entries, n);
    MovedWins(env, group, entries, n, i, q[n]);
  }
}
