/** One run decides: whether cutting a range out changes anything, for any meaning of the operations
    and any entry store, shows on a single run in which all values are told apart. Unlike the
    criterion on names this holds for all code, bare copies of names included. */
module StageReplay {
  import opened StageMachine

  /** The free meaning: every operation answers with values never seen before. */
  function Fresh(op: string, args: seq<Value>, n: nat, w: World): Reply {
    Returned(Answer(w, n), w + n + 1)
  }

  function Answer(w: World, n: nat): seq<Value> { seq(n, i requires 0 <= i < n => w + i) }

  /** Where a name is first loaded. */
  function Place(code: seq<Instr>, x: string): (k: nat)
    ensures k <= |code|
    ensures k < |code| ==> code[k] == Load(x)
  {
    if code == [] || code[0] == Load(x) then 0 else 1 + Place(code[1..], x)
  }

  lemma {:induction false} ExposedHasPlace(code: seq<Instr>, x: string)
    requires x in Exposed(code)
    ensures Place(code, x) < |code|
  {
    if code[0] != Load(x) { ExposedHasPlace(code[1..], x); }
  }

  /** The free entry store: a value of its own for every name the function needs. */
  function Tokens(p: Parts): Store { map x | x in Exposed(p.Whole()) :: -1 - Place(p.Whole(), x) }

  // ----- values of a run as images of the values of the free run

  type Reading = map<Value, Value>

  predicate StoreImage(h: Reading, s: Store, t: Store) {
    forall x :: x in s ==> x in t && s[x] in h && t[x] == h[s[x]]
  }

  predicate ListImage(h: Reading, s: seq<Value>, t: seq<Value>) {
    |s| == |t| && forall k :: 0 <= k < |s| ==> s[k] in h && t[k] == h[s[k]]
  }

  predicate Image(h: Reading, c: Config, d: Config) {
    && c.Running? && d.Running?
    && StoreImage(h, c.store, d.store) && ListImage(h, c.stack, d.stack) && ListImage(h, c.seen, d.seen)
    && (forall v :: v in h ==> v < c.world)
  }

  predicate Extends(h: Reading, h': Reading) { forall v :: v in h ==> v in h' && h'[v] == h[v] }

  lemma SameImage(h: Reading, s: seq<Value>, t: seq<Value>, u: seq<Value>)
    requires ListImage(h, s, t) && ListImage(h, s, u)
    ensures t == u
  {
  }

  /** What is learned when an operation answers: the new values stand for the answer. */
  function Learned(h: Reading, w: World, vals: seq<Value>): Reading
    decreases |vals|
  {
    if vals == [] then h
    else
      var n := |vals| - 1;
      Learned(h, w, vals[..n])[w + n := vals[n]]
  }

  lemma {:induction false} LearnedExtends(h: Reading, w: World, vals: seq<Value>)
    requires forall v :: v in h ==> v < w
    ensures Extends(h, Learned(h, w, vals))
    ensures ListImage(Learned(h, w, vals), Answer(w, |vals|), vals)
    ensures forall v :: v in Learned(h, w, vals) ==> v < w + |vals|
    decreases |vals|
  {
    if vals != [] {
      var init, n := vals[..|vals| - 1], |vals| - 1;
      LearnedExtends(h, w, init);
      var before, after := Learned(h, w, init), Learned(h, w, vals);
      assert after == before[w + n := vals[n]];
      forall k | 0 <= k < |vals|
        ensures Answer(w, |vals|)[k] in after && vals[k] == after[Answer(w, |vals|)[k]]
      {
        if k < n {
          var v := Answer(w, n)[k];
          assert v == w + k && v in before && before[v] == init[k];
        }
      }
    }
  }

  lemma ListImageGrows(h: Reading, h': Reading, s: seq<Value>, t: seq<Value>)
    requires ListImage(h, s, t) && Extends(h, h')
    ensures ListImage(h', s, t)
  {
    forall k | 0 <= k < |s| ensures s[k] in h' && t[k] == h'[s[k]] {
      var v := s[k];
      assert v in h && v in h' && h'[v] == h[v];
    }
  }

  lemma ImageAppend(h: Reading, s: seq<Value>, t: seq<Value>, s': seq<Value>, t': seq<Value>)
    requires ListImage(h, s, t) && ListImage(h, s', t')
    ensures ListImage(h, s + s', t + t')
  {
  }

  lemma ImageTake(h: Reading, s: seq<Value>, t: seq<Value>, n: nat)
    requires ListImage(h, s, t) && n <= |s|
    ensures ListImage(h, s[..n], t[..n])
  {
  }

  /** An operation that answers in the run: the free run follows. */
  lemma FollowDo(m: Meaning, i: Instr, h: Reading, c: Config, d: Config) returns (h': Reading)
    requires i.Do? && Image(h, c, d) && Step(m, i, d).Running?
    ensures Extends(h, h') && Image(h', Step(Fresh, i, c), Step(m, i, d))
    ensures h' == Learned(h, c.world, m(i.op, d.stack[|d.stack| - i.pops..], i.pushes, d.world).vals)
  {
    var base := |c.stack| - i.pops;
    var vals := m(i.op, d.stack[base..], i.pushes, d.world).vals;
    h' := Learned(h, c.world, vals);
    LearnedExtends(h, c.world, vals);
    ListImageGrows(h, h', c.stack, d.stack);
    ListImageGrows(h, h', c.seen, d.seen);
    ImageTake(h', c.stack, d.stack, base);
    ImageAppend(h', c.stack[..base], d.stack[..base], Answer(c.world, i.pushes), vals);
  }

  /** Any other instruction. */
  lemma FollowOther(m: Meaning, i: Instr, h: Reading, c: Config, d: Config)
    requires !i.Do? && Image(h, c, d) && Step(m, i, d).Running? && (i.Load? ==> i.id in c.store)
    ensures Image(h, Step(Fresh, i, c), Step(m, i, d))
  {
    hide Fresh;
    match i
    case Load(x) => ImageAppend(h, c.stack, d.stack, [c.store[x]], [d.store[x]]);
                    ImageAppend(h, c.seen, d.seen, [c.store[x]], [d.store[x]]);
    case Bind(x) => ImageTake(h, c.stack, d.stack, |c.stack| - 1);
    case Dup => ImageAppend(h, c.stack, d.stack, [c.stack[|c.stack| - 1]], [d.stack[|d.stack| - 1]]);
    case Drop => ImageTake(h, c.stack, d.stack, |c.stack| - 1);
  }

  /** If a run completes, so does the free run, and the run is an image of it. */
  lemma {:induction false} Follow(m: Meaning, code: seq<Instr>, h: Reading, c: Config, d: Config) returns (h': Reading)
    requires Image(h, c, d) && Exec(m, code, d).Running? && Exposed(code) <= c.store.Keys
    ensures Extends(h, h') && Image(h', Exec(Fresh, code, c), Exec(m, code, d))
    decreases |code|
  {
    h' := h;
    if code != [] {
      var i := code[0];
      assert Step(m, i, d).Running?;
      if i.Do? {
        h' := FollowDo(m, i, h, c, d);
      } else {
        FollowOther(m, i, h, c, d);
      }
      h' := Follow(m, code[1..], h', Step(Fresh, i, c), Step(m, i, d));
    }
  }

  // ----- two runs in step

  lemma {:induction false} SeenGrows(m: Meaning, code: seq<Instr>, c: Config)
    requires c.Running?
    ensures c.seen <= Exec(m, code, c).seen
    ensures Exec(m, code, c).Running? ==> |Exec(m, code, c).seen| == |c.seen| + Loads(code)
    decreases |code|
  {
    if code != [] && Step(m, code[0], c).Running? {
      SeenGrows(m, code[1..], Step(m, code[0], c));
    }
  }

  /** Two free runs at the same point, and the runs that are their images. */
  ghost predicate InStep(h: Reading, c1: Config, d1: Config, c2: Config, d2: Config) {
    && Image(h, c1, d1) && Image(h, c2, d2)
    && c1.stack == c2.stack && c1.seen == c2.seen && c1.world == c2.world && d1.world == d2.world
  }

  lemma InStepTwins(h: Reading, c1: Config, d1: Config, c2: Config, d2: Config)
    requires InStep(h, c1, d1, c2, d2)
    ensures d1.stack == d2.stack && d1.seen == d2.seen
  {
    SameImage(h, c1.stack, d1.stack, d2.stack);
    SameImage(h, c1.seen, d1.seen, d2.seen);
  }

  lemma TwinStep(m: Meaning, i: Instr, h: Reading, c1: Config, d1: Config, c2: Config, d2: Config) returns (h': Reading)
    requires InStep(h, c1, d1, c2, d2) && Step(m, i, d1).Running?
    requires i.Load? ==> i.id in c1.store && i.id in c2.store && c1.store[i.id] == c2.store[i.id]
    ensures Extends(h, h')
    ensures InStep(h', Step(Fresh, i, c1), Step(m, i, d1), Step(Fresh, i, c2), Step(m, i, d2))
  {
    h' := h;
    InStepTwins(h, c1, d1, c2, d2);
    if i.Do? {
      h' := FollowDo(m, i, h, c1, d1);
      var again := FollowDo(m, i, h, c2, d2);
    } else {
      FollowOther(m, i, h, c1, d1);
      FollowOther(m, i, h, c2, d2);
    }
  }

  /** If two free runs of the same code see the same, so do the runs that are their images: the
      second completes if the first does. */
  lemma {:induction false} Twins(m: Meaning, code: seq<Instr>, h: Reading, c1: Config, d1: Config, c2: Config, d2: Config)
    returns (h': Reading)
    requires InStep(h, c1, d1, c2, d2) && Exec(m, code, d1).Running?
    requires Exec(Fresh, code, c1).Running? && Exec(Fresh, code, c2).Running?
    requires Exec(Fresh, code, c1).seen == Exec(Fresh, code, c2).seen
    ensures Extends(h, h')
    ensures InStep(h', Exec(Fresh, code, c1), Exec(m, code, d1), Exec(Fresh, code, c2), Exec(m, code, d2))
    decreases |code|
  {
    h' := h;
    if code != [] {
      var i := code[0];
      var e1, e2 := Step(Fresh, i, c1), Step(Fresh, i, c2);
      assert e1.Running? && e2.Running? && Step(m, i, d1).Running?;
      SeenGrows(Fresh, code[1..], e1);
      SeenGrows(Fresh, code[1..], e2);
      if i.Load? {
        SameLoad(e1.seen, e2.seen, Exec(Fresh, code, c1).seen, |c1.seen|);
      }
      h' := TwinStep(m, i, h, c1, d1, c2, d2);
      h' := Twins(m, code[1..], h', e1, Step(m, i, d1), e2, Step(m, i, d2));
    }
  }

  lemma SameLoad(s: seq<Value>, t: seq<Value>, whole: seq<Value>, k: nat)
    requires s <= whole && t <= whole && k < |s| && k < |t|
    ensures s[k] == t[k]
  {
  }

  // ----- one run decides

  function FreeOriginal(p: Parts): Config { Original(Fresh, p, Tokens(p), 0) }

  function FreeStaged(p: Parts, ins: set<string>, outs: set<string>): Config { Staged(Fresh, p, ins, outs, Tokens(p), 0) }

  /** The free run is not changed by the cut, if it completes. */
  predicate FreeRunAgrees(p: Parts, ins: set<string>, outs: set<string>) {
    FreeOriginal(p).Running? ==> SameBehaviour(FreeOriginal(p), FreeStaged(p, ins, outs))
  }

  /** How an entry store reads the free one. */
  function EntryReading(p: Parts, entry: Store): Reading
    requires Exposed(p.Whole()) <= entry.Keys
  {
    var whole := p.Whole();
    var loaded := set x | x in Exposed(whole) :: -1 - Place(whole, x);
    map v | v in loaded :: if 0 <= -1 - v < |whole| && whole[-1 - v].Load? && whole[-1 - v].id in entry
                           then entry[whole[-1 - v].id] else 0
  }

  lemma EntryIsImage(p: Parts, entry: Store, w: World)
    requires Exposed(p.Whole()) <= entry.Keys
    ensures Image(EntryReading(p, entry), Start(Tokens(p), 0), Start(entry, w))
  {
    var h := EntryReading(p, entry);
    forall x | x in Tokens(p) ensures Tokens(p)[x] in h && entry[x] == h[Tokens(p)[x]] {
      ExposedHasPlace(p.Whole(), x);
    }
  }

  /** The stage starts from images again. */
  lemma StageImage(h: Reading, ins: set<string>, tokens: Store, entry: Store, s: Store, t: Store)
    requires StoreImage(h, tokens, entry) && StoreImage(h, s, t) && ins <= s.Keys
    ensures StoreImage(h, tokens + Restrict(s, ins), entry + Restrict(t, ins))
  {
  }

  /** ... and so does what follows it. */
  lemma BackImage(h: Reading, outs: set<string>, s: Store, t: Store, s': Store, t': Store)
    requires StoreImage(h, s, t) && StoreImage(h, s', t') && outs <= s'.Keys
    ensures StoreImage(h, s + Restrict(s', outs), t + Restrict(t', outs))
  {
  }

  lemma StoreImageGrows(h: Reading, h': Reading, s: Store, t: Store)
    requires StoreImage(h, s, t) && Extends(h, h')
    ensures StoreImage(h', s, t)
  {
    forall x | x in s ensures x in t && s[x] in h' && t[x] == h'[s[x]] {
      var v := s[x];
      assert v in h && v in h' && h'[v] == h[v];
    }
  }

  /** The stage call of a run, next to the range that it replaces, when the free run agrees. */
  lemma StageTwins(m: Meaning, p: Parts, ins: set<string>, outs: set<string>, h: Reading, tokens: Store, entry: Store,
                   c: Config, d: Config) returns (h': Reading)
    requires Image(h, c, d) && StoreImage(h, tokens, entry)
    requires Exec(m, p.range, d).Running? && Exec(Fresh, p.range, c).Running?
    requires var back := CallStage(Fresh, tokens, p.range, ins, outs, c);
      back.Running? && back.seen == Exec(Fresh, p.range, c).seen
    ensures Extends(h, h')
    ensures InStep(h', Exec(Fresh, p.range, c), Exec(m, p.range, d),
                   CallStage(Fresh, tokens, p.range, ins, outs, c), CallStage(m, entry, p.range, ins, outs, d))
  {
    var c2 := Running(tokens + Restrict(c.store, ins), c.stack, c.world, c.seen);
    var d2 := Running(entry + Restrict(d.store, ins), d.stack, d.world, d.seen);
    StageImage(h, ins, tokens, entry, c.store, d.store);
    h' := Twins(m, p.range, h, c, d, c2, d2);
    StoreImageGrows(h, h', c.store, d.store);
    var inner, inner' := Exec(Fresh, p.range, c2), Exec(m, p.range, d2);
    BackImage(h', outs, c.store, d.store, inner.store, inner'.store);
  }

  lemma SeenAfterRange(p: Parts, c: Config, ins: set<string>, outs: set<string>, tokens: Store)
    requires c.Running? && Exec(Fresh, p.range, c).Running? && CallStage(Fresh, tokens, p.range, ins, outs, c).Running?
    requires var full, back := Exec(Fresh, p.range, c), CallStage(Fresh, tokens, p.range, ins, outs, c);
      Exec(Fresh, p.after, full).Running? && Exec(Fresh, p.after, back).Running?
      && Exec(Fresh, p.after, full).seen == Exec(Fresh, p.after, back).seen
    ensures CallStage(Fresh, tokens, p.range, ins, outs, c).seen == Exec(Fresh, p.range, c).seen
  {
    var full, back := Exec(Fresh, p.range, c), CallStage(Fresh, tokens, p.range, ins, outs, c);
    var c2 := Running(tokens + Restrict(c.store, ins), c.stack, c.world, c.seen);
    SeenGrows(Fresh, p.range, c);
    SeenGrows(Fresh, p.range, c2);
    SeenGrows(Fresh, p.after, full);
    SeenGrows(Fresh, p.after, back);
    var whole := Exec(Fresh, p.after, full).seen;
    assert whole[..|full.seen|] == full.seen && whole[..|back.seen|] == back.seen;
  }

  lemma FreeRunSpeaks(m: Meaning, p: Parts, ins: set<string>, outs: set<string>, entry: Store, w: World)
    requires FreeRunAgrees(p, ins, outs) && Original(m, p, entry, w).Running?
    ensures SameBehaviour(Original(m, p, entry, w), Staged(m, p, ins, outs, entry, w))
  {
    var c0, d0 := Start(Tokens(p), 0), Start(entry, w);
    ExposedWasBound(m, p.Whole(), d0);
    EntryIsImage(p, entry, w);
    var h0 := EntryReading(p, entry);
    var hAll := Follow(m, p.Whole(), h0, c0, d0);
    WholeSplits(m, p, d0);
    WholeSplits(Fresh, p, c0);
    var c, d := Exec(Fresh, p.before, c0), Exec(m, p.before, d0);
    ExposedAppend(p.before + p.range, p.after);
    ExposedAppend(p.before, p.range);
    var h := Follow(m, p.before, h0, c0, d0);
    StoreImageGrows(h0, h, Tokens(p), entry);
    SeenAfterRange(p, c, ins, outs, Tokens(p));
    var h' := StageTwins(m, p, ins, outs, h, Tokens(p), entry, c, d);
    var full, back := Exec(Fresh, p.range, c), CallStage(Fresh, Tokens(p), p.range, ins, outs, c);
    var full', back' := Exec(m, p.range, d), CallStage(m, entry, p.range, ins, outs, d);
    var h'' := Twins(m, p.after, h', full, full', back, back');
    InStepTwins(h'', Exec(Fresh, p.after, full), Exec(m, p.after, full'), Exec(Fresh, p.after, back), Exec(m, p.after, back'));
  }

  /** Cutting a range out is right, for every meaning and every entry store, exactly when it does
      not change the free run: for any code and any interface. */
  lemma OneRunDecides(p: Parts, ins: set<string>, outs: set<string>)
    ensures Preserves(p, ins, outs) <==> FreeRunAgrees(p, ins, outs)
  {
    if FreeRunAgrees(p, ins, outs) {
      forall m: Meaning, entry: Store, w: World | Original(m, p, entry, w).Running?
        ensures SameBehaviour(Original(m, p, entry, w), Staged(m, p, ins, outs, entry, w))
      {
        FreeRunSpeaks(m, p, ins, outs, entry, w);
      }
    }
  }

  // ----- why the criterion on names excludes bare copies

  /** `x = make()`, the range `x = x`, then `use(x)`, with `x` handed in and nothing handed back. */
  const COPY := Parts([Do("make", 0, 1), Bind("x")], [Load("x"), Bind("x")], [Load("x"), Do("use", 1, 1), Drop])

  lemma ExecOne(m: Meaning, i: Instr, c: Config)
    requires c.Running?
    ensures Exec(m, [i], c) == Step(m, i, c)
  {
    hide Step;
    var code := [i];
    assert code[0] == i && code[1..] == [];
    assert Exec(m, code, c) == Exec(m, code[1..], Step(m, i, c));
    assert Exec(m, code[1..], Step(m, i, c)) == Step(m, i, c);
  }

  lemma ExecTwo(m: Meaning, i: Instr, j: Instr, c: Config)
    requires c.Running? && Step(m, i, c).Running?
    ensures Exec(m, [i, j], c) == Step(m, j, Step(m, i, c))
  {
    hide Step;
    ExecOne(m, i, c);
    ExecOne(m, j, Step(m, i, c));
    assert [i] + [j] == [i, j];
    ExecAppend(m, [i], [j], c);
  }

  lemma CopyNames()
    ensures !InterfaceFits(COPY, {"x"}, {})
  {
    assert COPY.range[1..] == [Bind("x")] && COPY.range[1..][1..] == [];
    assert "x" in Bound(COPY.range) && "x" in Exposed(COPY.after);
  }

  /** Copying a name to itself only looks at it. */
  lemma CopyRuns(c: Config)
    requires c.Running? && "x" in c.store
    ensures Exec(Fresh, COPY.range, c) == c.(seen := c.seen + [c.store["x"]])
  {
    ExecTwo(Fresh, COPY.range[0], COPY.range[1], c);
    assert c.store["x" := c.store["x"]] == c.store;
    assert (c.stack + [c.store["x"]])[..|c.stack|] == c.stack;
  }

  lemma CopyStage(c: Config, tokens: Store)
    requires c.Running? && "x" in c.store
    ensures CallStage(Fresh, tokens, COPY.range, {"x"}, {}, c) == Exec(Fresh, COPY.range, c)
  {
    var start := Running(tokens + Restrict(c.store, {"x"}), c.stack, c.world, c.seen);
    CopyRuns(c);
    CopyRuns(start);
    assert c.store + Restrict(start.store, {}) == c.store;
  }

  lemma MadeX(c: Config)
    requires c.Running?
    ensures Exec(Fresh, COPY.before, c).Running? && "x" in Exec(Fresh, COPY.before, c).store
  {
    hide Fresh;
    assert Step(Fresh, COPY.before[0], c).Running? by { MakeAnswers(c); }
    ExecTwo(Fresh, COPY.before[0], COPY.before[1], c);
    MakeAnswers(c);
  }

  lemma MakeAnswers(c: Config)
    requires c.Running?
    ensures Step(Fresh, COPY.before[0], c).Running? && Step(Fresh, COPY.before[0], c).stack != []
  {
  }

  /** The interface leaves out a name that the range binds and the rest reads, and yet the cut is
      right: the copy binds the value that the name has anyway. */
  lemma CopyNeedsNoOutput()
    ensures !InterfaceFits(COPY, {"x"}, {}) && Preserves(COPY, {"x"}, {})
  {
    hide InterfaceFits, Preserves, Exec, Step, CallStage;
    CopyNames();
    var c0 := Start(Tokens(COPY), 0);
    WholeSplits(Fresh, COPY, c0);
    MadeX(c0);
    CopyStage(Exec(Fresh, COPY.before, c0), Tokens(COPY));
    OneRunDecides(COPY, {"x"}, {});
  }
}
