/** Straight-line Python as flat stack code, what it means to cut a range of it out as a stage
    with a given interface, and the exact condition under which that cut changes nothing. */
module StageMachine {
  import opened Prelude

  /** An object reference, and the state of everything outside the locals (heap, files, output).
      Nothing below looks inside either. */
  type Value = int
  type World = int
  type Store = map<string, Value>

  /** `Do` pops arguments, performs an operation and pushes its results: a call, an operator, a
      constant, an unpacking, a subscript or attribute store. */
  datatype Instr =
    | Load(id: string)
    | Bind(id: string)
    | Dup
    | Drop
    | Do(op: string, pops: nat, pushes: nat)

  /** The answer of an operation: results and the next world, or an exception. */
  datatype Reply = Returned(vals: seq<Value>, world: World) | Raised(world: World)

  /** A meaning gives every operation a behaviour, side effects included. */
  type Meaning = (string, seq<Value>, nat, World) -> Reply

  /** `seen` records the value of every name load so far. A failed run has raised. */
  datatype Config =
    | Running(store: Store, stack: seq<Value>, world: World, seen: seq<Value>)
    | Failed(world: World, seen: seq<Value>)

  function Step(m: Meaning, i: Instr, c: Config): Config
    requires c.Running?
  {
    match i
    case Load(x) =>
      if x in c.store then c.(stack := c.stack + [c.store[x]], seen := c.seen + [c.store[x]])
      else Failed(c.world, c.seen)
    case Bind(x) =>
      if c.stack == [] then Failed(c.world, c.seen)
      else c.(store := c.store[x := c.stack[|c.stack| - 1]], stack := c.stack[..|c.stack| - 1])
    case Dup =>
      if c.stack == [] then Failed(c.world, c.seen)
      else c.(stack := c.stack + [c.stack[|c.stack| - 1]])
    case Drop =>
      if c.stack == [] then Failed(c.world, c.seen)
      else c.(stack := c.stack[..|c.stack| - 1])
    case Do(op, pops, pushes) =>
      if |c.stack| < pops then Failed(c.world, c.seen)
      else
        var base := |c.stack| - pops;
        match m(op, c.stack[base..], pushes, c.world)
        case Raised(w) => Failed(w, c.seen)
        case Returned(vals, w) =>
          if |vals| != pushes then Failed(w, c.seen)
          else c.(stack := c.stack[..base] + vals, world := w)
  }

  function Exec(m: Meaning, code: seq<Instr>, c: Config): Config
    decreases |code|
  {
    if code == [] || c.Failed? then c else Exec(m, code[1..], Step(m, code[0], c))
  }

  function Start(entry: Store, w: World): Config { Running(entry, [], w, []) }

  /** The names a piece of code rebinds, and those it may read before binding them itself. */
  function Bound(code: seq<Instr>): set<string> {
    if code == [] then {}
    else (if code[0].Bind? then {code[0].id} else {}) + Bound(code[1..])
  }

  function Exposed(code: seq<Instr>): set<string> {
    if code == [] then {}
    else match code[0]
      case Load(x) => {x} + Exposed(code[1..])
      case Bind(x) => Exposed(code[1..]) - {x}
      case _ => Exposed(code[1..])
  }

  // ----- cutting a range out

  function Restrict(s: Store, names: set<string>): Store { map x | x in names && x in s :: s[x] }

  /** Calling the stage evaluates its arguments and returning evaluates its results, so an unbound
      one raises. Between the two the stage sees the entry store and its inputs only. */
  function CallStage(m: Meaning, entry: Store, code: seq<Instr>, ins: set<string>, outs: set<string>,
                     c: Config): Config
  {
    if c.Failed? then c
    else if !(ins <= c.store.Keys) then Failed(c.world, c.seen)
    else
      var inner := Exec(m, code, Running(entry + Restrict(c.store, ins), c.stack, c.world, c.seen));
      if inner.Failed? then inner
      else if !(outs <= inner.store.Keys) then Failed(inner.world, inner.seen)
      else inner.(store := c.store + Restrict(inner.store, outs))
  }

  /** A function body divided into the part before the range, the range, and the part after it. */
  datatype Parts = Parts(before: seq<Instr>, range: seq<Instr>, after: seq<Instr>) {
    function Whole(): seq<Instr> { before + range + after }
  }

  function Original(m: Meaning, p: Parts, entry: Store, w: World): Config {
    Exec(m, p.Whole(), Start(entry, w))
  }

  function Staged(m: Meaning, p: Parts, ins: set<string>, outs: set<string>, entry: Store, w: World): Config {
    Exec(m, p.after, CallStage(m, entry, p.range, ins, outs, Exec(m, p.before, Start(entry, w))))
  }

  /** Two runs that nobody can tell apart: both raise or neither, the outside world ends up the
      same, and every name that was read had the same value. */
  predicate SameBehaviour(c: Config, d: Config) {
    c.Failed? == d.Failed? && c.world == d.world && c.seen == d.seen
  }

  /** The cut is right when every run that completes stays indistinguishable. */
  ghost predicate Preserves(p: Parts, ins: set<string>, outs: set<string>) {
    forall m: Meaning, entry: Store, w: World ::
      Original(m, p, entry, w).Running? ==>
        SameBehaviour(Original(m, p, entry, w), Staged(m, p, ins, outs, entry, w))
  }

  /** The criterion, read off the names alone. */
  ghost predicate InterfaceFits(p: Parts, ins: set<string>, outs: set<string>) {
    // what the range reads from outside and the code before it rebinds is an input
    && Exposed(p.range) * Bound(p.before) <= ins
    // what the range rebinds and the code after it reads is an output
    && Exposed(p.after) * Bound(p.range) <= outs
    // an input has a value when the stage is called
    && ins <= Bound(p.before) + Exposed(p.Whole())
    // an output has a value when the stage returns, and not a stale one that is read again
    && (forall x :: x in outs ==>
      || x in Bound(p.range)
      || x in ins
      || (x in Exposed(p.Whole()) && !(x in Bound(p.before) && x in Exposed(p.after))))
  }

  // ----- how execution depends on the store

  lemma {:induction false} ExecAppend(m: Meaning, a: seq<Instr>, b: seq<Instr>, c: Config)
    ensures Exec(m, a + b, c) == Exec(m, b, Exec(m, a, c))
    decreases |a|
  {
    if a == [] || c.Failed? {
      if a == [] { assert a + b == b; }
    } else {
      assert (a + b)[1..] == a[1..] + b;
      ExecAppend(m, a[1..], b, Step(m, a[0], c));
    }
  }

  predicate Agree(s: Store, t: Store, names: set<string>) {
    forall x :: x in names ==> (x in s <==> x in t) && (x in s ==> s[x] == t[x])
  }

  /** Names that are not rebound keep their value, or their absence; rebound names have one. */
  lemma {:induction false} ExecFrame(m: Meaning, code: seq<Instr>, c: Config)
    requires c.Running? && Exec(m, code, c).Running?
    ensures forall x :: x !in Bound(code) ==> Agree(c.store, Exec(m, code, c).store, {x})
    ensures Exec(m, code, c).store.Keys == c.store.Keys + Bound(code)
    decreases |code|
  {
    if code != [] {
      var d := Step(m, code[0], c);
      assert d.Running?;
      ExecFrame(m, code[1..], d);
    }
  }

  /** A completed run read every exposed name, so all of them were bound at the start. */
  lemma {:induction false} ExposedWasBound(m: Meaning, code: seq<Instr>, c: Config)
    requires c.Running? && Exec(m, code, c).Running?
    ensures Exposed(code) <= c.store.Keys
    decreases |code|
  {
    if code != [] {
      var d := Step(m, code[0], c);
      assert d.Running?;
      ExposedWasBound(m, code[1..], d);
    }
  }

  predicate SameExceptStore(c: Config, d: Config) {
    c.Failed? == d.Failed? && c.world == d.world && c.seen == d.seen && (c.Running? ==> c.stack == d.stack)
  }

  /** Runs from stores that agree on the exposed names go the same way, exceptions included. */
  lemma {:induction false} ExecAgree(m: Meaning, code: seq<Instr>, c: Config, d: Config, names: set<string>)
    requires SameExceptStore(c, d)
    requires c.Running? ==> Agree(c.store, d.store, names) && Exposed(code) <= names
    ensures SameExceptStore(Exec(m, code, c), Exec(m, code, d))
    ensures Exec(m, code, c).Running? ==>
      Agree(Exec(m, code, c).store, Exec(m, code, d).store, names + Bound(code))
    decreases |code|
  {
    if code != [] && c.Running? {
      var names' := names + (if code[0].Bind? then {code[0].id} else {});
      ExecAgree(m, code[1..], Step(m, code[0], c), Step(m, code[0], d), names');
      assert names' + Bound(code[1..]) == names + Bound(code);
    }
  }

  // ----- the criterion is sufficient

  lemma WholeSplits(m: Meaning, p: Parts, c: Config)
    ensures Exec(m, p.Whole(), c) == Exec(m, p.after, Exec(m, p.range, Exec(m, p.before, c)))
  {
    ExecAppend(m, p.before + p.range, p.after, c);
    ExecAppend(m, p.before, p.range, c);
  }

  /** The stage starts with every value its code looks at. */
  lemma StageStart(p: Parts, ins: set<string>, outs: set<string>, entry: Store, store: Store)
    requires InterfaceFits(p, ins, outs) && ins <= store.Keys
    requires forall x :: x !in Bound(p.before) ==> Agree(entry, store, {x})
    ensures Agree(store, entry + Restrict(store, ins), Exposed(p.range) + ins)
  {
    forall x | x in Exposed(p.range) + ins
      ensures Agree(store, entry + Restrict(store, ins), {x})
    {
      if x !in ins { assert x !in Bound(p.before); }
    }
  }

  /** After the write-back every name the rest of the function looks at has the right value. */
  lemma StageEnd(p: Parts, ins: set<string>, outs: set<string>, entry: Store, store: Store,
                 full: Store, inner: Store)
    requires InterfaceFits(p, ins, outs)
    requires forall x :: x !in Bound(p.before) ==> Agree(entry, store, {x})
    requires forall x :: x !in Bound(p.range) ==> Agree(store, full, {x})
    requires forall x :: x !in Bound(p.range) ==> Agree(entry + Restrict(store, ins), inner, {x})
    requires Agree(full, inner, Exposed(p.range) + ins + Bound(p.range))
    requires outs <= inner.Keys
    ensures Agree(full, store + Restrict(inner, outs), Exposed(p.after))
  {
    forall x | x in Exposed(p.after)
      ensures Agree(full, store + Restrict(inner, outs), {x})
    {
      if x in outs {
        if x !in Bound(p.range) && x !in ins {
          assert x !in Bound(p.before);
          assert Agree(entry, store, {x}) && Agree(store, full, {x});
          assert Agree(entry + Restrict(store, ins), inner, {x});
        }
      } else {
        assert x !in Bound(p.range);
        assert Agree(store, full, {x});
      }
    }
  }

  /** The stage call itself: it mirrors the range it replaces. */
  lemma StageMirrorsRange(m: Meaning, p: Parts, ins: set<string>, outs: set<string>, entry: Store, c: Config)
    requires InterfaceFits(p, ins, outs)
    requires c.Running? && ins <= c.store.Keys
    requires forall x :: x !in Bound(p.before) ==> Agree(entry, c.store, {x})
    requires Exec(m, p.range, c).Running? ==> outs <= Bound(p.range) + ins + entry.Keys
    ensures var full, staged := Exec(m, p.range, c), CallStage(m, entry, p.range, ins, outs, c);
      SameExceptStore(full, staged) && (full.Running? ==> Agree(full.store, staged.store, Exposed(p.after)))
  {
    var start := Running(entry + Restrict(c.store, ins), c.stack, c.world, c.seen);
    StageStart(p, ins, outs, entry, c.store);
    ExecAgree(m, p.range, c, start, Exposed(p.range) + ins);
    var full, inner := Exec(m, p.range, c), Exec(m, p.range, start);
    if full.Running? {
      ExecFrame(m, p.range, c);
      ExecFrame(m, p.range, start);
      assert ins <= start.store.Keys;
      assert outs <= inner.store.Keys;
      StageEnd(p, ins, outs, entry, c.store, full.store, inner.store);
    }
  }

  lemma FittingInterfacePreserves(p: Parts, ins: set<string>, outs: set<string>)
    requires InterfaceFits(p, ins, outs)
    ensures Preserves(p, ins, outs)
  {
    forall m: Meaning, entry: Store, w: World | Original(m, p, entry, w).Running?
      ensures SameBehaviour(Original(m, p, entry, w), Staged(m, p, ins, outs, entry, w))
    {
      var c := Exec(m, p.before, Start(entry, w));
      WholeSplits(m, p, Start(entry, w));
      ExposedWasBound(m, p.Whole(), Start(entry, w));
      assert c.Running? && Exec(m, p.range, c).Running?;
      ExecFrame(m, p.before, Start(entry, w));
      StageMirrorsRange(m, p, ins, outs, entry, c);
      ExecAgree(m, p.after, Exec(m, p.range, c), CallStage(m, entry, p.range, ins, outs, c), Exposed(p.after));
    }
  }

  // ----- the criterion is necessary

  /** Stack cells known to hold the result of an operation rather than a copy of a name. */
  function ShapeStep(i: Instr, cells: seq<bool>): Option<seq<bool>> {
    match i
    case Load(_) => Some(cells + [false])
    case Bind(_) =>
      if cells == [] || !cells[|cells| - 1] then None else Some(cells[..|cells| - 1])
    case Dup => if cells == [] then None else Some(cells + [cells[|cells| - 1]])
    case Drop => if cells == [] then None else Some(cells[..|cells| - 1])
    case Do(_, pops, pushes) =>
      if |cells| < pops then None else Some(cells[..|cells| - pops] + seq(pushes, _ => true))
  }

  function Shape(code: seq<Instr>, cells: seq<bool>): Option<seq<bool>>
    decreases |code|
  {
    if code == [] then Some(cells)
    else match ShapeStep(code[0], cells)
      case None => None
      case Some(cells') => Shape(code[1..], cells')
  }

  /** Whole statements that never bind a bare copy of another name. */
  predicate Computes(code: seq<Instr>) { Shape(code, []) == Some([]) }

  predicate AllCompute(p: Parts) { Computes(p.before) && Computes(p.range) && Computes(p.after) }

  /** The telling meaning: every operation ticks the world and answers the new time. */
  function Counting(op: string, args: seq<Value>, n: nat, w: World): Reply {
    Returned(seq(n, _ => w + 1), w + 1)
  }

  function Ticks(code: seq<Instr>): nat {
    if code == [] then 0 else (if code[0].Do? then 1 else 0) + Ticks(code[1..])
  }

  function Loads(code: seq<Instr>): nat {
    if code == [] then 0 else (if code[0].Load? then 1 else 0) + Loads(code[1..])
  }

  predicate Sized(c: Config, cells: seq<bool>) { c.Running? && |c.stack| == |cells| }

  /** Values made since `start`, on the stack; and nothing from the future anywhere. */
  predicate Timed(c: Config, cells: seq<bool>, start: World)
    requires Sized(c, cells)
  {
    && start <= c.world
    && (forall k :: 0 <= k < |cells| ==> c.stack[k] <= c.world && (cells[k] ==> start < c.stack[k]))
    && (forall x :: x in c.store ==> c.store[x] <= c.world)
  }

  lemma CountingStep(i: Instr, cells: seq<bool>, c: Config, start: World)
    requires ShapeStep(i, cells).Some? && Sized(c, cells) && Timed(c, cells, start)
    requires i.Load? ==> i.id in c.store
    ensures var d, cells' := Step(Counting, i, c), ShapeStep(i, cells).value;
      && Sized(d, cells') && Timed(d, cells', start)
      && d.store.Keys == c.store.Keys + (if i.Bind? then {i.id} else {})
      && (i.Bind? ==> start < d.store[i.id])
  {
  }

  /** Under `Counting` the code completes, and what it binds is newer than `start`. */
  lemma {:induction false} CountingRun(code: seq<Instr>, cells: seq<bool>, c: Config, start: World)
    requires Shape(code, cells).Some? && Sized(c, cells) && Timed(c, cells, start)
    requires Exposed(code) <= c.store.Keys
    ensures var d := Exec(Counting, code, c);
      && Sized(d, Shape(code, cells).value) && Timed(d, Shape(code, cells).value, start)
      && (forall x :: x in Bound(code) ==> x in d.store && start < d.store[x])
    decreases |code|
  {
    if code != [] {
      var d := Step(Counting, code[0], c);
      var cells' := ShapeStep(code[0], cells).value;
      CountingStep(code[0], cells, c, start);
      CountingRun(code[1..], cells', d, start);
      if code[0].Bind? && code[0].id !in Bound(code[1..]) {
        ExecFrame(Counting, code[1..], d);
        assert Agree(d.store, Exec(Counting, code[1..], d).store, {code[0].id});
      }
    }
  }

  /** Under `Counting` a completed run takes a fixed time and makes a fixed number of loads. */
  lemma {:induction false} CountingLength(code: seq<Instr>, c: Config)
    requires c.Running? && Exec(Counting, code, c).Running?
    ensures Exec(Counting, code, c).world == c.world + Ticks(code)
    ensures |Exec(Counting, code, c).seen| == |c.seen| + Loads(code)
    decreases |code|
  {
    if code != [] {
      CountingLength(code[1..], Step(Counting, code[0], c));
    }
  }

  /** A difference in an exposed name, or one already seen, is seen for good. */
  lemma {:induction false} DifferenceIsSeen(code: seq<Instr>, c: Config, d: Config, x: string)
    requires c.Running? && d.Running?
    requires Exec(Counting, code, c).Running? && Exec(Counting, code, d).Running?
    requires |c.seen| == |d.seen|
    requires c.seen != d.seen || (x in Exposed(code) && x in c.store && x in d.store && c.store[x] != d.store[x])
    ensures Exec(Counting, code, c).seen != Exec(Counting, code, d).seen
    decreases |code|
  {
    if code != [] {
      var c', d' := Step(Counting, code[0], c), Step(Counting, code[0], d);
      if c.seen != d.seen && code[0].Load? {
        assert c'.seen[..|c.seen|] == c.seen && d'.seen[..|d.seen|] == d.seen;
      } else if code[0] == Load(x) {
        assert c'.seen[|c.seen|] == c.store[x] && d'.seen[|d.seen|] == d.store[x];
      }
      DifferenceIsSeen(code[1..], c', d', x);
    }
  }

  lemma {:induction false} ExposedAppend(a: seq<Instr>, b: seq<Instr>)
    ensures Exposed(a + b) == Exposed(a) + (Exposed(b) - Bound(a))
    ensures Bound(a + b) == Bound(a) + Bound(b)
    decreases |a|
  {
    if a == [] {
      assert a + b == b;
    } else {
      assert (a + b)[1..] == a[1..] + b;
      ExposedAppend(a[1..], b);
    }
  }

  /** The entry store that binds exactly what the function needs, at time zero. */
  function Needed(p: Parts): Store { map x | x in Exposed(p.Whole()) :: 0 }

  function AtRange(p: Parts): Config { Exec(Counting, p.before, Start(Needed(p), 0)) }
  function AtAfter(p: Parts): Config { Exec(Counting, p.range, AtRange(p)) }

  /** The telling run of the original function completes, and its three parts leave their marks. */
  lemma TellingRun(p: Parts)
    requires AllCompute(p)
    ensures AtRange(p).Running? && AtRange(p).stack == [] && AtRange(p).world >= 0
    ensures forall x :: x in AtRange(p).store ==> AtRange(p).store[x] <= AtRange(p).world
    ensures forall x :: x in Bound(p.before) ==> x in AtRange(p).store && 0 < AtRange(p).store[x]
    ensures AtRange(p).store.Keys == Needed(p).Keys + Bound(p.before)
    ensures AtAfter(p).Running? && AtAfter(p).stack == []
    ensures forall x :: x in Bound(p.range) ==> x in AtAfter(p).store && AtRange(p).world < AtAfter(p).store[x]
    ensures forall x :: x !in Bound(p.range) ==> Agree(AtRange(p).store, AtAfter(p).store, {x})
    ensures Exposed(p.after) <= AtAfter(p).store.Keys
    ensures Original(Counting, p, Needed(p), 0) == Exec(Counting, p.after, AtAfter(p))
    ensures Original(Counting, p, Needed(p), 0).Running?
  {
    ExposedAppend(p.before + p.range, p.after);
    ExposedAppend(p.before, p.range);
    var s := Start(Needed(p), 0);
    CountingRun(p.before, [], s, 0);
    ExecFrame(Counting, p.before, s);
    CountingRun(p.range, [], AtRange(p), AtRange(p).world);
    ExecFrame(Counting, p.range, AtRange(p));
    CountingRun(p.after, [], AtAfter(p), AtAfter(p).world);
    WholeSplits(Counting, p, s);
  }

  /** If the stage does not mirror the range on the telling run, the cut shows. */
  lemma TellingStage(p: Parts, ins: set<string>, outs: set<string>)
    requires AllCompute(p)
    requires SameBehaviour(Original(Counting, p, Needed(p), 0), Staged(Counting, p, ins, outs, Needed(p), 0))
    ensures var back := CallStage(Counting, Needed(p), p.range, ins, outs, AtRange(p));
      && AtRange(p).Running? && ins <= AtRange(p).store.Keys
      && back.Running?
      && outs <= Needed(p).Keys + ins + Bound(p.range)
      && AtAfter(p).Running? && Exposed(p.after) <= back.store.Keys * AtAfter(p).store.Keys
      && (forall x :: x in Exposed(p.range) * Bound(p.before) ==> x in ins)
      && (forall x :: x in Exposed(p.after) ==> back.store[x] == AtAfter(p).store[x])
  {
    TellingRun(p);
    var c := AtRange(p);
    var back := CallStage(Counting, Needed(p), p.range, ins, outs, c);
    assert Staged(Counting, p, ins, outs, Needed(p), 0) == Exec(Counting, p.after, back);
    assert back.Running?;
    ExposedWasBound(Counting, p.after, back);
    var start := Running(Needed(p) + Restrict(c.store, ins), c.stack, c.world, c.seen);
    ExecFrame(Counting, p.range, start);
    ExposedWasBound(Counting, p.range, start);
    CountingLength(p.range, c);
    CountingLength(p.range, start);
    forall x | x in Exposed(p.range) * Bound(p.before)
      ensures x in ins
    {
      if x !in ins {
        assert start.store[x] == 0 && 0 < c.store[x];
        ExposedWasBound(Counting, p.range, c);
        DifferenceIsSeen(p.range, c, start, x);
        DifferenceIsSeen(p.after, AtAfter(p), back, x);
        assert false;
      }
    }
    forall x | x in Exposed(p.after)
      ensures back.store[x] == AtAfter(p).store[x]
    {
      if back.store[x] != AtAfter(p).store[x] {
        DifferenceIsSeen(p.after, AtAfter(p), back, x);
        assert false;
      }
    }
  }

  lemma PreservingInterfaceFits(p: Parts, ins: set<string>, outs: set<string>)
    requires AllCompute(p) && Preserves(p, ins, outs)
    ensures InterfaceFits(p, ins, outs)
  {
    TellingRun(p);
    assert SameBehaviour(Original(Counting, p, Needed(p), 0), Staged(Counting, p, ins, outs, Needed(p), 0));
    TellingStage(p, ins, outs);
    var c := AtRange(p);
    var start := Running(Needed(p) + Restrict(c.store, ins), c.stack, c.world, c.seen);
    var inner := Exec(Counting, p.range, start);
    ExecFrame(Counting, p.range, start);
    forall x | x in Exposed(p.after) * Bound(p.range)
      ensures x in outs
    {
      if x !in outs {
        assert false;
      }
    }
    forall x | x in outs && x !in Bound(p.range) && x !in ins
      ensures x in Exposed(p.Whole()) && !(x in Bound(p.before) && x in Exposed(p.after))
    {
      assert Agree(start.store, inner.store, {x}) && Agree(c.store, AtAfter(p).store, {x});
      if x in Bound(p.before) && x in Exposed(p.after) {
        assert false;
      }
    }
  }

  /** Cutting a range out is right for every meaning and every entry store exactly when its
      interface fits the names. */
  lemma PreservesExactlyWhenItFits(p: Parts, ins: set<string>, outs: set<string>)
    requires AllCompute(p)
    ensures Preserves(p, ins, outs) <==> InterfaceFits(p, ins, outs)
  {
    if InterfaceFits(p, ins, outs) {
      FittingInterfacePreserves(p, ins, outs);
    }
    if Preserves(p, ins, outs) {
      PreservingInterfaceFits(p, ins, outs);
    }
  }
}
