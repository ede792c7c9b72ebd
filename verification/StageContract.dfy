/** The input/output contract that scripts/ctx_access_map.py computes for a range of lines, and
    what it is worth: for straight-line code whose assignments all carry a value, replacing the
    range by a stage with that contract changes nothing that anyone can observe. */
module StageContract {
  import opened Prelude
  import opened StageMachine

  // ----- the fragment of Python's syntax tree that straight-line code uses

  /** `Apply` is every other expression: call, operator, attribute, subscript, literal. */
  datatype Expr = Name(id: string, line: int) | Apply(op: string, args: seq<Expr>)

  /** `PlaceTarget` is a subscript or an attribute; storing there rebinds no name. */
  datatype Target = NameTarget(id: string) | TupleTarget(elts: seq<Target>) | PlaceTarget(op: string, args: seq<Expr>)

  datatype Stmt =
    | Assign(line: int, targets: seq<Target>, value: Expr)
    | AnnAssign(line: int, target: Target, annotation: Expr, annotated: Option<Expr>)
    | AugAssign(line: int, id: string, op: string, value: Expr)
    | ExprStmt(line: int, value: Expr)

  // ----- what `ast.walk` shows the analyser

  /** The two kinds of node that the analyser reacts to. A name under a store context is not a
      load; an augmented assignment is neither kind. */
  datatype Visit = AssignVisit(line: int, targets: seq<Target>) | LoadVisit(id: string, line: int)

  function ExprVisits(e: Expr): seq<Visit>
    decreases e, 1
  {
    match e
    case Name(x, ln) => [LoadVisit(x, ln)]
    case Apply(_, args) => ExprsVisits(args)
  }

  function ExprsVisits(es: seq<Expr>): seq<Visit>
    decreases es, 0
  {
    if es == [] then [] else ExprVisits(es[0]) + ExprsVisits(es[1..])
  }

  function TargetVisits(t: Target): seq<Visit>
    decreases t, 1
  {
    match t
    case NameTarget(_) => []
    case TupleTarget(elts) => TargetsVisits(elts)
    case PlaceTarget(_, args) => ExprsVisits(args)
  }

  function TargetsVisits(ts: seq<Target>): seq<Visit>
    decreases ts, 0
  {
    if ts == [] then [] else TargetVisits(ts[0]) + TargetsVisits(ts[1..])
  }

  function StmtVisits(s: Stmt): seq<Visit> {
    match s
    case Assign(ln, ts, v) => [AssignVisit(ln, ts)] + TargetsVisits(ts) + ExprVisits(v)
    case AnnAssign(ln, t, a, v) =>
      [AssignVisit(ln, [t])] + TargetVisits(t) + ExprVisits(a) + (if v.Some? then ExprVisits(v.value) else [])
    case AugAssign(_, _, _, v) => ExprVisits(v)
    case ExprStmt(_, v) => ExprVisits(v)
  }

  function Walk(body: seq<Stmt>): seq<Visit> {
    if body == [] then [] else StmtVisits(body[0]) + Walk(body[1..])
  }

  // ----- the analyser

  /** `_assigned_names`: every name under a store context inside the targets. */
  function AssignedNames(ts: seq<Target>): set<string>
    decreases ts, 0
  {
    if ts == [] then {} else TargetNames(ts[0]) + AssignedNames(ts[1..])
  }

  function TargetNames(t: Target): set<string>
    decreases t, 1
  {
    match t
    case NameTarget(x) => {x}
    case TupleTarget(elts) => AssignedNames(elts)
    case PlaceTarget(_, _) => {}
  }

  ghost predicate ReadIn(vs: seq<Visit>, lo: int, hi: int, x: string) {
    exists v :: v in vs && v.LoadVisit? && lo <= v.line <= hi && v.id == x
  }

  ghost predicate AssignedIn(vs: seq<Visit>, lo: int, hi: int, x: string) {
    exists v :: v in vs && v.AssignVisit? && lo <= v.line <= hi && x in AssignedNames(v.targets)
  }

  ghost predicate AssignedBefore(vs: seq<Visit>, lo: int, x: string) {
    exists v :: v in vs && v.AssignVisit? && v.line < lo && x in AssignedNames(v.targets)
  }

  ghost predicate IsInput(vs: seq<Visit>, lo: int, hi: int, x: string) {
    ReadIn(vs, lo, hi, x) && AssignedBefore(vs, lo, x)
  }

  ghost predicate IsOutput(vs: seq<Visit>, lo: int, hi: int, fnEnd: int, x: string) {
    AssignedIn(vs, lo, hi, x) && ReadIn(vs, hi + 1, fnEnd, x)
  }

  /** `io_contract`. The final restriction to names assigned somewhere removes nothing. */
  method IoContract(vs: seq<Visit>, lo: int, hi: int, fnEnd: int)
    returns (inputs: seq<string>, outputs: seq<string>)
    ensures Ascending(inputs) && forall x :: x in inputs <==> IsInput(vs, lo, hi, x)
    ensures Ascending(outputs) && forall x :: x in outputs <==> IsOutput(vs, lo, hi, fnEnd, x)
  {
    var assignedBefore, assignedIn, readIn, readAfter, allAssigned: set<string> := {}, {}, {}, {}, {};
    for i := 0 to |vs|
      invariant forall x :: x in assignedBefore <==> AssignedBefore(vs[..i], lo, x)
      invariant forall x :: x in assignedIn <==> AssignedIn(vs[..i], lo, hi, x)
      invariant forall x :: x in readIn <==> ReadIn(vs[..i], lo, hi, x)
      invariant forall x :: x in readAfter <==> ReadIn(vs[..i], hi + 1, fnEnd, x)
      invariant assignedBefore + assignedIn <= allAssigned
    {
      assert vs[..i + 1] == vs[..i] + [vs[i]];
      match vs[i] {
        case AssignVisit(ln, ts) =>
          var names := AssignedNames(ts);
          allAssigned := allAssigned + names;
          if ln < lo {
            assignedBefore := assignedBefore + names;
          } else if lo <= ln <= hi {
            assignedIn := assignedIn + names;
          }
        case LoadVisit(x, ln) =>
          if lo <= ln <= hi {
            readIn := readIn + {x};
          } else if hi < ln <= fnEnd {
            readAfter := readAfter + {x};
          }
      }
    }
    assert vs[..|vs|] == vs;
    inputs := Sorted((readIn * assignedBefore) * allAssigned);
    outputs := Sorted((assignedIn * readAfter) * allAssigned);
  }

  /** `reads_after`: for each of the names, the first line after the range that reads it. */
  method ReadsAfter(vs: seq<Visit>, after: int, endOfFn: int, names: set<string>) returns (first: map<string, int>)
    ensures forall x :: x in first <==> x in names && ReadIn(vs, after + 1, endOfFn, x)
    ensures forall x :: x in first ==>
      LoadVisit(x, first[x]) in vs && after < first[x] <= endOfFn && !ReadIn(vs, after + 1, first[x] - 1, x)
  {
    first := map[];
    for i := 0 to |vs|
      invariant forall x :: x in first <==> x in names && ReadIn(vs[..i], after + 1, endOfFn, x)
      invariant forall x :: x in first ==>
        LoadVisit(x, first[x]) in vs[..i] && after < first[x] <= endOfFn && !ReadIn(vs[..i], after + 1, first[x] - 1, x)
    {
      assert vs[..i + 1] == vs[..i] + [vs[i]];
      if vs[i].LoadVisit? && vs[i].id in names {
        var ln := vs[i].line;
        if after < ln <= endOfFn && (vs[i].id !in first || ln < first[vs[i].id]) {
          first := first[vs[i].id := ln];
        }
      }
    }
    assert vs[..|vs|] == vs;
  }

  // ----- what the statements do

  function ExprCode(e: Expr): seq<Instr>
    decreases e, 1
  {
    match e
    case Name(x, _) => [Load(x)]
    case Apply(op, args) => ExprsCode(args) + [Do(op, |args|, 1)]
  }

  function ExprsCode(es: seq<Expr>): seq<Instr>
    decreases es, 0
  {
    if es == [] then [] else ExprCode(es[0]) + ExprsCode(es[1..])
  }

  /** Stores the top of the stack. Unpacking leaves the first element on top. */
  function TargetCode(t: Target): seq<Instr>
    decreases t, 1
  {
    match t
    case NameTarget(x) => [Bind(x)]
    case TupleTarget(elts) => [Do("unpack", 1, |elts|)] + TargetsCode(elts)
    case PlaceTarget(op, args) => ExprsCode(args) + [Do(op, |args| + 1, 0)]
  }

  function TargetsCode(ts: seq<Target>): seq<Instr>
    decreases ts, 0
  {
    if ts == [] then [] else TargetCode(ts[0]) + TargetsCode(ts[1..])
  }

  /** `a = b = e` stores one value in each target, from left to right. */
  function ChainCode(ts: seq<Target>): seq<Instr> {
    if ts == [] then [Drop] else [Dup] + TargetCode(ts[0]) + ChainCode(ts[1..])
  }

  /** An annotation is not evaluated. Without a value a name target does nothing at all. */
  function StmtCode(s: Stmt): seq<Instr> {
    match s
    case Assign(_, ts, v) => ExprCode(v) + ChainCode(ts)
    case AnnAssign(_, t, _, Some(v)) => ExprCode(v) + TargetCode(t)
    case AnnAssign(_, t, _, None) =>
      if t.PlaceTarget? then ExprsCode(t.args) + [Do("discard", |t.args|, 0)] else []
    case AugAssign(_, x, op, v) => [Load(x)] + ExprCode(v) + [Do(op, 2, 1), Bind(x)]
    case ExprStmt(_, v) => ExprCode(v) + [Drop]
  }

  function BodyCode(body: seq<Stmt>): seq<Instr> {
    if body == [] then [] else StmtCode(body[0]) + BodyCode(body[1..])
  }

  predicate NoAugmented(body: seq<Stmt>) { forall s :: s in body ==> !s.AugAssign? }
  predicate AllValued(body: seq<Stmt>) { forall s :: s in body && s.AnnAssign? ==> s.annotated.Some? }
  /** No assignment is a bare copy of another name. */
  predicate NoCopies(body: seq<Stmt>) {
    forall s :: s in body ==>
      && (s.Assign? ==> s.value.Apply?)
      && (s.AnnAssign? && s.annotated.Some? ==> s.annotated.value.Apply?)
  }

  // ----- names of a statement, seen by the walk and used by its code

  ghost predicate Reads(vs: seq<Visit>, x: string) { exists v :: v in vs && v.LoadVisit? && v.id == x }
  ghost predicate Assigns(vs: seq<Visit>, x: string) {
    exists v :: v in vs && v.AssignVisit? && x in AssignedNames(v.targets)
  }

  lemma ReadsAppend(a: seq<Visit>, b: seq<Visit>)
    ensures forall x :: Reads(a + b, x) <==> Reads(a, x) || Reads(b, x)
    ensures forall x :: Assigns(a + b, x) <==> Assigns(a, x) || Assigns(b, x)
  {
  }

  lemma {:induction false} ExprNames(e: Expr)
    ensures Bound(ExprCode(e)) == {} && forall x :: x in Exposed(ExprCode(e)) ==> Reads(ExprVisits(e), x)
    ensures forall x :: !Assigns(ExprVisits(e), x)
    decreases e, 1
  {
    match e
    case Name(x, ln) => assert LoadVisit(x, ln) in ExprVisits(e);
    case Apply(op, args) =>
      ExprsNames(args);
      ExposedAppend(ExprsCode(args), [Do(op, |args|, 1)]);
  }

  lemma {:induction false} ExprsNames(es: seq<Expr>)
    ensures Bound(ExprsCode(es)) == {} && forall x :: x in Exposed(ExprsCode(es)) ==> Reads(ExprsVisits(es), x)
    ensures forall x :: !Assigns(ExprsVisits(es), x)
    decreases es, 0
  {
    if es != [] {
      ExprNames(es[0]);
      ExprsNames(es[1..]);
      ExposedAppend(ExprCode(es[0]), ExprsCode(es[1..]));
      ReadsAppend(ExprVisits(es[0]), ExprsVisits(es[1..]));
    }
  }

  lemma {:induction false} TargetStores(t: Target)
    ensures Bound(TargetCode(t)) == TargetNames(t)
    ensures forall x :: x in Exposed(TargetCode(t)) ==> Reads(TargetVisits(t), x)
    ensures forall x :: !Assigns(TargetVisits(t), x)
    decreases t, 1
  {
    match t
    case NameTarget(x) =>
    case TupleTarget(elts) =>
      TargetsStore(elts);
      ExposedAppend([Do("unpack", 1, |elts|)], TargetsCode(elts));
    case PlaceTarget(op, args) =>
      ExprsNames(args);
      ExposedAppend(ExprsCode(args), [Do(op, |args| + 1, 0)]);
  }

  lemma {:induction false} TargetsStore(ts: seq<Target>)
    ensures Bound(TargetsCode(ts)) == AssignedNames(ts)
    ensures forall x :: x in Exposed(TargetsCode(ts)) ==> Reads(TargetsVisits(ts), x)
    ensures forall x :: !Assigns(TargetsVisits(ts), x)
    decreases ts, 0
  {
    if ts != [] {
      TargetStores(ts[0]);
      TargetsStore(ts[1..]);
      ExposedAppend(TargetCode(ts[0]), TargetsCode(ts[1..]));
      ReadsAppend(TargetVisits(ts[0]), TargetsVisits(ts[1..]));
    }
  }

  lemma {:induction false} ChainStores(ts: seq<Target>)
    ensures Bound(ChainCode(ts)) == AssignedNames(ts)
    ensures forall x :: x in Exposed(ChainCode(ts)) ==> Reads(TargetsVisits(ts), x)
  {
    if ts != [] {
      TargetStores(ts[0]);
      ChainStores(ts[1..]);
      ExposedAppend([Dup] + TargetCode(ts[0]), ChainCode(ts[1..]));
      ExposedAppend([Dup], TargetCode(ts[0]));
      ReadsAppend(TargetVisits(ts[0]), TargetsVisits(ts[1..]));
    }
  }

  /** The walk sees every name a statement may read, unless the statement is augmented, and counts
      as assigned at least the names it binds, with equality when its assignment has a value. */
  lemma StmtNames(s: Stmt)
    requires !s.AugAssign?
    ensures forall x :: x in Exposed(StmtCode(s)) ==> Reads(StmtVisits(s), x)
    ensures forall x :: x in Bound(StmtCode(s)) ==> Assigns(StmtVisits(s), x)
    ensures (s.AnnAssign? ==> s.annotated.Some?) ==>
      forall x :: Assigns(StmtVisits(s), x) ==> x in Bound(StmtCode(s))
  {
    match s
    case Assign(ln, ts, v) =>
      ExprNames(v);
      ChainStores(ts);
      TargetsStore(ts);
      ExposedAppend(ExprCode(v), ChainCode(ts));
      ReadsAppend([AssignVisit(ln, ts)] + TargetsVisits(ts), ExprVisits(v));
      ReadsAppend([AssignVisit(ln, ts)], TargetsVisits(ts));
      assert AssignVisit(ln, ts) in [AssignVisit(ln, ts)];
    case AnnAssign(ln, t, a, v) =>
      AnnNames(s);
    case ExprStmt(_, v) =>
      ExprNames(v);
      ExposedAppend(ExprCode(v), [Drop]);
  }

  lemma HeadAssigns(ln: int, ts: seq<Target>)
    ensures forall x :: Assigns([AssignVisit(ln, ts)], x) <==> x in AssignedNames(ts)
    ensures forall x :: !Reads([AssignVisit(ln, ts)], x)
  {
    assert AssignVisit(ln, ts) in [AssignVisit(ln, ts)];
  }

  lemma NothingVisited()
    ensures forall x :: !Assigns([], x) && !Reads([], x)
  {
  }

  lemma OneOperation(op: string, pops: nat, pushes: nat)
    ensures Exposed([Do(op, pops, pushes)]) == {} && Bound([Do(op, pops, pushes)]) == {}
  {
  }

  lemma NothingRun()
    ensures Exposed([]) == {} && Bound([]) == {}
  {
  }

  lemma AnnNames(s: Stmt)
    requires s.AnnAssign?
    ensures forall x :: x in Exposed(StmtCode(s)) ==> Reads(StmtVisits(s), x)
    ensures forall x :: x in Bound(StmtCode(s)) ==> Assigns(StmtVisits(s), x)
    ensures s.annotated.Some? ==> forall x :: Assigns(StmtVisits(s), x) ==> x in Bound(StmtCode(s))
  {
    hide Reads, Assigns, Exposed, Bound;
    var AnnAssign(ln, t, a, v) := s;
    var head := [AssignVisit(ln, [t])];
    var tail := if v.Some? then ExprVisits(v.value) else [];
    TargetStores(t);
    ExprNames(a);
    ReadsAppend(head + TargetVisits(t) + ExprVisits(a), tail);
    ReadsAppend(head + TargetVisits(t), ExprVisits(a));
    ReadsAppend(head, TargetVisits(t));
    HeadAssigns(ln, [t]);
    NothingVisited();
    NothingRun();
    assert AssignedNames([t]) == TargetNames(t);
    if v.Some? {
      ExprNames(v.value);
      ExposedAppend(ExprCode(v.value), TargetCode(t));
    } else if t.PlaceTarget? {
      ExprsNames(t.args);
      ExposedAppend(ExprsCode(t.args), [Do("discard", |t.args|, 0)]);
      OneOperation("discard", |t.args|, 0);
    }
  }

  lemma {:induction false} BodyNames(body: seq<Stmt>)
    requires NoAugmented(body)
    ensures forall x :: x in Exposed(BodyCode(body)) ==> Reads(Walk(body), x)
    ensures forall x :: x in Bound(BodyCode(body)) ==> Assigns(Walk(body), x)
    ensures AllValued(body) ==> forall x :: Assigns(Walk(body), x) ==> x in Bound(BodyCode(body))
  {
    if body != [] {
      StmtNames(body[0]);
      BodyNames(body[1..]);
      ExposedAppend(StmtCode(body[0]), BodyCode(body[1..]));
      ReadsAppend(StmtVisits(body[0]), Walk(body[1..]));
    }
  }

  lemma {:induction false} WalkAppend(a: seq<Stmt>, b: seq<Stmt>)
    ensures Walk(a + b) == Walk(a) + Walk(b)
  {
    if a == [] {
      assert a + b == b;
    } else {
      assert (a + b)[1..] == a[1..] + b;
      WalkAppend(a[1..], b);
    }
  }

  // ----- the contract of a range

  /** A body cut at statement boundaries: the range is lines lo..hi and splits no statement. */
  datatype Cut = Cut(before: seq<Stmt>, range: seq<Stmt>, after: seq<Stmt>, lo: int, hi: int, fnEnd: int) {
    function Visits(): seq<Visit> { Walk(before + range + after) }
    function Code(): Parts { Parts(BodyCode(before), BodyCode(range), BodyCode(after)) }

    predicate Aligned() {
      && (forall v :: v in Walk(before) ==> v.line < lo)
      && (forall v :: v in Walk(range) ==> lo <= v.line <= hi)
      && (forall v :: v in Walk(after) ==> hi < v.line <= fnEnd)
      && lo <= hi
    }

    /** What the code of the range reads from before it, and what the code after it reads from the
        range, the walk sees as read and assigned; and a name that the walk takes for an input or an
        output has a value when the stage is called or returns, and is not left stale. */
    ghost predicate NamesSuffice() {
      var p := Code();
      && (forall x :: x in Exposed(p.range) && x in Bound(p.before) ==> Reads(Walk(range), x) && Assigns(Walk(before), x))
      && (forall x :: x in Exposed(p.after) && x in Bound(p.range) ==> Assigns(Walk(range), x) && Reads(Walk(after), x))
      && (forall x :: Reads(Walk(range), x) && Assigns(Walk(before), x) ==> x in Bound(p.before) || x in Exposed(p.Whole()))
      && (forall x :: Assigns(Walk(range), x) && Reads(Walk(after), x) ==>
            || x in Bound(p.range)
            || (Reads(Walk(range), x) && Assigns(Walk(before), x))
            || (x in Exposed(p.Whole()) && !(x in Bound(p.before) && x in Exposed(p.after))))
    }

    /** `ins` and `outs` are what `io_contract` reports for the range. */
    ghost predicate Contract(ins: set<string>, outs: set<string>) {
      && (forall x :: x in ins <==> IsInput(Visits(), lo, hi, x))
      && (forall x :: x in outs <==> IsOutput(Visits(), lo, hi, fnEnd, x))
    }
  }

  /** On an aligned cut the line tests of the analyser pick out the three parts. */
  lemma ContractNames(c: Cut)
    requires c.Aligned()
    ensures forall x :: ReadIn(c.Visits(), c.lo, c.hi, x) <==> Reads(Walk(c.range), x)
    ensures forall x :: ReadIn(c.Visits(), c.hi + 1, c.fnEnd, x) <==> Reads(Walk(c.after), x)
    ensures forall x :: AssignedBefore(c.Visits(), c.lo, x) <==> Assigns(Walk(c.before), x)
    ensures forall x :: AssignedIn(c.Visits(), c.lo, c.hi, x) <==> Assigns(Walk(c.range), x)
  {
    WalkAppend(c.before + c.range, c.after);
    WalkAppend(c.before, c.range);
    assert forall v :: v in c.Visits() <==> v in Walk(c.before) || v in Walk(c.range) || v in Walk(c.after);
  }

  lemma ContractFits(c: Cut, ins: set<string>, outs: set<string>)
    requires c.Aligned() && c.Contract(ins, outs)
    requires NoAugmented(c.before + c.range + c.after) && AllValued(c.before + c.range)
    ensures InterfaceFits(c.Code(), ins, outs)
    ensures ins <= Bound(c.Code().before) && outs <= Bound(c.Code().range)
  {
    ContractNames(c);
    assert NoAugmented(c.before) && NoAugmented(c.range) && NoAugmented(c.after) by { CutParts(c); }
    assert AllValued(c.before) && AllValued(c.range) by { CutParts(c); }
    BodyNames(c.before);
    BodyNames(c.range);
    BodyNames(c.after);
  }

  /** The contract of an aligned cut, read off its three parts. */
  lemma ContractOfParts(c: Cut, before: seq<Visit>, range: seq<Visit>, after: seq<Visit>, ins: set<string>, outs: set<string>)
    requires c.Aligned() && before == Walk(c.before) && range == Walk(c.range) && after == Walk(c.after)
    requires forall x :: x in ins <==> Reads(range, x) && Assigns(before, x)
    requires forall x :: x in outs <==> Assigns(range, x) && Reads(after, x)
    ensures c.Contract(ins, outs)
  {
    ContractNames(c);
  }

  lemma CutParts(c: Cut)
    ensures forall s :: s in c.before || s in c.range ==> s in c.before + c.range
    ensures forall s :: s in c.before || s in c.range || s in c.after ==> s in c.before + c.range + c.after
  {
  }

  /** The main claim. For straight-line code whose assignments carry values, the original and the
      staged function behave alike on every entry store and under every meaning of the operations,
      whether or not the run raises. */
  lemma ContractPreservesBehaviour(c: Cut, ins: set<string>, outs: set<string>, m: Meaning, entry: Store, w: World)
    requires c.Aligned() && c.Contract(ins, outs)
    requires NoAugmented(c.before + c.range + c.after) && AllValued(c.before + c.range)
    ensures SameBehaviour(Original(m, c.Code(), entry, w), Staged(m, c.Code(), ins, outs, entry, w))
  {
    var p := c.Code();
    ContractFits(c, ins, outs);
    var d := Exec(m, p.before, Start(entry, w));
    WholeSplits(m, p, Start(entry, w));
    if d.Running? {
      ExecFrame(m, p.before, Start(entry, w));
      StageMirrorsRange(m, p, ins, outs, entry, d);
      ExecAgree(m, p.after, Exec(m, p.range, d), CallStage(m, entry, p.range, ins, outs, d), Exposed(p.after));
    }
  }

  // ----- beyond that fragment: augmented assignments and bare annotations

  /** With augmented assignments or bare annotations the reported contract can be wrong. It is right
      exactly when the names that the walk reads and assigns stand in for those that the code reads
      and binds: a condition on the cut alone. */
  lemma ContractIsRightExactlyWhen(c: Cut, ins: set<string>, outs: set<string>)
    requires c.Aligned() && c.Contract(ins, outs) && NoCopies(c.before + c.range + c.after)
    ensures Preserves(c.Code(), ins, outs) <==> c.NamesSuffice()
  {
    CutParts(c);
    assert NoCopies(c.before) && NoCopies(c.range) && NoCopies(c.after);
    BodyComputes(c.before);
    BodyComputes(c.range);
    BodyComputes(c.after);
    PreservesExactlyWhenItFits(c.Code(), ins, outs);
    ContractFitsExactlyWhen(c, ins, outs);
  }

  lemma ContractFitsExactlyWhen(c: Cut, ins: set<string>, outs: set<string>)
    requires c.Aligned() && c.Contract(ins, outs)
    ensures InterfaceFits(c.Code(), ins, outs) <==> c.NamesSuffice()
  {
    hide Exposed, Bound, Reads, Assigns, Walk, BodyCode;
    ContractNames(c);
    assert forall x :: x in ins <==> Reads(Walk(c.range), x) && Assigns(Walk(c.before), x);
    assert forall x :: x in outs <==> Assigns(Walk(c.range), x) && Reads(Walk(c.after), x);
    var p := c.Code();
    assert Exposed(p.range) * Bound(p.before) <= ins <==> forall x :: x in Exposed(p.range) && x in Bound(p.before) ==> x in ins;
    assert Exposed(p.after) * Bound(p.range) <= outs <==> forall x :: x in Exposed(p.after) && x in Bound(p.range) ==> x in outs;
  }

  lemma {:induction false} ShapeAppend(a: seq<Instr>, b: seq<Instr>, cells: seq<bool>)
    ensures Shape(a + b, cells) == match Shape(a, cells) case None => None case Some(cs) => Shape(b, cs)
    decreases |a|
  {
    if a == [] {
      assert a + b == b;
    } else {
      assert (a + b)[1..] == a[1..] + b;
      match ShapeStep(a[0], cells)
      case None =>
      case Some(cs) => ShapeAppend(a[1..], b, cs);
    }
  }

  lemma {:induction false} ExprShape(e: Expr, cells: seq<bool>)
    ensures Shape(ExprCode(e), cells) == Some(cells + [e.Apply?])
    decreases e, 1
  {
    match e
    case Name(_, _) =>
    case Apply(op, args) =>
      var cs := ExprsShape(args, cells);
      ShapeAppend(ExprsCode(args), [Do(op, |args|, 1)], cells);
      assert (cells + cs)[..|cells|] + seq(1, _ => true) == cells + [true];
  }

  lemma {:induction false} ExprsShape(es: seq<Expr>, cells: seq<bool>) returns (cs: seq<bool>)
    ensures |cs| == |es| && Shape(ExprsCode(es), cells) == Some(cells + cs)
    decreases es, 0
  {
    if es == [] {
      cs := [];
      assert cells + cs == cells;
    } else {
      ExprShape(es[0], cells);
      var rest := ExprsShape(es[1..], cells + [es[0].Apply?]);
      ShapeAppend(ExprCode(es[0]), ExprsCode(es[1..]), cells);
      cs := [es[0].Apply?] + rest;
      assert cells + [es[0].Apply?] + rest == cells + cs;
    }
  }

  lemma {:induction false} TargetShape(t: Target, cells: seq<bool>)
    ensures Shape(TargetCode(t), cells + [true]) == Some(cells)
    decreases t, 1
  {
    var full := cells + [true];
    assert full[..|cells|] == cells;
    match t
    case NameTarget(_) =>
    case TupleTarget(elts) =>
      TargetsShape(elts, cells);
      ShapeAppend([Do("unpack", 1, |elts|)], TargetsCode(elts), full);
    case PlaceTarget(op, args) =>
      var cs := ExprsShape(args, full);
      ShapeAppend(ExprsCode(args), [Do(op, |args| + 1, 0)], full);
      assert (full + cs)[..|cells|] + seq(0, _ => true) == cells;
  }

  lemma {:induction false} TargetsShape(ts: seq<Target>, cells: seq<bool>)
    ensures Shape(TargetsCode(ts), cells + seq(|ts|, _ => true)) == Some(cells)
    decreases ts, 0
  {
    if ts == [] {
      assert cells + seq(0, _ => true) == cells;
    } else {
      var rest := cells + seq(|ts| - 1, _ => true);
      assert cells + seq(|ts|, _ => true) == rest + [true];
      TargetShape(ts[0], rest);
      TargetsShape(ts[1..], cells);
      ShapeAppend(TargetCode(ts[0]), TargetsCode(ts[1..]), rest + [true]);
    }
  }

  lemma {:induction false} ChainShape(ts: seq<Target>)
    ensures Shape(ChainCode(ts), [true]) == Some([])
  {
    if ts != [] {
      TargetShape(ts[0], [true]);
      ChainShape(ts[1..]);
      ShapeAppend([Dup], TargetCode(ts[0]), [true]);
      ShapeAppend([Dup] + TargetCode(ts[0]), ChainCode(ts[1..]), [true]);
    }
  }

  lemma AugComputes(x: string, op: string, v: Expr)
    ensures Computes([Load(x)] + ExprCode(v) + [Do(op, 2, 1), Bind(x)])
  {
    ExprShape(v, [false]);
    assert [Load(x)][1..] == [] && [] + [false] == [false];
    ShapeAppend([Load(x)], ExprCode(v), []);
    ShapeAppend([Load(x)] + ExprCode(v), [Do(op, 2, 1), Bind(x)], []);
    var tail, cells := [Do(op, 2, 1), Bind(x)], [false] + [v.Apply?];
    assert tail[1..] == [Bind(x)] && tail[1..][1..] == [];
    assert cells[..0] + seq(1, _ => true) == [true];
    assert Shape(tail, cells) == Shape(tail[1..], [true]) == Some([]);
  }

  lemma PlaceComputes(args: seq<Expr>)
    ensures Computes(ExprsCode(args) + [Do("discard", |args|, 0)])
  {
    var cs := ExprsShape(args, []);
    var discard := [Do("discard", |args|, 0)];
    ShapeAppend(ExprsCode(args), discard, []);
    assert [] + cs == cs && discard[1..] == [];
    assert cs[..0] + seq(0, _ => true) == [];
    assert Shape(discard, cs) == Shape(discard[1..], []) == Some([]);
  }

  lemma StoreComputes(v: Expr, store: seq<Instr>)
    requires v.Apply? && Shape(store, [true]) == Some([])
    ensures Computes(ExprCode(v) + store)
  {
    ExprShape(v, []);
    assert [] + [true] == [true];
    ShapeAppend(ExprCode(v), store, []);
  }

  lemma StmtComputes(s: Stmt)
    requires s.Assign? ==> s.value.Apply?
    requires s.AnnAssign? && s.annotated.Some? ==> s.annotated.value.Apply?
    ensures Computes(StmtCode(s))
  {
    match s
    case Assign(_, ts, v) =>
      ChainShape(ts);
      StoreComputes(v, ChainCode(ts));
    case AnnAssign(_, t, _, Some(v)) =>
      TargetShape(t, []);
      assert [] + [true] == [true];
      StoreComputes(v, TargetCode(t));
    case AnnAssign(_, t, _, None) =>
      if t.PlaceTarget? { PlaceComputes(t.args); }
    case AugAssign(_, x, op, v) =>
      AugComputes(x, op, v);
    case ExprStmt(_, v) =>
      ExprShape(v, []);
      ShapeAppend(ExprCode(v), [Drop], []);
  }

  lemma {:induction false} BodyComputes(body: seq<Stmt>)
    requires NoCopies(body)
    ensures Computes(BodyCode(body))
  {
    if body != [] {
      assert body[0] in body;
      StmtComputes(body[0]);
      BodyComputes(body[1..]);
      ShapeAppend(StmtCode(body[0]), BodyCode(body[1..]), []);
    }
  }

  const X := "x"
  /** `x = make()` and `use(x)`. */
  function Make(ln: int): Stmt { Assign(ln, [NameTarget(X)], Apply("make", [])) }
  function Use(ln: int): Stmt { ExprStmt(ln, Apply("use", [Name(X, ln)])) }

  function Example(range: Stmt): Cut { Cut([Make(1)], [range], [Use(3)], 2, 2, 3) }

  lemma OneStatement(s: Stmt)
    ensures Walk([s]) == StmtVisits(s) && BodyCode([s]) == StmtCode(s)
  {
    var one := [s];
    assert one[0] == s && one[1..] == [];
    assert Walk(one) == StmtVisits(s) + Walk(one[1..]) == StmtVisits(s);
    assert BodyCode(one) == StmtCode(s) + BodyCode(one[1..]) == StmtCode(s);
  }

  lemma MakeBindsX(ln: int)
    ensures Walk([Make(ln)]) == [AssignVisit(ln, [NameTarget(X)])] && AssignedNames([NameTarget(X)]) == {X}
    ensures X in Bound(BodyCode([Make(ln)]))
  {
    OneStatement(Make(ln));
    assert TargetsVisits([NameTarget(X)]) == TargetVisits(NameTarget(X)) + TargetsVisits([]);
    assert AssignedNames([NameTarget(X)]) == TargetNames(NameTarget(X)) + AssignedNames([]);
    BodyNames([Make(ln)]);
    assert Assigns(Walk([Make(ln)]), X);
  }

  lemma UseReadsX(ln: int)
    ensures Walk([Use(ln)]) == [LoadVisit(X, ln)]
    ensures X in Exposed(BodyCode([Use(ln)]))
  {
    OneStatement(Use(ln));
    var name := Name(X, ln);
    assert ExprsVisits([name]) == ExprVisits(name) + ExprsVisits([]);
    assert ExprsCode([name]) == ExprCode(name) + ExprsCode([]);
    assert BodyCode([Use(ln)])[0] == Load(X);
  }

  lemma OneLoad(id: string, ln: int)
    ensures forall x :: Reads([LoadVisit(id, ln)], x) <==> x == id
    ensures forall x :: !Assigns([LoadVisit(id, ln)], x)
  {
    assert LoadVisit(id, ln) in [LoadVisit(id, ln)];
  }

  /** The visits of the code around the range, and the names they show. */
  lemma Surroundings()
    ensures Walk([Make(1)]) == [AssignVisit(1, [NameTarget(X)])] && Walk([Use(3)]) == [LoadVisit(X, 3)]
    ensures forall x :: Assigns(Walk([Make(1)]), x) <==> x == X
    ensures forall x :: Reads(Walk([Use(3)]), x) <==> x == X
  {
    MakeBindsX(1);
    UseReadsX(3);
    HeadAssigns(1, [NameTarget(X)]);
    OneLoad(X, 3);
  }

  const GROW := AugAssign(2, X, "add", Apply("one", []))

  lemma GrowIsSilent()
    ensures Walk([GROW]) == [] && X in Exposed(BodyCode([GROW]))
  {
    OneStatement(GROW);
    assert StmtCode(GROW)[0] == Load(X);
  }

  lemma AugmentedAssignmentContract()
    ensures Example(GROW).Aligned() && Example(GROW).Contract({}, {})
  {
    hide Walk, Reads, Assigns;
    GrowIsSilent();
    Surroundings();
    NothingVisited();
    ContractOfParts(Example(GROW), Walk([Make(1)]), [], Walk([Use(3)]), {}, {});
  }

  /** `x = make()`, the range `x += 1`, then `use(x)`: nothing is reported, and the cut is wrong. */
  lemma AugmentedAssignmentIsMissed()
    ensures Example(GROW).Aligned() && Example(GROW).Contract({}, {}) && !Preserves(Example(GROW).Code(), {}, {})
  {
    hide Preserves, InterfaceFits, Exposed, Walk, Cut.NamesSuffice;
    AugmentedAssignmentContract();
    GrowIsSilent();
    MakeBindsX(1);
    MissingInput(Example(GROW).Code(), {}, {}, X);
    ContractFitsExactlyWhen(Example(GROW), {}, {});
    ContractIsRightExactlyWhen(Example(GROW), {}, {});
  }

  lemma MissingInput(p: Parts, ins: set<string>, outs: set<string>, x: string)
    requires x in Exposed(p.range) && x in Bound(p.before) && x !in ins
    ensures !InterfaceFits(p, ins, outs)
  {
  }

  const BARE := AnnAssign(2, NameTarget(X), Name("int", 2), None)

  lemma BareVisits()
    ensures Walk([BARE]) == [AssignVisit(2, [NameTarget(X)])] + [LoadVisit("int", 2)]
    ensures forall x :: Assigns(Walk([BARE]), x) <==> x == X
    ensures forall x :: Reads(Walk([BARE]), x) <==> x == "int"
  {
    OneStatement(BARE);
    MakeBindsX(1);
    HeadAssigns(2, [NameTarget(X)]);
    OneLoad("int", 2);
    ReadsAppend([AssignVisit(2, [NameTarget(X)])], [LoadVisit("int", 2)]);
  }

  lemma BareAnnotationContract()
    ensures Example(BARE).Aligned() && Example(BARE).Contract({}, {X})
  {
    hide Walk, Reads, Assigns;
    BareVisits();
    Surroundings();
    ContractOfParts(Example(BARE), Walk([Make(1)]), Walk([BARE]), Walk([Use(3)]), {}, {X});
  }

  lemma BareDoesNothing()
    ensures BodyCode([BARE]) == [] && NoCopies([Make(1)] + [BARE] + [Use(3)])
  {
    OneStatement(BARE);
  }

  lemma StaleOutput(p: Parts, ins: set<string>, outs: set<string>, x: string)
    requires x in outs && x !in ins && x !in Bound(p.range) && x in Bound(p.before) && x in Exposed(p.after)
    ensures !InterfaceFits(p, ins, outs)
  {
  }

  /** `x = make()`, the range `x: int`, then `use(x)`: the reported output has no value to return. */
  lemma BareAnnotationHasNoValue()
    ensures Example(BARE).Aligned() && Example(BARE).Contract({}, {X}) && !Preserves(Example(BARE).Code(), {}, {X})
  {
    hide Preserves, InterfaceFits, Walk, Cut.NamesSuffice;
    BareAnnotationContract();
    BareDoesNothing();
    MakeBindsX(1);
    UseReadsX(3);
    var p := Example(BARE).Code();
    StaleOutput(p, {}, {X}, X);
    ContractFitsExactlyWhen(Example(BARE), {}, {X});
    ContractIsRightExactlyWhen(Example(BARE), {}, {X});
  }
}
