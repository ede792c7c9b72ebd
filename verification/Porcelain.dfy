/** The two parsers of `git status --porcelain=v1 -z` output, in scripts/audit_worktree_ownership.py
    and scripts/inventory_evidence_archive.py. */
module Porcelain {
  import opened Prelude

  const NUL := '\0'

  /** A status record. Renames and copies carry the original path as a second entry. */
  datatype Record = Record(status: string, path: string, original: Option<string>)

  predicate IsMove(status: string) { 'R' in status || 'C' in status }

  predicate WellFormed(r: Record) {
    && |r.status| == 2 && NUL !in r.status && NUL !in r.path
    && (r.original.Some? <==> IsMove(r.status))
    && (r.original.Some? ==> NUL !in r.original.value)
  }

  /** What git writes. */
  function Rendered(rs: seq<Record>): string {
    if rs == [] then ""
    else
      var r := rs[0];
      r.status + " " + r.path + [NUL]
      + (if r.original.Some? then r.original.value + [NUL] else "")
      + Rendered(rs[1..])
  }

  /** Python's `text.split("\0")`. */
  function Split(text: string): (pieces: seq<string>)
    ensures pieces != []
  {
    if text == "" then [""]
    else
      var rest := Split(text[1..]);
      if text[0] == NUL then [""] + rest else [[text[0]] + rest[0]] + rest[1..]
  }

  /** Python's slices, which clip. */
  function Take(s: string, n: nat): string { if |s| <= n then s else s[..n] }
  function Skip(s: string, n: nat): string { if |s| <= n then "" else s[n..] }

  /** The records that the entries from `i` on stand for; a move at the very end lacks its original. */
  function RecordsFrom(entries: seq<string>, i: nat): seq<Record>
    decreases |entries| - i
  {
    if i >= |entries| then []
    else if entries[i] == "" then RecordsFrom(entries, i + 1)
    else
      var status, path := Take(entries[i], 2), Skip(entries[i], 3);
      if !IsMove(status) then [Record(status, path, None)] + RecordsFrom(entries, i + 1)
      else
        [Record(status, path, if i + 1 < |entries| then Some(entries[i + 1]) else None)] + RecordsFrom(entries, i + 2)
  }

  lemma RecordsShift(before: seq<string>, entries: seq<string>, i: nat)
    ensures RecordsFrom(before + entries, |before| + i) == RecordsFrom(entries, i)
  {
    ShiftInto(before + entries, entries, |before|, i);
  }

  lemma {:induction false} ShiftInto(all: seq<string>, entries: seq<string>, offset: nat, i: nat)
    requires |all| == offset + |entries| && forall k :: 0 <= k < |entries| ==> entries[k] == all[offset + k]
    ensures RecordsFrom(all, offset + i) == RecordsFrom(entries, i)
    decreases |entries| - i
  {
    hide Take, Skip, IsMove;
    var j := offset + i;
    if i < |entries| {
      assert all[j] == entries[i];
      if entries[i] == "" || !IsMove(Take(entries[i], 2)) {
        ShiftInto(all, entries, offset, i + 1);
      } else {
        assert i + 1 < |entries| ==> entries[i + 1] == all[j + 1];
        ShiftInto(all, entries, offset, i + 2);
      }
    }
  }

  lemma {:induction false} SplitPiece(piece: string, rest: string)
    requires NUL !in piece
    ensures Split(piece + [NUL] + rest) == [piece] + Split(rest)
  {
    var text := piece + [NUL] + rest;
    if piece == "" {
      assert text[1..] == rest;
    } else {
      assert text[1..] == piece[1..] + [NUL] + rest;
      SplitPiece(piece[1..], rest);
      assert [piece[0]] + piece[1..] == piece;
    }
  }

  function Entry(r: Record): string { r.status + " " + r.path }

  lemma EntryParts(r: Record)
    requires WellFormed(r)
    ensures Take(Entry(r), 2) == r.status && Skip(Entry(r), 3) == r.path && NUL !in Entry(r) && Entry(r) != ""
  {
    assert Entry(r)[..2] == r.status && Entry(r)[3..] == r.path;
  }

  lemma ParsePlain(r: Record, tail: string)
    requires WellFormed(r) && r.original.None?
    ensures RecordsFrom(Split(Entry(r) + [NUL] + tail), 0) == [r] + RecordsFrom(Split(tail), 0)
  {
    EntryParts(r);
    SplitPiece(Entry(r), tail);
    RecordsShift([Entry(r)], Split(tail), 0);
  }

  lemma FirstMove(entries: seq<string>, r: Record)
    requires WellFormed(r) && r.original.Some? && |entries| >= 2
    requires entries[0] == Entry(r) && entries[1] == r.original.value
    ensures RecordsFrom(entries, 0) == [r] + RecordsFrom(entries, 2)
  {
    EntryParts(r);
    hide Take, Skip, Entry;
  }

  lemma ParseMove(r: Record, tail: string)
    requires WellFormed(r) && r.original.Some?
    ensures RecordsFrom(Split(Entry(r) + [NUL] + (r.original.value + [NUL] + tail)), 0) == [r] + RecordsFrom(Split(tail), 0)
  {
    EntryParts(r);
    hide RecordsFrom, Split, Entry, Take, Skip;
    SplitPiece(Entry(r), r.original.value + [NUL] + tail);
    SplitPiece(r.original.value, tail);
    var two := [Entry(r), r.original.value];
    assert [Entry(r)] + ([r.original.value] + Split(tail)) == two + Split(tail);
    FirstMove(two + Split(tail), r);
    RecordsShift(two, Split(tail), 0);
  }

  /** Parsing what git writes gives exactly the records it was written from. */
  lemma {:induction false} ParsingUndoesRendering(rs: seq<Record>)
    requires forall r :: r in rs ==> WellFormed(r)
    ensures RecordsFrom(Split(Rendered(rs)), 0) == rs
  {
    if rs == [] {
      assert Split("") == [""];
      assert RecordsFrom([""], 0) == RecordsFrom([""], 1);
    } else {
      var r, tail := rs[0], Rendered(rs[1..]);
      assert WellFormed(r);
      ParsingUndoesRendering(rs[1..]);
      if r.original.Some? {
        ParseMove(r, tail);
        assert Rendered(rs) == Entry(r) + [NUL] + (r.original.value + [NUL] + tail);
      } else {
        ParsePlain(r, tail);
        assert Rendered(rs) == Entry(r) + [NUL] + tail;
      }
      assert rs == [r] + rs[1..];
    }
  }

  // ----- what the loop over the entries sees

  /** The record in entry `i`: two characters of status, the path after the fourth, and for a move
      the next entry, if there is one. */
  predicate RecordAt(entries: seq<string>, r: Record, i: nat) {
    && i < |entries| && entries[i] != ""
    && r.status <= entries[i] && |r.status| == (if |entries[i]| < 2 then |entries[i]| else 2)
    && r.path == (if |entries[i]| < 3 then "" else entries[i][3..])
    && r.original == if IsMove(r.status) && i + 1 < |entries| then Some(entries[i + 1]) else None
  }

  /** Entry `i` is the original path of record `k`, and of any of them. */
  predicate IsOriginalOf(records: seq<Record>, at: seq<nat>, i: nat, k: nat) {
    k < |at| == |records| && at[k] == i - 1 && IsMove(records[k].status)
  }

  ghost predicate IsOriginal(records: seq<Record>, at: seq<nat>, i: nat) { exists k: nat :: IsOriginalOf(records, at, i, k) }

  /** The records are read, in order, from the entries at the positions `at`, all of them from `start`
      on; every other entry there is empty or the original path of the record before it, and no
      record is read from such a path. */
  ghost predicate ReadFrom(entries: seq<string>, start: nat, records: seq<Record>, at: seq<nat>) {
    && |at| == |records|
    && (forall k :: 0 <= k < |at| ==> start <= at[k] && RecordAt(entries, records[k], at[k]))
    && (forall j, k :: 0 <= j < k < |at| ==> at[j] < at[k])
    && (forall k :: 0 <= k < |at| ==> !IsOriginal(records, at, at[k]))
    && (forall i: nat :: start <= i < |entries| && entries[i] != "" ==> i in at || IsOriginal(records, at, i))
  }

  lemma SkipEmpty(entries: seq<string>, start: nat, records: seq<Record>, at: seq<nat>)
    requires ReadFrom(entries, start + 1, records, at) && start < |entries| && entries[start] == ""
    ensures ReadFrom(entries, start, records, at)
  {
    hide RecordAt, IsOriginal;
  }

  lemma ShiftedOriginal(r: Record, start: nat, records: seq<Record>, at: seq<nat>, i: nat, k: nat)
    requires |at| == |records|
    ensures IsOriginalOf([r] + records, [start] + at, i, k + 1) <==> IsOriginalOf(records, at, i, k)
    ensures IsOriginalOf([r] + records, [start] + at, i, 0) <==> start == i - 1 && IsMove(r.status)
  {
    hide IsMove;
  }

  lemma OriginalsAfter(r: Record, start: nat, records: seq<Record>, at: seq<nat>, i: nat)
    requires |at| == |records|
    ensures IsOriginal([r] + records, [start] + at, i) <==> (start == i - 1 && IsMove(r.status)) || IsOriginal(records, at, i)
  {
    hide IsMove, IsOriginalOf;
    ShiftedOriginal(r, start, records, at, i, 0);
    if k: nat :| IsOriginalOf([r] + records, [start] + at, i, k) {
      if k > 0 { ShiftedOriginal(r, start, records, at, i, k - 1); }
    }
    if k: nat :| IsOriginalOf(records, at, i, k) {
      ShiftedOriginal(r, start, records, at, i, k);
    }
  }

  lemma NotEarlier(entries: seq<string>, start: nat, records: seq<Record>, at: seq<nat>, i: nat)
    requires ReadFrom(entries, start, records, at) && i <= start
    ensures !IsOriginal(records, at, i)
  {
    hide RecordAt, IsMove;
  }

  lemma OneMoreRecord(entries: seq<string>, start: nat, r: Record, next: nat, records: seq<Record>, at: seq<nat>)
    requires RecordAt(entries, r, start) && next == start + (if IsMove(r.status) then 2 else 1)
    requires ReadFrom(entries, next, records, at)
    ensures ReadFrom(entries, start, [r] + records, [start] + at)
  {
    hide RecordAt, IsMove, IsOriginal;
    var rs, ps := [r] + records, [start] + at;
    forall i: nat ensures IsOriginal(rs, ps, i) <==> (start == i - 1 && IsMove(r.status)) || IsOriginal(records, at, i) {
      OriginalsAfter(r, start, records, at, i);
    }
    NotEarlier(entries, next, records, at, start);
    assert ps[0] == start && rs[0] == r && |ps| == |rs|;
    forall k | 0 <= k < |ps| ensures start <= ps[k] && RecordAt(entries, rs[k], ps[k]) && !IsOriginal(rs, ps, ps[k]) {
      if k > 0 { assert ps[k] == at[k - 1] && rs[k] == records[k - 1]; }
    }
    forall j, k | 0 <= j < k < |ps| ensures ps[j] < ps[k] {
      assert ps[k] == at[k - 1];
      if j > 0 { assert ps[j] == at[j - 1]; }
    }
    forall i: nat | start <= i < |entries| && entries[i] != "" ensures i in ps || IsOriginal(rs, ps, i) {
      if i >= next && i in at {
        var k :| 0 <= k < |at| && at[k] == i;
        assert ps[k + 1] == i;
      }
    }
  }

  /** Whatever the entries are, the records are read from them in this way. */
  lemma {:induction false} RecordsAreRead(entries: seq<string>, start: nat) returns (at: seq<nat>)
    ensures ReadFrom(entries, start, RecordsFrom(entries, start), at)
    decreases |entries| - start
  {
    hide ReadFrom, IsMove, RecordAt;
    if start >= |entries| {
      at := [];
      NothingRead(entries, start);
    } else if entries[start] == "" {
      at := RecordsAreRead(entries, start + 1);
      SkipEmpty(entries, start, RecordsFrom(entries, start + 1), at);
    } else {
      var r := RecordsFrom(entries, start)[0];
      var next := start + (if IsMove(r.status) then 2 else 1);
      FirstRecord(entries, start);
      at := RecordsAreRead(entries, next);
      OneMoreRecord(entries, start, r, next, RecordsFrom(entries, next), at);
      at := [start] + at;
    }
  }

  lemma NothingRead(entries: seq<string>, start: nat)
    requires start >= |entries|
    ensures ReadFrom(entries, start, [], [])
  {
  }

  lemma FirstRecord(entries: seq<string>, start: nat)
    requires start < |entries| && entries[start] != ""
    ensures RecordsFrom(entries, start) != [] && RecordAt(entries, RecordsFrom(entries, start)[0], start)
  {
  }

  // ----- the parser of the audit script

  /** A row of the audit: what is known of a path is worked out from its status and its path, by
      rules and by looking at the file. */
  datatype Row = Row(status: string, path: string, columns: map<string, string>)

  type Describe = (string, string) -> map<string, string>

  function Slashed(path: string): string {
    if path == "" then "" else [if path[0] == '\\' then '/' else path[0]] + Slashed(path[1..])
  }

  function StripSlashes(path: string): string
    decreases |path|
  {
    if path != "" && path[|path| - 1] == '/' then StripSlashes(path[..|path| - 1]) else path
  }

  function ShownPath(r: Record): string {
    if r.original.Some? then r.original.value + " -> " + r.path else r.path
  }

  /** The rows of one record: its own, or those of the scratch directory. */
  function RowsOf(r: Record, describe: Describe, scratchpad: seq<Row>): seq<Row> {
    RowsShown(r.status, ShownPath(r), describe, scratchpad)
  }

  function RowsShown(status: string, path: string, describe: Describe, scratchpad: seq<Row>): seq<Row> {
    if StripSlashes(Slashed(path)) == "scratchpad" then scratchpad
    else [Row(status, path, describe(status, path))]
  }

  function AllRows(rs: seq<Record>, describe: Describe, scratchpad: seq<Row>): seq<Row> {
    if rs == [] then [] else RowsOf(rs[0], describe, scratchpad) + AllRows(rs[1..], describe, scratchpad)
  }

  lemma {:induction false} SlashedChars(path: string)
    ensures |Slashed(path)| == |path|
    ensures forall k :: 0 <= k < |path| ==> Slashed(path)[k] == if path[k] == '\\' then '/' else path[k]
  {
    if path != "" { SlashedChars(path[1..]); }
  }

  lemma {:induction false} StrippedSlashes(path: string)
    ensures StripSlashes(path) <= path
    ensures forall k :: |StripSlashes(path)| <= k < |path| ==> path[k] == '/'
    ensures StripSlashes(path) != "" ==> StripSlashes(path)[|StripSlashes(path)| - 1] != '/'
    decreases |path|
  {
    if path != "" && path[|path| - 1] == '/' { StrippedSlashes(path[..|path| - 1]); }
  }

  const SCRATCH := "scratchpad"

  /** The name of the scratch directory, and nothing after it but slashes of either kind. */
  predicate IsScratch(path: string) {
    && SCRATCH <= path && forall k :: |SCRATCH| <= k < |path| ==> path[k] == '/' || path[k] == '\\'
  }

  /** Slashes after a name that ends in none are all that is stripped. */
  lemma {:induction false} NameIsLeft(path: string, name: string)
    requires name <= path && name != "" && name[|name| - 1] != '/'
    requires forall k :: |name| <= k < |path| ==> path[k] == '/'
    ensures StripSlashes(path) == name
    decreases |path|
  {
    if |path| == |name| {
      assert path == name;
    } else {
      NameIsLeft(path[..|path| - 1], name);
    }
  }

  lemma ScratchExactlyWhen(path: string)
    ensures StripSlashes(Slashed(path)) == SCRATCH <==> IsScratch(path)
  {
    SlashedChars(path);
    StrippedSlashes(Slashed(path));
    assert forall k :: 0 <= k < |SCRATCH| ==> SCRATCH[k] != '/' && SCRATCH[k] != '\\';
    if IsScratch(path) {
      assert forall k :: 0 <= k < |SCRATCH| ==> path[k] == SCRATCH[k];
      assert SCRATCH <= Slashed(path);
      NameIsLeft(Slashed(path), SCRATCH);
    }
    if StripSlashes(Slashed(path)) == SCRATCH {
      assert forall k :: 0 <= k < |SCRATCH| ==> Slashed(path)[k] == SCRATCH[k];
      assert path[..|SCRATCH|] == SCRATCH;
    }
  }

  /** A record is shown as one row, with its path, after the original path and an arrow if it is a
      move; unless what is shown is the scratch directory, which is shown as its own rows. */
  lemma RecordIsShown(r: Record, describe: Describe, scratchpad: seq<Row>)
    ensures var shown := match r.original case None => r.path case Some(original) => original + " -> " + r.path;
      RowsOf(r, describe, scratchpad) ==
        if IsScratch(shown) then scratchpad else [Row(r.status, shown, describe(r.status, shown))]
  {
    ScratchExactlyWhen(ShownPath(r));
  }

  /** The record loop of `_status_rows`. */
  method StatusRows(entries: seq<string>, describe: Describe, scratchpad: seq<Row>) returns (rows: seq<Row>)
    ensures rows == AllRows(RecordsFrom(entries, 0), describe, scratchpad)
  {
    rows := [];
    var index := 0;
    while index < |entries|
      invariant 0 <= index <= |entries|
      invariant rows + AllRows(RecordsFrom(entries, index), describe, scratchpad) == AllRows(RecordsFrom(entries, 0), describe, scratchpad)
    {
      ghost var start := index;
      var entry := entries[index];
      index := index + 1;
      if entry == "" {
        continue;
      }
      var status, path := Take(entry, 2), Skip(entry, 3);
      ghost var record := Record(status, path, None);
      if IsMove(status) {
        if index < |entries| {
          var original := entries[index];
          index := index + 1;
          record := record.(original := Some(original));
          path := original + " -> " + path;
        }
      }
      assert RecordsFrom(entries, start) == [record] + RecordsFrom(entries, index);
      assert path == ShownPath(record);
      AddRows(rows, record, RecordsFrom(entries, index), describe, scratchpad);
      rows := rows + RowsShown(status, path, describe, scratchpad);
    }
  }

  lemma AddRows(rows: seq<Row>, r: Record, rs: seq<Record>, describe: Describe, scratchpad: seq<Row>)
    ensures rows + RowsOf(r, describe, scratchpad) + AllRows(rs, describe, scratchpad) == rows + AllRows([r] + rs, describe, scratchpad)
  {
    assert ([r] + rs)[1..] == rs;
    assert rows + RowsOf(r, describe, scratchpad) + AllRows(rs, describe, scratchpad) == rows + (RowsOf(r, describe, scratchpad) + AllRows(rs, describe, scratchpad));
  }

  // ----- the parser of the archive script

  /** Later records overwrite earlier ones of the same path. */
  function Overlay(statuses: map<string, string>, rs: seq<Record>): map<string, string>
    decreases |rs|
  {
    if rs == [] then statuses else Overlay(statuses[Slashed(rs[0].path) := rs[0].status], rs[1..])
  }

  /** `_git_status`: it steps over the original path without looking at it, and maps the paths of
      the same records that the other parser sees. */
  method GitStatus(entries: seq<string>) returns (statuses: map<string, string>)
    ensures statuses == Overlay(map[], RecordsFrom(entries, 0))
  {
    statuses := map[];
    var index := 0;
    while index < |entries|
      invariant 0 <= index
      invariant Overlay(statuses, RecordsFrom(entries, index)) == Overlay(map[], RecordsFrom(entries, 0))
      decreases |entries| - index
    {
      ghost var start := index;
      var entry := entries[index];
      index := index + 1;
      if entry == "" {
        continue;
      }
      var status, path := Take(entry, 2), Skip(entry, 3);
      ghost var original := if IsMove(status) && index < |entries| then Some(entries[index]) else None;
      if IsMove(status) {
        index := index + 1;
      }
      assert RecordsFrom(entries, start) == [Record(status, path, original)] + RecordsFrom(entries, index);
      FirstStatus(statuses, Record(status, path, original), RecordsFrom(entries, index));
      statuses := statuses[Slashed(path) := status];
    }
    assert RecordsFrom(entries, index) == [];
  }

  lemma FirstStatus(statuses: map<string, string>, r: Record, rs: seq<Record>)
    ensures Overlay(statuses, [r] + rs) == Overlay(statuses[Slashed(r.path) := r.status], rs)
  {
    assert ([r] + rs)[1..] == rs;
  }

  /** The record that decides the status of a path. */
  ghost predicate LastFor(rs: seq<Record>, p: string, k: nat) {
    k < |rs| && Slashed(rs[k].path) == p && forall j :: k < j < |rs| ==> Slashed(rs[j].path) != p
  }

  /** A path is mapped exactly when some record has it, and then to the status of the last one. */
  lemma {:induction false} OverlayKeepsLast(statuses: map<string, string>, rs: seq<Record>, p: string)
    ensures p in Overlay(statuses, rs) <==> p in statuses || exists k: nat :: LastFor(rs, p, k)
    ensures forall k: nat :: LastFor(rs, p, k) ==> p in Overlay(statuses, rs) && Overlay(statuses, rs)[p] == rs[k].status
    ensures p in statuses && (forall k: nat :: !LastFor(rs, p, k)) ==> Overlay(statuses, rs)[p] == statuses[p]
    decreases |rs|
  {
    if rs != [] {
      var tail := rs[1..];
      OverlayKeepsLast(statuses[Slashed(rs[0].path) := rs[0].status], tail, p);
      forall k: nat | LastFor(tail, p, k) ensures LastFor(rs, p, k + 1) {}
      forall k: nat | LastFor(rs, p, k) && k > 0 ensures LastFor(tail, p, k - 1) {
        forall j | k - 1 < j < |tail| ensures Slashed(tail[j].path) != p { assert tail[j] == rs[j + 1]; }
      }
      if Slashed(rs[0].path) == p && forall k: nat :: !LastFor(tail, p, k) {
        NoneIsLast(tail, p);
        assert LastFor(rs, p, 0);
      }
    }
  }

  lemma NoneIsLast(rs: seq<Record>, p: string)
    requires forall k: nat :: !LastFor(rs, p, k)
    ensures forall j :: 0 <= j < |rs| ==> Slashed(rs[j].path) != p
  {
    var k := |rs|;
    while k > 0
      invariant 0 <= k <= |rs|
      invariant forall j :: k <= j < |rs| ==> Slashed(rs[j].path) != p
    {
      k := k - 1;
      assert !LastFor(rs, p, k);
    }
  }
}
