/** The card-number scanner of scripts/scan_no_pan.py: the two regular expressions as hand-written
    matchers, left-to-right scanning, and the filters behind `find_pans_in_text`. */
module PanScanner {
  import opened Prelude
  import Luhn

  predicate IsDigit(c: char) { '0' <= c <= '9' }
  predicate IsHex(c: char) { IsDigit(c) || 'a' <= c <= 'f' || 'A' <= c <= 'F' }
  predicate IsWord(c: char) { IsDigit(c) || 'a' <= c <= 'z' || 'A' <= c <= 'Z' || c == '_' }
  predicate IsGap(c: char) { c == ' ' || c == '-' }

  predicate AllFrom(t: string, i: nat, e: nat, p: char -> bool) {
    i <= e <= |t| && forall k :: i <= k < e ==> p(t[k])
  }

  // ----- the candidate expression, as a relation on positions

  predicate Contiguous(t: string, i: nat, e: nat) { AllFrom(t, i, e, IsDigit) && 13 <= e - i <= 19 }

  /** 4-4-4-4. */
  predicate FourByFour(t: string, i: nat, e: nat) {
    && e == i + 19 <= |t|
    && AllFrom(t, i, i + 4, IsDigit) && IsGap(t[i + 4])
    && AllFrom(t, i + 5, i + 9, IsDigit) && IsGap(t[i + 9])
    && AllFrom(t, i + 10, i + 14, IsDigit) && IsGap(t[i + 14])
    && AllFrom(t, i + 15, i + 19, IsDigit)
  }

  /** 4-6-5. */
  predicate FourSixFive(t: string, i: nat, e: nat) {
    && e == i + 17 <= |t|
    && AllFrom(t, i, i + 4, IsDigit) && IsGap(t[i + 4])
    && AllFrom(t, i + 5, i + 11, IsDigit) && IsGap(t[i + 11])
    && AllFrom(t, i + 12, i + 17, IsDigit)
  }

  predicate NoneBefore(t: string, i: nat, p: char -> bool) { i == 0 || (i <= |t| && !p(t[i - 1])) }
  predicate NoneAfter(t: string, e: nat, p: char -> bool) { e >= |t| || !p(t[e]) }

  predicate CandidateAt(t: string, i: nat, e: nat) {
    && NoneBefore(t, i, IsDigit) && NoneAfter(t, e, IsDigit)
    && (Contiguous(t, i, e) || FourByFour(t, i, e) || FourSixFive(t, i, e))
  }

  /** A complete token of 40 or 64 hexadecimal digits. */
  predicate DigestAt(t: string, i: nat, e: nat) {
    && NoneBefore(t, i, IsWord) && NoneAfter(t, e, IsWord)
    && AllFrom(t, i, e, IsHex) && (e - i == 40 || e - i == 64)
  }

  // ----- matchers

  /** Length of the run of digits at a position. */
  function Run(t: string, i: nat): (n: nat)
    requires i <= |t|
    ensures i + n <= |t| && AllFrom(t, i, i + n, IsDigit) && NoneAfter(t, i + n, IsDigit)
    decreases |t| - i
  {
    if i < |t| && IsDigit(t[i]) then 1 + Run(t, i + 1) else 0
  }

  /** The end of the match at `i`. The look-ahead makes the greedy run match whole or not at all. */
  function CandidateEnd(t: string, i: nat): (r: Option<nat>)
    requires i <= |t|
    ensures r.Some? ==> CandidateAt(t, i, r.value)
    ensures r.None? ==> forall e: nat :: !CandidateAt(t, i, e)
  {
    if !NoneBefore(t, i, IsDigit) then None
    else
      var n := Run(t, i);
      if 13 <= n <= 19 then Some(i + n)
      else
        assert forall e: nat :: !(NoneAfter(t, e, IsDigit) && Contiguous(t, i, e)) by { RunIsTheOnlyContiguous(t, i, n); }
        if FourByFour(t, i, i + 19) && NoneAfter(t, i + 19, IsDigit) then Some(i + 19)
        else if FourSixFive(t, i, i + 17) && NoneAfter(t, i + 17, IsDigit) then Some(i + 17)
        else None
  }

  lemma RunIsTheOnlyContiguous(t: string, i: nat, n: nat)
    requires i + n <= |t| && AllFrom(t, i, i + n, IsDigit) && NoneAfter(t, i + n, IsDigit) && !(13 <= n <= 19)
    ensures forall e: nat :: !(NoneAfter(t, e, IsDigit) && Contiguous(t, i, e))
  {
    forall e: nat ensures !(NoneAfter(t, e, IsDigit) && Contiguous(t, i, e)) {
      if i <= e < i + n { assert IsDigit(t[e]); }
    }
  }

  function DigestEnd(t: string, i: nat): (r: Option<nat>)
    requires i <= |t|
    ensures r.Some? ==> DigestAt(t, i, r.value)
    ensures r.None? ==> forall e: nat :: !DigestAt(t, i, e)
  {
    if DigestAt(t, i, i + 40) then Some(i + 40)
    else if DigestAt(t, i, i + 64) then Some(i + 64)
    else None
  }

  // ----- scanning

  datatype Span = Span(start: nat, end: nat)
  datatype Pattern = Candidate | Digest

  function MatchEnd(p: Pattern, t: string, i: nat): (r: Option<nat>)
    requires i <= |t|
    ensures r.Some? ==> i < r.value <= |t|
  {
    match p
    case Candidate => CandidateEnd(t, i)
    case Digest => DigestEnd(t, i)
  }

  /** `finditer`: leftmost matches, each search resuming where the last match ended. */
  function FindFrom(p: Pattern, t: string, pos: nat): seq<Span>
    requires pos <= |t|
    decreases |t| - pos
  {
    match MatchEnd(p, t, pos)
    case Some(e) => [Span(pos, e)] + FindFrom(p, t, e)
    case None => if pos == |t| then [] else FindFrom(p, t, pos + 1)
  }

  /** Spans in order, without overlap. */
  ghost predicate Ordered(spans: seq<Span>, lo: nat, hi: nat) {
    && (forall i :: 0 <= i < |spans| ==> lo <= spans[i].start < spans[i].end <= hi)
    && (forall i, j :: 0 <= i < j < |spans| ==> spans[i].end <= spans[j].start)
  }

  lemma {:induction false} FoundInOrder(p: Pattern, t: string, pos: nat)
    requires pos <= |t|
    ensures Ordered(FindFrom(p, t, pos), pos, |t|)
    decreases |t| - pos
  {
    match MatchEnd(p, t, pos)
    case Some(e) => FoundInOrder(p, t, e);
    case None => if pos < |t| { FoundInOrder(p, t, pos + 1); }
  }

  lemma {:induction false} FoundAreMatches(p: Pattern, t: string, pos: nat, s: Span)
    requires pos <= |t| && s in FindFrom(p, t, pos)
    ensures s.start <= |t| && MatchEnd(p, t, s.start) == Some(s.end)
    decreases |t| - pos
  {
    match MatchEnd(p, t, pos)
    case Some(e) => if s != Span(pos, e) { FoundAreMatches(p, t, e, s); }
    case None => if pos < |t| { FoundAreMatches(p, t, pos + 1, s); }
  }

  // ----- contiguous runs

  /** A maximal run of digits. */
  predicate MaximalRun(t: string, a: nat, b: nat) {
    a < b && AllFrom(t, a, b, IsDigit) && NoneBefore(t, a, IsDigit) && NoneAfter(t, b, IsDigit)
  }

  /** A match that overlaps a run of more than six digits is that run. */
  lemma OverlapIsWhole(t: string, i: nat, e: nat, a: nat, b: nat)
    requires CandidateAt(t, i, e) && MaximalRun(t, a, b) && b - a > 6 && i < b && a < e
    ensures i == a && e == b
  {
  }

  lemma {:induction false} RunIsFoundFrom(t: string, pos: nat, a: nat, b: nat)
    requires pos <= a && MaximalRun(t, a, b) && 13 <= b - a <= 19
    ensures Span(a, b) in FindFrom(Candidate, t, pos)
    decreases a - pos
  {
    assert CandidateAt(t, a, b);
    match MatchEnd(Candidate, t, pos)
    case Some(e) =>
      if a < e {
        OverlapIsWhole(t, pos, e, a, b);
      } else {
        RunIsFoundFrom(t, e, a, b);
      }
    case None =>
      RunIsFoundFrom(t, pos + 1, a, b);
  }

  /** Every maximal run of 13 to 19 digits is found, exactly once; no other match overlaps it; and
      nothing overlaps a run of any other length above six. */
  lemma RunsAreFoundExactly(t: string, a: nat, b: nat)
    requires MaximalRun(t, a, b) && b - a > 6
    ensures Span(a, b) in FindFrom(Candidate, t, 0) <==> 13 <= b - a <= 19
    ensures forall s :: s in FindFrom(Candidate, t, 0) && s.start < b && a < s.end ==> s == Span(a, b)
    ensures forall i, j :: 0 <= i < j < |FindFrom(Candidate, t, 0)| ==>
      FindFrom(Candidate, t, 0)[i] != FindFrom(Candidate, t, 0)[j]
  {
    FoundInOrder(Candidate, t, 0);
    forall s | s in FindFrom(Candidate, t, 0) && s.start < b && a < s.end
      ensures s == Span(a, b)
    {
      FoundAreMatches(Candidate, t, 0, s);
      OverlapIsWhole(t, s.start, s.end, a, b);
    }
    if 13 <= b - a <= 19 {
      RunIsFoundFrom(t, 0, a, b);
    }
    if Span(a, b) in FindFrom(Candidate, t, 0) {
      FoundAreMatches(Candidate, t, 0, Span(a, b));
      assert CandidateAt(t, a, b) && IsDigit(t[a + 4]);
    }
  }

  // ----- grouped numbers

  /** A position starts at most one candidate. */
  lemma CandidateIsTheOnlyOne(t: string, i: nat, e: nat)
    requires CandidateAt(t, i, e)
    ensures i < e <= |t| && CandidateEnd(t, i) == Some(e)
  {
    var found := CandidateEnd(t, i).value;
    assert CandidateAt(t, i, found);
    SameShape(t, i, e, found);
  }

  lemma SameShape(t: string, i: nat, e: nat, f: nat)
    requires CandidateAt(t, i, e) && CandidateAt(t, i, f)
    ensures e == f
  {
    if Contiguous(t, i, e) {
      assert IsDigit(t[i + 4]);
    } else if FourByFour(t, i, e) {
      assert IsGap(t[i + 9]);
    }
  }

  ghost predicate Crosses(s: Span, a: nat) { s.start < a < s.end }

  lemma {:induction false} FoundUnlessCrossed(p: Pattern, t: string, pos: nat, a: nat, b: nat)
    requires pos <= a <= |t| && MatchEnd(p, t, a) == Some(b)
    requires forall s :: s in FindFrom(p, t, pos) ==> !Crosses(s, a)
    ensures Span(a, b) in FindFrom(p, t, pos)
    decreases a - pos
  {
    match MatchEnd(p, t, pos)
    case Some(e) =>
      assert Span(pos, e) in FindFrom(p, t, pos);
      if pos < a {
        assert !Crosses(Span(pos, e), a);
        FoundUnlessCrossed(p, t, e, a, b);
      }
    case None =>
      FoundUnlessCrossed(p, t, pos + 1, a, b);
  }

  /** Digest tokens are whole words, so every one of them is found, and nothing else. */
  lemma DigestsAreFoundExactly(t: string, i: nat, e: nat)
    ensures Span(i, e) in FindFrom(Digest, t, 0) <==> DigestAt(t, i, e)
  {
    if Span(i, e) in FindFrom(Digest, t, 0) {
      FoundAreMatches(Digest, t, 0, Span(i, e));
    }
    if DigestAt(t, i, e) {
      DigestIsTheOnlyOne(t, i, e, DigestEnd(t, i).value);
      forall s | s in FindFrom(Digest, t, 0) ensures !Crosses(s, i) {
        FoundAreMatches(Digest, t, 0, s);
        DigestsDoNotCross(t, s.start, s.end, i, e);
      }
      FoundUnlessCrossed(Digest, t, 0, i, e);
    }
  }

  lemma DigestIsTheOnlyOne(t: string, i: nat, e: nat, f: nat)
    requires DigestAt(t, i, e) && DigestAt(t, i, f)
    ensures e == f
  {
  }

  lemma DigestsDoNotCross(t: string, s: nat, f: nat, i: nat, e: nat)
    requires DigestAt(t, s, f) && DigestAt(t, i, e)
    ensures !(s < i < f)
  {
  }

  lemma FoundExactlyWhenNotCrossed(t: string, a: nat, b: nat)
    requires CandidateAt(t, a, b)
    ensures Span(a, b) in FindFrom(Candidate, t, 0) <==> !exists s :: s in FindFrom(Candidate, t, 0) && Crosses(s, a)
  {
    CandidateIsTheOnlyOne(t, a, b);
    FoundInOrder(Candidate, t, 0);
    var found := FindFrom(Candidate, t, 0);
    if Span(a, b) in found {
      var i :| 0 <= i < |found| && found[i] == Span(a, b);
      forall s | s in found ensures !Crosses(s, a) {
        var j :| 0 <= j < |found| && found[j] == s;
      }
    } else if forall s :: s in found ==> !Crosses(s, a) {
      FoundUnlessCrossed(Candidate, t, 0, a, b);
    }
  }

  /** A group of exactly four digits, and one gap, right before the position. */
  predicate GroupBefore(t: string, a: nat) {
    5 <= a <= |t| && IsGap(t[a - 1]) && AllFrom(t, a - 5, a - 1, IsDigit) && NoneBefore(t, a - 5, IsDigit)
  }

  /** How many such groups there are in a row. */
  function Groups(t: string, a: nat): nat { if GroupBefore(t, a) then 1 + Groups(t, a - 5) else 0 }

  /** The scan takes groups of four by fours: a number in one of the three forms is in step with it
      unless groups before it make four together with its first ones. */
  predicate InStep(t: string, a: nat, b: nat) {
    || Contiguous(t, a, b)
    || (FourByFour(t, a, b) && Groups(t, a) % 4 == 0)
    || (FourSixFive(t, a, b) && Groups(t, a) % 4 != 3)
  }

  /** A candidate that runs into another is 4-4-4-4, begins one to three groups before it, and the
      other is grouped; 4-6-5 can only be run into from three groups before. */
  lemma CrossingShape(t: string, s: nat, e: nat, a: nat, b: nat) returns (r: nat)
    requires CandidateAt(t, s, e) && CandidateAt(t, a, b) && s < a < e
    ensures FourByFour(t, s, e) && 1 <= r <= 3 && a == s + 5 * r && Groups(t, a) == r + Groups(t, s)
    ensures FourByFour(t, a, b) || (FourSixFive(t, a, b) && r == 3)
  {
    NotContiguous(t, s, e, a, b);
    NotFourSixFive(t, s, e, a, b);
    r := GroupStart(t, s, a);
    GroupsInside(t, s, r);
    NextGroups(t, s, a, b, r);
  }

  lemma NotContiguous(t: string, s: nat, e: nat, a: nat, b: nat)
    requires CandidateAt(t, s, e) && CandidateAt(t, a, b) && s < a < e
    ensures !Contiguous(t, s, e) && !IsDigit(t[a - 1]) && IsDigit(t[a])
  {
  }

  lemma NotFourSixFive(t: string, s: nat, e: nat, a: nat, b: nat)
    requires CandidateAt(t, s, e) && CandidateAt(t, a, b) && s < a < e && !IsDigit(t[a - 1]) && IsDigit(t[a])
    ensures !FourSixFive(t, s, e)
  {
  }

  lemma GroupStart(t: string, s: nat, a: nat) returns (r: nat)
    requires FourByFour(t, s, s + 19) && s < a < s + 19 && !IsDigit(t[a - 1]) && IsDigit(t[a])
    ensures 1 <= r <= 3 && a == s + 5 * r
  {
    r := if a == s + 5 then 1 else if a == s + 10 then 2 else 3;
    assert a == s + 5 || a == s + 10 || a == s + 15;
  }

  lemma GroupsInside(t: string, s: nat, r: nat)
    requires FourByFour(t, s, s + 19) && NoneBefore(t, s, IsDigit) && r <= 3
    ensures Groups(t, s + 5 * r) == r + Groups(t, s)
  {
    if r > 0 {
      GroupsInside(t, s, r - 1);
      assert GroupBefore(t, s + 5 * r);
    }
  }

  lemma NextGroups(t: string, s: nat, a: nat, b: nat, r: nat)
    requires FourByFour(t, s, s + 19) && NoneAfter(t, s + 19, IsDigit)
    requires 1 <= r <= 3 && a == s + 5 * r && CandidateAt(t, a, b)
    ensures FourByFour(t, a, b) || (FourSixFive(t, a, b) && r == 3)
  {
    assert NoneAfter(t, a + 4, IsDigit);
    if r < 3 { assert NoneAfter(t, a + 9, IsDigit); }
  }

  /** The window of four groups that begins some groups before a grouped number. */
  lemma WindowBefore(t: string, a: nat, b: nat, r: nat)
    requires CandidateAt(t, a, b) && 1 <= r <= 3 && Groups(t, a) >= r
    requires FourByFour(t, a, b) || (FourSixFive(t, a, b) && r == 3)
    ensures a >= 5 * r && CandidateAt(t, a - 5 * r, a - 5 * r + 19) && FourByFour(t, a - 5 * r, a - 5 * r + 19)
    ensures Groups(t, a - 5 * r) == Groups(t, a) - r
  {
    assert GroupBefore(t, a) && Groups(t, a) == 1 + Groups(t, a - 5);
    if r >= 2 {
      assert GroupBefore(t, a - 5) && Groups(t, a - 5) == 1 + Groups(t, a - 10);
    }
    if r == 3 {
      assert GroupBefore(t, a - 10) && Groups(t, a - 10) == 1 + Groups(t, a - 15);
    }
  }

  /** A number in any of the three forms, grouped or not, is found exactly when it is in step. */
  lemma {:induction false} CandidateIsFoundExactlyWhen(t: string, a: nat, b: nat)
    requires CandidateAt(t, a, b)
    ensures Span(a, b) in FindFrom(Candidate, t, 0) <==> InStep(t, a, b)
    decreases a
  {
    var found := FindFrom(Candidate, t, 0);
    FoundExactlyWhenNotCrossed(t, a, b);
    if s :| s in found && Crosses(s, a) {
      FoundAreMatches(Candidate, t, 0, s);
      var r := CrossingShape(t, s.start, s.end, a, b);
      CandidateIsFoundExactlyWhen(t, s.start, s.end);
      CrossedIsOut(t, s.start, s.end, a, b, r);
    } else if !InStep(t, a, b) {
      var r := OutOfStep(t, a, b);
      WindowBefore(t, a, b, r);
      var w := Span(a - 5 * r, a - 5 * r + 19);
      CandidateIsFoundExactlyWhen(t, w.start, w.end);
      assert w in found && Crosses(w, a);
      assert false;
    }
  }

  lemma CrossedIsOut(t: string, s: nat, e: nat, a: nat, b: nat, r: nat)
    requires CandidateAt(t, s, e) && CandidateAt(t, a, b) && InStep(t, s, e) && FourByFour(t, s, e) && 1 <= r <= 3
    requires Groups(t, a) == r + Groups(t, s) && (FourByFour(t, a, b) || (FourSixFive(t, a, b) && r == 3))
    ensures !InStep(t, a, b)
  {
    assert !Contiguous(t, s, e) && !FourSixFive(t, s, e);
    assert !Contiguous(t, a, b) by { assert IsGap(t[a + 4]); }
  }

  lemma OutOfStep(t: string, a: nat, b: nat) returns (r: nat)
    requires CandidateAt(t, a, b) && !InStep(t, a, b)
    ensures 1 <= r <= 3 && Groups(t, a) >= r && (Groups(t, a) - r) % 4 == 0
    ensures FourByFour(t, a, b) || (FourSixFive(t, a, b) && r == 3)
  {
    r := Groups(t, a) % 4;
  }

  const FIVE_GROUPS := "1234 4242 4242 4242 4242"

  /** Of five groups of four only the first four are seen together: the number in the last four is
      in a standard form and is not found. */
  lemma FifthGroupHidesANumber()
    ensures CandidateAt(FIVE_GROUPS, 5, 24) && Groups(FIVE_GROUPS, 5) == 1
    ensures Span(0, 19) in FindFrom(Candidate, FIVE_GROUPS, 0) && Span(5, 24) !in FindFrom(Candidate, FIVE_GROUPS, 0)
  {
    hide FourByFour, GroupBefore, CandidateAt, FindFrom;
    FiveGroupsShape();
    CandidateIsFoundExactlyWhen(FIVE_GROUPS, 0, 19);
    CandidateIsFoundExactlyWhen(FIVE_GROUPS, 5, 24);
    OnlyFourByFour(FIVE_GROUPS, 5, 24);
  }

  lemma FiveGroupsShape()
    ensures CandidateAt(FIVE_GROUPS, 0, 19) && FourByFour(FIVE_GROUPS, 0, 19)
    ensures CandidateAt(FIVE_GROUPS, 5, 24) && FourByFour(FIVE_GROUPS, 5, 24)
    ensures GroupBefore(FIVE_GROUPS, 5) && !GroupBefore(FIVE_GROUPS, 0)
  {
  }

  lemma OnlyFourByFour(t: string, a: nat, b: nat)
    requires FourByFour(t, a, b)
    ensures !Contiguous(t, a, b) && !FourSixFive(t, a, b)
  {
    assert IsGap(t[a + 4]);
  }

  // ----- the filters

  /** `re.sub(r"[ -]", "", ...)`. */
  function Stripped(s: string): string {
    if s == "" then "" else (if IsGap(s[0]) then "" else [s[0]]) + Stripped(s[1..])
  }

  function DigitsOf(s: string): seq<Luhn.Digit>
    requires AllFrom(s, 0, |s|, IsDigit)
  {
    seq(|s|, i requires 0 <= i < |s| => s[i] as int - '0' as int)
  }

  const ALLOWLISTED_TEST_PANS := {
    "4242424242424242", "4111111111111111", "4012888888881881", "4000056655665556",
    "5555555555554444", "5200828282828210", "5105105105105100", "2223003122003222",
    "378282246310005", "371449635398431", "6011111111111117", "6011000990139424",
    "3056930009020004", "3566002020360505", "30569309025904", "38520000023237",
    "4000000000000002", "4000000000009995", "4000002500003155", "4000000000003220"}

  function Raw(t: string, s: Span): string
    requires s.start <= s.end <= |t|
  {
    Stripped(t[s.start..s.end])
  }

  /** A point after a digit comes right before the match. `decimal` is Python's `str.isdigit`. */
  predicate IsFraction(t: string, s: Span, decimal: char -> bool) {
    2 <= s.start <= |t| && t[s.start - 1] == '.' && decimal(t[s.start - 2])
  }

  /** A number of a major network that passes the check-digit test and is no published test number. */
  predicate LooksReal(raw: string) {
    && 13 <= |raw| <= 19
    && '3' <= raw[0] <= '6'
    && raw !in ALLOWLISTED_TEST_PANS
    && AllFrom(raw, 0, |raw|, IsDigit) && Luhn.LuhnOk(DigitsOf(raw))
  }

  /** Spelled out: card length, digits only, a first digit of a major network, not one of the
      published test numbers, and a weighted digit sum that is a multiple of ten. */
  predicate RealNumber(raw: string) {
    && 13 <= |raw| <= 19 && (forall k :: 0 <= k < |raw| ==> '0' <= raw[k] <= '9')
    && raw[0] in {'3', '4', '5', '6'} && raw !in ALLOWLISTED_TEST_PANS
    && Luhn.Weighted(seq(|raw|, k requires 0 <= k < |raw| => raw[k] as int - '0' as int), false) % 10 == 0
  }

  lemma LooksRealExactlyWhen(raw: string)
    ensures LooksReal(raw) <==> RealNumber(raw)
  {
    hide Luhn.Weighted, Luhn.LuhnOk, DigitsOf, ALLOWLISTED_TEST_PANS;
    if AllFrom(raw, 0, |raw|, IsDigit) { CheckSum(raw); }
  }

  lemma CheckSum(raw: string)
    requires AllFrom(raw, 0, |raw|, IsDigit)
    ensures Luhn.LuhnOk(DigitsOf(raw)) <==>
      Luhn.Weighted(seq(|raw|, k requires 0 <= k < |raw| => raw[k] as int - '0' as int), false) % 10 == 0
  {
    Luhn.TotalIsWeighted(DigitsOf(raw));
    assert DigitsOf(raw) == seq(|raw|, k requires 0 <= k < |raw| => raw[k] as int - '0' as int);
  }

  predicate InsideDigest(t: string, s: Span) {
    exists d :: d in FindFrom(Digest, t, 0) && d.start <= s.start && s.end <= d.end
  }

  /** The same, read off the text. */
  ghost predicate InsideToken(t: string, s: Span) {
    exists i: nat, e: nat :: DigestAt(t, i, e) && i <= s.start && s.end <= e
  }

  lemma InsideIsInsideToken(t: string, s: Span)
    ensures InsideDigest(t, s) <==> InsideToken(t, s)
  {
    if InsideDigest(t, s) {
      var d :| d in FindFrom(Digest, t, 0) && d.start <= s.start && s.end <= d.end;
      DigestsAreFoundExactly(t, d.start, d.end);
    }
    if i: nat, e: nat :| DigestAt(t, i, e) && i <= s.start && s.end <= e {
      DigestsAreFoundExactly(t, i, e);
      assert Span(i, e) in FindFrom(Digest, t, 0);
    }
  }

  /** What makes a candidate a finding. */
  predicate Accepted(t: string, s: Span, decimal: char -> bool) {
    && s.start <= s.end <= |t|
    && !IsFraction(t, s, decimal) && LooksReal(Raw(t, s)) && !InsideDigest(t, s)
  }

  function Findings(t: string, spans: seq<Span>, decimal: char -> bool): seq<Span>
    decreases |spans|
  {
    if spans == [] then []
    else
      var last := spans[|spans| - 1];
      Findings(t, spans[..|spans| - 1], decimal) + (if Accepted(t, last, decimal) then [last] else [])
  }

  lemma {:induction false} StrippedAppend(a: string, b: string)
    ensures Stripped(a + b) == Stripped(a) + Stripped(b)
  {
    if a == "" {
      assert a + b == b;
    } else {
      assert (a + b)[1..] == a[1..] + b;
      StrippedAppend(a[1..], b);
    }
  }

  lemma {:induction false} StrippedDigits(s: string)
    requires AllFrom(s, 0, |s|, IsDigit)
    ensures Stripped(s) == s
  {
    if s != "" {
      assert s == [s[0]] + s[1..];
      StrippedDigits(s[1..]);
    }
  }

  lemma StrippedPiece(t: string, a: nat, b: nat, e: nat)
    requires a <= b < e <= |t| && AllFrom(t, a, b, IsDigit) && IsGap(t[b])
    ensures Stripped(t[a..e]) == t[a..b] + Stripped(t[b + 1..e])
  {
    assert t[a..e] == t[a..b] + t[b..e];
    StrippedAppend(t[a..b], t[b..e]);
    StrippedDigits(t[a..b]);
    assert t[b..e][1..] == t[b + 1..e];
  }

  predicate HasCardLength(raw: string) { 13 <= |raw| <= 19 && AllFrom(raw, 0, |raw|, IsDigit) }

  lemma FourByFourDigits(t: string, i: nat, e: nat)
    requires FourByFour(t, i, e)
    ensures Stripped(t[i..e]) == t[i..i + 4] + t[i + 5..i + 9] + t[i + 10..i + 14] + t[i + 15..e]
  {
    StrippedPiece(t, i, i + 4, e);
    StrippedPiece(t, i + 5, i + 9, e);
    StrippedPiece(t, i + 10, i + 14, e);
    StrippedDigits(t[i + 15..e]);
    assert Stripped(t[i..e]) == t[i..i + 4] + (t[i + 5..i + 9] + (t[i + 10..i + 14] + t[i + 15..e]));
  }

  lemma FourSixFiveDigits(t: string, i: nat, e: nat)
    requires FourSixFive(t, i, e)
    ensures Stripped(t[i..e]) == t[i..i + 4] + t[i + 5..i + 11] + t[i + 12..e]
  {
    StrippedPiece(t, i, i + 4, e);
    StrippedPiece(t, i + 5, i + 11, e);
    StrippedDigits(t[i + 12..e]);
    assert Stripped(t[i..e]) == t[i..i + 4] + (t[i + 5..i + 11] + t[i + 12..e]);
  }

  /** What a candidate strips to: its groups, one after the other. */
  lemma CandidateDigits(t: string, i: nat, e: nat)
    requires CandidateAt(t, i, e)
    ensures i < e <= |t|
    ensures FourByFour(t, i, e) ==> Raw(t, Span(i, e)) == t[i..i + 4] + t[i + 5..i + 9] + t[i + 10..i + 14] + t[i + 15..e]
    ensures FourSixFive(t, i, e) ==> Raw(t, Span(i, e)) == t[i..i + 4] + t[i + 5..i + 11] + t[i + 12..e]
    ensures Contiguous(t, i, e) ==> Raw(t, Span(i, e)) == t[i..e]
  {
    if FourByFour(t, i, e) { FourByFourDigits(t, i, e); }
    if FourSixFive(t, i, e) { FourSixFiveDigits(t, i, e); }
    if Contiguous(t, i, e) { StrippedDigits(t[i..e]); }
  }

  /** Every candidate strips to 13 to 19 digits: the length test of the script never rejects one. */
  lemma CandidatesHaveCardLength(t: string, i: nat, e: nat)
    requires CandidateAt(t, i, e)
    ensures i < e <= |t| && HasCardLength(Raw(t, Span(i, e)))
  {
    hide Stripped;
    CandidateDigits(t, i, e);
  }

  // ----- the bisect

  /** `bisect_right`: where `x` would go after all equal elements. */
  method BisectRight(a: seq<nat>, x: nat) returns (lo: nat)
    requires forall i, j :: 0 <= i < j < |a| ==> a[i] <= a[j]
    ensures lo <= |a|
    ensures (forall i :: 0 <= i < lo ==> a[i] <= x) && (forall i :: lo <= i < |a| ==> x < a[i])
  {
    lo := 0;
    var hi := |a|;
    while lo < hi
      invariant lo <= hi <= |a|
      invariant (forall i :: 0 <= i < lo ==> a[i] <= x) && (forall i :: hi <= i < |a| ==> x < a[i])
    {
      var mid := (lo + hi) / 2;
      if x < a[mid] {
        hi := mid;
      } else {
        lo := mid + 1;
      }
    }
  }

  /** Over spans in order, looking only at the last span that starts no later than the match is as
      good as looking at all of them. */
  lemma LastStartDecides(spans: seq<Span>, lo: nat, hi: nat, s: Span, p: nat)
    requires Ordered(spans, lo, hi) && s.start < s.end && p <= |spans|
    requires forall i :: 0 <= i < p ==> spans[i].start <= s.start
    requires forall i :: p <= i < |spans| ==> s.start < spans[i].start
    ensures (p > 0 && s.end <= spans[p - 1].end) <==>
      exists d :: d in spans && d.start <= s.start && s.end <= d.end
  {
    if p > 0 && s.end <= spans[p - 1].end {
      assert spans[p - 1] in spans;
    }
    if d :| d in spans && d.start <= s.start && s.end <= d.end {
      var k :| 0 <= k < |spans| && spans[k] == d;
      assert k < p;
    }
  }

  // ----- find_pans_in_text

  /** The tests on one match, in the order of the script. */
  method Accepts(t: string, m: Span, digests: seq<Span>, starts: seq<nat>, decimal: char -> bool) returns (ok: bool)
    requires CandidateAt(t, m.start, m.end) && digests == FindFrom(Digest, t, 0)
    requires |starts| == |digests| && forall i :: 0 <= i < |starts| ==> starts[i] == digests[i].start
    ensures ok == Accepted(t, m, decimal)
  {
    hide CandidateAt, FindFrom, Stripped, InsideDigest, Luhn.LuhnOk;
    CandidatesHaveCardLength(t, m.start, m.end);
    if m.start >= 2 && t[m.start - 1] == '.' && decimal(t[m.start - 2]) {
      return false;
    }
    var raw := Stripped(t[m.start..m.end]);
    if !(13 <= |raw| <= 19) {
      return false;
    }
    if raw[0] !in "3456" {
      assert !('3' <= raw[0] <= '6');
      return false;
    }
    if raw in ALLOWLISTED_TEST_PANS {
      return false;
    }
    if !Luhn.LuhnOk(DigitsOf(raw)) {
      return false;
    }
    var inside := InsideByBisect(t, m, digests, starts);
    return !inside;
  }

  /** The bisect over digest starts agrees with looking for some digest around the match. */
  method InsideByBisect(t: string, m: Span, digests: seq<Span>, starts: seq<nat>) returns (inside: bool)
    requires m.start < m.end && digests == FindFrom(Digest, t, 0)
    requires |starts| == |digests| && forall i :: 0 <= i < |starts| ==> starts[i] == digests[i].start
    ensures inside == InsideDigest(t, m)
  {
    FoundInOrder(Digest, t, 0);
    var position := BisectRight(starts, m.start);
    LastStartDecides(digests, 0, |t|, m, position);
    inside := position > 0 && m.end <= digests[position - 1].end;
  }

  /** The raw numbers of the findings, in order. */
  function Reported(t: string, spans: seq<Span>, decimal: char -> bool): seq<string>
    decreases |spans|
  {
    if spans == [] then []
    else
      var last := spans[|spans| - 1];
      Reported(t, spans[..|spans| - 1], decimal) + (if Accepted(t, last, decimal) then [Raw(t, last)] else [])
  }

  lemma CandidatesFound(t: string, m: Span)
    requires m in FindFrom(Candidate, t, 0)
    ensures CandidateAt(t, m.start, m.end) && m.start <= m.end <= |t|
  {
    FoundAreMatches(Candidate, t, 0, m);
  }

  /** `find_pans_in_text`. */
  method FindPansInText(t: string, decimal: char -> bool) returns (hits: seq<string>)
    ensures hits == Reported(t, FindFrom(Candidate, t, 0), decimal)
  {
    hide Accepted, CandidateAt, FindFrom, MatchEnd;
    hits := [];
    var digests := FindFrom(Digest, t, 0);
    var starts := seq(|digests|, i requires 0 <= i < |digests| => digests[i].start);
    var matches := FindFrom(Candidate, t, 0);
    for n := 0 to |matches|
      invariant hits == Reported(t, matches[..n], decimal)
    {
      var m := matches[n];
      CandidatesFound(t, m);
      assert matches[..n + 1][..n] == matches[..n];
      var ok := Accepts(t, m, digests, starts, decimal);
      if ok {
        hits := hits + [Stripped(t[m.start..m.end])];
      }
    }
    assert matches[..|matches|] == matches;
  }

  /** Finding by finding, the report holds the stripped text. */
  lemma {:induction false} ReportMatchesFindings(t: string, spans: seq<Span>, decimal: char -> bool)
    ensures |Reported(t, spans, decimal)| == |Findings(t, spans, decimal)|
    ensures forall k :: 0 <= k < |Findings(t, spans, decimal)| ==>
      var s := Findings(t, spans, decimal)[k];
      s.start <= s.end <= |t| && Reported(t, spans, decimal)[k] == Stripped(t[s.start..s.end])
    decreases |spans|
  {
    if spans != [] {
      ReportMatchesFindings(t, spans[..|spans| - 1], decimal);
    }
  }

  lemma {:induction false} FindingsAreTheAccepted(t: string, spans: seq<Span>, decimal: char -> bool, s: Span)
    ensures s in Findings(t, spans, decimal) <==> s in spans && Accepted(t, s, decimal)
    decreases |spans|
  {
    if spans != [] {
      FindingsAreTheAccepted(t, spans[..|spans| - 1], decimal, s);
      assert spans == spans[..|spans| - 1] + [spans[|spans| - 1]];
    }
  }

  /** A contiguous run of card length is reported exactly when it is not a fraction, not inside a
      digest token, and a real-looking number; runs of other lengths above six never are. */
  lemma RunIsReportedExactlyWhen(t: string, a: nat, b: nat, decimal: char -> bool)
    requires MaximalRun(t, a, b) && b - a > 6
    ensures Span(a, b) in Findings(t, FindFrom(Candidate, t, 0), decimal) <==>
      !(a >= 2 && t[a - 1] == '.' && decimal(t[a - 2])) && RealNumber(t[a..b]) && !InsideToken(t, Span(a, b))
  {
    hide Findings, FindFrom, LooksReal, InsideDigest, InsideToken, Stripped, ALLOWLISTED_TEST_PANS, Luhn.Weighted;
    RunsAreFoundExactly(t, a, b);
    FindingsAreTheAccepted(t, FindFrom(Candidate, t, 0), decimal, Span(a, b));
    StrippedDigits(t[a..b]);
    LooksRealExactlyWhen(t[a..b]);
    InsideIsInsideToken(t, Span(a, b));
  }

  /** A number in any form is reported exactly when it is in step, no fraction, inside no digest
      token, and, without its gaps, a real-looking number. */
  lemma CandidateIsReportedExactlyWhen(t: string, a: nat, b: nat, decimal: char -> bool)
    requires CandidateAt(t, a, b) && a <= b <= |t|
    ensures Span(a, b) in Findings(t, FindFrom(Candidate, t, 0), decimal) <==>
      && InStep(t, a, b)
      && !(a >= 2 && t[a - 1] == '.' && decimal(t[a - 2]))
      && RealNumber(Stripped(t[a..b])) && !InsideToken(t, Span(a, b))
  {
    hide CandidateAt, Findings, FindFrom, LooksReal, RealNumber, InsideDigest, InsideToken, InStep, Stripped;
    CandidateIsFoundExactlyWhen(t, a, b);
    FindingsAreTheAccepted(t, FindFrom(Candidate, t, 0), decimal, Span(a, b));
    LooksRealExactlyWhen(Stripped(t[a..b]));
    InsideIsInsideToken(t, Span(a, b));
  }
}
