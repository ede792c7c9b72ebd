/** UTF-8 as in section 3 of RFC 3629: the encoder, and a strict decoder that undoes it. */
module Utf8 {
  import opened Prelude

  type Byte = b: int | 0 <= b < 256

  /** A code point that can be encoded: not a surrogate. */
  type Scalar = c: int | 0 <= c < 0x110000 && !(0xD800 <= c < 0xE000)

  /** The four forms, with the code point cut into groups of six bits. */
  function EncodeOne(c: Scalar): seq<Byte> {
    var c1: int := c / 64;
    var c2: int := c1 / 64;
    if c < 0x80 then [c]
    else if c < 0x800 then [0xC0 + c1, 0x80 + c % 64]
    else if c < 0x10000 then [0xE0 + c2, 0x80 + c1 % 64, 0x80 + c % 64]
    else [0xF0 + c2 / 64, 0x80 + c2 % 64, 0x80 + c1 % 64, 0x80 + c % 64]
  }

  function Encode(s: seq<Scalar>): seq<Byte> { if s == [] then [] else EncodeOne(s[0]) + Encode(s[1..]) }

  predicate IsTail(b: Byte) { 0x80 <= b < 0xC0 }

  /** Length of the sequence that a first byte announces; zero if it cannot come first. */
  function Announced(b: Byte): nat {
    if b < 0x80 then 1 else if b < 0xC0 then 0 else if b < 0xE0 then 2 else if b < 0xF0 then 3 else if b < 0xF8 then 4 else 0
  }

  /** The number carried by the first `n` bytes. */
  function Carried(bs: seq<Byte>, n: nat): int
    requires 1 <= n <= 4 && |bs| >= n
  {
    var b0: int := bs[0];
    if n == 1 then b0
    else
      var b1: int := bs[1] as int - 0x80;
      if n == 2 then (b0 - 0xC0) * 64 + b1
      else
        var b2: int := bs[2] as int - 0x80;
        if n == 3 then ((b0 - 0xE0) * 64 + b1) * 64 + b2
        else
          var b3: int := bs[3] as int - 0x80;
          (((b0 - 0xF0) * 64 + b1) * 64 + b2) * 64 + b3
  }

  /** ... if they are well-formed and in shortest form. */
  function DecodeOne(bs: seq<Byte>, n: nat): Option<Scalar>
    requires 1 <= n <= 4 && |bs| >= n
  {
    var c := Carried(bs, n);
    if 0 <= c < 0x110000 && !(0xD800 <= c < 0xE000) && EncodeOne(c) == bs[..n] then Some(c) else None
  }

  function Decode(bs: seq<Byte>): Option<seq<Scalar>> {
    if bs == [] then Some([])
    else
      var n := Announced(bs[0]);
      if n == 0 || n > |bs| then None
      else match DecodeOne(bs, n)
        case None => None
        case Some(c) =>
          match Decode(bs[n..])
          case None => None
          case Some(rest) => Some([c] + rest)
  }

  lemma FirstByte(c: Scalar)
    ensures Announced(EncodeOne(c)[0]) == |EncodeOne(c)|
  {
  }

  lemma CarriedUndoes(c: Scalar, bs: seq<Byte>)
    requires |bs| >= |EncodeOne(c)| && bs[..|EncodeOne(c)|] == EncodeOne(c)
    ensures Carried(bs, |EncodeOne(c)|) == c
  {
    var e := EncodeOne(c);
    assert forall k :: 0 <= k < |e| ==> bs[k] == bs[..|e|][k] == e[k];
  }

  lemma DecodeOneUndoes(c: Scalar, rest: seq<Byte>)
    ensures DecodeOne(EncodeOne(c) + rest, |EncodeOne(c)|) == Some(c)
  {
    assert (EncodeOne(c) + rest)[..|EncodeOne(c)|] == EncodeOne(c);
    CarriedUndoes(c, EncodeOne(c) + rest);
  }

  /** Decoding undoes encoding, for every text. */
  lemma {:induction false} DecodeUndoesEncode(s: seq<Scalar>)
    ensures Decode(Encode(s)) == Some(s)
  {
    if s != [] {
      var head, tail := EncodeOne(s[0]), Encode(s[1..]);
      FirstByte(s[0]);
      assert Encode(s) == head + tail && Encode(s)[0] == head[0] && s == [s[0]] + s[1..];
      DecodeOneUndoes(s[0], tail);
      assert (head + tail)[|head|..] == tail;
      DecodeUndoesEncode(s[1..]);
    }
  }

  lemma EncodeStep(c: Scalar, rest: seq<Scalar>)
    ensures Encode([c] + rest) == EncodeOne(c) + Encode(rest)
  {
    assert ([c] + rest)[1..] == rest;
  }

  lemma DecodeStep(bs: seq<Byte>)
    requires bs != [] && Decode(bs).Some?
    ensures var n := Announced(bs[0]);
      && 1 <= n <= |bs| && Decode(bs[n..]).Some? && Decode(bs).value != []
      && EncodeOne(Decode(bs).value[0]) == bs[..n]
      && Decode(bs).value == [Decode(bs).value[0]] + Decode(bs[n..]).value
  {
    hide Carried;
    var n := Announced(bs[0]);
    var c := DecodeOne(bs, n).value;
    assert Decode(bs).value == [c] + Decode(bs[n..]).value;
  }

  lemma NothingDecodes()
    ensures Decode([]) == Some([]) && Encode([]) == []
  {
  }

  /** ... and encoding undoes decoding, so that no other bytes decode to the same text. */
  lemma {:induction false} EncodeUndoesDecode(bs: seq<Byte>)
    requires Decode(bs).Some?
    ensures Encode(Decode(bs).value) == bs
  {
    hide Decode, Announced, EncodeOne, Encode;
    if bs == [] {
      NothingDecodes();
    } else {
      DecodeStep(bs);
      var n := Announced(bs[0]);
      EncodeUndoesDecode(bs[n..]);
      EncodeStep(Decode(bs).value[0], Decode(bs[n..]).value);
      assert bs == bs[..n] + bs[n..];
    }
  }

  // ----- the decoder that replaces what is ill-formed

  const REPLACEMENT: Scalar := 0xFFFD

  /** A first byte that some encoding of several bytes has, and the second bytes that may follow it. */
  predicate Leads(b: Byte) { 0xC2 <= b < 0xF5 }

  predicate MayFollow(b0: Byte, b1: Byte) {
    && (if b0 == 0xE0 then 0xA0 else if b0 == 0xF0 then 0x90 else 0x80) <= b1
    && b1 < (if b0 == 0xED then 0xA0 else if b0 == 0xF4 then 0x90 else 0xC0)
  }

  /** The character that the bytes begin with, if they begin with a well-formed one. */
  function First(bs: seq<Byte>): Option<Scalar>
    requires bs != []
  {
    var n := Announced(bs[0]);
    if n == 0 || n > |bs| then None else DecodeOne(bs, n)
  }

  /** How many bytes one replacement character stands for. */
  function Skipped(bs: seq<Byte>): (n: nat)
    requires bs != []
    ensures 1 <= n <= 3 && n <= |bs|
  {
    if !Leads(bs[0]) || |bs| < 2 || !MayFollow(bs[0], bs[1]) then 1
    else if |bs| < 3 || !IsTail(bs[2]) || bs[0] < 0xE0 then 2
    else 3
  }

  /** Python's `decode("utf-8", errors="replace")`. */
  function DecodeReplacing(bs: seq<Byte>): seq<Scalar>
    decreases |bs|
  {
    if bs == [] then []
    else match First(bs)
      case Some(c) => [c] + DecodeReplacing(bs[Announced(bs[0])..])
      case None => [REPLACEMENT] + DecodeReplacing(bs[Skipped(bs)..])
  }

  /** Bytes that some character's encoding begins with. */
  ghost predicate BeginsSome(bs: seq<Byte>) { exists c: Scalar :: bs <= EncodeOne(c) }

  lemma EncodingShape(c: Scalar)
    ensures var e := EncodeOne(c);
      && (|e| >= 2 ==> Leads(e[0]) && MayFollow(e[0], e[1]))
      && (|e| >= 3 <==> e[0] >= 0xE0) && (|e| >= 3 ==> IsTail(e[2]))
      && (|e| >= 4 <==> e[0] >= 0xF0)
  {
  }

  /** The number of some leading bytes, as if zeros followed; they begin its encoding. */
  function Padded(bs: seq<Byte>): int
    requires 2 <= |bs| <= 4
  {
    var b0: int := bs[0];
    var b1: int := bs[1] as int - 0x80;
    var b2: int := if |bs| > 2 then bs[2] as int - 0x80 else 0;
    var b3: int := if |bs| > 3 then bs[3] as int - 0x80 else 0;
    if b0 < 0xE0 then (b0 - 0xC0) * 64 + b1
    else if b0 < 0xF0 then ((b0 - 0xE0) * 64 + b1) * 64 + b2
    else (((b0 - 0xF0) * 64 + b1) * 64 + b2) * 64 + b3
  }

  lemma Divided(q: int, r: int)
    requires 0 <= r < 64
    ensures (q * 64 + r) / 64 == q && (q * 64 + r) % 64 == r
  {
  }

  lemma TwoBegin(bs: seq<Byte>)
    requires |bs| == 2 && Leads(bs[0]) && MayFollow(bs[0], bs[1])
    ensures var c := Padded(bs);
      0 <= c < 0x110000 && !(0xD800 <= c < 0xE000) && bs <= EncodeOne(c)
  {
    var b0: int, t: int := bs[0], bs[1] as int - 0x80;
    if b0 < 0xE0 {
      Divided(b0 - 0xC0, t);
    } else if b0 < 0xF0 {
      Divided(b0 - 0xE0, t);
      Divided((b0 - 0xE0) * 64 + t, 0);
    } else {
      Divided(b0 - 0xF0, t);
      Divided((b0 - 0xF0) * 64 + t, 0);
      Divided(((b0 - 0xF0) * 64 + t) * 64, 0);
    }
  }

  lemma ThreeBegin(bs: seq<Byte>)
    requires |bs| == 3 && bs[0] >= 0xE0 && Leads(bs[0]) && MayFollow(bs[0], bs[1]) && IsTail(bs[2])
    ensures var c := Padded(bs);
      0 <= c < 0x110000 && !(0xD800 <= c < 0xE000) && bs <= EncodeOne(c)
  {
    var b0: int, t: int, u: int := bs[0], bs[1] as int - 0x80, bs[2] as int - 0x80;
    if b0 < 0xF0 {
      Divided(b0 - 0xE0, t);
      Divided((b0 - 0xE0) * 64 + t, u);
    } else {
      Divided(b0 - 0xF0, t);
      Divided((b0 - 0xF0) * 64 + t, u);
      Divided(((b0 - 0xF0) * 64 + t) * 64 + u, 0);
    }
  }

  lemma BeginsKnown(bs: seq<Byte>, k: nat, c: Scalar)
    requires bs != [] && First(bs) == None && k <= |bs| && bs[..k] <= EncodeOne(c)
    ensures k <= Skipped(bs)
  {
    var e := EncodeOne(c);
    EncodingShape(c);
    assert forall j :: 0 <= j < k ==> bs[j] == bs[..k][j] == e[j];
    if k == |e| {
      assert bs[..k] == e;
      FirstByte(c);
      CarriedUndoes(c, bs);
    }
  }

  lemma SkippedBegins(bs: seq<Byte>)
    requires bs != [] && First(bs) == None && Skipped(bs) > 1
    ensures BeginsSome(bs[..Skipped(bs)])
  {
    var lead := bs[..Skipped(bs)];
    if |lead| == 2 {
      TwoBegin(lead);
    } else {
      ThreeBegin(lead);
    }
  }

  /** A replacement character stands for a maximal subpart: as many of the bytes as begin the
      encoding of some character, and at least one. */
  lemma ReplacesMaximalSubpart(bs: seq<Byte>, k: nat)
    requires bs != [] && First(bs) == None && k <= |bs|
    ensures Skipped(bs) > 1 ==> BeginsSome(bs[..Skipped(bs)])
    ensures BeginsSome(bs[..k]) ==> k <= Skipped(bs)
  {
    if Skipped(bs) > 1 {
      SkippedBegins(bs);
    }
    if c: Scalar :| bs[..k] <= EncodeOne(c) {
      BeginsKnown(bs, k, c);
    }
  }

  /** On well-formed bytes nothing is replaced. */
  lemma {:induction false} ReplacingIsDecoding(bs: seq<Byte>)
    requires Decode(bs).Some?
    ensures DecodeReplacing(bs) == Decode(bs).value
  {
    if bs != [] {
      ReplacingIsDecoding(bs[Announced(bs[0])..]);
    }
  }

  /** Encoding gives the bytes back exactly when they were well-formed. */
  lemma ReplacingIsUndoneExactlyWhen(bs: seq<Byte>)
    ensures Encode(DecodeReplacing(bs)) == bs <==> Decode(bs).Some?
  {
    DecodeUndoesEncode(DecodeReplacing(bs));
    if Decode(bs).Some? {
      ReplacingIsDecoding(bs);
      EncodeUndoesDecode(bs);
    }
  }

  /** Decoding with replacement undoes encoding. */
  lemma ReplacingUndoesEncode(s: seq<Scalar>)
    ensures DecodeReplacing(Encode(s)) == s
  {
    DecodeUndoesEncode(s);
    ReplacingIsDecoding(Encode(s));
  }

  // ----- the first NUL

  /** What comes before the first zero. */
  function UpToNul(xs: seq<Byte>): seq<Byte> {
    if xs == [] || xs[0] == 0 then [] else [xs[0]] + UpToNul(xs[1..])
  }

  lemma {:induction false} UpToNulIsAll(xs: seq<Byte>)
    ensures |UpToNul(xs)| <= |xs| && UpToNul(xs) <= xs
    ensures UpToNul(xs) == xs <==> 0 !in xs
  {
    if xs != [] && xs[0] != 0 {
      UpToNulIsAll(xs[1..]);
      assert xs == [xs[0]] + xs[1..];
    }
  }

  lemma {:induction false} UpToNulSkips(head: seq<Byte>, tail: seq<Byte>)
    requires 0 !in head
    ensures UpToNul(head + tail) == head + UpToNul(tail)
  {
    if head == [] {
      assert head + tail == tail;
    } else {
      assert (head + tail)[1..] == head[1..] + tail;
      UpToNulSkips(head[1..], tail);
    }
  }

  /** Cutting the bytes at the first zero byte cuts the text at its first NUL character. */
  lemma {:induction false} NulCutsText(s: seq<Scalar>)
    ensures UpToNul(Encode(s)) == Encode(TextUpToNul(s))
  {
    if s != [] {
      assert Encode(s) == EncodeOne(s[0]) + Encode(s[1..]);
      if s[0] != 0 {
        UpToNulSkips(EncodeOne(s[0]), Encode(s[1..]));
        NulCutsText(s[1..]);
        var cut := TextUpToNul(s);
        assert cut[0] == s[0] && cut[1..] == TextUpToNul(s[1..]);
      }
    }
  }

  function TextUpToNul(s: seq<Scalar>): seq<Scalar> {
    if s == [] || s[0] == 0 then [] else [s[0]] + TextUpToNul(s[1..])
  }

  lemma {:induction false} TextUpToNulIsAll(s: seq<Scalar>)
    ensures TextUpToNul(s) == s <==> 0 !in s
  {
    if s != [] && s[0] != 0 {
      TextUpToNulIsAll(s[1..]);
      assert s == [s[0]] + s[1..];
    }
  }

  // ----- text that was cut short

  /** An encoding cut inside its first character decodes to one replacement character. */
  lemma CutCharacter(c: Scalar, m: nat)
    requires 0 < m < |EncodeOne(c)|
    ensures DecodeReplacing(EncodeOne(c)[..m]) == [REPLACEMENT]
  {
    var bs := EncodeOne(c)[..m];
    FirstByte(c);
    assert First(bs) == None;
    assert bs[..m] == bs && BeginsSome(bs[..m]);
    ReplacesMaximalSubpart(bs, m);
    assert bs[Skipped(bs)..] == [];
    assert DecodeReplacing(bs[Skipped(bs)..]) == [];
  }

  lemma FirstOfEncoding(c: Scalar, rest: seq<Byte>)
    ensures First(EncodeOne(c) + rest) == Some(c) && Announced((EncodeOne(c) + rest)[0]) == |EncodeOne(c)|
  {
    FirstByte(c);
    DecodeOneUndoes(c, rest);
  }

  /** An encoding that lacks four bytes or more decodes to fewer characters. */
  lemma {:induction false} CutTextIsShorter(s: seq<Scalar>, m: nat)
    requires m + 4 <= |Encode(s)|
    ensures |DecodeReplacing(Encode(s)[..m])| < |s|
  {
    var head, tail := EncodeOne(s[0]), Encode(s[1..]);
    assert Encode(s) == head + tail && 1 <= |head| <= 4;
    if |head| <= m {
      CutTextIsShorter(s[1..], m - |head|);
      var rest := tail[..m - |head|];
      assert Encode(s)[..m] == head + rest;
      FirstOfEncoding(s[0], rest);
      assert (head + rest)[|head|..] == rest;
    } else if m > 0 {
      CutCharacter(s[0], m);
      assert Encode(s)[..m] == head[..m];
      assert |s| > 1;
    }
  }
}
