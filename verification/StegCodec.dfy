/** The payload codec of scripts/embed_steg_payload.py: a length prefix and the payload, bit by bit
    in the low bits of the red channel. */
module StegCodec {
  import opened Prelude
  import opened Bits
  import opened Utf8

  type Channel = c: int | 0 <= c < 256
  datatype Pixel = Pixel(r: Channel, g: Channel, b: Channel)

  datatype Error = PayloadTooLarge | InvalidLength(length: nat)

  const LENGTH_BITS := 32

  // ----- bits of bytes

  function BitsOfBytes(bs: seq<Byte>): seq<Bit> {
    if bs == [] then [] else BitsOf(bs[0], 8) + BitsOfBytes(bs[1..])
  }

  function ByteOf(bits: seq<Bit>): Byte
    requires |bits| == 8
  {
    NumberBound(bits);
    Pow2Of8();
    NumberOf(bits)
  }

  /** Whole groups of eight bits; a shorter rest is ignored. */
  function BytesOfBits(bits: seq<Bit>): seq<Byte>
    decreases |bits|
  {
    if |bits| < 8 then [] else [ByteOf(bits[..8])] + BytesOfBits(bits[8..])
  }

  lemma {:induction false} BitsOfBytesLength(bs: seq<Byte>)
    ensures |BitsOfBytes(bs)| == 8 * |bs|
  {
    if bs != [] { BitsOfBytesLength(bs[1..]); }
  }

  lemma Pow2Of8()
    ensures Pow2(8) == 256
  {
    assert Pow2(4) == 16;
  }

  lemma {:induction false} BytesOfBitsOfBytes(bs: seq<Byte>, k: nat)
    requires k <= |bs|
    ensures |BitsOfBytes(bs)| == 8 * |bs|
    ensures BytesOfBits(BitsOfBytes(bs)[..8 * k]) == bs[..k]
  {
    BitsOfBytesLength(bs);
    if k > 0 {
      var all := BitsOfBytes(bs);
      assert all[..8 * k][..8] == BitsOf(bs[0], 8);
      assert all[..8 * k][8..] == BitsOfBytes(bs[1..])[..8 * (k - 1)] by {
        assert all[8..] == BitsOfBytes(bs[1..]);
      }
      BytesOfBitsOfBytes(bs[1..], k - 1);
      BitsRoundTrip(bs[0], 8);
      Pow2Of8();
      assert bs[..k] == [bs[0]] + bs[1..][..k - 1];
    }
  }

  /** The inner loop of the encoder: `(n >> shift) & 1` for descending shifts. */
  method AppendBits(bits: seq<Bit>, n: nat, width: nat) returns (r: seq<Bit>)
    ensures r == bits + BitsOf(n, width)
  {
    r := bits;
    var shift := width;
    while shift > 0
      invariant 0 <= shift <= width
      invariant r + BitsOf(n, shift) == bits + BitsOf(n, width)
    {
      shift := shift - 1;
      AndOne(ShiftRight(n, shift));
      r := r + [And(ShiftRight(n, shift), 1)];
    }
  }

  /** `_text_to_bits`, on the encoded text. */
  method BytesToBits(bs: seq<Byte>) returns (bits: seq<Bit>)
    ensures bits == BitsOfBytes(bs)
  {
    bits := [];
    for i := 0 to |bs|
      invariant bits + BitsOfBytes(bs[i..]) == BitsOfBytes(bs)
    {
      assert bs[i..][0] == bs[i] && bs[i..][1..] == bs[i + 1..];
      bits := AppendBits(bits, bs[i], 8);
    }
  }

  /** The accumulator of `byte |= b << shift` and `length |= b << shift`: a group of bits, the most
      significant first and at the top of `width` places. */
  method Assemble(bits: seq<Bit>, width: nat) returns (n: nat)
    requires |bits| <= width
    ensures n == NumberOf(bits) * Pow2(width - |bits|)
  {
    n := 0;
    var shift := width;
    ghost var high := 0;
    for i := 0 to |bits|
      invariant shift == width - i && high >= 0
      invariant n == high * Pow2(shift)
      invariant n + NumberOf(bits[i..]) * Pow2(width - |bits|) == NumberOf(bits) * Pow2(width - |bits|)
    {
      shift := shift - 1;
      OrBit(high, bits[i], shift);
      AssembleStep(bits, i, width, high);
      n := Or(n, ShiftLeft(bits[i], shift));
      high := 2 * high + bits[i];
    }
  }

  lemma AssembleStep(bits: seq<Bit>, i: nat, width: nat, high: nat)
    requires i < |bits| <= width
    ensures NumberOf(bits[i..]) * Pow2(width - |bits|) ==
      ShiftLeft(bits[i], width - i - 1) + NumberOf(bits[i + 1..]) * Pow2(width - |bits|)
    ensures high * Pow2(width - i) + ShiftLeft(bits[i], width - i - 1) == (2 * high + bits[i]) * Pow2(width - i - 1)
  {
    var p, rest := Pow2(width - |bits|), NumberOf(bits[i + 1..]);
    assert bits[i..][0] == bits[i] && bits[i..][1..] == bits[i + 1..];
    PowersMultiply(|bits| - i - 1, width - |bits|);
    Spread(bits[i], Pow2(|bits| - i - 1), p, rest);
    Merge(high, bits[i], Pow2(width - i - 1));
  }

  lemma Spread(b: Bit, w: nat, p: nat, rest: nat)
    ensures (b * w + rest) * p == b * (w * p) + rest * p
  {
    if b == 1 { assert (w + rest) * p == w * p + rest * p; }
  }

  lemma Merge(high: nat, b: Bit, p: nat)
    ensures high * (2 * p) + b * p == (2 * high + b) * p
  {
    Regroup(high, p);
    if b == 1 { assert (2 * high + 1) * p == 2 * (high * p) + p; }
  }

  /** `_bits_to_text`. */
  method BitsToText(bits: seq<Bit>) returns (text: seq<Scalar>)
    ensures text == DecodeReplacing(UpToNul(BytesOfBits(bits)))
  {
    var chars := BitsToBytes(bits);
    return DecodeReplacing(chars);
  }

  /** Its loop. */
  method BitsToBytes(bits: seq<Bit>) returns (chars: seq<Byte>)
    ensures chars == UpToNul(BytesOfBits(bits))
  {
    chars := [];
    var i := 0;
    while i < |bits| - 7
      invariant 0 <= i <= |bits|
      invariant UpToNul(BytesOfBits(bits)) == chars + UpToNul(BytesOfBits(bits[i..]))
    {
      assert bits[i..][..8] == bits[i..i + 8] && bits[i..][8..] == bits[i + 8..];
      var byte := Assemble(bits[i..i + 8], 8);
      assert byte == ByteOf(bits[i..i + 8]) by { assert Pow2(0) == 1; }
      assert BytesOfBits(bits[i..]) == [byte] + BytesOfBits(bits[i + 8..]);
      if byte == 0 {
        return;
      }
      chars := chars + [byte];
      i := i + 8;
    }
  }

  // ----- embedding

  function AllBits(payload: seq<Byte>): seq<Bit> { BitsOf(|BitsOfBytes(payload)|, LENGTH_BITS) + BitsOfBytes(payload) }

  function WithLowBit(p: Pixel, b: Bit): Pixel { p.(r := p.r - p.r % 2 + b) }

  function Overlay(pixels: seq<Pixel>, bits: seq<Bit>): seq<Pixel>
    requires |bits| <= |pixels|
  {
    seq(|pixels|, i requires 0 <= i < |pixels| => if i < |bits| then WithLowBit(pixels[i], bits[i]) else pixels[i])
  }

  function Embedded(pixels: seq<Pixel>, payload: seq<Byte>): Result<seq<Pixel>, Error> {
    if |AllBits(payload)| > |pixels| then Err(PayloadTooLarge) else Ok(Overlay(pixels, AllBits(payload)))
  }

  lemma ClearLowBit(r: Channel)
    ensures And(r, 0xFE) == r - r % 2
  {
    Pow2Of7();
    AndAllOnes(r / 2, 7);
    assert And(r / 2, 127) == r / 2;
    if r > 0 {
      assert And(r, 254) == 2 * And(r / 2, 127);
    }
  }

  lemma SetLowBit(even: nat, b: Bit)
    requires even % 2 == 0
    ensures Or(even, b) == even + b
  {
    OrZero(even / 2);
    if even != 0 || b != 0 {
      assert Or(even, b) == 2 * Or(even / 2, 0) + b;
    }
  }

  lemma Pow2Of7()
    ensures Pow2(7) == 128
  {
    assert Pow2(4) == 16;
  }

  /** `embed`, from the pixels of the source image to those of the result. */
  method Embed(pixels: seq<Pixel>, text: seq<Scalar>) returns (r: Result<seq<Pixel>, Error>)
    ensures r == Embedded(pixels, Encode(text))
  {
    var payload := Encode(text);
    var payloadBits := BytesToBits(payload);
    var n := |payloadBits|;
    var lengthBits := AppendBits([], n, LENGTH_BITS);
    var allBits := lengthBits + payloadBits;
    assert allBits == AllBits(payload);
    if |allBits| > |pixels| {
      return Err(PayloadTooLarge);
    }
    var newPixels := WritePixels(pixels, allBits);
    return Ok(newPixels);
  }

  /** The pixel loop: `(r & 0xFE) | bit` while bits last. */
  method WritePixels(pixels: seq<Pixel>, bits: seq<Bit>) returns (newPixels: seq<Pixel>)
    requires |bits| <= |pixels|
    ensures newPixels == Overlay(pixels, bits)
  {
    newPixels := [];
    for i := 0 to |pixels|
      invariant |newPixels| == i
      invariant forall k :: 0 <= k < i ==> newPixels[k] == Overlay(pixels, bits)[k]
    {
      var p := pixels[i];
      if i < |bits| {
        ClearLowBit(p.r);
        SetLowBit(And(p.r, 0xFE), bits[i]);
        p := p.(r := Or(And(p.r, 0xFE), bits[i]));
      }
      newPixels := newPixels + [p];
    }
  }

  // ----- extracting

  function LowBits(pixels: seq<Pixel>): seq<Bit> { seq(|pixels|, i requires 0 <= i < |pixels| => pixels[i].r % 2) }

  function Min(a: nat, b: nat): nat { if a <= b then a else b }

  /** The length prefix; a short image fills only its top places. */
  function Prefix(raw: seq<Bit>): nat {
    var k := Min(LENGTH_BITS, |raw|);
    NumberOf(raw[..k]) * Pow2(LENGTH_BITS - k)
  }

  function Extracted(pixels: seq<Pixel>): Result<seq<Byte>, Error> {
    var raw := LowBits(pixels);
    var length := Prefix(raw);
    if length <= 0 || length > |raw| - LENGTH_BITS then Err(InvalidLength(length))
    else Ok(UpToNul(BytesOfBits(raw[LENGTH_BITS..LENGTH_BITS + length])))
  }

  function ExtractedText(pixels: seq<Pixel>): Result<seq<Scalar>, Error> {
    match Extracted(pixels)
    case Ok(bytes) => Ok(DecodeReplacing(bytes))
    case Err(e) => Err(e)
  }

  /** `extract`. */
  method Extract(pixels: seq<Pixel>) returns (r: Result<seq<Scalar>, Error>)
    ensures r == ExtractedText(pixels)
  {
    var rawBits: seq<Bit> := [];
    for i := 0 to |pixels|
      invariant rawBits == LowBits(pixels)[..i]
    {
      AndOne(pixels[i].r);
      rawBits := rawBits + [And(pixels[i].r, 1)];
    }
    assert rawBits == LowBits(pixels);
    var length := Assemble(rawBits[..Min(LENGTH_BITS, |rawBits|)], LENGTH_BITS);
    if length <= 0 || length > |rawBits| - LENGTH_BITS {
      return Err(InvalidLength(length));
    }
    var text := BitsToText(rawBits[LENGTH_BITS..LENGTH_BITS + length]);
    return Ok(text);
  }

  // ----- what survives the round trip

  /** The 32-bit prefix counts bits, so it counts the bytes modulo 2^29. */
  function AnnouncedBytes(payload: seq<Byte>): nat { |payload| % Pow2(29) }

  lemma ByteCountOfPrefix(k: nat)
    ensures 8 * k % Pow2(LENGTH_BITS) == 8 * (k % Pow2(29))
  {
    assert Pow2(30) == 2 * Pow2(29) && Pow2(32) == 4 * Pow2(30);
    EightfoldRemainder(k, Pow2(29));
  }

  lemma EightfoldRemainder(k: nat, d: nat)
    requires d > 0
    ensures 8 * k % (8 * d) == 8 * (k % d)
  {
    var q, r := k / d, k % d;
    assert k == q * d + r;
    assert 8 * k == q * (8 * d) + 8 * r by { assert q * (8 * d) == 8 * (q * d); }
    UniqueRemainder(8 * k, 8 * d, q, 8 * r);
  }

  lemma OverlayIsRead(pixels: seq<Pixel>, bits: seq<Bit>)
    requires |bits| <= |pixels|
    ensures |LowBits(Overlay(pixels, bits))| == |pixels| && LowBits(Overlay(pixels, bits))[..|bits|] == bits
  {
    forall i | 0 <= i < |bits| ensures LowBits(Overlay(pixels, bits))[i] == bits[i] {
      LowBitOf(pixels[i].r, bits[i]);
    }
  }

  lemma LowBitOf(r: Channel, b: Bit)
    ensures (r - r % 2 + b) % 2 == b
  {
  }

  /** Extracting after embedding gives the announced bytes up to their first zero. Nothing else in
      the image matters, so embedding again replaces whatever was embedded before. */
  lemma ExtractAfterEmbed(pixels: seq<Pixel>, payload: seq<Byte>)
    requires Embedded(pixels, payload).Ok?
    ensures var m := AnnouncedBytes(payload);
      m <= |payload| &&
      Extracted(Embedded(pixels, payload).value) ==
        if m == 0 then Err(InvalidLength(0)) else Ok(UpToNul(payload[..m]))
  {
    hide AllBits, BytesOfBits, Overlay, LowBits, Prefix;
    var all, m := AllBits(payload), AnnouncedBytes(payload);
    var raw := LowBits(Overlay(pixels, all));
    OverlayIsRead(pixels, all);
    PrefixIsRead(raw, payload);
    AnnouncedAtMost(|payload|);
    if m > 0 { PayloadIsRead(raw, payload, m); }
  }

  lemma PrefixIsRead(raw: seq<Bit>, payload: seq<Byte>)
    requires |raw| >= |AllBits(payload)| && raw[..|AllBits(payload)|] == AllBits(payload)
    ensures Prefix(raw) == 8 * AnnouncedBytes(payload)
  {
    var n := |BitsOfBytes(payload)|;
    BitsOfBytesLength(payload);
    assert raw[..LENGTH_BITS] == raw[..|AllBits(payload)|][..LENGTH_BITS] == BitsOf(n, LENGTH_BITS);
    BitsRoundTrip(n, LENGTH_BITS);
    ByteCountOfPrefix(|payload|);
    assert Pow2(0) == 1;
  }

  lemma PayloadIsRead(raw: seq<Bit>, payload: seq<Byte>, m: nat)
    requires |raw| >= |AllBits(payload)| && raw[..|AllBits(payload)|] == AllBits(payload) && m <= |payload|
    ensures LENGTH_BITS + 8 * m <= |raw| && BytesOfBits(raw[LENGTH_BITS..LENGTH_BITS + 8 * m]) == payload[..m]
  {
    BytesOfBitsOfBytes(payload, m);
    var all := AllBits(payload);
    assert raw[LENGTH_BITS..LENGTH_BITS + 8 * m] == raw[..|all|][LENGTH_BITS..LENGTH_BITS + 8 * m]
        == BitsOfBytes(payload)[..8 * m];
  }

  lemma AnnouncedAtMost(k: nat)
    ensures k % Pow2(29) <= k && (k % Pow2(29) == k <==> k < Pow2(29))
  {
    var d := Pow2(29);
    if k < d {
      UniqueRemainder(k, d, 0, k);
    }
  }

  /** The whole payload comes back exactly when it is not empty, has no zero byte, and is shorter
      than 2^29 bytes. */
  lemma WholePayloadComesBackExactlyWhen(pixels: seq<Pixel>, payload: seq<Byte>)
    requires Embedded(pixels, payload).Ok?
    ensures Extracted(Embedded(pixels, payload).value) == Ok(payload) <==>
      payload != [] && 0 !in payload && |payload| < Pow2(29)
  {
    ExtractAfterEmbed(pixels, payload);
    AnnouncedAtMost(|payload|);
    NulOrShort(payload, AnnouncedBytes(payload));
  }

  lemma NulOrShort(payload: seq<Byte>, m: nat)
    requires m <= |payload|
    ensures UpToNul(payload[..m]) == payload <==> m == |payload| && 0 !in payload
  {
    UpToNulIsAll(payload[..m]);
    if m == |payload| { assert payload[..m] == payload; }
  }

  /** On texts: what comes back is the text up to its first NUL character. */
  lemma TextComesBack(pixels: seq<Pixel>, text: seq<Scalar>)
    requires text != [] && |Encode(text)| < Pow2(29) && Embedded(pixels, Encode(text)).Ok?
    ensures ExtractedText(Embedded(pixels, Encode(text)).value) == Ok(TextUpToNul(text))
  {
    var bytes := Encode(text);
    ExtractAfterEmbed(pixels, bytes);
    AnnouncedAtMost(|bytes|);
    assert bytes == EncodeOne(text[0]) + Encode(text[1..]) && |bytes| > 0;
    assert bytes[..|bytes|] == bytes;
    NulCutsText(text);
    ReplacingUndoesEncode(TextUpToNul(text));
  }

  /** A text whose encoding is too long for the prefix does not come back whole. */
  lemma LongTextIsCut(pixels: seq<Pixel>, text: seq<Scalar>)
    requires |Encode(text)| >= Pow2(29) && Embedded(pixels, Encode(text)).Ok?
    ensures ExtractedText(Embedded(pixels, Encode(text)).value) != Ok(text)
  {
    hide Encode, DecodeReplacing, Embedded, Extracted;
    var bytes := Encode(text);
    ExtractAfterEmbed(pixels, bytes);
    var m := AnnouncedBytes(bytes);
    LongIsFarCut(|bytes|);
    if m > 0 {
      var cut := UpToNul(bytes[..m]);
      UpToNulIsAll(bytes[..m]);
      assert cut == bytes[..m][..|cut|] == bytes[..|cut|];
      CutTextIsShorter(text, |cut|);
    }
  }

  lemma LongIsFarCut(n: nat)
    requires n >= Pow2(29)
    ensures n % Pow2(29) + 4 <= n
  {
    assert Pow2(29) == 2 * Pow2(28) && Pow2(28) == 2 * Pow2(27);
    RemainderDrops(n, Pow2(29));
  }

  lemma RemainderDrops(n: nat, d: nat)
    requires 0 < d <= n
    ensures n % d + d <= n
  {
    var k := n - d;
    var q, r := k / d, k % d;
    assert k == q * d + r;
    assert n == (q + 1) * d + r;
    UniqueRemainder(n, d, q + 1, r);
    QuotientNonNegative(k, d);
    ProductNonNegative(q, d);
  }

  /** A text comes back whole exactly when it is not empty, has no NUL character, and its encoding is
      shorter than 2^29 bytes. */
  lemma WholeTextComesBackExactlyWhen(pixels: seq<Pixel>, text: seq<Scalar>)
    requires Embedded(pixels, Encode(text)).Ok?
    ensures ExtractedText(Embedded(pixels, Encode(text)).value) == Ok(text) <==>
      text != [] && 0 !in text && |Encode(text)| < Pow2(29)
  {
    if |Encode(text)| >= Pow2(29) {
      LongTextIsCut(pixels, text);
    } else if text == [] {
      ExtractAfterEmbed(pixels, []);
      AnnouncedAtMost(0);
    } else {
      TextComesBack(pixels, text);
      TextUpToNulIsAll(text);
    }
  }

  /** Embedding changes nothing but the low red bits of the pixels that carry a bit. */
  lemma OnlyLowRedBitsChange(pixels: seq<Pixel>, payload: seq<Byte>, i: nat)
    requires Embedded(pixels, payload).Ok? && i < |pixels|
    ensures var out := Embedded(pixels, payload).value;
      && |out| == |pixels|
      && out[i].g == pixels[i].g && out[i].b == pixels[i].b && out[i].r / 2 == pixels[i].r / 2
      && (i >= LENGTH_BITS + 8 * |payload| ==> out[i] == pixels[i])
  {
    BitsOfBytesLength(payload);
    if i < |AllBits(payload)| { HalfUnchanged(pixels[i].r, AllBits(payload)[i]); }
  }

  lemma HalfUnchanged(r: Channel, b: Bit)
    ensures (r - r % 2 + b) / 2 == r / 2
  {
  }

  /** An image of fewer than 32 pixels is always rejected, by both directions. */
  lemma SmallImagesAreRejected(pixels: seq<Pixel>, payload: seq<Byte>)
    requires |pixels| < LENGTH_BITS
    ensures Embedded(pixels, payload) == Err(PayloadTooLarge)
    ensures Extracted(pixels).Err?
  {
  }

  // ----- any image at all

  /** The number written in the low red bits of some pixels, most significant bit first. */
  function Written(pixels: seq<Pixel>): nat
    decreases |pixels|
  {
    if pixels == [] then 0 else 2 * Written(pixels[..|pixels| - 1]) + pixels[|pixels| - 1].r % 2
  }

  lemma {:induction false} NumberAppend(bs: seq<Bit>, b: Bit)
    ensures NumberOf(bs + [b]) == 2 * NumberOf(bs) + b
  {
    if bs == [] {
      assert bs + [b] == [b] && [b][1..] == [] && Pow2(0) == 1;
    } else {
      assert (bs + [b])[1..] == bs[1..] + [b];
      NumberAppend(bs[1..], b);
      Regroup(bs[0], Pow2(|bs| - 1));
    }
  }

  lemma {:induction false} WrittenIsNumber(pixels: seq<Pixel>)
    ensures NumberOf(LowBits(pixels)) == Written(pixels)
    decreases |pixels|
  {
    if pixels != [] {
      var init, last := pixels[..|pixels| - 1], pixels[|pixels| - 1];
      WrittenIsNumber(init);
      assert LowBits(pixels) == LowBits(init) + [last.r % 2];
      NumberAppend(LowBits(init), last.r % 2);
    }
  }

  lemma LowBitsSlice(pixels: seq<Pixel>, i: nat, j: nat)
    requires i <= j <= |pixels|
    ensures LowBits(pixels)[i..j] == LowBits(pixels[i..j])
  {
  }

  lemma PrefixIsWritten(pixels: seq<Pixel>)
    requires |pixels| >= LENGTH_BITS
    ensures Prefix(LowBits(pixels)) == Written(pixels[..LENGTH_BITS])
  {
    LowBitsSlice(pixels, 0, LENGTH_BITS);
    WrittenIsNumber(pixels[..LENGTH_BITS]);
    assert LowBits(pixels)[..LENGTH_BITS] == LowBits(pixels)[0..LENGTH_BITS];
    assert Pow2(0) == 1;
  }

  /** Extraction succeeds exactly when there are 32 pixels, the number written in them is positive, and
      there are as many pixels after them. Otherwise it fails, and from 32 pixels on the error names
      the number. */
  lemma ExtractionSucceedsExactlyWhen(pixels: seq<Pixel>)
    ensures Extracted(pixels).Ok? <==>
      |pixels| >= LENGTH_BITS && 0 < Written(pixels[..LENGTH_BITS]) <= |pixels| - LENGTH_BITS
    ensures Extracted(pixels).Err? && |pixels| >= LENGTH_BITS ==>
      Extracted(pixels) == Err(InvalidLength(Written(pixels[..LENGTH_BITS])))
    ensures ExtractedText(pixels).Ok? <==> Extracted(pixels).Ok?
    ensures Extracted(pixels).Err? ==> ExtractedText(pixels).Err? && ExtractedText(pixels).error == Extracted(pixels).error
  {
    if |pixels| >= LENGTH_BITS { PrefixIsWritten(pixels); }
  }

  lemma {:induction false} GroupsOfEight(bits: seq<Bit>)
    ensures |BytesOfBits(bits)| == |bits| / 8
    ensures forall k :: 0 <= k < |bits| / 8 ==> BytesOfBits(bits)[k] == NumberOf(bits[8 * k..8 * k + 8])
    decreases |bits|
  {
    if |bits| >= 8 {
      var rest := bits[8..];
      GroupsOfEight(rest);
      assert |rest| / 8 == |bits| / 8 - 1;
      forall k | 0 <= k < |bits| / 8 ensures BytesOfBits(bits)[k] == NumberOf(bits[8 * k..8 * k + 8]) {
        if k > 0 {
          assert rest[8 * (k - 1)..8 * (k - 1) + 8] == bits[8 * k..8 * k + 8];
        }
      }
    }
  }

  /** What is read from any image: the bytes written in whole groups of eight pixels after the first
      32, as many as the number there allows, up to the first that is zero. */
  ghost predicate BytesWritten(pixels: seq<Pixel>, bytes: seq<Byte>)
    requires |pixels| >= LENGTH_BITS + 8 * |bytes|
  {
    forall k :: 0 <= k < |bytes| ==> bytes[k] == Written(pixels[LENGTH_BITS + 8 * k..LENGTH_BITS + 8 * k + 8])
  }

  lemma ExtractionReadsWhatIsWritten(pixels: seq<Pixel>) returns (bytes: seq<Byte>)
    requires Extracted(pixels).Ok?
    ensures |pixels| >= LENGTH_BITS && |bytes| == Written(pixels[..LENGTH_BITS]) / 8
    ensures |pixels| >= LENGTH_BITS + 8 * |bytes| && BytesWritten(pixels, bytes)
    ensures Extracted(pixels) == Ok(UpToNul(bytes)) && ExtractedText(pixels) == Ok(DecodeReplacing(UpToNul(bytes)))
  {
    ExtractionSucceedsExactlyWhen(pixels);
    PrefixIsWritten(pixels);
    var n := Written(pixels[..LENGTH_BITS]);
    var bits := LowBits(pixels)[LENGTH_BITS..LENGTH_BITS + n];
    bytes := BytesOfBits(bits);
    GroupsOfEight(bits);
    forall k | 0 <= k < |bytes|
      ensures bytes[k] == Written(pixels[LENGTH_BITS + 8 * k..LENGTH_BITS + 8 * k + 8])
    {
      var i := LENGTH_BITS + 8 * k;
      assert bits[8 * k..8 * k + 8] == LowBits(pixels)[i..i + 8];
      LowBitsSlice(pixels, i, i + 8);
      WrittenIsNumber(pixels[i..i + 8]);
    }
  }

  /** Embedding fails exactly when the prefix and eight pixels a byte do not fit. */
  lemma EmbeddingFailsExactlyWhen(pixels: seq<Pixel>, payload: seq<Byte>)
    ensures Embedded(pixels, payload).Err? <==> |pixels| < LENGTH_BITS + 8 * |payload|
    ensures Embedded(pixels, payload).Err? ==> Embedded(pixels, payload) == Err(PayloadTooLarge)
  {
    BitsOfBytesLength(payload);
  }
}
