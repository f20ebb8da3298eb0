/** A reference range encoder over unbounded integers, and the two facts that tie the decoder to it:
    whatever it encodes is decoded bit by bit, and whatever the decoder reads from any input is what
    the encoder would have encoded, for as long as Code < Range. */
module RangeEncoder {
  import opened Words
  import opened RangeCoder

  /** The interval [low, low + range), scaled by 256 once for every byte shifted out. */
  datatype Encoder = Encoder(low: nat, range: Word, shifts: nat, probs: seq<Prob>)

  function EncStart(probs: seq<Prob>): Encoder {
    Encoder(0, U32 - 1, 0, probs)
  }

  function EncNormalize(e: Encoder): Encoder {
    if e.range < TOP_VALUE then Encoder(e.low * 256, e.range * 256, e.shifts + 1, e.probs) else e
  }

  function EncBit(e: Encoder, ctx: nat, bit: Bit): Encoder
    requires ctx < |e.probs|
  {
    var n := EncNormalize(e);
    var bound := Bound(n.range, n.probs[ctx]);
    var probs := n.probs[ctx := Adapt(n.probs[ctx], bit)];
    if bit == 0 then n.(range := bound, probs := probs)
    else n.(low := n.low + bound, range := n.range - bound, probs := probs)
  }

  function EncDirect(e: Encoder, bit: Bit): Encoder {
    var n := EncNormalize(e);
    n.(low := n.low + bit * (n.range / 2), range := n.range / 2)
  }

  function EncodeAll(e: Encoder, rs: Requests): Encoder
    requires Fits(rs, |e.probs|)
    decreases rs
  {
    match rs
    case Done => e
    case Ask(ctx, bit, rest) => EncodeAll(EncBit(e, ctx, bit), rest)
    case AskDirect(bit, rest) => EncodeAll(EncDirect(e, bit), rest)
  }

  /** The last interval, after the decoder's closing RC_NORMALIZE. */
  function Final(probs: seq<Prob>, rs: Requests): Encoder
    requires Fits(rs, |probs|)
  {
    EncNormalize(EncodeAll(EncStart(probs), rs))
  }

  /** The low `n` bytes of `v`, most significant first. */
  function BigEndian(v: nat, n: nat): (s: seq<Byte>)
    ensures |s| == n
  {
    if n == 0 then [] else BigEndian(v / 256, n - 1) + [v % 256]
  }

  /** The code bytes: the final `low`, after one byte the decoder shifts out. */
  function Encode(probs: seq<Prob>, rs: Requests): seq<Byte>
    requires Fits(rs, |probs|)
  {
    var e := Final(probs, rs);
    BigEndian(e.low, e.shifts + 4)
  }

  /** The code bytes `s` select a number inside the interval of `e`. */
  ghost predicate Selects(e: Encoder, s: seq<Byte>) {
    && |s| >= 4 + e.shifts
    && e.low <= Value(s[..4 + e.shifts]) < e.low + e.range
  }

  /** The decoder that has consumed as much of `s` as `e` has shifted out: Code is V - Low. */
  ghost function DecoderAt(e: Encoder, s: seq<Byte>): (rc: Coder)
    requires Selects(e, s)
    ensures rc.code < rc.range
  {
    Coder(e.range, Value(s[..4 + e.shifts]) - e.low, e.probs, s[4 + e.shifts..])
  }

  lemma ValueSnoc(s: seq<Byte>, n: nat)
    requires n < |s|
    ensures Value(s[..n + 1]) == Value(s[..n]) * 256 + s[n]
  {
    assert s[..n + 1][..n] == s[..n];
  }

  /** One conditional byte shift always restores Range, and stays inside 32 bits. */
  lemma NormalizeRestores(e: Encoder)
    requires Live(e.range)
    ensures TOP_VALUE <= EncNormalize(e).range
  {
  }

  lemma NormalizeNests(e: Encoder, s: seq<Byte>)
    requires Selects(EncNormalize(e), s)
    ensures Selects(e, s)
    ensures !Starved(DecoderAt(e, s))
    ensures Normalized(DecoderAt(e, s)) == DecoderAt(EncNormalize(e), s)
  {
    if e.range < TOP_VALUE {
      ValueSnoc(s, 4 + e.shifts);
      assert s[4 + e.shifts..][1..] == s[5 + e.shifts..];
    }
  }

  /** A decoder that starts inside the interval finds the next code byte wherever there is one. */
  lemma NormalizeTracks(e: Encoder, s: seq<Byte>)
    requires Selects(e, s) && !Starved(DecoderAt(e, s))
    ensures Selects(EncNormalize(e), s)
    ensures Normalized(DecoderAt(e, s)) == DecoderAt(EncNormalize(e), s)
  {
    if e.range < TOP_VALUE {
      ValueSnoc(s, 4 + e.shifts);
      assert s[4 + e.shifts..][1..] == s[5 + e.shifts..];
    }
  }

  /** Every coded bit leaves a non-empty interval nested in the one before. */
  lemma BitInterval(e: Encoder, ctx: nat, bit: Bit)
    requires ctx < |e.probs| && Live(e.range)
    ensures Inside(EncBit(e, ctx, bit), EncNormalize(e)) && Live(EncBit(e, ctx, bit).range)
  {
    NormalizeRestores(e);
  }

  lemma DirectInterval(e: Encoder, bit: Bit)
    requires Live(e.range)
    ensures Inside(EncDirect(e, bit), EncNormalize(e)) && Live(EncDirect(e, bit).range)
  {
    NormalizeRestores(e);
    var half := EncNormalize(e).range / 2;
    assert bit * half == if bit == 0 then 0 else half;
  }

  ghost predicate Inside(inner: Encoder, outer: Encoder) {
    && inner.shifts == outer.shifts
    && |inner.probs| == |outer.probs|
    && outer.low <= inner.low
    && inner.low + inner.range <= outer.low + outer.range
  }

  /** The decoder reads the bit the encoder wrote, and stays in step with it. */
  lemma BitNests(e: Encoder, ctx: nat, bit: Bit, s: seq<Byte>)
    requires ctx < |e.probs| && Live(e.range)
    requires Selects(EncBit(e, ctx, bit), s)
    ensures Selects(e, s)
    ensures DecodeBit(DecoderAt(e, s), ctx) == Got(DecoderAt(EncBit(e, ctx, bit), s), bit)
  {
    hide Value;
    BitInterval(e, ctx, bit);
    NormalizeNests(e, s);
  }

  lemma DirectNests(e: Encoder, bit: Bit, s: seq<Byte>)
    requires Live(e.range)
    requires Selects(EncDirect(e, bit), s)
    ensures Selects(e, s)
    ensures DecodeDirect(DecoderAt(e, s)) == Got(DecoderAt(EncDirect(e, bit), s), bit)
  {
    hide Value;
    DirectInterval(e, bit);
    NormalizeNests(e, s);
  }

  lemma {:induction false} IntervalsNest(e: Encoder, rs: Requests, s: seq<Byte>)
    requires Live(e.range) && Fits(rs, |e.probs|)
    requires Selects(EncodeAll(e, rs), s)
    ensures Selects(e, s)
    ensures Answer(DecoderAt(e, s), rs) == Some(DecoderAt(EncodeAll(e, rs), s))
    decreases rs
  {
    match rs
    case Done =>
    case Ask(ctx, bit, rest) =>
      BitInterval(e, ctx, bit);
      IntervalsNest(EncBit(e, ctx, bit), rest, s);
      BitNests(e, ctx, bit, s);
    case AskDirect(bit, rest) =>
      DirectInterval(e, bit);
      IntervalsNest(EncDirect(e, bit), rest, s);
      DirectNests(e, bit, s);
  }

  function Pow256(n: nat): nat {
    if n == 0 then 1 else 256 * Pow256(n - 1)
  }

  lemma {:induction false} BigEndianValue(v: nat, n: nat)
    requires v < Pow256(n)
    ensures Value(BigEndian(v, n)) == v
  {
    if n > 0 {
      BigEndianValue(v / 256, n - 1);
      var s := BigEndian(v, n);
      assert s[..|s| - 1] == BigEndian(v / 256, n - 1);
    }
  }

  /** The interval never leaves [0, 256^(4 + shifts)), so `low` fits its code bytes without a carry. */
  lemma {:induction false} LowFits(e: Encoder, rs: Requests)
    requires Live(e.range) && Fits(rs, |e.probs|)
    requires e.low + e.range <= Pow256(4 + e.shifts)
    ensures var f := EncodeAll(e, rs);
      f.low + f.range <= Pow256(4 + f.shifts) && Live(f.range)
    decreases rs
  {
    hide EncBit, EncDirect;
    match rs
    case Done =>
    case Ask(ctx, bit, rest) =>
      BitInterval(e, ctx, bit);
      LowFits(EncBit(e, ctx, bit), rest);
    case AskDirect(bit, rest) =>
      DirectInterval(e, bit);
      LowFits(EncDirect(e, bit), rest);
  }

  lemma FinalFits(probs: seq<Prob>, rs: Requests)
    requires Fits(rs, |probs|)
    ensures var f := Final(probs, rs);
      f.low + f.range <= Pow256(4 + f.shifts) && f.range > 0
  {
    hide EncodeAll;
    assert Pow256(4) == U32 by {
      assert Pow256(2) == 65536;
    }
    LowFits(EncStart(probs), rs);
  }

  lemma EncodeSelects(probs: seq<Prob>, rs: Requests, tail: seq<Byte>)
    requires Fits(rs, |probs|)
    ensures Selects(Final(probs, rs), Encode(probs, rs) + tail)
    ensures var f := Final(probs, rs);
      DecoderAt(f, Encode(probs, rs) + tail) == Coder(f.range, 0, f.probs, tail)
  {
    hide Final, Pow256, BigEndian, Value;
    FinalFits(probs, rs);
    var s, f := Encode(probs, rs) + tail, Final(probs, rs);
    BigEndianValue(f.low, 4 + f.shifts);
    assert s[..4 + f.shifts] == Encode(probs, rs) && s[4 + f.shifts..] == tail;
  }

  lemma {:induction false} ValueUpTo(s: seq<Byte>, n: nat)
    requires n <= |s|
    ensures Value(s[..n]) == if n == 0 then 0 else Value(s[..n - 1]) * 256 + s[n - 1]
  {
    hide Value;
    if n == 0 {
      assert s[..0] == [];
      ValueOfNothing();
    } else {
      ValueSnoc(s, n - 1);
    }
  }

  lemma ValueOfNothing()
    ensures Value([]) == 0
  {
  }

  lemma ValueOfFour(s: seq<Byte>)
    requires |s| >= 4
    ensures Value(s[..4]) == s[0] as int * 0x100_0000 + s[1] as int * 0x1_0000 + s[2] as int * 0x100 + s[3] < U32
  {
    hide Value;
    ValueUpTo(s, 0);
    ValueUpTo(s, 1);
    ValueUpTo(s, 2);
    ValueUpTo(s, 3);
    ValueUpTo(s, 4);
  }

  lemma ValueOfFive(s: seq<Byte>)
    requires |s| >= 5
    ensures Value(s[..5]) % U32 == Value(s[1..][..4])
  {
    hide Value;
    ValueOfFour(s);
    ValueUpTo(s, 5);
    ValueOfFour(s[1..]);
  }

  lemma StartSplits(first: Byte, probs: seq<Prob>, s: seq<Byte>)
    requires |s| >= 4
    ensures Value(s[..4]) < U32
    ensures Start(probs, [first] + s) == Got(Coder(U32 - 1, Value(s[..4]), probs, s[4..]), ())
  {
    hide Value;
    var whole := [first] + s;
    assert whole[1..] == s && whole[5..] == s[4..];
    ValueOfFour(s);
    ValueOfFive(whole);
  }

  /** Round trip: for every list of adaptive and direct bits, over any contexts, any first byte and
      anything after the code bytes, the decoder reads exactly that list, has consumed exactly the
      code bytes after its closing RC_NORMALIZE, and has adapted every probability as the encoder
      did. */
  lemma RoundTrip(first: Byte, probs: seq<Prob>, rs: Requests, tail: seq<Byte>)
    requires Fits(rs, |probs|)
    ensures var start := Start(probs, [first] + Encode(probs, rs) + tail);
      && start.Got?
      && var end := Answer(start.rc, rs);
      && end.Some?
      && !Starved(end.value)
      && Normalized(end.value) == Coder(Final(probs, rs).range, 0, Final(probs, rs).probs, tail)
  {
    var s := Encode(probs, rs) + tail;
    assert [first] + Encode(probs, rs) + tail == [first] + s;
    EncodeSelects(probs, rs, tail);
    StreamDecodes(first, probs, rs, s);
  }

  /** Any code bytes inside the final interval, not just its base, decode to the same bits. */
  lemma StreamDecodes(first: Byte, probs: seq<Prob>, rs: Requests, s: seq<Byte>)
    requires Fits(rs, |probs|) && Selects(Final(probs, rs), s)
    ensures var start := Start(probs, [first] + s);
      && start.Got?
      && var end := Answer(start.rc, rs);
      && end.Some?
      && !Starved(end.value)
      && Normalized(end.value) == DecoderAt(Final(probs, rs), s)
  {
    hide Value, Answer, EncodeAll, EncNormalize, Starved, Normalized;
    var e0 := EncStart(probs);
    NormalizeNests(EncodeAll(e0, rs), s);
    IntervalsNest(e0, rs, s);
    StartSplits(first, probs, s);
  }

  /** On any input, an adaptive bit decoded while Code < Range keeps Code = V - Low, with Low the base
      the encoder reaches by coding the same bit. */
  lemma BitStaysExact(e: Encoder, s: seq<Byte>, ctx: nat)
    requires Selects(e, s) && DecodeBit(DecoderAt(e, s), ctx).Got?
    ensures var d := DecodeBit(DecoderAt(e, s), ctx);
      && Selects(EncBit(e, ctx, d.value), s)
      && d.rc == DecoderAt(EncBit(e, ctx, d.value), s)
  {
    NormalizeTracks(e, s);
  }

  /** The one way a direct bit can lose Code < Range. */
  predicate Slips(rc: Coder) {
    var n := Normalized(rc);
    n.range % 2 == 1 && n.code == n.range - 1
  }

  /** A direct bit keeps Code < Range, and with it Code = V - Low, exactly unless Range is odd and Code
      is Range - 1; then it leaves Code == Range. */
  lemma DirectStaysExact(e: Encoder, s: seq<Byte>)
    requires Selects(e, s) && DecodeDirect(DecoderAt(e, s)).Got?
    ensures var rc := DecoderAt(e, s); var d := DecodeDirect(rc);
      && (d.rc.code < d.rc.range <==> !Slips(rc))
      && (Slips(rc) ==> d.rc.code == d.rc.range)
      && (!Slips(rc) ==> Selects(EncDirect(e, d.value), s) && d.rc == DecoderAt(EncDirect(e, d.value), s))
  {
    NormalizeTracks(e, s);
    assert forall bit: Bit :: bit * (EncNormalize(e).range / 2) == if bit == 0 then 0 else EncNormalize(e).range / 2;
  }

  /** Whatever has been read before, the next direct bit slips if and only if the interval has come out odd
      and the code bytes name its last number; so every odd interval has exactly one code that slips. */
  lemma LastNumberSlips(first: Byte, probs: seq<Prob>, rs: Requests, s: seq<Byte>)
    requires Fits(rs, |probs|) && Selects(Final(probs, rs), s)
    ensures var start, f := Start(probs, [first] + s), Final(probs, rs);
      && start.Got? && Answer(start.rc, rs).Some?
      && var rc := Answer(start.rc, rs).value;
      && DecodeDirect(rc).Got?
      && (Slips(rc) <==> f.range % 2 == 1 && Value(s[..4 + f.shifts]) == LastNumber(f))
      && (DecodeDirect(rc).rc.code == DecodeDirect(rc).rc.range <==> Slips(rc))
  {
    hide Answer, Final, Value;
    StreamDecodes(first, probs, rs, s);
  }

  /** The last number of an interval, and the code bytes that name it. */
  function LastNumber(f: Encoder): nat
    requires f.range > 0
  {
    f.low + f.range - 1
  }

  lemma LastNumberSelects(probs: seq<Prob>, rs: Requests)
    requires Fits(rs, |probs|)
    ensures var f := Final(probs, rs);
      && f.range > 0
      && var s := BigEndian(LastNumber(f), 4 + f.shifts);
         Selects(f, s) && Value(s[..4 + f.shifts]) == LastNumber(f)
  {
    hide Final, Pow256, BigEndian, Value;
    FinalFits(probs, rs);
    var f := Final(probs, rs);
    var s := BigEndian(LastNumber(f), 4 + f.shifts);
    BigEndianValue(LastNumber(f), 4 + f.shifts);
    assert s[..4 + f.shifts] == s;
  }

  /** The bare coder slips at once when a direct bit is the first bit asked for and the code bytes are
      FF FF FF FE. LzmaDecode asks for adaptive bits first. */
  lemma SlipExample(probs: seq<Prob>, first: Byte)
    ensures var start := Start(probs, [first, 255, 255, 255, 254]);
      start.Got? && start.rc.code < start.rc.range && DecodeDirect(start.rc).Got?
      && DecodeDirect(start.rc).rc.code == DecodeDirect(start.rc).rc.range
  {
    var s: seq<Byte> := [255, 255, 255, 254];
    assert [first] + s == [first, 255, 255, 255, 254];
    StartSplits(first, probs, s);
    ValueSnoc(s, 3); ValueSnoc(s, 2); ValueSnoc(s, 1); ValueSnoc(s, 0);
    assert Value(s[..4]) == 0xFFFF_FFFE;
  }

  /** None of the direct bits of this run slips. */
  predicate NeverSlips(rc: Coder, rs: Requests)
    decreases rs
  {
    match rs
    case Done => true
    case Ask(ctx, bit, rest) => DecodeBit(rc, ctx).Got? ==> NeverSlips(DecodeBit(rc, ctx).rc, rest)
    case AskDirect(bit, rest) =>
      !Slips(rc) && (DecodeDirect(rc).Got? ==> NeverSlips(DecodeDirect(rc).rc, rest))
  }

  /** Exact arithmetic over whole runs of the decoder on arbitrary input: whatever bits it reads, its
      state is the encoder's state for those bits, until a direct bit slips. */
  lemma {:induction false} RunStaysExact(e: Encoder, s: seq<Byte>, rs: Requests)
    requires Selects(e, s) && Fits(rs, |e.probs|)
    requires Answer(DecoderAt(e, s), rs).Some? && NeverSlips(DecoderAt(e, s), rs)
    ensures Selects(EncodeAll(e, rs), s)
    ensures Answer(DecoderAt(e, s), rs) == Some(DecoderAt(EncodeAll(e, rs), s))
    decreases rs
  {
    match rs
    case Done =>
    case Ask(ctx, bit, rest) =>
      BitStaysExact(e, s, ctx);
      RunStaysExact(EncBit(e, ctx, bit), s, rest);
    case AskDirect(bit, rest) =>
      DirectStaysExact(e, s);
      RunStaysExact(EncDirect(e, bit), s, rest);
  }

  /** The encoder's own streams never slip, at any direct bit. */
  lemma {:induction false} EncodedNeverSlips(e: Encoder, rs: Requests, s: seq<Byte>)
    requires Live(e.range) && Fits(rs, |e.probs|)
    requires Selects(EncodeAll(e, rs), s)
    ensures Selects(e, s) && NeverSlips(DecoderAt(e, s), rs)
    decreases rs
  {
    IntervalsNest(e, rs, s);
    match rs
    case Done =>
    case Ask(ctx, bit, rest) =>
      BitInterval(e, ctx, bit);
      EncodedNeverSlips(EncBit(e, ctx, bit), rest, s);
      BitNests(e, ctx, bit, s);
    case AskDirect(bit, rest) =>
      DirectInterval(e, bit);
      EncodedNeverSlips(EncDirect(e, bit), rest, s);
      DirectNests(e, bit, s);
      DirectStaysExact(e, s);
  }

  /** A stream starts exact if and only if its first four code bytes are not all ones. */
  lemma StartExact(first: Byte, probs: seq<Prob>, s: seq<Byte>)
    requires |s| >= 4
    ensures var rc := Start(probs, [first] + s).rc;
      && (rc.code < rc.range <==> rc.code != 0xFFFF_FFFF)
      && (rc.code < rc.range <==> Selects(EncStart(probs), s))
      && (rc.code < rc.range ==> rc == DecoderAt(EncStart(probs), s))
  {
    StartSplits(first, probs, s);
  }
}
