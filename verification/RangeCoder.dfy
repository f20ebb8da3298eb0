/** The adaptive binary range decoder of LzmaDecode.c: the macros RC_INIT2, RC_NORMALIZE, IfBit0,
    UpdateBit0 and UpdateBit1, and the direct-bit loop body, as functions on values. */
module RangeCoder {
  import opened Words

  const TOP_VALUE := 0x100_0000      // kTopValue
  const MIN_RANGE := 253952          // 31 * 2^13, the least Range any bit can leave

  /** An adaptive probability: the chance, out of 2048, that the next bit is 0. */
  type Prob = p: int | 31 <= p <= 2017 witness 1024

  /** Range, Code, the Probs array and the input bytes not yet consumed. */
  datatype Coder = Coder(range: Word, code: Word, probs: seq<Prob>, input: seq<Byte>)

  /** The result of decoding a `T`, or the DATA_ERROR of RC_TEST when the input has run out. */
  datatype Decoded<+T> = NoInput | Got(rc: Coder, value: T) {
    predicate IsFailure() { NoInput? }
    function PropagateFailure<U>(): Decoded<U> requires NoInput? { NoInput }
    function Extract(): (Coder, T) requires Got? { (rc, value) }
  }

  /** RC_INIT2: Range is all ones and Code takes the first five bytes, the first one shifted out. */
  function Start(probs: seq<Prob>, input: seq<Byte>): Decoded<()> {
    if |input| < 5 then NoInput
    else Got(Coder(U32 - 1, Value(input[..5]) % U32, probs, input[5..]), ())
  }

  /** The big-endian value of a byte string. */
  function Value(s: seq<Byte>): nat {
    if s == [] then 0 else Value(s[..|s| - 1]) * 256 + s[|s| - 1]
  }

  /** RC_TEST fails inside RC_NORMALIZE. */
  predicate Starved(rc: Coder) {
    rc.range < TOP_VALUE && rc.input == []
  }

  /** RC_NORMALIZE when its RC_TEST succeeds. */
  function Normalized(rc: Coder): Coder {
    if rc.range < TOP_VALUE && rc.input != [] then
      Coder(rc.range * 256, (rc.code * 256 + rc.input[0]) % U32, rc.probs, rc.input[1..])
    else rc
  }

  /** `(Range >> 11) * p`: the two halves it cuts Range into are both at least 31/2048 of it. */
  function Bound(range: Word, p: Prob): (bound: Word)
    ensures 31 * (range / 2048) <= bound <= range - 31 * (range / 2048)
  {
    assert 31 * (range / 2048) <= range / 2048 * p <= 2017 * (range / 2048) by {
      MulMonotone(31, p, range / 2048);
      MulMonotone(p, 2017, range / 2048);
    }
    range / 2048 * p
  }

  /** UpdateBit0 and UpdateBit1 on a probability. */
  function Adapt(p: Prob, bit: Bit): Prob {
    if bit == 0 then p + (2048 - p) / 32 else p - p / 32
  }

  /** The bound is Range times the probability of a 0, a fraction of 2048, less than `p` below it. */
  lemma BoundIsShare(range: Word, p: Prob)
    ensures 2048 * Bound(range, p) <= range * p < 2048 * (Bound(range, p) + p)
  {
    var q, r := range / 2048, range % 2048;
    assert Bound(range, p) == q * p;
    ShareParts(q, r, p);
    MulMonotone(r + 1, 2048, p);
    hide Bound;
  }

  lemma ShareParts(q: int, r: int, p: int)
    ensures (2048 * q + r) * p == 2048 * (q * p) + r * p
    ensures (r + 1) * p == r * p + p
  {
    MulAssoc(2048, q, p);
  }

  /** A bit moves its probability by a 32nd of the way, rounded down: a 0 towards 2048, a 1 towards 0. */
  lemma AdaptMoves(p: Prob)
    ensures 32 * (Adapt(p, 0) - p) <= 2048 - p < 32 * (Adapt(p, 0) - p) + 32
    ensures 32 * (p - Adapt(p, 1)) <= p < 32 * (p - Adapt(p, 1)) + 32
  {
  }

  /** IfBit0 with its update branch. A context outside the array is never asked for. */
  function DecodeBit(rc: Coder, ctx: nat): Decoded<Bit> {
    if Starved(rc) || ctx >= |rc.probs| then NoInput else SplitRange(Normalized(rc), ctx)
  }

  /** Compare Code with the bound, keep the half it lies in, and adapt. */
  function SplitRange(n: Coder, ctx: nat): Decoded<Bit>
    requires ctx < |n.probs|
  {
    var bound := Bound(n.range, n.probs[ctx]);
    if n.code < bound then
      Got(Coder(bound, n.code, n.probs[ctx := Adapt(n.probs[ctx], 0)], n.input), 0)
    else
      Got(Coder(n.range - bound, n.code - bound, n.probs[ctx := Adapt(n.probs[ctx], 1)], n.input), 1)
  }

  /** One turn of the direct-bit loop. */
  function DecodeDirect(rc: Coder): Decoded<Bit> {
    if Starved(rc) then NoInput
    else
      var n := Normalized(rc);
      var half := n.range / 2;
      if n.code >= half then Got(n.(range := half, code := n.code - half), 1)
      else Got(n.(range := half), 0)
  }

  /** A finite list of bits to be coded, each with its context or as a direct bit. */
  datatype Requests =
    | Done
    | Ask(ctx: nat, bit: Bit, rest: Requests)
    | AskDirect(bit: Bit, rest: Requests)

  /** The coder after decoding exactly these bits, or None where the input disagrees or runs out. */
  function Answer(rc: Coder, rs: Requests): Option<Coder>
    decreases rs
  {
    match rs
    case Done => Some(rc)
    case Ask(ctx, bit, rest) =>
      var d := DecodeBit(rc, ctx);
      if d.Got? && d.value == bit then Answer(d.rc, rest) else None
    case AskDirect(bit, rest) =>
      var d := DecodeDirect(rc);
      if d.Got? && d.value == bit then Answer(d.rc, rest) else None
  }

  /** Go on with `rest` if the symbol just decoded was the expected one. */
  function Then<T(==)>(d: Decoded<T>, expected: T, rest: Requests): Option<Coder> {
    if d.Got? && d.value == expected then Answer(d.rc, rest) else None
  }

  /** Every context lies inside the probability array. */
  predicate Fits(rs: Requests, size: nat) {
    match rs
    case Done => true
    case Ask(ctx, _, rest) => ctx < size && Fits(rest, size)
    case AskDirect(_, rest) => Fits(rest, size)
  }

  ghost predicate Live(range: Word) {
    range >= MIN_RANGE
  }

  /** Range and probability bounds for one bit of any input. */
  lemma BitStaysLive(rc: Coder, ctx: nat)
    requires Live(rc.range) && DecodeBit(rc, ctx).Got?
    ensures var n := Normalized(rc); var bound := Bound(n.range, n.probs[ctx]);
      && TOP_VALUE <= n.range < U32
      && 0 < bound < n.range
      && Live(DecodeBit(rc, ctx).rc.range)
  {
  }

  /** Range stays at least 31 * 2^13 in every run on every input. */
  lemma {:induction false} RunStaysLive(rc: Coder, rs: Requests)
    requires Live(rc.range) && Answer(rc, rs).Some?
    ensures Live(Answer(rc, rs).value.range)
    ensures |Answer(rc, rs).value.probs| == |rc.probs|
    decreases rs
  {
    match rs
    case Done =>
    case Ask(ctx, bit, rest) => BitStaysLive(rc, ctx); RunStaysLive(DecodeBit(rc, ctx).rc, rest);
    case AskDirect(bit, rest) => RunStaysLive(DecodeDirect(rc).rc, rest);
  }
}
