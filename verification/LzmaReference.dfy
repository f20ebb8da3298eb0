/** What a packet list means, said a second time without the decoder's registers: a list of distances, periodic
    copies and the kinds of the last few packets. The packet interpreter of LzmaStream agrees with it. */
module LzmaReference {
  import opened Words
  import opened RangeCoder
  import opened LzmaSymbols
  import opened LzmaPackets
  import opened LzmaMachine
  import opened LzmaStream
  import opened LzmaLayout
  import opened LzmaBits

  // Output and distances ----------------------------------------------------------------------------

  /** The output so far, and the distances to which a packet can refer, the latest first. */
  datatype Played = Played(out: seq<Byte>, reps: seq<nat>)

  /** `length` bytes more, periodic with `distance`; None for a distance that reaches beyond the output or the
      window. */
  function Again(out: seq<Byte>, distance: nat, length: nat, window: nat): Option<seq<Byte>> {
    if 1 <= distance <= Min(|out|, window) then
      Some(out + seq(length, k requires 0 <= k < length => out[|out| - distance + Rem(k, distance)]))
    else None
  }

  /** The packet list as LZ77: literals, new distances, and distances from the list of the last four, of which
      the one used moves to the front. */
  function Play(p: Played, ps: seq<Packet>, window: nat): Option<Played>
    requires |p.reps| == 4
    decreases |ps|
  {
    if ps == [] then Some(p)
    else
      var reps := p.reps;
      match ps[0]
      case Literal(value) => Play(Played(p.out + [value], reps), ps[1..], window)
      case ShortRep => PlayOn(Again(p.out, reps[0], 1, window), reps, ps, window)
      case Match(distance, length) =>
        if Encodable(ps[0]) then PlayOn(Again(p.out, distance, length, window), [distance] + reps[..3], ps, window)
        else None
      case Rep(i, length) =>
        if Encodable(ps[0]) then
          PlayOn(Again(p.out, reps[i], length, window), [reps[i]] + reps[..i] + reps[i + 1..], ps, window)
        else None
      case EndMarker(_) => None
  }

  function PlayOn(out: Option<seq<Byte>>, reps: seq<nat>, ps: seq<Packet>, window: nat): Option<Played>
    requires |reps| == 4 && ps != []
    decreases |ps|, 0
  {
    if out.None? then None else Play(Played(out.value, reps), ps[1..], window)
  }

  lemma CopyIsAgain(out: seq<Byte>, distance: nat, length: nat, window: nat)
    requires 1 <= distance <= Min(|out|, window)
    ensures Again(out, distance, length, window) == Some(Copy(out, distance, length))
  {
    hide Copy, Rem;
    var again := Again(out, distance, length, window).value;
    forall i | 0 <= i < |out| + length
      ensures Copy(out, distance, length)[i] == again[i]
    {
      if i < |out| {
        CopyKeeps(out, distance, length, i);
      } else {
        CopyRepeatsRem(out, distance, length, i - |out|);
      }
    }
    assert Copy(out, distance, length) == again;
  }

  /** One packet. */
  lemma PlayPacket(lz: Lz, ps: seq<Packet>, window: nat)
    requires LzOk(lz, window) && ps != [] && Encodable(ps[0])
    ensures var next := Apply(lz, ps[0], window);
      Play(Played(lz.out, Reps(lz)), ps, window) ==
      if next.None? then None else Play(Played(next.value.out, Reps(next.value)), ps[1..], window)
  {
    hide Copy, Again, LzOk;
    var pk := ps[0];
    RepsMoveToFront(lz, pk);
    DistanceUsed(lz, pk, window);
    if Apply(lz, pk, window).Some? {
      AppliedReps(lz, pk, window);
    }
  }

  lemma AppliedReps(lz: Lz, pk: Packet, window: nat)
    requires LzOk(lz, window) && Encodable(pk) && Apply(lz, pk, window).Some?
    ensures Reps(Apply(lz, pk, window).value) == Reps(NextReps(lz, pk))
  {
    hide Copy;
  }

  /** The bytes of a packet that copies: those the front of the new list says. */
  lemma DistanceUsed(lz: Lz, pk: Packet, window: nat)
    requires LzOk(lz, window) && Encodable(pk)
    ensures var next, distance := Apply(lz, pk, window), Reps(NextReps(lz, pk))[0];
      match pk
      case Literal(value) => next.Some? && next.value.out == lz.out + [value]
      case ShortRep => Again(lz.out, lz.rep0, 1, window) == if next.None? then None else Some(next.value.out)
      case Match(_, length) => Again(lz.out, distance, length, window) ==
        if next.None? then None else Some(next.value.out)
      case Rep(_, length) => Again(lz.out, distance, length, window) ==
        if next.None? then None else Some(next.value.out)
      case EndMarker(_) => next.None?
  {
    var distance := NextReps(lz, pk).rep0;
    if !pk.Literal? && !pk.EndMarker? && 1 <= distance <= Min(|lz.out|, window) {
      CopyIsAgain(lz.out, distance, if pk.ShortRep? then 1 else pk.length, window);
      if pk.ShortRep? {
        CopyOne(lz.out, distance);
      }
    }
    hide Copy;
  }

  lemma CopyOne(out: seq<Byte>, distance: nat)
    requires 1 <= distance <= |out|
    ensures Copy(out, distance, 1) == out + [out[|out| - distance]]
  {
    assert Copy(out + [out[|out| - distance]], distance, 0) == out + [out[|out| - distance]];
  }

  /** The packet interpreter is the reference: for every packet list, from every machine and over every
      window, the same bytes, the same distances, and a data error exactly together. */
  lemma {:induction false} ExpandIsPlay(lz: Lz, ps: seq<Packet>, window: nat)
    requires LzOk(lz, window)
    ensures Play(Played(lz.out, Reps(lz)), ps, window) ==
      match Expand(lz, ps, window)
      case None => None
      case Some(end) => Some(Played(end.out, Reps(end)))
    decreases |ps|
  {
    hide Apply, Reps, LzOk, Again;
    if ps != [] && Encodable(ps[0]) {
      PlayPacket(lz, ps, window);
      var next := Apply(lz, ps[0], window);
      if next.Some? {
        ExpandIsPlay(next.value, ps[1..], window);
      }
    }
  }

  // The state ---------------------------------------------------------------------------------------

  /** How many literals the list ends with. */
  function Literals(ps: seq<Packet>): (n: nat)
    ensures n <= |ps| && (n < |ps| ==> !ps[|ps| - 1 - n].Literal?)
    ensures forall i :: |ps| - n <= i < |ps| ==> ps[i].Literal?
  {
    if ps == [] || !ps[|ps| - 1].Literal? then 0 else 1 + Literals(ps[..|ps| - 1])
  }

  /** The state as a memory: the kind of the last packet that was not a literal, whether a literal came before
      it, and how many have come since; after three literals it has forgotten. */
  function StateAfter(ps: seq<Packet>): nat {
    var n := Literals(ps);
    if n >= 3 || n == |ps| then 0
    else
      var i := |ps| - 1 - n;
      var first := i == 0 || ps[i - 1].Literal?;
      match n
      case 0 => if ps[i].Match? then (if first then 7 else 10) else if !first then 11 else if ps[i].Rep? then 8 else 9
      case 1 => if ps[i].Match? then 4 else if first && ps[i].ShortRep? then 6 else 5
      case _ => if ps[i].Match? then 1 else if first && ps[i].ShortRep? then 3 else 2
  }

  lemma {:induction false} ExpandOneMore(lz: Lz, ps: seq<Packet>, pk: Packet, window: nat)
    requires LzOk(lz, window)
    ensures Expand(lz, ps + [pk], window) ==
      match Expand(lz, ps, window)
      case None => None
      case Some(mid) => if Encodable(pk) then Apply(mid, pk, window) else None
    decreases |ps|
  {
    hide Apply, LzOk;
    if ps == [] {
      assert [pk][1..] == [] && [] + [pk] == [pk];
    } else {
      assert (ps + [pk])[1..] == ps[1..] + [pk];
      if Encodable(ps[0]) && Apply(lz, ps[0], window).Some? {
        ExpandOneMore(Apply(lz, ps[0], window).value, ps[1..], pk, window);
      }
    }
  }

  /** One more packet, on either side. */
  lemma StateOneMore(ps: seq<Packet>, pk: Packet)
    requires !pk.EndMarker? && forall i :: 0 <= i < |ps| ==> !ps[i].EndMarker?
    ensures StateAfter(ps + [pk]) == NextState(StateAfter(ps), pk)
  {
    assert (ps + [pk])[..|ps|] == ps;
    var n, all := Literals(ps), ps + [pk];
    assert forall i :: 0 <= i < |ps| ==> all[i] == ps[i];
    if pk.Literal? {
      assert Literals(all) == n + 1;
    } else {
      assert Literals(all) == 0;
      if ps != [] {
        assert ps[|ps| - 1].Literal? <==> n > 0;
      }
    }
  }

  /** After every packet list the 12-state machine is in the state its last packets say. */
  lemma {:induction false} StateIsMemory(ps: seq<Packet>, window: nat)
    requires 1 <= window
    ensures var r := Expand(LZ_START, ps, window); r.Some? ==> r.value.state == StateAfter(ps)
    ensures Expand(LZ_START, ps, window).Some? ==> forall i :: 0 <= i < |ps| ==> !ps[i].EndMarker?
    decreases |ps|
  {
    hide StateAfter, NextState;
    if ps == [] {
      assert StateAfter([]) == 0 by { StateAtStart(); }
    } else {
      var front, pk := ps[..|ps| - 1], ps[|ps| - 1];
      assert front + [pk] == ps;
      ExpandOneMore(LZ_START, front, pk, window);
      StateIsMemory(front, window);
      if Expand(LZ_START, ps, window).Some? {
        AppliedState(Expand(LZ_START, front, window).value, pk, window);
        StateOneMore(front, pk);
      }
    }
  }

  lemma StateAtStart()
    ensures StateAfter([]) == 0
  {
  }

  lemma AppliedState(lz: Lz, pk: Packet, window: nat)
    requires LzOk(lz, window) && Encodable(pk) && Apply(lz, pk, window).Some?
    ensures !pk.EndMarker? && Apply(lz, pk, window).value.state == NextState(lz.state, pk)
  {
    hide Copy;
  }

  /** On every input, data errors included, LzmaDecode writes what the packets it reads mean. */
  lemma WrittenIsPlayed(props: Properties, window: nat, input: seq<Byte>, limit: nat)
    requires props.lc <= 8 && 1 <= window
    ensures var begin := Begin(InitialProbs(props), input);
      begin.Ok? ==>
        var p := Play(Played([], [1, 1, 1, 1]), PacketsRead(props, window, begin.m, limit), window);
        p.Some? && Written(props, window, input, limit) == Cut(p.value.out, limit)
  {
    hide Play, Expand, PacketsRead, Written, Cut, Start, InitialProbs;
    WrittenIsExpansion(props, window, input, limit);
    var begin := Begin(InitialProbs(props), input);
    if begin.Ok? {
      ExpandIsPlay(LZ_START, PacketsRead(props, window, begin.m, limit), window);
    }
  }

  // The contexts -------------------------------------------------------------------------------------

  /** The contexts of a packet: the state, and the position modulo 2^pb. */
  lemma ContextIs(props: Properties, lz: Lz, window: nat)
    requires ValidProperties(props) && LzOk(lz, window)
    ensures var c := ContextOf(props, lz);
      c.state == lz.state && c.posState == |lz.out| % [1, 2, 4, 8, 16][props.pb]
      && c.litBase == LiteralBase(props, |lz.out|, if lz.out == [] then 0 else lz.out[|lz.out| - 1])
  {
    hide LiteralBase;
    Pow2Values();
  }

  /** The match byte of a literal is the byte the last copy would have gone on with. */
  lemma MatchByteGoesOn(props: Properties, lz: Lz, pk: Packet, window: nat)
    requires props.lc <= 8 && LzOk(lz, window) && Encodable(pk) && !pk.Literal? && Apply(lz, pk, window).Some?
    ensures var next, length := Apply(lz, pk, window).value, if pk.ShortRep? then 1 else pk.length;
      && 1 <= Reps(next)[0] <= |lz.out|
      && Copy(lz.out, Reps(next)[0], length + 1) == next.out + [ContextOf(props, next).matchByte]
  {
    var next, length := Apply(lz, pk, window).value, if pk.ShortRep? then 1 else pk.length;
    CopiesFront(lz, pk, window);
    StateRemembersLiteral(lz, pk, window);
    MatchByteIs(props, next);
    CopyGoesOn(lz.out, next.rep0, length);
    hide *;
    assert Reps(next)[0] == next.rep0 by { FrontIs(next); }
  }

  lemma MatchByteIs(props: Properties, lz: Lz)
    requires props.lc <= 8 && 7 <= lz.state && 1 <= lz.rep0 <= |lz.out|
    ensures ContextOf(props, lz).matchByte == lz.out[|lz.out| - lz.rep0]
  {
    hide LiteralBase;
  }

  lemma FrontIs(lz: Lz)
    ensures Reps(lz)[0] == lz.rep0
  {
  }

  /** A packet that copies does so from the distance it puts in front. */
  lemma CopiesFront(lz: Lz, pk: Packet, window: nat)
    requires LzOk(lz, window) && Encodable(pk) && !pk.Literal? && Apply(lz, pk, window).Some?
    ensures var next := Apply(lz, pk, window).value;
      1 <= next.rep0 <= |lz.out| && next.out == Copy(lz.out, next.rep0, if pk.ShortRep? then 1 else pk.length)
  {
    if pk.ShortRep? {
      CopyOne(lz.out, lz.rep0);
    }
    hide Copy;
  }

  lemma {:induction false} CopyGoesOn(out: seq<Byte>, distance: nat, length: nat)
    requires 1 <= distance <= |out|
    ensures var r := Copy(out, distance, length); Copy(out, distance, length + 1) == r + [r[|r| - distance]]
    decreases length
  {
    if length > 0 {
      CopyGoesOn(out + [out[|out| - distance]], distance, length - 1);
    } else {
      CopyOne(out, distance);
    }
  }

  /** The literal block: rows for the position modulo 2^lp, columns for the top lc bits of the byte before. */
  lemma LiteralRowAndColumn(props: Properties, pos: nat, previousByte: Byte) returns (block: nat)
    requires props.lc <= 8
    ensures LiteralBase(props, pos, previousByte) == 1846 + 768 * block
    ensures block / Pow2(props.lc) == pos % Pow2(props.lp)
    ensures block % Pow2(props.lc) == previousByte / Pow2(8 - props.lc)
  {
    hide Pow2, Shr;
    var row, column := pos % Pow2(props.lp), Shr(previousByte, 8 - props.lc);
    block := Shl(row, props.lc) + column;
    ShrDivides(previousByte, 8 - props.lc);
    TopBitsOfByte(previousByte, props.lc);
    assert block == Pow2(props.lc) * row + column;
    ModUnique(block, Pow2(props.lc), row, column);
  }
}
