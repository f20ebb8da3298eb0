/** The image builder in main of elf2mzip/elf2img.c: the scan for the span of loadable addresses and the
    overlay of the segments on a zeroed buffer. */
module Elf2Img {
  import opened Words
  import opened Elf

  datatype Outcome = NotElf | NoHeaders | NothingToLoad | Built

  /** How far main gets on a header alone. */
  function ImageVerdict(hdr: seq<Byte>): Option<Outcome>
    requires |hdr| >= EHDR_SIZE
  {
    if !GoodMagic(hdr) then Some(NotElf) else if PhNum(hdr) == 0 then Some(NoHeaders) else None
  }

  /** The scan for min_addr and max_addr. */
  method ScanSpan(phdr: seq<Phdr>, ghost file: seq<Byte>) returns (minAddr: Word, maxAddr: Word)
    requires AllInRange(file, phdr, U32 - 1)
    ensures Span(phdr, |phdr|, minAddr, maxAddr)
  {
    hide Span, InRange;
    minAddr, maxAddr := U32 - 1, 0;
    SpanStarts(phdr);
    var i := 0;
    while i < |phdr|
      invariant 0 <= i <= |phdr|
      invariant Span(phdr, i, minAddr, maxAddr)
    {
      NoWrap(file, phdr[i]);
      ghost var low, high := minAddr, maxAddr;
      if phdr[i].kind == PT_LOAD {
        if (phdr[i].paddr + phdr[i].memsz as int) % U32 > maxAddr {
          maxAddr := (phdr[i].paddr + phdr[i].memsz as int) % U32;
        }
        if phdr[i].paddr < minAddr {
          minAddr := phdr[i].paddr;
        }
        SpanGrows(phdr, i, low, high);
      } else {
        SpanSkips(phdr, i, low, high);
      }
      i := i + 1;
    }
  }

  lemma NoWrap(file: seq<Byte>, p: Phdr)
    requires InRange(file, p, U32 - 1)
    ensures Loads(p) ==> p.paddr + p.memsz as int < U32
  {
  }

  lemma SpanStarts(phs: seq<Phdr>)
    ensures Span(phs, 0, U32 - 1, 0)
  {
  }

  lemma SpanGrows(phs: seq<Phdr>, i: nat, low: Word, high: Word)
    requires i < |phs| && Loads(phs[i]) && phs[i].paddr + phs[i].memsz as int < U32
    requires Span(phs, i, low, high)
    ensures Span(phs, i + 1, Min(low, phs[i].paddr), Max(high, phs[i].paddr + phs[i].memsz as int))
  {
  }

  lemma SpanSkips(phs: seq<Phdr>, i: nat, low: Word, high: Word)
    requires i < |phs| && !Loads(phs[i]) && Span(phs, i, low, high)
    ensures Span(phs, i + 1, low, high)
  {
  }

  predicate NoneLoads(phs: seq<Phdr>) {
    forall i :: 0 <= i < |phs| ==> !Loads(phs[i])
  }

  /** The size the scan gives is 1 exactly when there is no loadable segment, or when all of them together
      span a single byte: elf2img refuses both. */
  lemma RefusedExactly(file: seq<Byte>, phs: seq<Phdr>, low: Word, high: Word)
    requires AllInRange(file, phs, U32 - 1) && Span(phs, |phs|, low, high)
    ensures (high - low as int) % U32 == 1 <==> NoneLoads(phs) || high == low + 1
    ensures !NoneLoads(phs) ==> Inside(file, phs, low, high)
  {
    if !NoneLoads(phs) {
      var i :| 0 <= i < |phs| && Loads(phs[i]);
      assert InRange(file, phs[i], U32 - 1);
      assert low <= phs[i].paddr <= phs[i].paddr + phs[i].memsz as int <= high;
      forall j | 0 <= j < |phs|
        ensures InRange(file, phs[j], high)
      {
        assert InRange(file, phs[j], U32 - 1);
      }
    }
  }

  /** fread of one segment into the image. */
  method FRead(file: seq<Byte>, p: Phdr, img: array<Byte>, at: nat)
    requires Loads(p) && InRange(file, p, U32) && at + p.filesz <= img.Length
    modifies img
    ensures img[..] == Put(old(img[..]), Patch(at, FileBytes(file, p)))
  {
    ghost var patch := Patch(at, FileBytes(file, p));
    var k := 0;
    while k < p.filesz
      invariant 0 <= k <= p.filesz
      invariant forall a: nat :: a < img.Length ==> img[a] == if at <= a < at
        + k then patch.bytes[a - at] else old(img[a])
    {
      img[at + k] := file[p.offset + k];
      k := k + 1;
    }
    ghost var put := Put(old(img[..]), patch);
    forall a: nat | a < img.Length
      ensures img[a] == put[a]
    {
      PutAt(old(img[..]), patch, a);
      assert old(img[..])[a] == old(img[a]);
    }
  }

  /** The overlay loop. */
  method Overlay(file: seq<Byte>, phdr: seq<Phdr>, low: Word, high: Word, img: array<Byte>)
    requires Inside(file, phdr, low, high) && img.Length == high - low
    requires img[..] == Zeros(high - low)
    modifies img
    ensures img[..] == Image(file, phdr, low, high)
  {
    hide Put;
    ImagePatchesFit(file, phdr, low, high);
    ghost var ps, zeros := ImagePatches(file, phdr, low, high), img[..];
    var i := 0;
    while i < |phdr|
      invariant 0 <= i <= |phdr|
      invariant img[..] == PutFirst(zeros, ps, i)
    {
      PutFirstStep(zeros, ps, i);
      assert InRange(file, phdr[i], high) && Fits(ps[i], high - low);
      if phdr[i].kind == PT_LOAD {
        var bufOff := phdr[i].paddr - low;
        FRead(file, phdr[i], img, bufOff);
      } else {
        PutNone(img[..]);
      }
      i := i + 1;
    }
  }

  /** main up to the image: scan, refuse or allocate and clear, overlay. */
  method BuildImage(file: seq<Byte>) returns (r: Outcome, low: Word, high: Word, img: array<Byte>)
    requires |file| >= EHDR_SIZE
    requires ImageVerdict(file).None? ==> TableInFile(file) && AllInRange(file, Table(file), U32 - 1)
    ensures fresh(img)
    ensures ImageVerdict(file).Some? ==> r == ImageVerdict(file).value
    ensures ImageVerdict(file).None? ==>
      && Span(Table(file), |Table(file)|, low, high)
      && r == (if NoneLoads(Table(file)) || high == low + 1 then NothingToLoad else Built)
      && (r == Built ==> Inside(file, Table(file), low, high) && img[..] == Image(file, Table(file), low, high))
  {
    hide Table, Span, Image, Inside, InRange, WordAt, HalfAt;
    low, high, img := U32 - 1, 0, new Byte[0];
    if !GoodMagic(file) {
      return NotElf, low, high, img;
    }
    if PhNum(file) == 0 {
      return NoHeaders, low, high, img;
    }
    var phdr := Table(file);
    low, high := ScanSpan(phdr, file);
    var memsz := (high - low as int) % U32;
    RefusedExactly(file, phdr, low, high);
    if memsz == 1 {
      return NothingToLoad, low, high, img;
    }
    InsideOrdered(file, phdr, low, high);
    img := new Byte[memsz](_ => 0);
    assert img[..] == Zeros(memsz);
    Overlay(file, phdr, low, high, img);
    r := Built;
  }

  lemma InsideOrdered(file: seq<Byte>, phs: seq<Phdr>, low: Word, high: Word)
    requires Inside(file, phs, low, high)
    ensures (high - low as int) % U32 == high - low
  {
  }
}
