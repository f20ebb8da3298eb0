/** ELF32 files and the two programs that lay their segments out: what load_elf32_file leaves in memory and
    what elf2img puts in an image, as lists of patches, and why the two agree. */
module Elf {
  import opened Words
  import opened Flash

  const PT_LOAD := 1
  const EHDR_SIZE := 52
  const PHDR_SIZE := 32

  /** The program-header fields that are used. */
  datatype Phdr = Phdr(kind: Word, offset: Word, paddr: Word, filesz: Word, memsz: Word)

  // Parsing -----------------------------------------------------------------------------------------

  /** A 32-bit field in the byte order of the file. */
  function WordAt(s: seq<Byte>, at: nat, msb: bool): (w: Word)
    requires at + 4 <= |s|
  {
    if msb then ReadWord(s, at) else ReadWord([s[at + 3], s[at + 2], s[at + 1], s[at]], 0)
  }

  function HalfAt(s: seq<Byte>, at: nat, msb: bool): (h: Word)
    requires at + 2 <= |s|
    ensures h < 0x1_0000
  {
    var first: int, second: int := s[at], s[at + 1];
    if msb then first * 256 + second else second * 256 + first
  }

  predicate GoodMagic(hdr: seq<Byte>)
    requires |hdr| >= EHDR_SIZE
  {
    hdr[0] == 0x7f && hdr[1] == 0x45 && hdr[2] == 0x4c && hdr[3] == 0x46
  }

  /** ident[ELF_INDEX_DATA] is ELF_DATA_MSB. */
  predicate Msb(hdr: seq<Byte>)
    requires |hdr| >= EHDR_SIZE
  {
    hdr[5] == 2
  }

  function Entry32(hdr: seq<Byte>): Word
    requires |hdr| >= EHDR_SIZE
  {
    WordAt(hdr, 24, Msb(hdr))
  }

  function PhOff(hdr: seq<Byte>): Word
    requires |hdr| >= EHDR_SIZE
  {
    WordAt(hdr, 28, Msb(hdr))
  }

  function PhNum(hdr: seq<Byte>): (n: nat)
    requires |hdr| >= EHDR_SIZE
    ensures n < 0x1_0000
  {
    HalfAt(hdr, 44, Msb(hdr))
  }

  function PhdrAt(s: seq<Byte>, at: nat, msb: bool): Phdr
    requires at + PHDR_SIZE <= |s|
  {
    Phdr(WordAt(s, at, msb), WordAt(s, at + 4, msb), WordAt(s, at + 12, msb),
         WordAt(s, at + 16, msb), WordAt(s, at + 20, msb))
  }

  /** The program-header table lies in the file. */
  predicate TableInFile(file: seq<Byte>) {
    |file| >= EHDR_SIZE && PhOff(file) + PHDR_SIZE * PhNum(file) <= |file|
  }

  function Table(file: seq<Byte>): (phs: seq<Phdr>)
    requires TableInFile(file)
    ensures |phs| == PhNum(file)
  {
    seq(PhNum(file), i requires 0 <= i < PhNum(file) => PhdrAt(file, PhOff(file) + PHDR_SIZE * i, Msb(file)))
  }

  // Segments ----------------------------------------------------------------------------------------

  predicate Loads(p: Phdr) {
    p.kind == PT_LOAD
  }

  /** A loadable segment's bytes are in the file, and its memory, file bytes first, ends by `top` without
      wrapping. */
  predicate InRange(file: seq<Byte>, p: Phdr, top: nat) {
    Loads(p) ==>
      && (p.filesz == 0 || p.offset + p.filesz as int <= |file|)
      && p.filesz <= p.memsz
      && p.paddr + p.memsz as int <= top
  }

  predicate AllInRange(file: seq<Byte>, phs: seq<Phdr>, top: nat) {
    forall i :: 0 <= i < |phs| ==> InRange(file, phs[i], top)
  }

  predicate Apart(p: Phdr, q: Phdr) {
    Loads(p) && Loads(q) ==> p.paddr + p.memsz as int <= q.paddr || q.paddr + q.memsz as int <= p.paddr
  }

  /** The loadable segments occupy disjoint memory. */
  predicate Disjoint(phs: seq<Phdr>) {
    forall i, j :: 0 <= i < j < |phs| ==> Apart(phs[i], phs[j])
  }

  predicate Covers(p: Phdr, a: int) {
    Loads(p) && p.paddr <= a < p.paddr + p.memsz as int
  }

  function FileBytes(file: seq<Byte>, p: Phdr): (s: seq<Byte>)
    requires Loads(p) && InRange(file, p, U32)
    ensures |s| == p.filesz
  {
    if p.filesz == 0 then [] else file[p.offset..p.offset + p.filesz as int]
  }

  /** The memory a PT_LOAD segment stands for: its file bytes, then zeros. */
  function SegmentByte(file: seq<Byte>, p: Phdr, k: nat): Byte
    requires Loads(p) && InRange(file, p, U32) && k < p.memsz
  {
    if k < p.filesz then file[p.offset + k] else 0
  }

  // Patches -----------------------------------------------------------------------------------------

  /** Bytes to be written at an address. */
  datatype Patch = Patch(at: nat, bytes: seq<Byte>)

  predicate Fits(p: Patch, n: nat) {
    p.at + |p.bytes| <= n
  }

  predicate AllFit(ps: seq<Patch>, n: nat) {
    forall i :: 0 <= i < |ps| ==> Fits(ps[i], n)
  }

  function Put(mem: seq<Byte>, p: Patch): (r: seq<Byte>)
    requires Fits(p, |mem|)
    ensures |r| == |mem|
  {
    Splice(mem, p.at, p.bytes)
  }

  function PutFirst(mem: seq<Byte>, ps: seq<Patch>, n: nat): (r: seq<Byte>)
    requires n <= |ps| && AllFit(ps, |mem|)
    ensures |r| == |mem|
  {
    if n == 0 then mem else Put(PutFirst(mem, ps, n - 1), ps[n - 1])
  }

  predicate Touches(p: Patch, a: int) {
    p.at <= a < p.at + |p.bytes|
  }

  lemma PutAt(mem: seq<Byte>, p: Patch, a: nat)
    requires Fits(p, |mem|) && a < |mem|
    ensures Put(mem, p)[a] == if Touches(p, a) then p.bytes[a - p.at] else mem[a]
  {
  }

  lemma PutNone(mem: seq<Byte>)
    ensures Put(mem, Patch(0, [])) == mem
  {
  }

  /** An address no later patch touches keeps what the last one to touch it wrote. */
  lemma {:induction false} PutFirstAt(mem: seq<Byte>, ps: seq<Patch>, n: nat, i: nat, a: nat)
    requires i <= n <= |ps| && AllFit(ps, |mem|) && a < |mem|
    requires forall j :: i <= j < n ==> !Touches(ps[j], a)
    ensures PutFirst(mem, ps, n)[a] == PutFirst(mem, ps, i)[a]
    decreases n
  {
    hide Put;
    if i < n {
      PutFirstAt(mem, ps, n - 1, i, a);
      PutAt(PutFirst(mem, ps, n - 1), ps[n - 1], a);
    }
  }

  lemma PutFirstStep(mem: seq<Byte>, ps: seq<Patch>, n: nat)
    requires n < |ps| && AllFit(ps, |mem|)
    ensures PutFirst(mem, ps, n + 1) == Put(PutFirst(mem, ps, n), ps[n])
  {
  }

  /** Reading back after all patches, when only patch `i` touches the address. */
  lemma PatchRead(mem: seq<Byte>, ps: seq<Patch>, i: nat, a: nat)
    requires AllFit(ps, |mem|) && i < |ps| && Touches(ps[i], a)
    requires forall j :: i < j < |ps| ==> !Touches(ps[j], a)
    ensures PutFirst(mem, ps, |ps|)[a] == ps[i].bytes[a - ps[i].at]
  {
    hide Put, PutFirst;
    PutFirstAt(mem, ps, |ps|, i + 1, a);
    PutFirstStep(mem, ps, i);
    PutAt(PutFirst(mem, ps, i), ps[i], a);
  }

  // The loader --------------------------------------------------------------------------------------

  function Zeros(n: nat): (s: seq<Byte>)
    ensures |s| == n
  {
    seq(n, i => 0)
  }

  /** What load_elf32_file writes for one program header. */
  function LoadPatch(file: seq<Byte>, p: Phdr): Patch
    requires InRange(file, p, U32)
  {
    if Loads(p) then Patch(p.paddr, FileBytes(file, p) + Zeros(p.memsz - p.filesz)) else Patch(0, [])
  }

  function LoadPatches(file: seq<Byte>, phs: seq<Phdr>): (ps: seq<Patch>)
    requires AllInRange(file, phs, U32)
    ensures |ps| == |phs|
  {
    seq(|phs|, i requires 0 <= i < |phs| => LoadPatch(file, phs[i]))
  }

  lemma LoadPatchesFit(file: seq<Byte>, phs: seq<Phdr>, top: nat)
    requires AllInRange(file, phs, top) && top <= U32
    ensures AllInRange(file, phs, U32) && AllFit(LoadPatches(file, phs), top)
  {
    forall i | 0 <= i < |phs|
      ensures InRange(file, phs[i], U32) && Fits(LoadPatch(file, phs[i]), top)
    {
      assert InRange(file, phs[i], top);
    }
  }

  /** Memory after load_elf32_file. */
  function Loaded(mem: seq<Byte>, file: seq<Byte>, phs: seq<Phdr>): (r: seq<Byte>)
    requires AllInRange(file, phs, |mem|) && |mem| <= U32
    ensures |r| == |mem|
  {
    LoadPatchesFit(file, phs, |mem|);
    PutFirst(mem, LoadPatches(file, phs), |phs|)
  }

  /** The last of the first `n` segments whose memory covers an address. */
  function LastCover(phs: seq<Phdr>, n: nat, a: int): (r: Option<nat>)
    requires n <= |phs|
    ensures r.Some? ==> r.value < n && Covers(phs[r.value], a)
    ensures forall j :: (if r.Some? then r.value + 1 else 0) <= j < n ==> !Covers(phs[j], a)
  {
    if n == 0 then None else if Covers(phs[n - 1], a) then Some(n - 1) else LastCover(phs, n - 1, a)
  }

  /** What the loader leaves at every address, for any segments at all: the byte of the last segment that
      covers it, or what was there. */
  lemma LoadedAt(mem: seq<Byte>, file: seq<Byte>, phs: seq<Phdr>, a: nat)
    requires AllInRange(file, phs, |mem|) && |mem| <= U32 && a < |mem|
    ensures AllInRange(file, phs, U32)
    ensures Loaded(mem, file, phs)[a] ==
      match LastCover(phs, |phs|, a)
      case None => mem[a]
      case Some(i) => SegmentByte(file, phs[i], a - phs[i].paddr)
  {
    hide Put, PutFirst, LastCover;
    LoadPatchesFit(file, phs, |mem|);
    var ps, last := LoadPatches(file, phs), LastCover(phs, |phs|, a);
    forall j | (if last.Some? then last.value + 1 else 0) <= j < |ps|
      ensures !Touches(ps[j], a)
    {
      assert !Covers(phs[j], a);
    }
    if last.Some? {
      PatchRead(mem, ps, last.value, a);
    } else {
      PutFirstAt(mem, ps, |ps|, 0, a);
      PutNothingYet(mem, ps);
    }
  }

  lemma PutNothingYet(mem: seq<Byte>, ps: seq<Patch>)
    requires AllFit(ps, |mem|)
    ensures PutFirst(mem, ps, 0) == mem
  {
  }

  /** Among disjoint segments only one covers an address. */
  lemma OnlyCover(phs: seq<Phdr>, i: nat, a: int)
    requires Disjoint(phs) && i < |phs| && Covers(phs[i], a)
    ensures LastCover(phs, |phs|, a) == Some(i)
    ensures forall j :: 0 <= j < |phs| && Covers(phs[j], a) ==> j == i
  {
    hide LastCover;
    forall j | 0 <= j < |phs| && j != i
      ensures !Covers(phs[j], a)
    {
      assert i < j ==> Apart(phs[i], phs[j]);
      assert j < i ==> Apart(phs[j], phs[i]);
    }
  }

  /** With disjoint segments the loader leaves every segment's file bytes followed by zeros. */
  lemma LoadedSegment(mem: seq<Byte>, file: seq<Byte>, phs: seq<Phdr>, i: nat, k: nat)
    requires AllInRange(file, phs, |mem|) && |mem| <= U32 && Disjoint(phs)
    requires i < |phs| && Loads(phs[i]) && k < phs[i].memsz
    ensures AllInRange(file, phs, U32) && phs[i].paddr + k < |mem|
    ensures Loaded(mem, file, phs)[phs[i].paddr + k] == SegmentByte(file, phs[i], k)
  {
    hide Loaded, LastCover, SegmentByte;
    assert InRange(file, phs[i], |mem|);
    LoadedAt(mem, file, phs, phs[i].paddr + k);
    OnlyCover(phs, i, phs[i].paddr + k);
  }

  /** ... and changes nothing else. */
  lemma LoadedElsewhere(mem: seq<Byte>, file: seq<Byte>, phs: seq<Phdr>, a: nat)
    requires AllInRange(file, phs, |mem|) && |mem| <= U32 && a < |mem|
    requires forall i :: 0 <= i < |phs| ==> !Covers(phs[i], a)
    ensures Loaded(mem, file, phs)[a] == mem[a]
  {
    hide Loaded, LastCover;
    LoadedAt(mem, file, phs, a);
  }

  // The image ---------------------------------------------------------------------------------------

  /** What elf2img's scan finds: the lowest and one past the highest loadable address, or the starting
      values 0xffffffff and 0 when there is nothing to load. */
  ghost predicate Span(phs: seq<Phdr>, n: nat, low: Word, high: Word)
    requires n <= |phs|
  {
    && (forall i :: 0 <= i < n && Loads(phs[i]) ==> low <= phs[i].paddr && phs[i].paddr + phs[i].memsz as int <= high)
    && (low == U32 - 1 || exists i :: 0 <= i < n && Loads(phs[i]) && phs[i].paddr == low)
    && (high == 0 || exists i :: 0 <= i < n && Loads(phs[i]) && phs[i].paddr + phs[i].memsz as int == high)
  }

  /** What elf2img writes for one program header, relative to the image's start. */
  function ImagePatch(file: seq<Byte>, p: Phdr, low: Word): Patch
    requires InRange(file, p, U32) && (Loads(p) ==> low <= p.paddr)
  {
    if Loads(p) then Patch(p.paddr - low, FileBytes(file, p)) else Patch(0, [])
  }

  predicate Inside(file: seq<Byte>, phs: seq<Phdr>, low: Word, high: Word) {
    && low <= high
    && AllInRange(file, phs, high)
    && forall i :: 0 <= i < |phs| && Loads(phs[i]) ==> low <= phs[i].paddr
  }

  function ImagePatches(file: seq<Byte>, phs: seq<Phdr>, low: Word, high: Word): (ps: seq<Patch>)
    requires Inside(file, phs, low, high)
    ensures |ps| == |phs|
  {
    LoadPatchesFit(file, phs, high);
    seq(|phs|, i requires 0 <= i < |phs| => ImagePatch(file, phs[i], low))
  }

  lemma ImagePatchesFit(file: seq<Byte>, phs: seq<Phdr>, low: Word, high: Word)
    requires Inside(file, phs, low, high)
    ensures AllFit(ImagePatches(file, phs, low, high), high - low)
  {
    forall i | 0 <= i < |phs|
      ensures Fits(ImagePatches(file, phs, low, high)[i], high - low)
    {
      assert InRange(file, phs[i], high);
    }
  }

  /** The image elf2img writes: the file bytes overlaid on zeros. */
  function Image(file: seq<Byte>, phs: seq<Phdr>, low: Word, high: Word): (r: seq<Byte>)
    requires Inside(file, phs, low, high)
    ensures |r| == high - low
  {
    ImagePatchesFit(file, phs, low, high);
    PutFirst(Zeros(high - low), ImagePatches(file, phs, low, high), |phs|)
  }

  /** The file part of a segment covers an address. */
  predicate CoversFile(p: Phdr, a: int) {
    Loads(p) && p.paddr <= a < p.paddr + p.filesz as int
  }

  function LastFile(phs: seq<Phdr>, n: nat, a: int): (r: Option<nat>)
    requires n <= |phs|
    ensures r.Some? ==> r.value < n && CoversFile(phs[r.value], a)
    ensures forall j :: (if r.Some? then r.value + 1 else 0) <= j < n ==> !CoversFile(phs[j], a)
  {
    if n == 0 then None else if CoversFile(phs[n - 1], a) then Some(n - 1) else LastFile(phs, n - 1, a)
  }

  /** What the image holds at every address, for any segments at all: the byte of the last segment whose
      file part covers it, or zero. */
  lemma ImageAt(file: seq<Byte>, phs: seq<Phdr>, low: Word, high: Word, a: nat)
    requires Inside(file, phs, low, high) && low <= a < high
    ensures AllInRange(file, phs, U32)
    ensures Image(file, phs, low, high)[a - low] ==
      match LastFile(phs, |phs|, a)
      case None => 0
      case Some(k) => SegmentByte(file, phs[k], a - phs[k].paddr)
  {
    hide Put, PutFirst, LastFile;
    LoadPatchesFit(file, phs, high);
    ImagePatchesFit(file, phs, low, high);
    var ps, last, zeros := ImagePatches(file, phs, low, high), LastFile(phs, |phs|, a), Zeros(high - low);
    forall j | (if last.Some? then last.value + 1 else 0) <= j < |ps|
      ensures !Touches(ps[j], a - low)
    {
      assert !CoversFile(phs[j], a) && InRange(file, phs[j], high);
    }
    if last.Some? {
      PatchRead(zeros, ps, last.value, a - low);
    } else {
      PutFirstAt(zeros, ps, |ps|, 0, a - low);
      PutNothingYet(zeros, ps);
    }
  }

  /** A later segment's zero tail lies over a non-zero file byte of an earlier one, and no file byte over
      both. */
  predicate TailHides(file: seq<Byte>, phs: seq<Phdr>, a: nat)
    requires AllInRange(file, phs, U32)
  {
    var i, k := LastCover(phs, |phs|, a), LastFile(phs, |phs|, a);
    i.Some? && k.Some? && k.value < i.value && SegmentByte(file, phs[k.value], a - phs[k.value].paddr) != 0
  }

  /** The two builders agree at a segment address if and only if no later tail hides a file byte there:
      the loader clears tails, elf2img only lays file bytes over zeros. */
  lemma BuildersAgreeExactly(mem: seq<Byte>, file: seq<Byte>, phs: seq<Phdr>, low: Word, high: Word, i: nat, a: nat)
    requires Inside(file, phs, low, high) && AllInRange(file, phs, |mem|) && |mem| <= U32
    requires i < |phs| && Covers(phs[i], a)
    ensures AllInRange(file, phs, U32) && low <= a < high && a < |mem|
    ensures Image(file, phs, low, high)[a - low] == Loaded(mem, file, phs)[a] <==> !TailHides(file, phs, a)
  {
    hide Image, Loaded, LastCover, LastFile, FileBytes;
    assert InRange(file, phs[i], |mem|) && InRange(file, phs[i], high);
    LoadedAt(mem, file, phs, a);
    ImageAt(file, phs, low, high, a);
    var last, k := LastCover(phs, |phs|, a), LastFile(phs, |phs|, a);
    assert last.Some?;
    assert InRange(file, phs[last.value], high);
    if k.Some? {
      assert InRange(file, phs[k.value], high);
      assert Covers(phs[k.value], a);
    }
  }

  /** Disjoint segments hide nothing: at every segment address the image holds what the loader leaves in
      memory. */
  lemma ImageIsMemory(mem: seq<Byte>, file: seq<Byte>, phs: seq<Phdr>, low: Word, high: Word, i: nat, a: nat)
    requires Inside(file, phs, low, high) && Disjoint(phs)
    requires AllInRange(file, phs, |mem|) && |mem| <= U32
    requires i < |phs| && Covers(phs[i], a)
    ensures low <= a < high && a < |mem|
    ensures Image(file, phs, low, high)[a - low] == Loaded(mem, file, phs)[a]
  {
    hide Image, Loaded, LastCover, LastFile;
    BuildersAgreeExactly(mem, file, phs, low, high, i, a);
    OnlyCover(phs, i, a);
    var k := LastFile(phs, |phs|, a);
    if k.Some? {
      assert InRange(file, phs[k.value], high);
      assert Covers(phs[k.value], a);
    }
  }

  /** Between the segments the image is zero. */
  lemma ImageGaps(file: seq<Byte>, phs: seq<Phdr>, low: Word, high: Word, a: nat)
    requires Inside(file, phs, low, high) && low <= a < high
    requires forall i :: 0 <= i < |phs| ==> !Covers(phs[i], a)
    ensures Image(file, phs, low, high)[a - low] == 0
  {
    hide Image, LastFile;
    ImageAt(file, phs, low, high, a);
    forall j | 0 <= j < |phs|
      ensures !CoversFile(phs[j], a)
    {
      assert !Covers(phs[j], a) && InRange(file, phs[j], high);
    }
  }
}
