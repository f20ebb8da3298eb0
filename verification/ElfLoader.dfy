/** load_elf32_file of elf_loader.c: the program-header loop that copies segments from flash into memory
    and clears their tails. */
module ElfLoader {
  import opened Words
  import opened Flash
  import opened CiloIO
  import opened Elf

  /** Why a load stopped, or the jump to the entry point with the bytes it counted. */
  datatype LoadResult = BadMagic | BadClass | NotBigEndian | NoSegments | Kicked(entry: Word, memSz: Word)

  /** The bytes counted so far, in 32 bits. */
  function MemSize(phs: seq<Phdr>, n: nat): Word
    requires n <= |phs|
  {
    if n == 0 then 0
    else if Loads(phs[n - 1]) then (MemSize(phs, n - 1) + phs[n - 1].memsz as int) % U32
    else MemSize(phs, n - 1)
  }

  /** The checks before the loop. The class check only ever refuses class 0, so a 64-bit file passes it. */
  function HeaderVerdict(hdr: seq<Byte>): Option<LoadResult>
    requires |hdr| >= EHDR_SIZE
  {
    if !GoodMagic(hdr) then Some(BadMagic)
    else if hdr[4] == 0 then Some(BadClass)
    else if !Msb(hdr) then Some(NotBigEndian)
    else if PhNum(hdr) == 0 then Some(NoSegments)
    else None
  }

  /** The verdict on an accepted file stays the same for every other non-zero class byte. */
  lemma ClassIsNotChecked(hdr: seq<Byte>, class': Byte)
    requires |hdr| >= EHDR_SIZE && GoodMagic(hdr) && hdr[4] != 0
    ensures HeaderVerdict(hdr[4 := class']) == if class' == 0 then Some(BadClass) else HeaderVerdict(hdr)
  {
  }

  /** The file part and the zero tail of a loadable segment are each within what an `int` can count, as
      memcpy and the clearing loop do. */
  predicate Countable(p: Phdr) {
    Loads(p) ==> p.filesz < U31 && p.memsz - p.filesz < U31
  }

  predicate AllCountable(phs: seq<Phdr>) {
    forall i :: 0 <= i < |phs| ==> Countable(phs[i])
  }

  lemma OneItem(n: Word)
    ensures ByteCount(n, 1) == n
  {
  }

  /** load_elf32_section. */
  method LoadSection(fp: File, mem: array<Byte>, p: Phdr, ghost file: seq<Byte>)
    requires fp.InFlash() && fp.Contents() == file
    requires Loads(p) && InRange(file, p, mem.Length) && Countable(p) && mem.Length <= U32
    modifies fp`filePos, mem
    ensures mem[..] == Put(old(mem[..]), Patch(p.paddr, FileBytes(file, p)))
    ensures 0 <= fp.filePos <= fp.fileLen
  {
    fp.Seek(p.offset, SEEK_SET);
    OneItem(p.filesz);
    hide ByteCount;
    ghost var was := mem[..];
    var n := fp.Read(mem, p.paddr, p.filesz, 1);
    ghost var put := Put(was, Patch(p.paddr, FileBytes(file, p)));
    forall a: nat | a < mem.Length
      ensures mem[a] == put[a]
    {
      PutAt(was, Patch(p.paddr, FileBytes(file, p)), a);
      assert was[a] == old(mem[a]);
      if p.paddr <= a < p.paddr + p.filesz as int {
        assert mem[a] == fp.flash[fp.entry + ENTRY_SIZE + p.offset + a - p.paddr];
        assert file[p.offset + a - p.paddr] == mem[a];
      }
    }
  }

  /** load_elf32_uninitialized_memory. */
  method ZeroMemory(mem: array<Byte>, address: nat, length: nat)
    requires address + length <= mem.Length && length < U31
    modifies mem
    ensures mem[..] == Put(old(mem[..]), Patch(address, Zeros(length)))
  {
    var i := 0;
    while i < length
      invariant 0 <= i <= length
      invariant forall a: nat :: a < mem.Length ==> mem[a] == if address <= a < address + i then 0 else old(mem[a])
    {
      mem[address + i] := 0;
      i := i + 1;
    }
    ghost var put := Put(old(mem[..]), Patch(address, Zeros(length)));
    forall a: nat | a < mem.Length
      ensures mem[a] == put[a]
    {
      PutAt(old(mem[..]), Patch(address, Zeros(length)), a);
      assert old(mem[..])[a] == old(mem[a]);
    }
  }

  /** One turn of the loop, after the program header has been read. */
  method LoadSegment(fp: File, mem: array<Byte>, p: Phdr, ghost file: seq<Byte>)
    requires fp.InFlash() && fp.Contents() == file
    requires Loads(p) && InRange(file, p, mem.Length) && Countable(p) && mem.Length <= U32
    modifies fp`filePos, mem
    ensures mem[..] == Put(old(mem[..]), LoadPatch(file, p))
  {
    hide Splice;
    ghost var was := mem[..];
    LoadSection(fp, mem, p, file);
    var zeros := (p.memsz - p.filesz as int) % U32;
    if zeros > 0 {
      ZeroMemory(mem, p.paddr + p.filesz as int, zeros);
    } else {
      SpliceNothing(mem[..], p.paddr + p.filesz as int);
      assert Zeros(0) == [];
    }
    SpliceTwice(was, p.paddr, FileBytes(file, p), Zeros(p.memsz - p.filesz));
  }

  lemma EntryFacts(file: seq<Byte>, p: Phdr, i: nat, top: nat)
    requires TableInFile(file) && i < PhNum(file) && InRange(file, p, top) && top <= U32
    ensures InRange(file, p, U32) && (!Loads(p) ==> LoadPatch(file, p) == Patch(0, []))
    ensures PhOff(file) + PHDR_SIZE * (i + 1) <= |file|
  {
  }

  /** One turn of the loop. */
  method LoadEntry(fp: File, mem: array<Byte>, phoff: Word, i: nat, counted: Word, ghost file: seq<Byte>)
    returns (memSz: Word)
    requires fp.InFlash() && fp.Contents() == file && TableInFile(file) && Msb(file)
    requires phoff == PhOff(file) && i < PhNum(file) && fp.filePos == phoff + PHDR_SIZE * i
    requires InRange(file, Table(file)[i], mem.Length) && Countable(Table(file)[i]) && mem.Length <= U32
    modifies fp`filePos, mem
    ensures fp.filePos == phoff + PHDR_SIZE * (i + 1)
    ensures InRange(file, Table(file)[i], U32)
    ensures mem[..] == Put(old(mem[..]), LoadPatch(file, Table(file)[i]))
    ensures memSz == if Loads(Table(file)[i]) then (counted + Table(file)[i].memsz as int) % U32 else counted
  {
    hide WordAt, HalfAt, Put, ByteCount, Table, PhdrAt, LoadPatch, InRange, PhOff, PhNum;
    EntryFacts(file, Table(file)[i], i, mem.Length);
    OneItem(PHDR_SIZE);
    var raw := fp.ReadLocal(PHDR_SIZE, 1);
    var p := PhdrAt(raw, 0, true);
    TableEntry(raw, file, i);
    if p.kind == PT_LOAD {
      LoadSegment(fp, mem, p, file);
      memSz := (counted + p.memsz as int) % U32;
      fp.Seek((phoff + PHDR_SIZE * (i + 1)) % U32, SEEK_SET);
    } else {
      PutNone(mem[..]);
      memSz := counted;
    }
  }

  /** The loop over the program headers. */
  method LoadTable(fp: File, mem: array<Byte>, phoff: Word, phnum: nat, ghost file: seq<Byte>) returns (memSz: Word)
    requires fp.InFlash() && fp.Contents() == file && TableInFile(file) && Msb(file)
    requires phoff == PhOff(file) && phnum == PhNum(file) && fp.filePos == phoff
    requires AllInRange(file, Table(file), mem.Length) && mem.Length <= U32
    requires AllCountable(Table(file))
    modifies fp`filePos, mem
    ensures mem[..] == Loaded(old(mem[..]), file, Table(file))
    ensures memSz == MemSize(Table(file), |Table(file)|)
  {
    hide WordAt, HalfAt, Put, Table, InRange, Loaded, LoadPatch;
    ghost var phs, was := Table(file), mem[..];
    LoadPatchesFit(file, phs, mem.Length);
    ghost var ps := LoadPatches(file, phs);
    memSz := 0;
    var i := 0;
    while i < phnum
      invariant 0 <= i <= phnum
      invariant fp.InFlash() && fp.Contents() == file && fp.filePos == phoff + PHDR_SIZE * i
      invariant mem[..] == PutFirst(was, ps, i)
      invariant memSz == MemSize(phs, i)
    {
      PutFirstStep(was, ps, i);
      memSz := LoadEntry(fp, mem, phoff, i, memSz, file);
      i := i + 1;
    }
    LoadedIs(was, file, phs);
  }

  /** load_elf32_file up to the jump: what it answers for every header, and the whole of memory after it. */
  method LoadElf32File(fp: File, mem: array<Byte>, ghost file: seq<Byte>) returns (r: LoadResult)
    requires fp.InFlash() && fp.Contents() == file && fp.filePos == 0 && mem.Length <= U32
    requires |file| >= EHDR_SIZE
    requires HeaderVerdict(file).None? ==>
      TableInFile(file) && AllInRange(file, Table(file), mem.Length) && AllCountable(Table(file))
    modifies fp`filePos, mem
    ensures HeaderVerdict(file).Some? ==> r == HeaderVerdict(file).value && mem[..] == old(mem[..])
    ensures HeaderVerdict(file).None? ==>
      r == Kicked(Entry32(file), MemSize(Table(file), |Table(file)|))
        && mem[..] == Loaded(old(mem[..]), file, Table(file))
  {
    hide WordAt, HalfAt, Put, ByteCount, Loaded, AllInRange, Table;
    OneItem(EHDR_SIZE);
    var hdr := fp.ReadLocal(EHDR_SIZE, 1);
    HeaderIsFile(hdr, file);
    if !GoodMagic(hdr) {
      return BadMagic;
    }
    if hdr[4] == 0 {
      return BadClass;
    }
    if !Msb(hdr) {
      return NotBigEndian;
    }
    if PhNum(hdr) == 0 {
      return NoSegments;
    }
    fp.Seek(PhOff(hdr), SEEK_SET);
    fp.Seek(PhOff(hdr), SEEK_SET);
    var memSz := LoadTable(fp, mem, PhOff(hdr), PhNum(hdr), file);
    return Kicked(Entry32(hdr), memSz);
  }

  lemma LoadedIs(mem: seq<Byte>, file: seq<Byte>, phs: seq<Phdr>)
    requires AllInRange(file, phs, |mem|) && |mem| <= U32
    ensures AllInRange(file, phs, U32) && AllFit(LoadPatches(file, phs), |mem|)
    ensures Loaded(mem, file, phs) == PutFirst(mem, LoadPatches(file, phs), |phs|)
  {
    LoadPatchesFit(file, phs, |mem|);
  }

  /** The header read is the start of the file. */
  lemma HeaderIsFile(hdr: seq<Byte>, file: seq<Byte>)
    requires |file| >= EHDR_SIZE && hdr == file[..EHDR_SIZE]
    ensures GoodMagic(hdr) == GoodMagic(file) && Msb(hdr) == Msb(file) && hdr[4] == file[4]
    ensures PhNum(hdr) == PhNum(file) && PhOff(hdr) == PhOff(file) && Entry32(hdr) == Entry32(file)
  {
  }

  /** A program header read from its place is the table's. */
  lemma TableEntry(raw: seq<Byte>, file: seq<Byte>, i: nat)
    requires TableInFile(file) && Msb(file) && i < PhNum(file)
    requires var at := PhOff(file) + PHDR_SIZE * i; raw == file[at..at + PHDR_SIZE]
    ensures PhdrAt(raw, 0, true) == Table(file)[i]
  {
  }
}
