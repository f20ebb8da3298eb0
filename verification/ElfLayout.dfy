/** The bytes of an ELF32 header and of a program header, field by field, against what the two programs read. */
module ElfLayout {
  import opened Words
  import opened Flash
  import opened Elf
  import opened ElfLoader
  import opened Elf2Img

  type Half = x: int | 0 <= x < 0x1_0000

  /** A 32-bit field in either byte order. */
  function WordField(w: Word, msb: bool): (s: seq<Byte>)
    ensures |s| == 4
  {
    var b := WordBytes(w);
    if msb then b else [b[3], b[2], b[1], b[0]]
  }

  function HalfField(h: Half, msb: bool): (s: seq<Byte>)
    ensures |s| == 2
  {
    if msb then [h / 0x100, h % 0x100] else [h % 0x100, h / 0x100]
  }

  lemma WordFieldReads(s: seq<Byte>, at: nat, w: Word, msb: bool)
    requires at + 4 <= |s| && s[at..at + 4] == WordField(w, msb)
    ensures WordAt(s, at, msb) == w
  {
    hide WordBytes;
    WordRoundTrip(w);
    var b := s[at..at + 4];
    assert b[0] == s[at] && b[1] == s[at + 1] && b[2] == s[at + 2] && b[3] == s[at + 3];
    assert [b[0], b[1], b[2], b[3]] == b && (!msb ==> [b[3], b[2], b[1], b[0]] == WordBytes(w));
  }

  lemma HalfFieldReads(s: seq<Byte>, at: nat, h: Half, msb: bool)
    requires at + 2 <= |s| && s[at..at + 2] == HalfField(h, msb)
    ensures HalfAt(s, at, msb) == h
  {
    var b := s[at..at + 2];
    assert b[0] == s[at] && b[1] == s[at + 1];
  }

  /** The eight words of a program header. */
  datatype PhdrFields = PhdrFields(kind: Word, offset: Word, vaddr: Word, paddr: Word, filesz: Word, memsz: Word,
                                   flags: Word, align: Word)

  function PhdrBytes(f: PhdrFields, msb: bool): (s: seq<Byte>)
    ensures |s| == 32
  {
    WordField(f.kind, msb) + WordField(f.offset, msb) + WordField(f.vaddr, msb) + WordField(f.paddr, msb)
    + WordField(f.filesz, msb) + WordField(f.memsz, msb) + WordField(f.flags, msb) + WordField(f.align, msb)
  }

  /** A program header reads back: the load address is the physical one. */
  lemma PhdrReads(s: seq<Byte>, at: nat, f: PhdrFields, msb: bool)
    requires at + 32 <= |s| && s[at..at + 32] == PhdrBytes(f, msb)
    ensures PhdrAt(s, at, msb) == Phdr(f.kind, f.offset, f.paddr, f.filesz, f.memsz)
  {
    hide WordField, WordAt;
    var p := PhdrBytes(f, msb);
    PhdrParts(f, msb);
    SubSlice(s, at, p, 0, 4);
    SubSlice(s, at, p, 4, 8);
    SubSlice(s, at, p, 12, 16);
    SubSlice(s, at, p, 16, 20);
    SubSlice(s, at, p, 20, 24);
    WordFieldReads(s, at, f.kind, msb);
    WordFieldReads(s, at + 4, f.offset, msb);
    WordFieldReads(s, at + 12, f.paddr, msb);
    WordFieldReads(s, at + 16, f.filesz, msb);
    WordFieldReads(s, at + 20, f.memsz, msb);
  }

  lemma PhdrParts(f: PhdrFields, msb: bool)
    ensures var p := PhdrBytes(f, msb);
      && p[0..4] == WordField(f.kind, msb) && p[4..8] == WordField(f.offset, msb)
      && p[12..16] == WordField(f.paddr, msb) && p[16..20] == WordField(f.filesz, msb)
      && p[20..24] == WordField(f.memsz, msb)
  {
    hide WordField;
  }

  /** The 52 bytes of a file header. */
  datatype EhdrFields = EhdrFields(magic: seq<Byte>, class': Byte, data: Byte, ident: seq<Byte>, kind: Half,
                                   machine: Half, version: Word, entry: Word, phoff: Word, shoff: Word, flags: Word,
                                   ehsize: Half, phentsize: Half, phnum: Half, rest: seq<Byte>)

  predicate Complete(f: EhdrFields) {
    |f.magic| == 4 && |f.ident| == 10 && |f.rest| == 6
  }

  function EhdrBytes(f: EhdrFields, msb: bool): (s: seq<Byte>)
    requires Complete(f)
    ensures |s| == 52
  {
    f.magic + [f.class', f.data] + f.ident + HalfField(f.kind, msb) + HalfField(f.machine, msb)
    + WordField(f.version, msb) + WordField(f.entry, msb) + WordField(f.phoff, msb) + WordField(f.shoff, msb)
    + WordField(f.flags, msb) + HalfField(f.ehsize, msb) + HalfField(f.phentsize, msb) + HalfField(f.phnum, msb)
    + f.rest
  }

  /** A file header reads back, in the byte order it names itself. */
  lemma EhdrReads(file: seq<Byte>, f: EhdrFields)
    requires Complete(f) && EhdrBytes(f, f.data == 2) <= file
    ensures |file| >= EHDR_SIZE
    ensures GoodMagic(file) <==> f.magic == [0x7f, 'E' as int, 'L' as int, 'F' as int]
    ensures Msb(file) <==> f.data == 2
    ensures file[4] == f.class' && Entry32(file) == f.entry && PhOff(file) == f.phoff && PhNum(file) == f.phnum
  {
    var msb, s := f.data == 2, EhdrBytes(f, f.data == 2);
    EhdrIdent(f, msb);
    EhdrParts(f, msb);
    assert file[..52] == s;
    hide WordField, HalfField, WordAt, HalfAt, EhdrBytes, GoodMagic;
    SubSlice(file, 0, s, 24, 28);
    SubSlice(file, 0, s, 28, 32);
    SubSlice(file, 0, s, 44, 46);
    WordFieldReads(file, 24, f.entry, msb);
    WordFieldReads(file, 28, f.phoff, msb);
    HalfFieldReads(file, 44, f.phnum, msb);
    assert file[..6] == s[..6] == f.magic + [f.class', f.data];
    assert file[..4] == f.magic && file[4] == file[..6][4] && file[5] == file[..6][5];
    FirstFour(file, f.magic);
  }

  lemma FirstFour(file: seq<Byte>, magic: seq<Byte>)
    requires |file| >= EHDR_SIZE && file[..4] == magic
    ensures GoodMagic(file) <==> magic == [0x7f, 'E' as int, 'L' as int, 'F' as int]
  {
    assert file[0] == magic[0] && file[1] == magic[1] && file[2] == magic[2] && file[3] == magic[3];
  }

  lemma EhdrIdent(f: EhdrFields, msb: bool)
    requires Complete(f)
    ensures EhdrBytes(f, msb)[..6] == f.magic + [f.class', f.data]
  {
    hide WordField, HalfField;
  }

  lemma EhdrParts(f: EhdrFields, msb: bool)
    requires Complete(f)
    ensures var s := EhdrBytes(f, msb);
      && s[24..28] == WordField(f.entry, msb) && s[28..32] == WordField(f.phoff, msb)
      && s[44..46] == HalfField(f.phnum, msb)
  {
    hide WordField, HalfField;
  }

  /** The table of a file: header `i` stands 32 * i bytes behind phoff. */
  lemma TableReads(file: seq<Byte>, f: EhdrFields, ps: seq<PhdrFields>)
    requires Complete(f) && EhdrBytes(f, f.data == 2) <= file && f.phnum == |ps|
    requires f.phoff + 32 * |ps| <= |file|
    requires forall i :: 0 <= i < |ps| ==>
      var at := f.phoff + 32 * i; PhdrBytes(ps[i], f.data == 2) == file[at..at + 32]
    ensures TableInFile(file) && |Table(file)| == |ps|
    ensures forall i :: 0 <= i < |ps| ==>
      Table(file)[i] == Phdr(ps[i].kind, ps[i].offset, ps[i].paddr, ps[i].filesz, ps[i].memsz)
  {
    hide PhdrBytes, EhdrBytes, PhOff, PhNum, Msb;
    EhdrReads(file, f);
    forall i | 0 <= i < |ps|
      ensures Table(file)[i] == Phdr(ps[i].kind, ps[i].offset, ps[i].paddr, ps[i].filesz, ps[i].memsz)
    {
      PhdrReads(file, f.phoff + 32 * i, ps[i], f.data == 2);
    }
  }

  /** What the two programs make of a header: the loader takes big-endian files of any class but 0, elf2img both
      byte orders and any class. */
  lemma HeadersAccepted(file: seq<Byte>, f: EhdrFields)
    requires Complete(f) && EhdrBytes(f, f.data == 2) <= file
    ensures |file| >= EHDR_SIZE
    ensures HeaderVerdict(file) ==
      if f.magic != [0x7f, 0x45, 0x4c, 0x46] then Some(BadMagic)
      else if f.class' == 0 then Some(BadClass)
      else if f.data != 2 then Some(NotBigEndian)
      else if f.phnum == 0 then Some(NoSegments)
      else None
    ensures ImageVerdict(file) ==
      if f.magic != [0x7f, 0x45, 0x4c, 0x46] then Some(NotElf) else if f.phnum == 0 then Some(NoHeaders) else None
  {
    hide EhdrBytes, GoodMagic, Msb, PhNum;
    EhdrReads(file, f);
  }

  // The bytes counted ---------------------------------------------------------------------------------

  /** The addresses of the first `n` loadable segments. */
  ghost function Covered(phs: seq<Phdr>, n: nat): set<int>
    requires n <= |phs|
  {
    if n == 0 then {}
    else
      Covered(phs, n - 1) +
      if Loads(phs[n - 1]) then Addresses(phs[n - 1].paddr, phs[n - 1].memsz) else {}
  }

  ghost function Addresses(from: int, length: nat): set<int>
    decreases length
  {
    if length == 0 then {} else Addresses(from, length - 1) + {from + length - 1}
  }

  lemma {:induction false} CountAddresses(from: int, length: nat)
    ensures |Addresses(from, length)| == length
    ensures forall a :: a in Addresses(from, length) <==> from <= a < from + length
    decreases length
  {
    if length > 0 {
      CountAddresses(from, length - 1);
    }
  }

  lemma {:induction false} CoveredMeans(phs: seq<Phdr>, n: nat, a: int)
    requires n <= |phs|
    ensures a in Covered(phs, n) <==> exists i :: 0 <= i < n && Covers(phs[i], a)
    decreases n
  {
    hide Covered, Covers;
    if n == 0 {
      NothingCovered(phs);
    } else {
      CoveredMeans(phs, n - 1, a);
      CoveredStep(phs, n - 1, a);
    }
  }

  lemma CoveredStep(phs: seq<Phdr>, n: nat, a: int)
    requires n < |phs|
    ensures a in Covered(phs, n + 1) <==> a in Covered(phs, n) || Covers(phs[n], a)
  {
    CountAddresses(phs[n].paddr, phs[n].memsz);
    hide Addresses;
  }

  /** A segment apart from all before it adds as many addresses as it has. */
  lemma OneMoreSegment(phs: seq<Phdr>, n: nat)
    requires n < |phs| && Disjoint(phs) && Loads(phs[n])
    ensures |Covered(phs, n + 1)| == |Covered(phs, n)| + phs[n].memsz
  {
    hide Addresses;
    var p, before := phs[n], Covered(phs, n);
    var last := Addresses(p.paddr, p.memsz);
    CountAddresses(p.paddr, p.memsz);
    assert Covered(phs, n + 1) == before + last;
    forall a | a in last
      ensures a !in before
    {
      CoveredMeans(phs, n, a);
      assert forall i :: 0 <= i < n ==> Apart(phs[i], p);
    }
    hide *;
    assert before !! last;
  }

  /** With disjoint segments the number of bytes the loader reports is the number of addresses loaded, in 32 bits. */
  lemma {:induction false} MemSizeIsCovered(phs: seq<Phdr>, n: nat)
    requires n <= |phs| && Disjoint(phs)
    ensures MemSize(phs, n) == |Covered(phs, n)| % U32
    decreases n
  {
    hide Covered, Disjoint;
    if n == 0 {
      assert |Covered(phs, 0)| == 0 by { NothingCovered(phs); }
    } else {
      MemSizeIsCovered(phs, n - 1);
      if Loads(phs[n - 1]) {
        OneMoreSegment(phs, n - 1);
        AddInWord(|Covered(phs, n - 1)|, phs[n - 1].memsz);
      } else {
        SegmentSkipped(phs, n - 1);
      }
    }
  }

  lemma NothingCovered(phs: seq<Phdr>)
    ensures Covered(phs, 0) == {}
  {
  }

  lemma SegmentSkipped(phs: seq<Phdr>, n: nat)
    requires n < |phs| && !Loads(phs[n])
    ensures Covered(phs, n + 1) == Covered(phs, n)
  {
  }

  lemma AddInWord(x: nat, y: nat)
    ensures (x % U32 + y) % U32 == (x + y) % U32
  {
  }
}
