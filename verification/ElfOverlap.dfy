/** An ELF file both programs accept and lay out differently: its second segment's zero tail lies over the
    first one's file bytes. */
module ElfOverlap {
  import opened Words
  import opened Flash
  import opened Elf
  import opened ElfLoader
  import opened Elf2Img

  /** A file given as big-endian words. */
  function Words32(ws: seq<Word>): (s: seq<Byte>)
    ensures |s| == 4 * |ws|
  {
    if ws == [] then [] else WordBytes(ws[0]) + Words32(ws[1..])
  }

  lemma {:induction false} WordInPlace(ws: seq<Word>, i: nat)
    requires i < |ws|
    ensures Words32(ws)[4 * i..4 * i + 4] == WordBytes(ws[i]) && ReadWord(Words32(ws), 4 * i) == ws[i]
    decreases i
  {
    hide WordBytes, ReadWord;
    var s := Words32(ws);
    if i > 0 {
      WordInPlace(ws[1..], i - 1);
      assert s[4..] == Words32(ws[1..]);
      assert s[4 * i..4 * i + 4] == s[4..][4 * i - 4..4 * i];
    }
    ReadWordAt(s, 4 * i, ws[i]);
  }

  lemma HalfOfWord(s: seq<Byte>, at: nat)
    requires at + 4 <= |s|
    ensures HalfAt(s, at, true) == ReadWord(s, at) / 0x1_0000
  {
  }

  /** A big-endian executable of class 1 with its two program headers at 52: a PT_LOAD of the file's first
      four bytes at address 0, and a PT_LOAD of four zero bytes at the same address. Their virtual addresses are
      others. */
  const WORDS: seq<Word> :=
    [0x7f454c46, 0x01020100, 0, 0, 0x0002_0008, 1, 0, 52, 0, 0, 0x0034_0020, 0x0002_0000, 0,
     1, 0, 0x8000_0000, 0, 4, 4, 7, 0,
     1, 0, 0x8000_1000, 0, 0, 4, 7, 0]

  const FILE: seq<Byte> := Words32(WORDS)

  const PHDRS: seq<Phdr> := [Phdr(PT_LOAD, 0, 0, 4, 4), Phdr(PT_LOAD, 0, 0, 0, 4)]

  lemma IdentReads()
    ensures |FILE| == 116 && GoodMagic(FILE) && Msb(FILE) && FILE[4] == 1 && FILE[0] == 0x7f
  {
    hide Words32;
    WordInPlace(WORDS, 0);
    WordInPlace(WORDS, 1);
    var magic, ident := FILE[0..4], FILE[4..8];
    assert magic == [0x7f, 0x45, 0x4c, 0x46] && ident == [1, 2, 1, 0];
    assert FILE[0] == magic[0] && FILE[1] == magic[1] && FILE[2] == magic[2] && FILE[3] == magic[3];
    assert FILE[4] == ident[0] && FILE[5] == ident[1];
  }

  lemma HeaderReads()
    ensures PhOff(FILE) == 52 && PhNum(FILE) == 2 && TableInFile(FILE)
    ensures HeaderVerdict(FILE) == None && ImageVerdict(FILE) == None
  {
    hide Words32, GoodMagic, Msb, ReadWord, HalfAt;
    IdentReads();
    WordInPlace(WORDS, 7);
    WordInPlace(WORDS, 11);
    HalfOfWord(FILE, 44);
  }

  lemma PhdrReads(i: nat)
    requires i < 2
    ensures |FILE| == 116 && PhdrAt(FILE, 52 + 32 * i, true) == PHDRS[i]
  {
    hide Words32, ReadWord;
    IdentReads();
    var at := 13 + 8 * i;
    WordInPlace(WORDS, at);
    WordInPlace(WORDS, at + 1);
    WordInPlace(WORDS, at + 3);
    WordInPlace(WORDS, at + 4);
    WordInPlace(WORDS, at + 5);
  }

  lemma TableReads()
    ensures TableInFile(FILE) && Table(FILE) == PHDRS
  {
    hide PhdrAt, Words32, PhOff, PhNum, Msb;
    IdentReads();
    HeaderReads();
    PhdrReads(0);
    PhdrReads(1);
  }

  /** Both programs accept the file; its segments overlap; and at address 0 the loader leaves 0 where the
      image holds the first byte of the file. */
  lemma OverlapDisagrees(mem: seq<Byte>)
    requires 4 <= |mem| <= U32
    ensures TableInFile(FILE) && HeaderVerdict(FILE) == None && ImageVerdict(FILE) == None
    ensures var phs := Table(FILE);
      && AllInRange(FILE, phs, |mem|) && AllCountable(phs) && AllInRange(FILE, phs, U32 - 1)
      && Span(phs, |phs|, 0, 4) && Inside(FILE, phs, 0, 4) && !NoneLoads(phs) && !Disjoint(phs)
      && Loaded(mem, FILE, phs)[0] == 0 && Image(FILE, phs, 0, 4)[0] == 0x7f
  {
    hide Words32, Loaded, Image, Table, TableInFile, HeaderVerdict, ImageVerdict;
    IdentReads();
    HeaderReads();
    TableReads();
    SegmentsOverlap(|mem|);
    LoadedAt(mem, FILE, PHDRS, 0);
    ImageAt(FILE, PHDRS, 0, 4, 0);
  }

  lemma SegmentsOverlap(top: nat)
    requires 4 <= top && |FILE| == 116
    ensures AllInRange(FILE, PHDRS, top) && AllInRange(FILE, PHDRS, 4)
    ensures Span(PHDRS, 2, 0, 4) && Inside(FILE, PHDRS, 0, 4) && !NoneLoads(PHDRS) && !Disjoint(PHDRS)
    ensures LastCover(PHDRS, 2, 0) == Some(1) && LastFile(PHDRS, 2, 0) == Some(0)
  {
    hide Words32;
    SegmentsInRange(top);
    SegmentsInRange(4);
    var p, q := PHDRS[0], PHDRS[1];
    assert Loads(p) && Loads(q) && !Apart(p, q);
    CoversAtZero();
  }

  lemma SegmentsInRange(top: nat)
    requires 4 <= top && |FILE| == 116
    ensures AllInRange(FILE, PHDRS, top)
  {
    hide Words32;
    assert InRange(FILE, PHDRS[0], top) && InRange(FILE, PHDRS[1], top);
  }

  lemma CoversAtZero()
    ensures LastCover(PHDRS, 2, 0) == Some(1) && LastFile(PHDRS, 2, 0) == Some(0)
  {
    assert !CoversFile(PHDRS[1], 0) && CoversFile(PHDRS[0], 0) && Covers(PHDRS[1], 0);
    assert LastFile(PHDRS, 1, 0) == Some(0);
  }
}
