/** load_lzma: the 13-byte header of an .lzma file, then the decoder on what follows it. */
module LzmaLoader {
  import opened Words
  import opened RangeCoder
  import opened LzmaPackets
  import opened LzmaMachine
  import opened LzmaStream
  import opened Flash
  import opened CiloIO
  import opened LzmaSource
  import opened LzmaFlat

  const LZMA_PROPERTIES_SIZE := 5

  /** The properties byte: (pb * 5 + lp) * 9 + lc. */
  function PropertiesByte(props: Properties): nat {
    (props.pb * 5 + props.lp) * 9 + props.lc
  }

  /** LzmaDecodeProperties, with the dictionary size that _LZMA_OUT_READ adds. It accepts exactly the
      bytes of valid properties, and inverts PropertiesByte on them. */
  method LzmaDecodeProperties(propsData: seq<Byte>, size: int) returns (result: int, props: Properties,
          dictionarySize: Word)
    requires size <= |propsData|
    ensures result == LZMA_RESULT_OK <==> size >= LZMA_PROPERTIES_SIZE && propsData[0] < 225
    ensures result == LZMA_RESULT_OK || result == LZMA_RESULT_DATA_ERROR
    ensures result == LZMA_RESULT_OK ==> props.lc <= 8 && props.lp <= 4 && props.pb <= 4
    ensures result == LZMA_RESULT_OK ==>
      var b := propsData[0]; props.lc == b % 9 && props.lp == b / 9 % 5 && props.pb == b / 45
    ensures result == LZMA_RESULT_OK ==> PropertiesByte(props) == propsData[0]
    ensures result == LZMA_RESULT_OK ==> dictionarySize == Max(1, LittleEndian(propsData[1..5]))
  {
    props, dictionarySize := Properties(0, 0, 0), 1;
    if size < LZMA_PROPERTIES_SIZE {
      return LZMA_RESULT_DATA_ERROR, props, dictionarySize;
    }
    var prop0: int := propsData[0];
    if prop0 >= 225 {
      return LZMA_RESULT_DATA_ERROR, props, dictionarySize;
    }
    var pb := 0;
    while prop0 >= 45
      invariant prop0 >= 0 && pb * 45 + prop0 == propsData[0]
    {
      pb, prop0 := pb + 1, prop0 - 45;
    }
    var lp := 0;
    while prop0 >= 9
      invariant prop0 >= 0 && lp >= 0 && pb * 45 + lp * 9 + prop0 == propsData[0] && lp * 9 + prop0 < 45
    {
      lp, prop0 := lp + 1, prop0 - 9;
    }
    props := Properties(prop0, lp, pb);
    var sum := 0;
    var i := 0;
    while i < 4
      invariant 0 <= i <= 4 && sum == LittleEndian(propsData[1..1 + i])
    {
      assert propsData[1..1 + i + 1][..i] == propsData[1..1 + i];
      sum := sum + Shl(propsData[1 + i], i * 8);
      i := i + 1;
    }
    LittleEndianFits(propsData[1..5]);
    dictionarySize := if sum == 0 then 1 else sum;
    return LZMA_RESULT_OK, props, dictionarySize;
  }

  /** The value of a little-endian field. */
  function LittleEndian(s: seq<Byte>): nat {
    if s == [] then 0 else LittleEndian(s[..|s| - 1]) + Shl(s[|s| - 1], (|s| - 1) * 8)
  }

  lemma LittleEndianFits(s: seq<Byte>)
    requires |s| == 4
    ensures LittleEndian(s) == s[0] + s[1] as int * 0x100 + s[2] as int * 0x1_0000 + s[3] as int * 0x100_0000 < U32
  {
    Pow2Values();
    assert Pow2(16) == 65536 by { Pow2Add(8, 8); }
    assert Pow2(24) == 0x100_0000 by { Pow2Add(16, 8); }
    assert s[..3][..2] == s[..2] && s[..2][..1] == s[..1] && s[..1][..0] == [];
    assert LittleEndian(s[..1]) == s[0];
    assert LittleEndian(s[..2]) == s[0] + s[1] as int * 0x100;
    assert LittleEndian(s[..3]) == s[0] + s[1] as int * 0x100 + s[2] as int * 0x1_0000;
  }

  lemma PropertiesByteOneToOne(a: Properties, b: Properties)
    requires ValidProperties(a) && ValidProperties(b) && PropertiesByte(a) == PropertiesByte(b)
    ensures a == b
  {
    assert a.pb * 5 + a.lp == b.pb * 5 + b.lp;
  }

  /** The properties a properties byte stands for. */
  function PropertiesOf(b: Byte): (props: Properties)
    ensures props.lc == b % 9 && props.lp == b / 9 % 5 && props.pb == b / 45
    ensures b < 225 ==> ValidProperties(props) && PropertiesByte(props) == b
  {
    Properties(b % 9, b / 9 % 5, b / 45)
  }

  /** The byte most .lzma files begin with. */
  lemma UsualProperties()
    ensures PropertiesOf(0x5d) == Properties(3, 0, 2) && PropertiesByte(Properties(3, 0, 2)) == 0x5d
  {
  }

  /** The fields of the header load_lzma uses: the properties byte and the low word of the size. */
  datatype Header = BadHeader | Header(props: Properties, outSize: Word)

  function ParseHeader(h: seq<Byte>): Header
    requires |h| >= 9
  {
    if h[0] >= 225 then BadHeader
    else
      LittleEndianFits(h[5..9]);
      Header(PropertiesOf(h[0]), LittleEndian(h[5..9]))
  }

  /** Where the fields are: lc, lp and pb in byte 0, the size in bytes 5 to 8, least significant first. */
  lemma HeaderFields(h: seq<Byte>)
    requires |h| >= 9
    ensures ParseHeader(h) ==
      if h[0] >= 225 then BadHeader
      else Header(Properties(h[0] % 9, h[0] / 9 % 5, h[0] / 45),
                  h[5] + h[6] as int * 0x100 + h[7] as int * 0x1_0000 + h[8] as int * 0x100_0000)
  {
    hide LittleEndian;
    LittleEndianFits(h[5..9]);
  }

  ghost function HeaderBytes(fp: File): (h: seq<Byte>)
    requires fp.entry + ENTRY_SIZE + 9 <= |fp.flash|
    reads fp
    ensures |h| == 9
  {
    fp.flash[fp.entry + ENTRY_SIZE..fp.entry + ENTRY_SIZE + 9]
  }

  /** The bytes load_lzma's decoder writes for this header and file. */
  function Output(h: Header, contents: seq<Byte>): seq<Byte>
    requires h.Header? && h.props.lc <= 8
  {
    Written(h.props, FLAT, contents[Min(13, |contents|)..], h.outSize)
  }

  /** load_lzma up to the jump: the kernel is started exactly when the decoder succeeds on the file's
      bytes from offset 13. Memory then holds what it wrote, and after a data error what it wrote up to
      there, and is otherwise untouched; it needs room for those bytes only, not for the size in the
      header. The 512-byte refills do not show. A file shorter than its header is decoded from an empty
      input. */
  method LoadLzma(fp: File, memory: array<Byte>) returns (started: bool)
    requires fp.InFlash() && 0 < fp.fileLen && fp.entry + ENTRY_SIZE + 9 <= |fp.flash|
    requires var h := ParseHeader(HeaderBytes(fp)); h.Header? ==> |Output(h, fp.Contents())| <= memory.Length
    modifies fp`filePos, memory
    ensures ParseHeader(HeaderBytes(fp)).BadHeader? ==> !started && memory[..] == old(memory[..])
    ensures ParseHeader(HeaderBytes(fp)).Header? ==>
      Loads(ParseHeader(HeaderBytes(fp)), fp.Contents(), started, old(memory[..]), memory[..])
  {
    hide Decode, Written, ParseHeader;
    ghost var before := memory[..];
    var ok, props, outSize := ReadHeader(fp);
    if !ok {
      return false;
    }
    started := RunDecoder(fp, props, memory, outSize);
  }

  /** The header reads of load_lzma. The last seek skips the high word of the size and stops at the end
      of a file that is too short. */
  method ReadHeader(fp: File) returns (ok: bool, props: Properties, outSize: Word)
    requires fp.InFlash() && fp.entry + ENTRY_SIZE + 9 <= |fp.flash|
    modifies fp`filePos
    ensures ok == ParseHeader(HeaderBytes(fp)).Header?
    ensures ok ==> ParseHeader(HeaderBytes(fp)) == Header(props, outSize) && fp.filePos == Min(13, fp.fileLen)
    ensures ok ==> ValidProperties(props)
  {
    hide LittleEndian, PropertiesOf, PropertiesByte;
    ghost var h, base := HeaderBytes(fp), fp.entry + ENTRY_SIZE;
    outSize := 0;
    fp.Seek(0, SEEK_SET);
    var propsData := fp.ReadLocal(LZMA_PROPERTIES_SIZE, 1);
    SubSlice(fp.flash, base, h, 0, 5);
    var result, dictionarySize;
    result, props, dictionarySize := LzmaDecodeProperties(propsData, LZMA_PROPERTIES_SIZE);
    if result != LZMA_RESULT_OK {
      return false, props, outSize;
    }
    PropertiesByteOneToOne(props, PropertiesOf(h[0]));
    outSize := ReadSize(fp);
    SubSlice(fp.flash, base, h, 5, 9);
    fp.Seek(4, SEEK_CUR);
    ok := true;
  }

  /** The four bytes of the uncompressed size that are used. */
  method ReadSize(fp: File) returns (outSize: Word)
    requires fp.entry + ENTRY_SIZE + fp.filePos + 4 <= |fp.flash| < U32
    modifies fp`filePos
    ensures fp.filePos == old(fp.filePos) + 4
    ensures var from := fp.entry + ENTRY_SIZE + old(fp.filePos); outSize == LittleEndian(fp.flash[from..from + 4])
  {
    hide LittleEndian;
    var b := fp.ReadLocal(1, 4);
    LittleEndianFits(b);
    outSize := b[0] + b[1] as int * 0x100 + b[2] as int * 0x1_0000 + b[3] as int * 0x100_0000;
  }

  /** What decoding the rest of the file does: whether the kernel is started, and memory after it. */
  ghost predicate Loads(h: Header, contents: seq<Byte>, started: bool, before: seq<Byte>, after: seq<Byte>)
    requires h.Header? && h.props.lc <= 8
  {
    && started == Decode(h.props, FLAT, contents[Min(13, |contents|)..], h.outSize).Ok?
    && |Output(h, contents)| <= |before| && after == Splice(before, 0, Output(h, contents))
  }

  /** The decoder call of load_lzma, with its probability array and 512-byte buffer. */
  method RunDecoder(fp: File, props: Properties, memory: array<Byte>, outSize: Word) returns (started: bool)
    requires fp.InFlash() && 0 < fp.fileLen && fp.filePos <= fp.fileLen && ValidProperties(props)
    requires |Written(props, FLAT, fp.Contents()[fp.filePos..], outSize)| <= memory.Length
    modifies fp`filePos, memory
    ensures started == Decode(props, FLAT, old(fp.Contents()[fp.filePos..]), outSize).Ok?
    ensures memory[..] == Splice(old(memory[..]), 0, Written(props, FLAT, old(fp.Contents()[fp.filePos..]), outSize))
  {
    hide Decode, Written, NumProbs;
    var buffer := new Byte[512];
    var probs := new Prob[NumProbs(props)];
    var input := new Source(fp, buffer);
    var result, outProcessed := LzmaDecode(props, probs, input, memory, outSize);
    started := result == LZMA_RESULT_OK;
  }

  /** A little-endian 32-bit field. */
  function LittleEndianBytes(w: Word): (s: seq<Byte>)
    ensures |s| == 4
  {
    var w1 := w / 0x100;
    var w2 := w1 / 0x100;
    [w % 0x100, w1 % 0x100, w2 % 0x100, w2 / 0x100]
  }

  lemma LittleEndianRoundTrip(w: Word)
    ensures LittleEndian(LittleEndianBytes(w)) == w
  {
    hide LittleEndian;
    LittleEndianFits(LittleEndianBytes(w));
  }

  /** An .lzma file: properties byte, dictionary size, uncompressed size, code bytes. */
  function LzmaFile(props: Properties, dictionarySize: Word, outSize: Word, high: Word, code: seq<Byte>): (s: seq<Byte>)
    requires ValidProperties(props)
    ensures |s| == 13 + |code|
  {
    [PropertiesByte(props)] + LittleEndianBytes(dictionarySize) + LittleEndianBytes(outSize)
      + LittleEndianBytes(high) + code
  }

  /** The bytes of such a file, one by one. */
  lemma FileLayout(props: Properties, dictionarySize: Word, size: Word, high: Word, code: seq<Byte>, k: nat)
    requires ValidProperties(props) && k < 4
    ensures var s, p := LzmaFile(props, dictionarySize, size, high, code), [1, 0x100, 0x1_0000, 0x100_0000][k];
      && s[0] == 45 * props.pb + 9 * props.lp + props.lc
      && s[1 + k] == dictionarySize / p % 0x100 && s[5 + k] == size / p % 0x100 && s[9 + k] == high / p % 0x100
      && s[13..] == code
  {
    var s := LzmaFile(props, dictionarySize, size, high, code);
    assert s[1 + k] == LittleEndianBytes(dictionarySize)[k];
    assert s[5 + k] == LittleEndianBytes(size)[k];
    assert s[9 + k] == LittleEndianBytes(high)[k];
    hide LittleEndianBytes;
    LittleEndianByte(dictionarySize, k);
    LittleEndianByte(size, k);
    LittleEndianByte(high, k);
  }

  lemma LittleEndianByte(w: Word, k: nat)
    requires k < 4
    ensures LittleEndianBytes(w)[k] == w / [1, 0x100, 0x1_0000, 0x100_0000][k] % 0x100
  {
    var w1 := w / 0x100;
    var w2 := w1 / 0x100;
    assert w1 == w / 0x100 && w2 == w / 0x1_0000 && w2 / 0x100 == w / 0x100_0000;
    assert w2 / 0x100 < 0x100;
  }

  lemma HeaderArrives(props: Properties, dictionarySize: Word, size: Word, high: Word, code: seq<Byte>)
    requires ValidProperties(props)
    ensures var file := LzmaFile(props, dictionarySize, size, high, code);
      ParseHeader(file) == Header(props, size) && file[13..] == code
  {
    hide LittleEndian, LittleEndianBytes;
    var file := LzmaFile(props, dictionarySize, size, high, code);
    assert file[13..] == code;
    assert file[5..9] == LittleEndianBytes(size);
    LittleEndianRoundTrip(size);
    PropertiesByteOneToOne(props, PropertiesOf(file[0]));
  }

  /** Compressed kernels arrive: loading a file made from any packet list by the reference encoder, with
      its size in the header, or with any size from there up when an end marker says where it stops,
      writes exactly the list's expansion and starts the kernel. Memory needs room for the expansion
      only: 0xFFFFFFFF, the low word of an unknown size, is as good as the true size. */
  lemma KernelArrives(props: Properties, dictionarySize: Word, high: Word, ps: seq<Packet>, ending: Ending,
          size: Word, first: Byte, tail: seq<Byte>, started: bool, before: seq<Byte>, after: seq<Byte>)
    requires ValidProperties(props) && ValidStream(FLAT, ps, ending)
    requires |Expand(LZ_START, ps, FLAT).value.out| <= size
    requires ending.AtSize? ==> size == |Expand(LZ_START, ps, FLAT).value.out|
    ensures var out := Expand(LZ_START, ps, FLAT).value.out;
      var file := LzmaFile(props, dictionarySize, size, high, EncodeStream(props, FLAT, ps, ending, first) + tail);
      && ParseHeader(file) == Header(props, size)
      && Output(ParseHeader(file), file) == out
      && (Loads(ParseHeader(file), file, started, before, after) ==> started && after == Splice(before, 0, out))
  {
    hide Decode, Written, Expand, EncodeStream, WholeRequests, Splice, LzmaFile, ParseHeader, InitialProbs;
    var out := Expand(LZ_START, ps, FLAT).value.out;
    var code := EncodeStream(props, FLAT, ps, ending, first) + tail;
    HeaderArrives(props, dictionarySize, size, high, code);
    StreamRoundTrip(props, FLAT, ps, ending, first, tail, size);
    WrittenIsOutput(props, FLAT, code, size);
    assert out[..|out|] == out;
  }

  /** The header of a file of at least its length is in its contents. */
  lemma HeaderInFile(fp: File)
    requires fp.InFlash() && 9 <= fp.fileLen
    ensures fp.entry + ENTRY_SIZE + 9 <= |fp.flash|
    ensures ParseHeader(HeaderBytes(fp)) == ParseHeader(fp.Contents())
  {
    hide LittleEndian, PropertiesOf;
    var h, s := HeaderBytes(fp), fp.Contents();
    assert h == s[..9];
    assert h[5..9] == s[5..9];
  }

  /** load_lzma on such a file: the kernel is started, and memory holds exactly the expansion, the rest of it
      untouched. */
  method LoadKernel(fp: File, memory: array<Byte>, ghost props: Properties, ghost dictionarySize: Word,
          ghost size: Word, ghost high: Word, ghost ps: seq<Packet>, ghost ending: Ending, ghost first: Byte,
          ghost tail: seq<Byte>)
    returns (started: bool)
    requires ValidProperties(props) && ValidStream(FLAT, ps, ending)
    requires |Expand(LZ_START, ps, FLAT).value.out| <= size
    requires ending.AtSize? ==> size == |Expand(LZ_START, ps, FLAT).value.out|
    requires fp.InFlash()
    requires fp.Contents() ==
             LzmaFile(props, dictionarySize, size, high, EncodeStream(props, FLAT, ps, ending, first) + tail)
    requires |Expand(LZ_START, ps, FLAT).value.out| <= memory.Length
    modifies fp`filePos, memory
    ensures started && memory[..] == Splice(old(memory[..]), 0, Expand(LZ_START, ps, FLAT).value.out)
  {
    hide Written, Output, Expand, EncodeStream, WholeRequests, Splice, LzmaFile, ParseHeader, Loads;
    HeaderInFile(fp);
    ghost var file, before := fp.Contents(), memory[..];
    KernelArrives(props, dictionarySize, high, ps, ending, size, first, tail, false, before, before);
    started := LoadLzma(fp, memory);
    KernelArrives(props, dictionarySize, high, ps, ending, size, first, tail, started, before, memory[..]);
  }
}
