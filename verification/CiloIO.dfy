/** struct file of ciloio.h: opening by name, seeking, and positioned reads from flash. */
module CiloIO {
  import opened Words
  import opened Flash

  const SEEK_SET := 9
  const SEEK_CUR := 1
  const SEEK_END := 2

  /** The position cilo_seek leaves: always inside the file, whatever the 32-bit sum wraps to. */
  function SeekPosition(len: Word, pos: Word, offset: Word, whence: int): (p: Word)
    ensures pos <= len ==> p <= len
    ensures whence == SEEK_SET || whence == SEEK_CUR || whence == SEEK_END ==> p <= len
  {
    if whence == SEEK_SET then Min(offset, len)
    else if whence == SEEK_CUR then Min((offset + pos as int) % U32, len)
    else if whence == SEEK_END then len
    else pos
  }

  /** The 32-bit sum of position and offset wraps around and yet lies inside the file. */
  predicate SeekWraps(len: Word, pos: Word, delta: int) {
    pos + delta >= U32 || (pos + delta < 0 && pos + delta + U32 <= len)
  }

  /** A relative seek by a signed amount, passed as the 32-bit pattern cilo_seek takes, moves by that
      amount when the result is inside the file and to the end of the file otherwise, forwards or
      backwards, if and only if the wrapped sum does not lie inside the file before its end; where it
      does, which takes a file of 2^31 bytes or more, the seek lands on it. */
  lemma SeekCurMoves(len: Word, pos: Word, delta: int)
    requires pos <= len && -U31 <= delta < U31
    ensures var p := SeekPosition(len, pos, delta % U32, SEEK_CUR);
      && (p == (if 0 <= pos + delta <= len then pos + delta else len)
          <==> !SeekWraps(len, pos, delta) || (pos + delta) % U32 == len)
      && (SeekWraps(len, pos, delta) ==> p == (pos + delta) % U32 && len >= U31)
  {
    if delta < 0 {
      assert delta % U32 == delta + U32;
    }
    if pos + delta < 0 {
      assert (pos + delta) % U32 == pos + delta + U32;
    } else if pos + delta >= U32 {
      assert (pos + delta) % U32 == pos + delta - U32;
    }
  }

  /** The other seeks: to the offset or at most the end, to the end, and nowhere. */
  lemma SeekGoesTo(len: Word, pos: Word, offset: Word, whence: int)
    requires whence != SEEK_CUR
    ensures SeekPosition(len, pos, offset, whence) ==
      if whence == 9 then (if offset > len then len else offset) else if whence == 2 then len else pos
  {
  }

  /** `size * nmemb` in 32 bits. */
  function ByteCount(size: Word, nmemb: Word): Word {
    size as int * nmemb as int % U32
  }

  class File {
    const flash: seq<Byte>
    var entry: nat
    var fileLen: Word
    var filePos: Word
    var code: int
    var filename: seq<Byte>

    /** The entry and its contents lie inside the flash address space. */
    ghost predicate InFlash()
      reads this
    {
      entry + ENTRY_SIZE + fileLen <= |flash| < U32
    }

    ghost function Contents(): (s: seq<Byte>)
      requires InFlash()
      reads this
      ensures |s| == fileLen
    {
      flash[entry + ENTRY_SIZE..entry + ENTRY_SIZE + fileLen]
    }

    /** cilo_open: the first file of that name, at its start, or code -1. */
    constructor Open(flash: seq<Byte>, filename: seq<Byte>, ghost es: seq<Entry>)
      requires Holds(flash, es) && Readable(filename, NAME_SIZE)
      ensures this.flash == flash
      ensures code == if FirstNamed(es, filename).Some? then 1 else -1
      ensures code == 1 ==> InFlash() && filePos == 0 && Contents() == es[FirstNamed(es, filename).value].contents
    {
      var found, at, len, name := FileOpen(flash, filename, es);
      this.flash := flash;
      filePos := 0;
      entry, fileLen, this.filename := at, len, name;
      code := if found then 1 else -1;
    }

    /** cilo_seek. */
    method Seek(offset: Word, whence: int)
      modifies this`filePos
      ensures filePos == SeekPosition(fileLen, old(filePos), offset, whence)
    {
      if whence == SEEK_SET {
        filePos := if offset > fileLen then fileLen else offset;
      } else if whence == SEEK_CUR {
        var target := (offset + filePos as int) % U32;
        filePos := if target > fileLen then fileLen else target;
      } else if whence == SEEK_END {
        filePos := fileLen;
      }
    }

    /** cilo_read, i.e. platio_read: copies `size * nmemb` bytes into `dst` at `at` and advances. The
        int parameter of memcpy turns counts from 2^31 up into no copy at all. */
    method Read(dst: array<Byte>, at: nat, size: Word, nmemb: Word) returns (n: Word)
      requires var n := ByteCount(size, nmemb);
        n < U31 ==> at + n <= dst.Length && entry + ENTRY_SIZE + filePos + n <= |flash|
      modifies this`filePos, dst
      ensures n == ByteCount(size, nmemb) == size as int * nmemb as int % U32
      ensures filePos == (old(filePos) as int + n) % U32
      ensures n < U31 ==> forall k :: at <= k < at + n ==> dst[k] == flash[entry + ENTRY_SIZE + old(filePos) + k - at]
      ensures forall k :: 0 <= k < dst.Length && (k < at || at + n <= k || n >= U31) ==> dst[k] == old(dst[k])
    {
      n := ByteCount(size, nmemb);
      var from := entry + ENTRY_SIZE + filePos;
      if n < U31 {
        MemCpy(dst, at, flash, from, n);
      }
      filePos := (filePos as int + n) % U32;
    }

    /** cilo_read into a local variable of `size * nmemb` bytes. */
    method ReadLocal(size: Word, nmemb: Word) returns (s: seq<Byte>)
      requires ByteCount(size, nmemb) < U31
      requires entry + ENTRY_SIZE + filePos + ByteCount(size, nmemb) <= |flash|
      modifies this`filePos
      ensures filePos == (old(filePos) as int + ByteCount(size, nmemb)) % U32
      ensures var from := entry + ENTRY_SIZE + old(filePos); s == flash[from..from + ByteCount(size, nmemb)]
      ensures InFlash() && old(filePos) + ByteCount(size, nmemb) <= fileLen ==>
        filePos <= fileLen && s == Contents()[old(filePos)..old(filePos) + ByteCount(size, nmemb)]
    {
      hide ByteCount;
      ghost var from := entry + ENTRY_SIZE + filePos;
      var count := ByteCount(size, nmemb);
      var local := new Byte[count];
      var n := Read(local, 0, size, nmemb);
      s := local[..];
      assert forall k :: 0 <= k < count ==> s[k] == flash[from..from + count][k];
    }
  }

  // Sessions ------------------------------------------------------------------------------------

  /** What a caller does with an open file. */
  datatype Op = SeekOp(offset: Word, whence: int) | ReadOp(size: Word, nmemb: Word)

  /** Every read ends inside the file. */
  predicate ReadsInside(len: Word, pos: Word, ops: seq<Op>)
    decreases |ops|
  {
    ops == [] ||
    match ops[0]
    case SeekOp(offset, whence) => ReadsInside(len, SeekPosition(len, pos, offset, whence), ops[1..])
    case ReadOp(size, nmemb) =>
      ByteCount(size, nmemb) < U31 && pos + ByteCount(size, nmemb) as int <= len
        && ReadsInside(len, pos + ByteCount(size, nmemb) as int, ops[1..])
  }

  /** What the reads of a session return: slices of the contents, each from where the last operation left off. */
  function Answers(contents: seq<Byte>, pos: Word, ops: seq<Op>): seq<seq<Byte>>
    requires |contents| < U32 && ReadsInside(|contents|, pos, ops)
    decreases |ops|
  {
    if ops == [] then []
    else
      match ops[0]
      case SeekOp(offset, whence) => Answers(contents, SeekPosition(|contents|, pos, offset, whence), ops[1..])
      case ReadOp(size, nmemb) =>
        var end := pos + ByteCount(size, nmemb) as int;
        [contents[pos..end]] + Answers(contents, end, ops[1..])
  }

  /** Any session of in-range reads and of seeks returns those slices. */
  method Session(fp: File, ops: seq<Op>) returns (answers: seq<seq<Byte>>)
    requires fp.InFlash() && ReadsInside(fp.fileLen, fp.filePos, ops)
    modifies fp`filePos
    ensures answers == Answers(old(fp.Contents()), old(fp.filePos), ops)
  {
    hide ByteCount, SeekPosition;
    answers := [];
    var i := 0;
    assert ops[0..] == ops;
    while i < |ops|
      invariant 0 <= i <= |ops| && fp.InFlash() && fp.Contents() == old(fp.Contents())
      invariant ReadsInside(fp.fileLen, fp.filePos, ops[i..])
      invariant answers + Answers(fp.Contents(), fp.filePos, ops[i..])
        == Answers(old(fp.Contents()), old(fp.filePos), ops)
    {
      assert ops[i..][1..] == ops[i + 1..];
      match ops[i] {
        case SeekOp(offset, whence) => fp.Seek(offset, whence);
        case ReadOp(size, nmemb) =>
          var s := fp.ReadLocal(size, nmemb);
          answers := answers + [s];
      }
      i := i + 1;
    }
  }

  /** platio_file_open: where the file's entry is, its length field and its name. */
  method FileOpen(flash: seq<Byte>, filename: seq<Byte>, ghost es: seq<Entry>)
    returns (found: bool, at: nat, len: Word, name: seq<Byte>)
    requires Holds(flash, es) && Readable(filename, NAME_SIZE)
    ensures found == FirstNamed(es, filename).Some?
    ensures found ==> at + ENTRY_SIZE + len <= |flash| < U32
    ensures found ==> flash[at + ENTRY_SIZE..at + ENTRY_SIZE + len] == es[FirstNamed(es, filename).value].contents
    ensures found ==> Prefix(name, NAME_SIZE) == Prefix(filename, NAME_SIZE)
  {
    var f := FindFile(flash, filename, es);
    if f.None? {
      return false, 0, 0, [];
    }
    hide PackEntry, Pack, ReadWord, Prefix, ValidEntry;
    ghost var e := es[FirstNamed(es, filename).value];
    EntryInImage(flash, es, FirstNamed(es, filename).value);
    EntryFields(flash, f.value, e);
    at := f.value;
    len := ReadWord(flash, at + 4);
    name := StrNCpy(flash[at + 16..at + ENTRY_SIZE], NAME_SIZE);
    assert SameName(e, filename);
    found := true;
  }

  /** memcpy of string.c from flash. */
  method MemCpy(dst: array<Byte>, at: nat, src: seq<Byte>, from: nat, n: nat)
    requires at + n <= dst.Length && from + n <= |src|
    modifies dst
    ensures forall k :: at <= k < at + n ==> dst[k] == src[from + k - at]
    ensures forall k :: 0 <= k < dst.Length && (k < at || at + n <= k) ==> dst[k] == old(dst[k])
  {
    var i := 0;
    while i < n
      invariant 0 <= i <= n
      invariant forall k :: at <= k < at + i ==> dst[k] == src[from + k - at]
      invariant forall k :: 0 <= k < dst.Length && (k < at || at + i <= k) ==> dst[k] == old(dst[k])
    {
      dst[at + i] := src[from + i];
      i := i + 1;
    }
  }

  /** strncpy of string.c: the string up to its NUL, then NULs up to `n` characters. */
  method StrNCpy(src: seq<Byte>, n: nat) returns (dst: seq<Byte>)
    requires n <= |src|
    ensures |dst| == n && Prefix(dst, n) == Prefix(src, n)
    ensures forall i, j :: 0 <= i <= j < n && dst[i] == 0 ==> dst[j] == 0
  {
    dst := [];
    var ended := false;
    var i := 0;
    while i < n
      invariant 0 <= i <= n && |dst| == i
      invariant !ended ==> dst == src[..i] && 0 !in dst
      invariant ended ==> exists z :: 0 <= z < i && Ends(src, dst, z)
    {
      var c := if ended then 0 else src[i];
      dst := dst + [c];
      if c == 0 {
        if !ended {
          assert Ends(src, dst, i);
        } else {
          ghost var z :| 0 <= z < i && Ends(src, dst[..i], z);
          assert Ends(src, dst, z);
        }
        ended := true;
      }
      i := i + 1;
    }
    if ended {
      ghost var z :| 0 <= z < n && Ends(src, dst, z);
      PrefixStops(src, dst, n, z);
    } else {
      PrefixFull(src, dst, n);
    }
  }

  /** `dst` copies `src` up to a first NUL at `z` and holds NULs from there on. */
  ghost predicate Ends(src: seq<Byte>, dst: seq<Byte>, z: nat) {
    && z < |dst| && z < |src|
    && dst[..z] == src[..z] && src[z] == 0 && 0 !in dst[..z]
    && forall j :: z <= j < |dst| ==> dst[j] == 0
  }
}
