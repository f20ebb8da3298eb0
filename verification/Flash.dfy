/** The flash file system of mach/c3600/platio.c and the positioned reads of ciloio.c. */
module Flash {
  import opened Words

  const FS_FILE_MAGIC := 0xbad00b1e
  const ENTRY_SIZE := 64
  const NAME_SIZE := 48

  // Byte order and strings ----------------------------------------------------------------------

  /** A 32-bit field of the big-endian target. */
  function ReadWord(s: seq<Byte>, at: nat): (w: Word)
    requires at + 4 <= |s|
  {
    var b0: int, b1: int, b2: int := s[at], s[at + 1], s[at + 2];
    b0 * 0x100_0000 + b1 * 0x1_0000 + b2 * 0x100 + s[at + 3]
  }

  function WordBytes(w: Word): (s: seq<Byte>)
    ensures |s| == 4
  {
    var w1 := w / 0x100;
    var w2 := w1 / 0x100;
    [w2 / 0x100, w2 % 0x100, w1 % 0x100, w % 0x100]
  }

  /** The most significant byte comes first. */
  lemma WordByteIs(w: Word, k: nat)
    requires k < 4
    ensures WordBytes(w)[k] == w / [0x100_0000, 0x1_0000, 0x100, 1][k] % 0x100
  {
    var w1 := w / 0x100;
    var w2 := w1 / 0x100;
    assert w1 == w / 0x100 && w2 == w / 0x1_0000 && w2 / 0x100 == w / 0x100_0000;
    assert w2 / 0x100 < 0x100;
  }

  /** The characters of a C string that a comparison over `n` characters looks at. */
  function Prefix(s: seq<Byte>, n: nat): seq<Byte> {
    if n == 0 || s == [] || s[0] == 0 then [] else [s[0]] + Prefix(s[1..], n - 1)
  }

  /** They are the first `n`, or those before the terminator or the end. */
  lemma {:induction false} PrefixIs(s: seq<Byte>, n: nat)
    ensures var p := Prefix(s, n); p <= s && |p| <= n && 0 !in p && (|p| == n || p == s || s[|p|] == 0)
    decreases n
  {
    if n > 0 && s != [] && s[0] != 0 {
      PrefixIs(s[1..], n - 1);
    }
  }

  /** `s` can be read as a C string by a function that stops after `n` characters. */
  predicate Readable(s: seq<Byte>, n: nat) {
    |s| >= n || 0 in s
  }

  /** strncmp of string.c: 0 exactly when the strings agree over `n` characters. */
  method StrNCmp(s1: seq<Byte>, s2: seq<Byte>, n: nat) returns (r: int)
    requires Readable(s1, n) && Readable(s2, n)
    ensures r == 0 <==> Prefix(s1, n) == Prefix(s2, n)
    ensures r == 0 || r == -1
  {
    var i := 0;
    while i < n
      invariant 0 <= i <= n
      invariant i <= |s1| && i <= |s2|
      invariant s1[..i] == s2[..i] && 0 !in s1[..i]
      invariant Readable(s1[i..], n - i) && Readable(s2[i..], n - i)
    {
      if s1[i] != s2[i] {
        PrefixesDiffer(s1, s2, n, i);
        return -1;
      }
      if s1[i] == 0 {
        PrefixStops(s1, s2, n, i);
        return 0;
      }
      assert s1[i..][1..] == s1[i + 1..] && s2[i..][1..] == s2[i + 1..];
      i := i + 1;
    }
    PrefixFull(s1, s2, n);
    return 0;
  }

  lemma {:induction false} PrefixesDiffer(s1: seq<Byte>, s2: seq<Byte>, n: nat, i: nat)
    requires i < n && i < |s1| && i < |s2|
    requires s1[..i] == s2[..i] && 0 !in s1[..i] && s1[i] != s2[i]
    ensures Prefix(s1, n) != Prefix(s2, n)
  {
    if i > 0 {
      assert s1[0] == s1[..i][0] == s2[..i][0] == s2[0];
      assert s1[1..][..i - 1] == s1[..i][1..] == s2[..i][1..] == s2[1..][..i - 1];
      PrefixesDiffer(s1[1..], s2[1..], n - 1, i - 1);
      assert Prefix(s1, n)[1..] == Prefix(s1[1..], n - 1) && Prefix(s2, n)[1..] == Prefix(s2[1..], n - 1);
    } else {
      assert Prefix(s1, n) != [] ==> Prefix(s1, n)[0] == s1[0];
      assert Prefix(s2, n) != [] ==> Prefix(s2, n)[0] == s2[0];
    }
  }

  lemma {:induction false} PrefixStops(s1: seq<Byte>, s2: seq<Byte>, n: nat, i: nat)
    requires i < n && i < |s1| && i < |s2|
    requires s1[..i] == s2[..i] && s1[i] == 0 == s2[i]
    ensures Prefix(s1, n) == Prefix(s2, n)
  {
    if i > 0 {
      assert s1[0] == s1[..i][0] == s2[..i][0] == s2[0];
      assert s1[1..][..i - 1] == s1[..i][1..] == s2[..i][1..] == s2[1..][..i - 1];
      PrefixStops(s1[1..], s2[1..], n - 1, i - 1);
    }
  }

  lemma {:induction false} PrefixFull(s1: seq<Byte>, s2: seq<Byte>, n: nat)
    requires n <= |s1| && n <= |s2| && s1[..n] == s2[..n]
    ensures Prefix(s1, n) == Prefix(s2, n)
  {
    if n > 0 {
      assert s1[0] == s1[..n][0] == s2[..n][0] == s2[0];
      assert s1[1..][..n - 1] == s1[..n][1..] == s2[..n][1..] == s2[1..][..n - 1];
      PrefixFull(s1[1..], s2[1..], n - 1);
    }
  }

  // Packed images -------------------------------------------------------------------------------

  /** A file: the 48 name bytes, the crc and date words nobody reads, and the contents. */
  datatype Entry = Entry(name: seq<Byte>, meta: seq<Byte>, contents: seq<Byte>)

  predicate ValidEntry(e: Entry) {
    |e.name| == NAME_SIZE && |e.meta| == 8 && |e.contents| < U32
  }

  function PackEntry(e: Entry): seq<Byte>
    requires ValidEntry(e)
  {
    WordBytes(FS_FILE_MAGIC) + WordBytes(|e.contents|) + e.meta + e.name + e.contents
  }

  function Pack(es: seq<Entry>): seq<Byte>
    requires forall e :: e in es ==> ValidEntry(e)
  {
    if es == [] then [] else PackEntry(es[0]) + Pack(es[1..])
  }

  /** A flash image: packed files, ended by a word that is not the magic. */
  ghost predicate Holds(flash: seq<Byte>, es: seq<Entry>) {
    && (forall e :: e in es ==> ValidEntry(e))
    && |flash| < U32
    && Pack(es) <= flash
    && |Pack(es)| + 4 <= |flash|
    && ReadWord(flash, |Pack(es)|) != FS_FILE_MAGIC
  }

  predicate SameName(e: Entry, filename: seq<Byte>) {
    Prefix(e.name, NAME_SIZE) == Prefix(filename, NAME_SIZE)
  }

  /** The first file of that name. */
  function FirstNamed(es: seq<Entry>, filename: seq<Byte>): (r: Option<nat>)
    ensures r.Some? ==> r.value < |es| && SameName(es[r.value], filename)
    ensures r.Some? ==> forall i :: 0 <= i < r.value ==> !SameName(es[i], filename)
    ensures r.None? ==> forall e :: e in es ==> !SameName(e, filename)
  {
    if es == [] then None
    else if SameName(es[0], filename) then Some(0)
    else
      match FirstNamed(es[1..], filename)
      case None => None
      case Some(i) => Some(i + 1)
  }

  lemma WordRoundTrip(w: Word)
    ensures ReadWord(WordBytes(w), 0) == w
  {
  }

  lemma ByteAt(s: seq<Byte>, at: nat, k: nat)
    requires k < 4 && at + 4 <= |s|
    ensures s[at..at + 4][k] == s[at + k]
  {
  }

  lemma ReadWordAt(s: seq<Byte>, at: nat, w: Word)
    requires at + 4 <= |s| && s[at..at + 4] == WordBytes(w)
    ensures ReadWord(s, at) == w
  {
    hide WordBytes;
    WordRoundTrip(w);
    var b := s[at..at + 4];
    ByteAt(s, at, 0);
    ByteAt(s, at, 1);
    ByteAt(s, at, 2);
    ByteAt(s, at, 3);
    assert b == WordBytes(w);
  }

  lemma SubSlice<T>(s: seq<T>, at: nat, p: seq<T>, i: nat, j: nat)
    requires i <= j <= |p| && at + |p| <= |s| && s[at..at + |p|] == p
    ensures s[at + i..at + j] == p[i..j]
  {
    forall k | 0 <= k < j - i
      ensures s[at + i..at + j][k] == p[i..j][k]
    {
      assert p[i + k] == s[at..at + |p|][i + k];
    }
  }

  lemma FiveParts<T>(a: seq<T>, b: seq<T>, c: seq<T>, d: seq<T>, e: seq<T>)
    ensures var s := a + b + c + d + e;
      && s[0..|a|] == a && s[|a|..|a| + |b|] == b
      && s[|a| + |b| + |c|..|a| + |b| + |c| + |d|] == d && s[|a| + |b| + |c| + |d|..|s|] == e
  {
  }

  /** What find_file reads at the start of a packed entry. */
  lemma EntryFields(flash: seq<Byte>, at: nat, e: Entry)
    requires ValidEntry(e) && at + |PackEntry(e)| <= |flash|
    requires flash[at..at + |PackEntry(e)|] == PackEntry(e)
    ensures |PackEntry(e)| == ENTRY_SIZE + |e.contents|
    ensures ReadWord(flash, at) == FS_FILE_MAGIC
    ensures ReadWord(flash, at + 4) == |e.contents|
    ensures flash[at + 16..at + ENTRY_SIZE] == e.name
    ensures flash[at + ENTRY_SIZE..at + ENTRY_SIZE + |e.contents|] == e.contents
  {
    hide WordBytes, ReadWord;
    var p := PackEntry(e);
    FiveParts(WordBytes(FS_FILE_MAGIC), WordBytes(|e.contents|), e.meta, e.name, e.contents);
    SubSlice(flash, at, p, 0, 4);
    SubSlice(flash, at, p, 4, 8);
    SubSlice(flash, at, p, 16, 64);
    SubSlice(flash, at, p, 64, |p|);
    ReadWordAt(flash, at, FS_FILE_MAGIC);
    ReadWordAt(flash, at + 4, |e.contents|);
  }

  lemma Regroup<T>(a: seq<T>, b: seq<T>, c: seq<T>, d: seq<T>)
    ensures a + (b + c + d) == a + b + c + d && a + (b + c) == a + b + c
  {
  }

  lemma {:induction false} PackSplits(es: seq<Entry>, i: nat)
    requires (forall e :: e in es ==> ValidEntry(e)) && i < |es|
    ensures Pack(es) == Pack(es[..i]) + PackEntry(es[i]) + Pack(es[i + 1..])
    ensures Pack(es[..i + 1]) == Pack(es[..i]) + PackEntry(es[i])
  {
    hide PackEntry;
    if i == 0 {
      assert es[..1][1..] == [] && es[..0] == [];
    } else {
      PackSplits(es[1..], i - 1);
      assert es[..i][1..] == es[1..][..i - 1] && es[1..][i..] == es[i + 1..];
      assert es[..i + 1][1..] == es[1..][..i];
      Regroup(PackEntry(es[0]), Pack(es[1..][..i - 1]), PackEntry(es[i]), Pack(es[i + 1..]));
    }
  }

  /** Where file `i` of the image starts. */
  ghost function Offset(es: seq<Entry>, i: nat): nat
    requires (forall e :: e in es ==> ValidEntry(e)) && i <= |es|
  {
    |Pack(es[..i])|
  }

  lemma EntryInImage(flash: seq<Byte>, es: seq<Entry>, i: nat)
    requires Holds(flash, es) && i < |es|
    ensures var at := Offset(es, i); var p := PackEntry(es[i]);
      && at + |p| == Offset(es, i + 1) <= |Pack(es)|
      && flash[at..at + |p|] == p
  {
    hide PackEntry, Pack, ReadWord;
    PackSplits(es, i);
    var at, p := Offset(es, i), PackEntry(es[i]);
    assert Pack(es)[at..at + |p|] == p;
    assert flash[at..at + |p|] == flash[..|Pack(es)|][at..at + |p|];
  }

  lemma OffsetEnds(es: seq<Entry>)
    requires forall e :: e in es ==> ValidEntry(e)
    ensures Offset(es, 0) == 0 && Offset(es, |es|) == |Pack(es)|
  {
    assert es[..0] == [] && es[..|es|] == es;
  }

  lemma {:induction false} LeastIsFirst(es: seq<Entry>, filename: seq<Byte>, i: nat)
    requires i <= |es|
    requires forall j :: 0 <= j < i ==> !SameName(es[j], filename)
    ensures i == |es| ==> FirstNamed(es, filename) == None
    ensures i < |es| && SameName(es[i], filename) ==> FirstNamed(es, filename) == Some(i)
  {
    if i > 0 {
      LeastIsFirst(es[1..], filename, i - 1);
    }
  }

  /** find_file, as an offset from the base of the flash: it visits the entries one by one, whatever
      bytes their contents hold, and stops at the first of that name or at the terminator. */
  method FindFile(flash: seq<Byte>, filename: seq<Byte>, ghost es: seq<Entry>) returns (f: Option<nat>)
    requires Holds(flash, es) && Readable(filename, NAME_SIZE)
    ensures f.Some? <==> FirstNamed(es, filename).Some?
    ensures f.Some? ==> f.value == Offset(es, FirstNamed(es, filename).value)
  {
    hide PackEntry, Pack, Prefix, ReadWord, WordBytes, Offset, FirstNamed;
    var offset := 0;
    ghost var i := 0;
    OffsetEnds(es);
    while ReadWord(flash, offset) == FS_FILE_MAGIC
      invariant 0 <= i <= |es| && offset == Offset(es, i) && offset + 4 <= |flash|
      invariant forall j :: 0 <= j < i ==> !SameName(es[j], filename)
      decreases |es| - i
    {
      EntryInImage(flash, es, i);
      EntryFields(flash, offset, es[i]);
      var same := StrNCmp(flash[offset + 16..offset + ENTRY_SIZE], filename, NAME_SIZE);
      if same == 0 {
        LeastIsFirst(es, filename, i);
        return Some(offset);
      }
      offset := (offset + ENTRY_SIZE + ReadWord(flash, offset + 4)) % U32;
      i := i + 1;
    }
    if i < |es| {
      EntryInImage(flash, es, i);
      EntryFields(flash, offset, es[i]);
    }
    LeastIsFirst(es, filename, i);
    return None;
  }
}
