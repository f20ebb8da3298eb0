/** The decoder's input: read_data of lzma_loader.c behind the Buffer and BufferLim pointers of
    LzmaDecode.c. */
module LzmaSource {
  import opened Words
  import opened CiloIO

  /** struct private_data with the decoder's window [cur, lim) on its buffer. The buffer may have any
      size; lzma_loader.c uses 512. */
  class Source {
    const fp: File
    const buffer: array<Byte>
    var cur: nat
    var lim: nat

    ghost const Repr: set<object> := {this, fp, buffer}

    ghost predicate Valid()
      reads this, fp, buffer
    {
      && fp.InFlash() && fp.filePos <= fp.fileLen && 0 < fp.fileLen
      && 0 < buffer.Length < U31
      && cur <= lim <= buffer.Length
      && lim <= fp.filePos
      && forall k :: cur <= k < lim ==> buffer[k] == fp.Contents()[fp.filePos - lim + k]
    }

    /** How much of the file has been handed to the decoder: file_pos less what is still buffered. */
    ghost function Position(): (p: nat)
      requires cur <= lim <= fp.filePos
      reads this, fp
    {
      fp.filePos - (lim - cur)
    }

    /** The bytes still to be read, buffered or not. */
    ghost function Rest(): seq<Byte>
      requires Valid()
      reads this, fp, buffer
    {
      fp.Contents()[Position()..]
    }

    /** The input starts where the file stands, with nothing buffered. */
    constructor (fp: File, buffer: array<Byte>)
      requires fp.InFlash() && fp.filePos <= fp.fileLen && 0 < fp.fileLen && 0 < buffer.Length < U31
      ensures Valid() && this.fp == fp && this.buffer == buffer
      ensures Rest() == fp.Contents()[fp.filePos..] && cur == lim
    {
      this.fp, this.buffer := fp, buffer;
      cur, lim := 0, 0;
    }

    /** read_data: the next chunk, of size 0 at the end of the file; an error past it. It divides by
        the file's length to report progress, so that length must not be 0. */
    method ReadData() returns (ok: bool, size: nat)
      requires fp.InFlash() && 0 < fp.fileLen && 0 < buffer.Length < U31
      modifies fp`filePos, buffer
      ensures ok == (old(fp.filePos) <= fp.fileLen)
      ensures ok ==> size == Min(fp.fileLen - old(fp.filePos), buffer.Length)
      ensures fp.filePos == old(fp.filePos) + if ok then size else 0
      ensures ok ==> forall k :: 0 <= k < size ==> buffer[k] == fp.Contents()[old(fp.filePos) + k]
    {
      if fp.filePos > fp.fileLen {
        return false, 0;
      }
      size := fp.fileLen - fp.filePos;
      size := if size > buffer.Length then buffer.Length else size;
      var n := fp.Read(buffer, 0, size, 1);
      return true, size;
    }

    /** RC_TEST: refills an empty buffer; DATA_ERROR exactly when the file is used up. */
    method Test() returns (ok: bool)
      requires Valid()
      modifies this`cur, this`lim, fp`filePos, buffer
      ensures Valid() && fp.Contents() == old(fp.Contents()) && Position() == old(Position())
      ensures ok <==> Position() < fp.fileLen
      ensures ok ==> cur < lim
    {
      if cur == lim {
        var read, size := ReadData();
        if !read {
          return false;
        }
        cur, lim := 0, size;
        if size == 0 {
          return false;
        }
      }
      return true;
    }

    /** RC_TEST and RC_READ_BYTE: the file's next byte, across any number of refills. */
    method NextByte() returns (ok: bool, b: Byte)
      requires Valid()
      modifies this`cur, this`lim, fp`filePos, buffer
      ensures Valid() && fp.Contents() == old(fp.Contents())
      ensures ok <==> old(Rest()) != []
      ensures ok ==> Position() == old(Position()) + 1 && b == old(Rest())[0] && Rest() == old(Rest())[1..]
      ensures !ok ==> Rest() == []
    {
      b := 0;
      ghost var contents, p := fp.Contents(), Position();
      ok := Test();
      if ok {
        b := buffer[cur];
        assert b == contents[p];
        cur := cur + 1;
        RestMoves(contents, p);
      }
    }

    static lemma RestMoves(contents: seq<Byte>, p: nat)
      requires p < |contents|
      ensures contents[p..] != [] && contents[p..][0] == contents[p] && contents[p..][1..] == contents[p + 1..]
    {
    }

    /** `Buffer = BufferLim = 0` of RC_INIT. */
    method Forget()
      requires Valid() && cur == lim
      modifies this`cur, this`lim
      ensures Valid() && Rest() == old(Rest())
    {
      cur, lim := 0, 0;
    }
  }
}
