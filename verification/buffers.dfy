/** struct buffer of buffer.h: an allocation of which a middle part is in use, so
    that headers can be put in front without moving the data. */
module Buffers {
  import opened Sequences

  type Byte = x: int | 0 <= x < 256

  const BUF_SIZE_MAX: int := 1000000

  /** What memcpy leaves. */
  function Spliced(s: seq<Byte>, at: nat, bytes: seq<Byte>): (r: seq<Byte>)
    requires at + |bytes| <= |s|
    ensures |r| == |s|
  {
    s[..at] + bytes + s[at + |bytes|..]
  }

  /** A buffer as a value: the whole allocation, and the part of it in use. */
  datatype Buf = Buf(data: seq<Byte>, offset: int, len: int) {

    predicate Valid() {
      0 <= offset && 0 <= len && offset + len <= |data|
    }

    function Content(): (c: seq<Byte>)
      requires Valid()
      ensures |c| == len
    {
      data[offset..offset + len]
    }

    /** What buf_init leaves when it succeeds. */
    function Opened(at: int): Buf {
      Buf(data, at, 0)
    }

    /** Whether buf_copy_range has room for size bytes from dest_index on. */
    predicate HasRoom(index: int, size: nat) {
      0 <= index && offset + index + size <= |data|
    }

    /** What buf_copy_range leaves when it succeeds. */
    function Filled(index: int, bytes: seq<Byte>): (r: Buf)
      requires Valid() && HasRoom(index, |bytes|)
      ensures r.Valid() && |r.data| == |data| && r.offset == offset
    {
      var at := offset + index;
      Buf(Spliced(data, at, bytes), offset,
          if index + |bytes| > len then index + |bytes| else len)
    }

    /** What buf_write leaves when it succeeds. */
    function Appended(bytes: seq<Byte>): (r: Buf)
      requires Valid() && offset + len + |bytes| <= |data|
      ensures r.Valid() && r.Content() == Content() + bytes && |r.data| == |data| && r.offset == offset
    {
      var at := offset + len;
      var r := Buf(Spliced(data, at, bytes), offset, len + |bytes|);
      assert r.Content() == Content() + bytes;
      r
    }

    /** What buf_write_prepend leaves when it succeeds. */
    function Prefixed(bytes: seq<Byte>): (r: Buf)
      requires Valid() && |bytes| <= offset
      ensures r.Valid() && r.Content() == bytes + Content()
    {
      var at := offset - |bytes|;
      var r := Buf(Spliced(data, at, bytes), at, len + |bytes|);
      assert r.Content() == bytes + Content();
      r
    }

    /** What buf_read_alloc and buf_advance leave when they succeed. */
    function Dropped(size: nat): (r: Buf)
      requires Valid() && size <= len
      ensures r.Valid() && r.Content() == Content()[size..]
    {
      Buf(data, offset + size, len - size)
    }
  }

  /** What is written to a buffer just initialized is all that is in it. */
  lemma OpenedAppended(b: Buf, at: nat, bytes: seq<Byte>)
    requires at + |bytes| <= |b.data|
    ensures b.Opened(at).Valid() && b.Opened(at).Appended(bytes).Content() == bytes
  {
    assert b.Opened(at).Content() == [];
    assert [] + bytes == bytes;
  }

  /** struct buffer itself.  Two buffers may share one allocation. */
  class Buffer {
    var data: array<Byte>
    var offset: int
    var len: int

    predicate Valid()
      reads this
    {
      0 <= offset && 0 <= len && offset + len <= data.Length
    }

    function Value(): (b: Buf)
      reads this, data
      ensures Valid() ==> b.Valid()
    {
      Buf(data[..], offset, len)
    }

    /** alloc_buf; the program stops when size is BUF_SIZE_MAX or more. */
    constructor (size: nat)
      requires size < BUF_SIZE_MAX
      ensures Valid() && fresh(data) && data.Length == size && offset == 0 && len == 0
    {
      data := new Byte[size](_ => 0);
      offset, len := 0, 0;
    }

    /** Assignment of the whole struct: the allocation is shared, not copied. */
    method Assign(src: Buffer)
      modifies this
      ensures data == src.data && offset == old(src.offset) && len == old(src.len)
    {
      data, offset, len := src.data, src.offset, src.len;
    }

    method Init(at: int) returns (ok: bool)
      modifies this`offset, this`len
      ensures ok <==> 0 <= at <= data.Length
      ensures ok ==> Valid() && Value() == old(Value()).Opened(at)
      ensures !ok ==> Value() == old(Value())
    {
      if at < 0 || at > data.Length {
        return false;
      }
      len := 0;
      offset := at;
      return true;
    }

    method Write(bytes: seq<Byte>) returns (ok: bool)
      requires Valid()
      modifies this`len, data
      ensures ok <==> |bytes| < BUF_SIZE_MAX && offset + old(len) + |bytes| <= data.Length
      ensures Valid() && Value() == if ok then old(Value()).Appended(bytes) else old(Value())
    {
      if !(|bytes| < BUF_SIZE_MAX && offset + len + |bytes| <= data.Length) {
        return false;
      }
      Store(offset + len, bytes);
      len := len + |bytes|;
      return true;
    }

    method WritePrepend(bytes: seq<Byte>) returns (ok: bool)
      requires Valid()
      modifies this`offset, this`len, data
      ensures ok <==> |bytes| <= old(offset)
      ensures Valid() && Value() == if ok then old(Value()).Prefixed(bytes) else old(Value())
    {
      if |bytes| > offset {
        return false;
      }
      offset := offset - |bytes|;
      len := len + |bytes|;
      Store(offset, bytes);
      return true;
    }

    method Read(size: nat) returns (ok: bool, bytes: seq<Byte>)
      requires Valid()
      modifies this`offset, this`len
      ensures ok <==> size <= old(len)
      ensures ok ==> Valid() && bytes == old(Value()).Content()[..size] && Value() == old(Value()).Dropped(size)
      ensures !ok ==> bytes == [] && Value() == old(Value())
    {
      if len < size {
        return false, [];
      }
      bytes := data[offset..offset + size];
      offset := offset + size;
      len := len - size;
      return true, bytes;
    }

    /** buf_copy */
    method Copy(src: Buffer) returns (ok: bool)
      requires Valid() && src.Valid()
      modifies this`len, data
      ensures var bytes := old(src.Value().Content());
              && (ok <==> |bytes| < BUF_SIZE_MAX && offset + old(len) + |bytes| <= data.Length)
              && Valid() && Value() == if ok then old(Value()).Appended(bytes) else old(Value())
    {
      ok := Write(src.data[src.offset..src.offset + src.len]);
    }

    /** buf_copy_n: move the first n bytes of src to the end of this buffer.  When they do
        not fit there they are gone from src all the same. */
    method CopyN(src: Buffer, n: nat) returns (ok: bool)
      requires Valid() && src.Valid() && src != this && src.data != data
      modifies this`len, data, src`offset, src`len
      ensures ok <==> n <= old(src.len) && n < BUF_SIZE_MAX && offset + old(len) + n <= data.Length
      ensures ok ==> Valid() && Value() == old(Value()).Appended(old(src.Value()).Content()[..n])
      ensures Valid() && src.Valid() && (!ok ==> Value() == old(Value()))
      ensures src.Value() == if n <= old(src.len) then old(src.Value()).Dropped(n) else old(src.Value())
    {
      var got, bytes := src.Read(n);
      if !got {
        return false;
      }
      ok := Write(bytes);
    }

    lemma SliceOfContent(from: nat, to: nat)
      requires Valid() && from <= to <= len
      ensures data[offset + from..offset + to] == Value().Content()[from..to]
    {
      SliceOfSlice(data[..], offset, len, from, to);
    }

    /** buf_copy_range */
    method CopyRange(index: int, src: Buffer, srcIndex: int, srcLen: int) returns (ok: bool)
      requires Valid() && src.Valid() && src.data != data
      modifies this`len, data
      ensures ok <==> 0 <= srcIndex && 0 <= srcLen && srcIndex + srcLen <= src.len
                      && old(Value()).HasRoom(index, srcLen)
      ensures Valid()
      ensures Value() == if ok then old(Value()).Filled(index, old(src.Value().Content())[srcIndex..srcIndex + srcLen])
                         else old(Value())
    {
      if srcIndex < 0 || srcLen < 0 || srcIndex + srcLen > src.len
         || index < 0 || offset + index + srcLen > data.Length {
        return false;
      }
      hide Buf.Content, Buf.Filled;
      src.SliceOfContent(srcIndex, srcIndex + srcLen);
      var at := src.offset + srcIndex;
      Overwrite(index, src.data[at..at + srcLen]);
      return true;
    }

    /** The branch that copies. */
    method Overwrite(index: nat, bytes: seq<Byte>)
      requires Valid() && offset + index + |bytes| <= data.Length
      modifies this`len, data
      ensures Valid() && Value() == old(Value()).Filled(index, bytes)
    {
      hide Spliced;
      Store(offset + index, bytes);
      if index + |bytes| > len {
        len := index + |bytes|;
      }
    }

    /** memcpy */
    method Store(at: nat, bytes: seq<Byte>)
      requires at + |bytes| <= data.Length
      modifies data
      ensures data[..] == Spliced(old(data[..]), at, bytes)
    {
      forall i | 0 <= i < |bytes| {
        data[at + i] := bytes[i];
      }
    }
  }
}
