/** DirectFile: a file opened for direct I/O. The device is an abstract byte
    sequence; each read or write system call transfers some positive number
    of bytes that the caller does not control, and the readinto and write
    loops retry until the whole buffer is transferred. */
module DirectIO {
  import opened Text

  /** The bytes of a file after data is written at offset; a write running past
      the end of the file makes it longer. */
  function Overwrite(contents: seq<byte>, offset: nat, data: seq<byte>): (r: seq<byte>)
    requires offset <= |contents|
    ensures |r| == if offset + |data| > |contents| then offset + |data| else |contents|
    ensures r[..offset] == contents[..offset]
    ensures r[offset..offset + |data|] == data
    ensures offset + |data| <= |contents| ==> r[offset + |data|..] == contents[offset + |data|..]
  {
    contents[..offset] + data + (if offset + |data| < |contents| then contents[offset + |data|..] else [])
  }

  /** Two consecutive writes are one write of both buffers. */
  lemma OverwriteTwice(contents: seq<byte>, offset: nat, a: seq<byte>, b: seq<byte>)
    requires offset <= |contents|
    ensures Overwrite(Overwrite(contents, offset, a), offset + |a|, b) == Overwrite(contents, offset, a + b)
  {
    var lhs := Overwrite(Overwrite(contents, offset, a), offset + |a|, b);
    var rhs := Overwrite(contents, offset, a + b);
    assert |lhs| == |rhs|;
    forall i | 0 <= i < |lhs| ensures lhs[i] == rhs[i] {
      if i < offset {
        assert lhs[..offset][i] == rhs[..offset][i];
      } else if i < offset + |a| + |b| {
        assert (a + b)[i - offset] == rhs[offset..offset + |a| + |b|][i - offset];
        if i < offset + |a| {
          assert lhs[..offset + |a|][i] == Overwrite(contents, offset, a)[..offset + |a|][i];
        } else {
          assert lhs[offset + |a|..offset + |a| + |b|][i - offset - |a|] == b[i - offset - |a|];
        }
      } else {
        assert lhs[offset + |a| + |b|..][i - offset - |a| - |b|] == contents[offset + |a| + |b|..][i - offset - |a| - |b|];
        assert rhs[offset + |a| + |b|..][i - offset - |a| - |b|] == contents[offset + |a| + |b|..][i - offset - |a| - |b|];
      }
    }
  }

  class DirectFile {
    /** DirectFile.name */
    const path: string
    /** The bytes the device holds. */
    var contents: seq<byte>
    /** The bytes known to have reached storage: contents as of the last fsync. */
    var durable: seq<byte>
    /** The file position. */
    var position: nat

    /** Opening the device (os.open with O_DIRECT) is not modelled: the device
        is given by its current bytes. */
    constructor (path: string, contents: seq<byte>)
      ensures this.path == path && this.contents == contents && durable == contents && position == 0
    {
      this.path := path;
      this.contents := contents;
      this.durable := contents;
      this.position := 0;
    }

    method Seek(offset: nat)
      modifies this`position
      ensures position == offset
    {
      position := offset;
    }

    /** One readinto system call into buf[pos..]: it reads some positive number
        of bytes at the file position, never more than fit. Progress is
        guaranteed only because the caller demands that the file holds the
        bytes asked for. */
    method RawReadInto(buf: array<byte>, pos: nat) returns (n: nat)
      requires pos < buf.Length && position + (buf.Length - pos) <= |contents|
      modifies this`position, buf
      ensures 0 < n <= buf.Length - pos
      ensures buf[..] == old(buf[..pos]) + contents[old(position)..old(position) + n] + old(buf[pos + n..])
      ensures position == old(position) + n
    {
      n :| 0 < n <= buf.Length - pos;
      forall i | pos <= i < pos + n {
        buf[i] := contents[position + i - pos];
      }
      position := position + n;
    }

    /** DirectFile.readinto: fills buf completely from the file position and
        returns the number of bytes read. */
    method ReadInto(buf: array<byte>) returns (n: nat)
      requires position + buf.Length <= |contents|
      modifies this`position, buf
      ensures n == buf.Length
      ensures buf[..] == contents[old(position)..old(position) + buf.Length]
      ensures position == old(position) + buf.Length
    {
      var pos := 0;
      while pos < buf.Length
        invariant 0 <= pos <= buf.Length
        invariant position == old(position) + pos
        invariant buf[..pos] == contents[old(position)..old(position) + pos]
      {
        var k := RawReadInto(buf, pos);
        pos := pos + k;
      }
      assert buf[..] == buf[..pos];
      n := pos;
    }

    /** One write system call: writes some positive number of the leading
        bytes of data at the file position. */
    method RawWrite(data: seq<byte>) returns (n: nat)
      requires 0 < |data| && position <= |contents|
      modifies this`contents, this`position
      ensures 0 < n <= |data|
      ensures contents == Overwrite(old(contents), old(position), data[..n])
      ensures position == old(position) + n
    {
      n :| 0 < n <= |data|;
      contents := Overwrite(contents, position, data[..n]);
      position := position + n;
    }

    /** DirectFile.write: writes all of data at the file position. */
    method Write(data: seq<byte>)
      requires position <= |contents|
      modifies this`contents, this`position
      ensures contents == Overwrite(old(contents), old(position), data)
      ensures position == old(position) + |data|
    {
      var pos := 0;
      assert data[..0] == [];
      assert Overwrite(contents, position, []) == contents;
      while pos < |data|
        invariant 0 <= pos <= |data|
        invariant position == old(position) + pos
        invariant contents == Overwrite(old(contents), old(position), data[..pos])
      {
        var k := RawWrite(data[pos..]);
        OverwriteTwice(old(contents), old(position), data[..pos], data[pos..][..k]);
        assert data[..pos] + data[pos..][..k] == data[..pos + k];
        pos := pos + k;
      }
      assert data[..pos] == data;
    }

    /** os.fsync(file.fileno()): everything written so far reaches storage. */
    method Fsync()
      modifies this`durable
      ensures durable == contents
    {
      durable := contents;
    }
  }
}
