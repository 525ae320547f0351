/** struct buffer (buffer.h), with the bytes between its offset and its end as a value. */
module PacketBuffers {
  import opened Bytes
  import opened Wrappers

  class PacketBuffer {
    var capacity: nat
    var offset: nat
    var content: seq<Byte>

    ghost predicate Valid()
      reads this
    {
      offset + |content| <= capacity
    }

    constructor (capacity: nat)
      ensures Valid() && this.capacity == capacity && offset == 0 && content == []
    {
      this.capacity, offset, content := capacity, 0, [];
    }

    /** buf_init */
    method Init(offset: int) returns (ok: bool)
      requires Valid()
      modifies this`offset, this`content
      ensures Valid() && (ok <==> 0 <= offset <= capacity)
      ensures
        if ok then this.offset == offset && content == []
        else this.offset == old(this.offset) && content == old(content)
    {
      if offset < 0 || offset > capacity {
        return false;
      }
      content, this.offset := [], offset;
      return true;
    }

    /** buf_safe */
    predicate Safe(len: int)
      reads this
    {
      len >= 0 && offset + |content| + len <= capacity
    }

    /** buf_write_prepend: into the headroom, which must be large enough. */
    method WritePrepend(bytes: seq<Byte>) returns (ok: bool)
      requires Valid()
      modifies this`offset, this`content
      ensures Valid() && (ok <==> |bytes| <= old(offset))
      ensures if ok then content == bytes + old(content) && offset == old(offset) - |bytes|
              else content == old(content) && offset == old(offset)
    {
      if |bytes| > offset {
        return false;
      }
      offset, content := offset - |bytes|, bytes + content;
      return true;
    }

    /** buf_write */
    method Write(bytes: seq<Byte>) returns (ok: bool)
      requires Valid()
      modifies this`content
      ensures Valid() && (ok <==> old(Safe(|bytes|)))
      ensures content == if ok then old(content) + bytes else old(content)
    {
      if !Safe(|bytes|) {
        return false;
      }
      content := content + bytes;
      return true;
    }

    /** buf_read, and buf_advance where the bytes are not looked at. */
    method Read(size: nat) returns (bytes: Option<seq<Byte>>)
      requires Valid()
      modifies this`offset, this`content
      ensures Valid() && (bytes.Some? <==> size <= |old(content)|)
      ensures
        if bytes.Some?
        then old(content) == bytes.value + content && |bytes.value| == size && offset == old(offset) + size
        else content == old(content) && offset == old(offset)
    {
      if |content| < size {
        return None;
      }
      bytes := Some(content[..size]);
      offset, content := offset + size, content[size..];
    }

    /** The assignment of one struct buffer to another. */
    method Assign(src: PacketBuffer)
      requires src.Valid()
      modifies this
      ensures Valid() && capacity == old(src.capacity) && offset == old(src.offset) && content == old(src.content)
    {
      capacity, offset, content := src.capacity, src.offset, src.content;
    }

    /** len = 0 */
    method Drop()
      requires Valid()
      modifies this`content
      ensures Valid() && content == []
    {
      content := [];
    }
  }
}
