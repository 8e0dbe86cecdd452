/**
  The growable receive buffer of a connection (Net/Buffer.h, Net/Buffer.cpp).

  A `Buffer` keeps its bytes at `readIndex..writeIndex` of an array whose first `PREPEND` bytes are reserved for
  headers.  Every method is tied to its effect on `Contents()`, so that the rest of the program can be read as if the
  buffer were a plain byte sequence.

  Two guards of the source, Net/Buffer.h:67 and Net/Buffer.h:121, reject a length that is *smaller* than what is
  available where rejecting a *larger* one is evidently meant.  `Guard` keeps both readings in one class, and
  `AppendIsConcatenationIff`, `RetrieveIsDropIff` and `ReadFdIsConcatenationIff` say exactly when the text as written
  still does what a byte queue should do.
 */
module Buffers {
  import opened Bytes

  const PREPEND: nat := 8
  const INIT_SIZE: nat := 1024
  const EXTRA_SIZE: nat := 65536

  datatype Guard = AsWritten | Intended

  predicate Refuses(g: Guard, len: nat, available: nat) {
    match g
    case AsWritten => len < available
    case Intended => len > available
  }

  // ---------- effect of the operations on the contents ----------

  /** The writable space that `ensureWritableBytes(len)` leaves behind. */
  function SpaceFor(size: nat, readIndex: nat, writeIndex: nat, len: nat): nat
    requires readIndex <= writeIndex <= size
  {
    var writable := size - writeIndex;
    if len <= writable then writable
    else if writable + readIndex < len + PREPEND then len
    else writable + readIndex - PREPEND
  }

  function Appended(g: Guard, contents: seq<byte>, bytes: seq<byte>, space: nat): seq<byte> {
    if Refuses(g, |bytes|, space) then contents else contents + bytes
  }

  function Retrieved(g: Guard, contents: seq<byte>, len: nat): seq<byte> {
    if Refuses(g, len, |contents|) then contents
    else if len < |contents| then contents[len..]
    else []
  }

  /** The contents after `readFd` has received `chunk`; bytes beyond the writable space go through `append`. */
  function Received(g: Guard, contents: seq<byte>, chunk: seq<byte>, size: nat, readIndex: nat, writeIndex: nat)
    : seq<byte>
    requires readIndex <= writeIndex <= size
  {
    var writable := size - writeIndex;
    if |chunk| <= writable then contents + chunk
    else
      var extra := chunk[writable..];
      Appended(g, contents + chunk[..writable], extra, SpaceFor(size, readIndex, size, |extra|))
  }

  /** `append` concatenates exactly when the guard is the intended one, nothing is appended, or the space is used up. */
  lemma AppendIsConcatenationIff(g: Guard, contents: seq<byte>, bytes: seq<byte>,
                                 size: nat, readIndex: nat, writeIndex: nat)
    requires readIndex <= writeIndex <= size
    ensures var space := SpaceFor(size, readIndex, writeIndex, |bytes|);
            Appended(g, contents, bytes, space) == contents + bytes
            <==> g.Intended? || bytes == [] || space == |bytes|
  {
    var space := SpaceFor(size, readIndex, writeIndex, |bytes|);
    assert space >= |bytes|;
    assert |contents + bytes| == |contents| + |bytes|;
    if bytes == [] { assert contents + bytes == contents; }
  }

  /** `retrieve(len)` drops `len` bytes exactly when the guard is the intended one, or `len` is 0 or all there is. */
  lemma RetrieveIsDropIff(g: Guard, contents: seq<byte>, len: nat)
    requires len <= |contents|
    ensures Retrieved(g, contents, len) == contents[len..] <==> g.Intended? || len == 0 || len == |contents|
  {
    assert |contents[len..]| == |contents| - len;
    assert contents[0..] == contents;
  }

  /** `readFd` appends what was read exactly when the guard is the intended one or the overflow does not fit the room
      that compaction would free (or fits it to the byte). */
  lemma ReadFdIsConcatenationIff(g: Guard, contents: seq<byte>, chunk: seq<byte>,
                                 size: nat, readIndex: nat, writeIndex: nat)
    requires readIndex <= writeIndex <= size
    ensures Received(g, contents, chunk, size, readIndex, writeIndex) == contents + chunk
            <==> g.Intended? || |chunk| <= size - writeIndex || readIndex <= |chunk| - (size - writeIndex) + PREPEND
  {
    var writable := size - writeIndex;
    if |chunk| > writable {
      var extra := chunk[writable..];
      assert contents + chunk == (contents + chunk[..writable]) + extra;
      AppendIsConcatenationIff(g, contents + chunk[..writable], extra, size, readIndex, size);
    }
  }

  /** The room after `ensureWritableBytes(len)`: what there was behind the contents if that is enough; all free room but
      for the 8 reserved bytes if that is; and otherwise just what was asked for. */
  lemma SpaceOutcome(size: nat, readIndex: nat, writeIndex: nat, len: nat)
    requires readIndex <= writeIndex <= size
    ensures var behind, all := size - writeIndex, size - (writeIndex - readIndex) - 8;
            && SpaceFor(size, readIndex, writeIndex, len)
               == (if len <= behind then behind else if len <= all then all else len)
            && SpaceFor(size, readIndex, writeIndex, len) >= len
  {}

  /** What the operations leave when they do not do what they are for.  As written, an append that leaves room behind it
      is refused and changes nothing, `readFd` loses what does not fit behind the contents, and `retrieve` keeps
      everything or drops everything; as intended, `retrieve` of too much changes nothing. */
  lemma RefusedOutcome(contents: seq<byte>, bytes: seq<byte>, size: nat, readIndex: nat, writeIndex: nat, len: nat)
    requires readIndex <= writeIndex <= size
    ensures var space := SpaceFor(size, readIndex, writeIndex, |bytes|);
            Appended(AsWritten, contents, bytes, space) == if |bytes| < space then contents else contents + bytes
    ensures Retrieved(AsWritten, contents, len) == if len < |contents| then contents else []
    ensures Retrieved(Intended, contents, len) == if len > |contents| then contents else contents[len..]
    ensures var behind := size - writeIndex;
            Received(AsWritten, contents, bytes, size, readIndex, writeIndex)
            == if |bytes| <= behind || readIndex <= |bytes| - behind + 8 then contents + bytes
               else contents + bytes[..behind]
  {
    ReadFdIsConcatenationIff(AsWritten, contents, bytes, size, readIndex, writeIndex);
    if len == |contents| { assert contents[len..] == []; }
  }

  // ---------- the buffer itself ----------

  class Buffer {
    const guard: Guard
    var data: array<byte>
    var readIndex: nat
    var writeIndex: nat

    ghost predicate Valid()
      reads this
    {
      PREPEND <= data.Length && readIndex <= writeIndex <= data.Length
    }

    ghost function Contents(): seq<byte>
      requires Valid()
      reads this, data
    {
      data[readIndex..writeIndex]
    }

    /** The writable space after `EnsureWritableBytes(len)`. */
    ghost function Space(len: nat): nat
      requires Valid()
      reads this
    {
      SpaceFor(data.Length, readIndex, writeIndex, len)
    }

    constructor (guard: Guard, initSize: nat := INIT_SIZE)
      ensures Valid() && fresh(data)
      ensures this.guard == guard && data.Length == PREPEND + initSize
      ensures readIndex == writeIndex == PREPEND && Contents() == []
    {
      this.guard := guard;
      data := new byte[PREPEND + initSize](_ => 0);
      readIndex, writeIndex := PREPEND, PREPEND;
    }

    function ReadableBytes(): (n: nat)
      requires Valid()
      reads this, data
      ensures n == |Contents()|
    {
      writeIndex - readIndex
    }

    function WritableBytes(): nat
      requires Valid()
      reads this
    {
      data.Length - writeIndex
    }

    function PrependableBytes(): nat
      reads this
    {
      readIndex
    }

    /** The first `len` readable bytes, as copied out through `peek()`. */
    function Peek(len: nat): (bytes: seq<byte>)
      requires Valid() && len <= ReadableBytes()
      reads this, data
      ensures bytes == Contents()[..len]
    {
      data[readIndex..readIndex + len]
    }

    method Swap(rhs: Buffer)
      requires rhs.guard == guard
      modifies this, rhs
      ensures data == old(rhs.data) && readIndex == old(rhs.readIndex) && writeIndex == old(rhs.writeIndex)
      ensures rhs.data == old(data) && rhs.readIndex == old(readIndex) && rhs.writeIndex == old(writeIndex)
    {
      var d, r, w := data, readIndex, writeIndex;
      data, readIndex, writeIndex := rhs.data, rhs.readIndex, rhs.writeIndex;
      rhs.data, rhs.readIndex, rhs.writeIndex := d, r, w;
    }

    method RetrieveAll()
      requires Valid()
      modifies this
      ensures Valid() && data == old(data)
      ensures Contents() == [] && readIndex == PREPEND
    {
      readIndex, writeIndex := PREPEND, PREPEND;
    }

    method Retrieve(len: nat) returns (ok: bool)
      requires Valid()
      modifies this
      ensures Valid() && data == old(data)
      ensures ok == !Refuses(guard, len, old(ReadableBytes()))
      ensures Contents() == Retrieved(guard, old(Contents()), len)
    {
      if Refuses(guard, len, ReadableBytes()) {
        return false;
      }
      if len < ReadableBytes() {
        readIndex := readIndex + len;
      } else {
        RetrieveAll();
      }
      return true;
    }

    method RetrieveAsString(len: nat) returns (s: seq<byte>)
      requires Valid()
      modifies this
      ensures Valid() && data == old(data)
      ensures len > old(ReadableBytes()) ==> s == [] && Contents() == old(Contents())
      ensures len <= old(ReadableBytes()) ==>
                s == old(Contents())[..len] && Contents() == Retrieved(guard, old(Contents()), len)
    {
      if len > ReadableBytes() {
        return [];
      }
      s := Peek(len);
      var _ := Retrieve(len);
    }

    /** Advances the write index; as written, a `len` beyond the writable space would leave the array. */
    method HasWritten(len: nat) returns (ok: bool)
      requires Valid()
      modifies this`writeIndex
      ensures ok == !Refuses(guard, len, old(WritableBytes()))
      ensures writeIndex == old(writeIndex) + if ok then len else 0
      ensures Valid() <==> guard.Intended? || len <= old(WritableBytes())
    {
      if Refuses(guard, len, WritableBytes()) {
        return false;
      }
      writeIndex := writeIndex + len;
      return true;
    }

    /** Makes room either by growing the array or by moving the contents down to the prepend area, in place.
        Its only caller needs more room than there is; then the early return of Net/Buffer.h:233 is never taken. */
    method MakeSpace(len: nat)
      requires Valid() && WritableBytes() < len
      modifies this, data
      ensures Valid() && (data == old(data) || fresh(data))
      ensures Contents() == old(Contents())
      ensures WritableBytes() == old(Space(len)) >= len
      ensures data != old(data) || readIndex < old(readIndex)
    {
      if WritableBytes() + PrependableBytes() < len + PREPEND {
        Resize(writeIndex + len);
      } else {
        if PREPEND >= readIndex {
          return;
        }
        var readable := ReadableBytes();
        CopyDown();
        readIndex := PREPEND;
        writeIndex := readIndex + readable;
      }
    }

    /** `m_buffer.resize(size)`, growing. */
    method Resize(size: nat)
      requires Valid() && data.Length <= size
      modifies this`data
      ensures Valid() && fresh(data) && data.Length == size
      ensures Contents() == old(Contents())
    {
      var grown := new byte[size](i requires 0 <= i reads this, data => if i < data.Length then data[i] else 0);
      data := grown;
    }

    /** `std::copy` of the contents to the prepend area, front to back within the same array. */
    method CopyDown()
      requires Valid() && PREPEND < readIndex
      modifies data
      ensures data[PREPEND..PREPEND + ReadableBytes()] == old(Contents())
    {
      var readable := ReadableBytes();
      var i := 0;
      while i < readable
        invariant i <= readable
        invariant data[PREPEND..PREPEND + i] == old(data[readIndex..readIndex + i])
        invariant forall k :: PREPEND + i <= k < data.Length ==> data[k] == old(data[k])
      {
        data[PREPEND + i] := data[readIndex + i];
        i := i + 1;
      }
    }

    method EnsureWritableBytes(len: nat)
      requires Valid()
      modifies this, data
      ensures Valid() && (data == old(data) || fresh(data))
      ensures Contents() == old(Contents())
      ensures WritableBytes() == old(Space(len)) >= len
    {
      if WritableBytes() < len {
        MakeSpace(len);
      }
    }

    method Append(bytes: seq<byte>)
      requires Valid()
      modifies this, data
      ensures Valid() && (data == old(data) || fresh(data))
      ensures Contents() == Appended(guard, old(Contents()), bytes, old(Space(|bytes|)))
      ensures WritableBytes() == old(Space(|bytes|)) - |Contents()| + old(|Contents()|)
    {
      EnsureWritableBytes(|bytes|);
      CopyBehind(bytes);
      var _ := HasWritten(|bytes|);
    }

    /** `std::copy` of `bytes` to `data[at..]`. */
    method CopyIn(at: nat, bytes: seq<byte>)
      requires at + |bytes| <= data.Length
      modifies data
      ensures data[at..at + |bytes|] == bytes
      ensures forall k :: 0 <= k < data.Length && !(at <= k < at + |bytes|) ==> data[k] == old(data[k])
    {
      var i := 0;
      while i < |bytes|
        invariant i <= |bytes|
        invariant data[at..at + i] == bytes[..i]
        invariant forall k :: 0 <= k < data.Length && !(at <= k < at + i) ==> data[k] == old(data[k])
      {
        data[at + i] := bytes[i];
        i := i + 1;
      }
    }

    /** `std::copy` of `bytes` to `beginWrite()`. */
    method CopyBehind(bytes: seq<byte>)
      requires Valid() && |bytes| <= WritableBytes()
      modifies data
      ensures Contents() == old(Contents())
      ensures data[readIndex..writeIndex + |bytes|] == old(Contents()) + bytes
    {
      CopyIn(writeIndex, bytes);
      ghost var end := writeIndex + |bytes|;
      assert data[readIndex..end] == data[readIndex..writeIndex] + data[writeIndex..end];
    }

    method Prepend(bytes: seq<byte>) returns (ok: bool)
      requires Valid()
      modifies this, data
      ensures Valid() && data == old(data)
      ensures ok <==> |bytes| <= old(PrependableBytes())
      ensures Contents() == if ok then bytes + old(Contents()) else old(Contents())
    {
      if |bytes| > PrependableBytes() {
        return false;
      }
      readIndex := readIndex - |bytes|;
      CopyIn(readIndex, bytes);
      return true;
    }

    /** Moves the contents to a fresh buffer with at least `reserve` spare bytes; `swap` makes it this buffer's own. */
    method Shrink(reserve: nat)
      requires Valid()
      modifies this
      ensures Valid() && fresh(data)
      ensures guard.Intended? ==> Contents() == old(Contents()) && WritableBytes() >= reserve
      ensures guard.AsWritten? ==>
                Contents() == if old(ReadableBytes()) < INIT_SIZE || reserve > 0 then [] else old(Contents())
    {
      var other := new Buffer(guard);
      other.EnsureWritableBytes(ReadableBytes() + reserve);
      other.Append(Peek(ReadableBytes()));
      Swap(other);
    }

    /** `readFd` with `chunk` standing for what `readv` put into the two segments; an empty one is end of file or an
        error. */
    method ReadFd(chunk: seq<byte>)
      requires Valid()
      requires |chunk| <= WritableBytes() + if WritableBytes() < EXTRA_SIZE then EXTRA_SIZE else 0
      modifies this, data
      ensures Valid() && (data == old(data) || fresh(data))
      ensures Contents() == Received(guard, old(Contents()), chunk, old(data.Length), old(readIndex), old(writeIndex))
    {
      var writable := WritableBytes();
      if |chunk| <= writable {
        CopyBehind(chunk);
        writeIndex := writeIndex + |chunk|;
      } else {
        CopyBehind(chunk[..writable]);
        writeIndex := data.Length;
        assert Contents() == old(Contents()) + chunk[..writable];
        Append(chunk[writable..]);
      }
    }
  }
}
