/** The byte device of so2_cdev.c: a fixed-length file in a larger buffer, read and written at the file offset. */
module So2 {
  import opened Prelude

  const BUFSIZ := 4096
  const SIZE_T := 0x1_0000_0000_0000_0000
  const MESSAGE := "hello sp\n"

  // ---------------------------------------------------------------- the abstract file

  /** A file of fixed length with a cursor */
  datatype ByteFile = ByteFile(bytes: seq<Byte>, cursor: nat) {
    predicate Ok() { cursor <= |bytes| }
  }

  function ReadFile(f: ByteFile, n: nat): (seq<Byte>, ByteFile)
    requires f.Ok()
  {
    var end := Min(f.cursor + n, |f.bytes|);
    (f.bytes[f.cursor..end], ByteFile(f.bytes, end))
  }

  /** Writes as much of `data` as fits. */
  function WriteFile(f: ByteFile, data: seq<Byte>): (nat, ByteFile)
    requires f.Ok()
  {
    var n := Min(|data|, |f.bytes| - f.cursor);
    (n, ByteFile(f.bytes[..f.cursor] + data[..n] + f.bytes[f.cursor + n..], f.cursor + n))
  }

  function Concat(chunks: seq<seq<Byte>>): seq<Byte> {
    if chunks == [] then [] else Concat(chunks[..|chunks| - 1]) + chunks[|chunks| - 1]
  }

  /** The file, opened at cursor 0, after writing the chunks one by one. */
  function WriteAll(bytes: seq<Byte>, chunks: seq<seq<Byte>>): (f: ByteFile)
    ensures f.Ok() && |f.bytes| == |bytes|
  {
    if chunks == [] then ByteFile(bytes, 0)
    else WriteFile(WriteAll(bytes, chunks[..|chunks| - 1]), chunks[|chunks| - 1]).1
  }

  /** What reads of the given sizes return in all, and the file after them. */
  function ReadAll(bytes: seq<Byte>, sizes: seq<nat>): (r: (seq<Byte>, ByteFile))
    ensures r.1.Ok() && r.1.bytes == bytes
  {
    if sizes == [] then ([], ByteFile(bytes, 0))
    else
      var (out, f) := ReadAll(bytes, sizes[..|sizes| - 1]);
      var (more, f') := ReadFile(f, sizes[|sizes| - 1]);
      (out + more, f')
  }

  function Sum(sizes: seq<nat>): nat {
    if sizes == [] then 0 else Sum(sizes[..|sizes| - 1]) + sizes[|sizes| - 1]
  }

  /** Writes of any sizes put down their concatenation, cut to the file's length, over the old bytes. */
  lemma {:induction false} WritesOverlay(bytes: seq<Byte>, chunks: seq<seq<Byte>>)
    ensures var all := Concat(chunks); var n := Min(|all|, |bytes|);
      WriteAll(bytes, chunks) == ByteFile(all[..n] + bytes[n..], n)
  {
    if chunks == [] {
      assert bytes[0..] == bytes;
    } else {
      var front, chunk := chunks[..|chunks| - 1], chunks[|chunks| - 1];
      WritesOverlay(bytes, front);
      OverlayMore(bytes, Concat(front), chunk);
    }
  }

  lemma OverlayMore(bytes: seq<Byte>, done: seq<Byte>, chunk: seq<Byte>)
    ensures var n := Min(|done|, |bytes|); var n' := Min(|done + chunk|, |bytes|);
      WriteFile(ByteFile(done[..n] + bytes[n..], n), chunk).1 == ByteFile((done + chunk)[..n'] + bytes[n'..], n')
  {
    var n, n' := Min(|done|, |bytes|), Min(|done + chunk|, |bytes|);
    var k := n' - n;
    assert (done + chunk)[..n'] == done[..n] + chunk[..k];
    assert (done[..n] + bytes[n..])[..n] == done[..n];
    assert (done[..n] + bytes[n..])[n + k..] == bytes[n'..];
  }

  /** Reads of any sizes return the bytes in order, up to the file's length. */
  lemma {:induction false} ReadsSpell(bytes: seq<Byte>, sizes: seq<nat>)
    ensures var n := Min(Sum(sizes), |bytes|); ReadAll(bytes, sizes) == (bytes[..n], ByteFile(bytes, n))
  {
    if sizes != [] {
      var front, size := sizes[..|sizes| - 1], sizes[|sizes| - 1];
      ReadsSpell(bytes, front);
      var n, n' := Min(Sum(front), |bytes|), Min(Sum(sizes), |bytes|);
      assert bytes[..n] + bytes[n..n'] == bytes[..n'];
    }
  }

  lemma ReadsWhole(bytes: seq<Byte>, sizes: seq<nat>)
    requires Sum(sizes) >= |bytes|
    ensures ReadAll(bytes, sizes).0 == bytes
  {
    ReadsSpell(bytes, sizes);
    assert bytes[..|bytes|] == bytes;
  }

  /** Write, release, open, read: the reader gets the written prefix followed by the old tail. */
  lemma WriteThenReopenAndRead(bytes: seq<Byte>, chunks: seq<seq<Byte>>, sizes: seq<nat>)
    requires Sum(sizes) >= |bytes|
    ensures var all := Concat(chunks); var n := Min(|all|, |bytes|);
      ReadAll(WriteAll(bytes, chunks).bytes, sizes).0 == all[..n] + bytes[n..]
  {
    WritesOverlay(bytes, chunks);
    ReadsWhole(WriteAll(bytes, chunks).bytes, sizes);
  }

  // ---------------------------------------------------------------- the driver's arithmetic

  /** `min(size, data->size - *offset)` with the subtraction of a size_t */
  function Granted(size: nat, offset: nat, request: nat): nat {
    Min(request, (size - offset) % SIZE_T)
  }

  /** While the offset is inside the file the subtraction does not wrap. */
  lemma GrantedIsRest(size: nat, offset: nat, request: nat)
    requires offset <= size <= BUFSIZ
    ensures Granted(size, offset, request) == Min(request, size - offset)
  {
  }

  /** Past its end it would: a request is then granted far beyond the buffer. */
  lemma GrantedWrapsPastEnd()
    ensures Granted(10, 11, 4096) == 4096
  {
  }

  /** The buffer after `data` was copied over it at `offset`. */
  function Patch(buffer: seq<Byte>, offset: nat, data: seq<Byte>): seq<Byte>
    requires offset + |data| <= |buffer|
  {
    buffer[..offset] + data + buffer[offset + |data|..]
  }

  /** What a patch inside the file does to the file: a write at the cursor. */
  lemma PatchIsWrite(buffer: seq<Byte>, size: nat, offset: nat, data: seq<Byte>)
    requires offset <= size <= |buffer|
    ensures var n := Min(|data|, size - offset); var after := Patch(buffer, offset, data[..n]);
      && |after| == |buffer| && after[size..] == buffer[size..]
      && (n, ByteFile(after[..size], offset + n)) == WriteFile(ByteFile(buffer[..size], offset), data)
  {
    var n := Min(|data|, size - offset);
    var after := Patch(buffer, offset, data[..n]);
    assert after[..size] == buffer[..size][..offset] + data[..n] + buffer[..size][offset + n..];
  }

  // ---------------------------------------------------------------- the device

  /** A copy to or from user space either completes or faults; `Faulted` holds what a failed
      copy_from_user left in the range it was to fill. */
  datatype Copy = Complete | Faulted(left: seq<Byte>)

  datatype Reply<+T> = Count(value: T) | EFault | EBusy

  class Device {
    const buffer: array<Byte>
    const size: nat
    var opend: bool  // dev_opend

    ghost predicate Valid()
      reads this, buffer
    {
      buffer.Length == BUFSIZ && size <= BUFSIZ
    }

    /** The file that an open descriptor at `offset` sees. */
    ghost function View(offset: nat): ByteFile
      reads this, buffer
      requires Valid()
    {
      ByteFile(buffer[..size], offset)
    }

    /** The state that so2_cdev_init establishes. */
    constructor ()
      ensures Valid() && !opend && size == |MESSAGE| + 1 && fresh(buffer)
      ensures forall i :: 0 <= i < |MESSAGE| ==> buffer[i] == MESSAGE[i] as int
      ensures buffer[|MESSAGE|] == 0
    {
      buffer := new Byte[BUFSIZ](i => if 0 <= i < |MESSAGE| && MESSAGE[i] < 128 as char then MESSAGE[i] as int else 0);
      size := |MESSAGE| + 1;
      opend := false;
    }

    /** so2_cdev_open up to the sleep: false stands for -EBUSY. */
    method Open() returns (ok: bool)
      modifies this`opend
      ensures opend && ok == !old(opend)
    {
      ok := !opend;
      opend := true;
    }

    /** so2_cdev_release */
    method Release()
      modifies this`opend
      ensures !opend
    {
      opend := false;
    }

    /** so2_cdev_read; `faults` is whether copy_to_user fails. */
    method Read(f: File, length: nat, faults: bool) returns (r: Reply<seq<Byte>>)
      requires Valid() && View(f.offset).Ok()
      modifies f
      ensures View(f.offset).Ok()
      ensures r.Count? ==> (r.value, View(f.offset)) == ReadFile(View(old(f.offset)), length)
      ensures !r.Count? ==> r == EFault && faults && f.offset == old(f.offset)
      ensures !faults ==> r.Count?
    {
      GrantedIsRest(size, f.offset, length);
      var n := Granted(size, f.offset, length);
      assert buffer[..size][f.offset..f.offset + n] == buffer[f.offset..f.offset + n];
      if n <= 0 { return Count([]); }
      if faults { return EFault; }
      r := Count(buffer[f.offset..f.offset + n]);
      f.offset := f.offset + n;
    }

    /** so2_cdev_write; `user` holds the `length` bytes offered. */
    method Write(f: File, user: seq<Byte>, copy: Copy) returns (r: Reply<nat>)
      requires Valid() && View(f.offset).Ok()
      requires copy.Faulted? ==> |copy.left| == Min(|user|, size - f.offset)
      modifies f, buffer
      ensures View(f.offset).Ok()
      ensures buffer[size..] == old(buffer[size..])
      ensures r.Count? ==> (r.value, View(f.offset)) == WriteFile(old(View(f.offset)), user)
      ensures !r.Count? ==> r == EFault && copy.Faulted? && f.offset == old(f.offset)
      ensures !r.Count? ==> View(0).bytes == WriteFile(old(View(f.offset)), copy.left).1.bytes
      ensures copy.Complete? ==> r.Count?
    {
      GrantedIsRest(size, f.offset, |user|);
      var n := Granted(size, f.offset, |user|);
      PatchIsWrite(buffer[..], size, f.offset, user);
      if n <= 0 {
        assert Patch(buffer[..], f.offset, user[..0]) == buffer[..];
        return Count(0);
      }
      if copy.Faulted? {
        PatchIsWrite(buffer[..], size, f.offset, copy.left);
        assert copy.left[..n] == copy.left;
        CopyIn(f.offset, copy.left);
        return EFault;
      }
      CopyIn(f.offset, user[..n]);
      f.offset := f.offset + n;
      r := Count(n);
    }

    /** The copy that copy_from_user performs on the buffer. */
    method CopyIn(offset: nat, data: seq<Byte>)
      requires Valid() && offset + |data| <= BUFSIZ
      modifies buffer
      ensures buffer[..] == Patch(old(buffer[..]), offset, data)
    {
      forall i | 0 <= i < |data| {
        buffer[offset + i] := data[i];
      }
    }
  }
}
