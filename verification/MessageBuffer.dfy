/** An 80-character message with its terminator, and the read operation that char_device.c and
    char_dev_example.c share: it hands out the string from the file offset on, and rewinds at its end.
 */
module MessageBuffer {
  import opened Prelude

  const BUF_LEN := 80

  /** The C string at the start of `m`: the bytes before the first NUL. */
  function Str(m: seq<Byte>): (s: seq<Byte>)
    ensures s <= m && (|s| < |m| ==> m[|s|] == 0)
    ensures forall i :: 0 <= i < |s| ==> s[i] != 0
  {
    if m == [] || m[0] == 0 then [] else [m[0]] + Str(m[1..])
  }

  lemma {:induction false} StrIs(m: seq<Byte>, n: nat)
    requires n <= |m| && (forall i :: 0 <= i < n ==> m[i] != 0) && (n < |m| ==> m[n] == 0)
    ensures Str(m) == m[..n]
  {
    if n > 0 {
      StrIs(m[1..], n - 1);
      assert m[..n] == [m[0]] + m[1..][..n - 1];
    }
  }

  ghost predicate Sealed(m: seq<Byte>) {
    |m| == BUF_LEN + 1 && m[BUF_LEN] == 0
  }

  /** What a read of `length` bytes at `offset` returns, and the new offset. */
  function ReadAt(m: seq<Byte>, offset: nat, length: nat): (seq<Byte>, nat)
    requires offset < |m|
  {
    var rest := Str(m[offset..]);
    if rest == [] then ([], 0)
    else (rest[..Min(length, |rest|)], offset + Min(length, |rest|))
  }

  /** device_read; the file offset is passed in and handed back. */
  method DeviceRead(message: array<Byte>, length: nat, offset: nat) returns (out: seq<Byte>, offset': nat)
    requires Sealed(message[..]) && offset <= BUF_LEN
    ensures (out, offset') == ReadAt(message[..], offset, length)
    ensures offset' <= BUF_LEN
  {
    var msgPtr := offset;
    ghost var m := message[..];
    if message[msgPtr] == 0 {
      StrIs(m[offset..], 0);
      return [], 0;
    }
    var left := length;
    out := [];
    while left > 0 && message[msgPtr] != 0
      invariant msgPtr <= BUF_LEN && msgPtr == offset + |out| && |out| + left == length
      invariant out == m[offset..msgPtr] && forall i :: offset <= i < msgPtr ==> m[i] != 0
    {
      out := out + [message[msgPtr]];
      msgPtr := msgPtr + 1;
      left := left - 1;
    }
    offset' := offset + |out|;
    ReadEnds(m, offset, length, |out|);
  }

  lemma ReadEnds(m: seq<Byte>, offset: nat, length: nat, n: nat)
    requires offset + n < |m| && n <= length && m[offset] != 0
    requires forall i :: offset <= i < offset + n ==> m[i] != 0
    requires n < length ==> m[offset + n] == 0
    ensures ReadAt(m, offset, length) == (m[offset..offset + n], offset + n)
  {
    var rest := m[offset..];
    assert forall i :: 0 <= i < n ==> rest[i] == m[offset + i];
    StrPrefix(rest, n);
    assert rest[..n] == m[offset..offset + n];
    StrPrefix(rest, 1);
    if n < length {
      StrIs(rest, n);
    }
  }

  lemma {:induction false} StrPrefix(m: seq<Byte>, n: nat)
    requires n <= |m| && forall i :: 0 <= i < n ==> m[i] != 0
    ensures n <= |Str(m)| && Str(m)[..n] == m[..n]
  {
    if n > 0 {
      StrPrefix(m[1..], n - 1);
    }
  }

  // ---------------------------------------------------------------- chunked reading

  /** A read of the string `s` at an offset inside it. */
  function ReadString(s: seq<Byte>, offset: nat, length: nat): (r: (seq<Byte>, nat))
    requires offset <= |s|
    ensures r.1 <= |s|
  {
    if offset == |s| then ([], 0)
    else
      var end := Min(offset + length, |s|);
      (s[offset..end], end)
  }

  lemma {:induction false} StrStopsAt(m: seq<Byte>, i: nat)
    requires i < |m| && m[i] == 0
    ensures |Str(m)| <= i
  {
    if i > 0 && m[0] != 0 {
      StrStopsAt(m[1..], i - 1);
    }
  }

  lemma {:induction false} StrTail(m: seq<Byte>, o: nat)
    requires o <= |Str(m)|
    ensures Str(m[o..]) == Str(m)[o..]
  {
    if o > 0 {
      StrTail(m[1..], o - 1);
      assert m[1..][o - 1..] == m[o..];
    }
  }

  /** While the offset is inside the message's string, device_read reads that string. */
  lemma ReadsTheString(m: seq<Byte>, offset: nat, length: nat)
    requires Sealed(m) && offset <= |Str(m)|
    ensures offset < |m| && ReadAt(m, offset, length) == ReadString(Str(m), offset, length)
  {
    StrStopsAt(m, BUF_LEN);
    StrTail(m, offset);
    var n := Min(length, |Str(m)| - offset);
    assert Str(m)[offset..][..n] == Str(m)[offset..offset + n];
  }

  /** One more read of a pass that has collected the message's string up to the offset. */
  lemma ReadContinues(m: seq<Byte>, offset: nat, pass: seq<Byte>, length: nat)
    requires Sealed(m) && offset <= |Str(m)| && pass == Str(m)[..offset]
    ensures offset < |m| && (m[offset] == 0 <==> pass == Str(m))
    ensures var (out, offset') := ReadAt(m, offset, length);
      && offset' <= |Str(m)|
      && (pass == Str(m) ==> out == [] && offset' == 0)
      && (pass != Str(m) ==> pass + out == Str(m)[..offset'] && (length > 0 ==> out != []))
  {
    var text := Str(m);
    StrStopsAt(m, BUF_LEN);
    ReadsTheString(m, offset, length);
    if offset < |text| {
      assert m[offset] == text[offset];
      assert |pass| < |text|;
      var end := Min(offset + length, |text|);
      assert text[..offset] + text[offset..end] == text[..end];
    } else {
      assert text[..offset] == text;
    }
  }

  /** What a call of device_read at an offset, with a length, returns, and the new offset. */
  type Reader = (nat, nat) -> (seq<Byte>, nat)

  /** device_read on the message `m`; no call is made beyond its end. */
  function Calls(m: seq<Byte>): Reader {
    (offset: nat, length: nat) => if offset < |m| then ReadAt(m, offset, length) else ([], 0)
  }

  /** The file offset after the first `k` reads of a file opened at offset 0. */
  function OffsetAfter(read: Reader, lengths: seq<nat>, k: nat): nat
    requires k <= |lengths|
    decreases k
  {
    if k == 0 then 0 else read(OffsetAfter(read, lengths, k - 1), lengths[k - 1]).1
  }

  /** What read `k` returns. */
  function Chunk(read: Reader, lengths: seq<nat>, k: nat): seq<Byte>
    requires k < |lengths|
  {
    read(OffsetAfter(read, lengths, k), lengths[k]).0
  }

  /** What the reads have collected in the current pass: an empty read ends a pass. */
  function Collected(read: Reader, lengths: seq<nat>, k: nat): seq<Byte>
    requires k <= |lengths|
    decreases k
  {
    if k == 0 || Chunk(read, lengths, k - 1) == [] then []
    else Collected(read, lengths, k - 1) + Chunk(read, lengths, k - 1)
  }

  /** At every offset inside `s`, the reader reads `s`. */
  ghost predicate Reads(read: Reader, s: seq<Byte>) {
    forall o: nat, length: nat :: o <= |s| ==> read(o, length) == ReadString(s, o, length)
  }

  lemma CallsReadMessage(m: seq<Byte>)
    requires Sealed(m)
    ensures Reads(Calls(m), Str(m))
  {
    forall o: nat, length: nat | o <= |Str(m)| ensures Calls(m)(o, length) == ReadString(Str(m), o, length) {
      ReadsTheString(m, o, length);
    }
  }

  lemma {:induction false} OffsetInside(read: Reader, s: seq<Byte>, lengths: seq<nat>, k: nat)
    requires Reads(read, s) && k <= |lengths|
    ensures OffsetAfter(read, lengths, k) <= |s|
    decreases k
  {
    if k > 0 {
      OffsetInside(read, s, lengths, k - 1);
    }
  }

  lemma {:induction false} ChunksSpell(read: Reader, s: seq<Byte>, lengths: seq<nat>, k: nat)
    requires Reads(read, s) && k < |lengths| && forall i :: 0 <= i < |lengths| ==> lengths[i] > 0
    ensures OffsetAfter(read, lengths, k) <= |s| && Collected(read, lengths, k) == s[..OffsetAfter(read, lengths, k)]
    ensures Chunk(read, lengths, k) == [] <==> Collected(read, lengths, k) == s
    ensures Chunk(read, lengths, k) == [] ==> OffsetAfter(read, lengths, k + 1) == 0
    decreases k
  {
    OffsetInside(read, s, lengths, k);
    if k > 0 {
      ChunksSpell(read, s, lengths, k - 1);
      var o, o' := OffsetAfter(read, lengths, k - 1), OffsetAfter(read, lengths, k);
      assert o < |s| ==> s[..o] + s[o..o'] == s[..o'];
    }
    assert s[..|s|] == s;
  }

  /** Calls of device_read with any positive lengths spell the message: at every point the current pass has collected
      its string up to the offset; a call returns nothing exactly when the whole string has been collected, and then
      the next pass starts at offset 0. */
  lemma ChunksSpellMessage(m: seq<Byte>, lengths: seq<nat>, k: nat)
    requires Sealed(m) && k < |lengths| && forall i :: 0 <= i < |lengths| ==> lengths[i] > 0
    ensures var s, read := Str(m), Calls(m); var o := OffsetAfter(read, lengths, k);
      && o <= |s| < |m| && Collected(read, lengths, k) == s[..o]
      && (Chunk(read, lengths, k) == [] <==> Collected(read, lengths, k) == s)
      && (Chunk(read, lengths, k) == [] ==> OffsetAfter(read, lengths, k + 1) == 0)
  {
    StrStopsAt(m, BUF_LEN);
    CallsReadMessage(m);
    ChunksSpell(Calls(m), Str(m), lengths, k);
  }

  lemma {:induction false} ChunksEnd(read: Reader, s: seq<Byte>, lengths: seq<nat>, k: nat) returns (j: nat)
    requires Reads(read, s) && forall i :: 0 <= i < |lengths| ==> lengths[i] > 0
    requires k <= |lengths| && k + |s| - OffsetAfter(read, lengths, k) < |lengths|
    ensures k <= j <= k + |s| - OffsetAfter(read, lengths, k) && j < |lengths| && Chunk(read, lengths, j) == []
    decreases |s| - OffsetAfter(read, lengths, k)
  {
    OffsetInside(read, s, lengths, k);
    if OffsetAfter(read, lengths, k) == |s| {
      j := k;
    } else {
      OffsetInside(read, s, lengths, k + 1);
      j := ChunksEnd(read, s, lengths, k + 1);
    }
  }

  /** Every pass ends: after at most one call per character still to come, an empty one follows. */
  lemma PassEnds(m: seq<Byte>, lengths: seq<nat>, k: nat) returns (j: nat)
    requires Sealed(m) && forall i :: 0 <= i < |lengths| ==> lengths[i] > 0
    requires k <= |lengths| && k + |Str(m)| - OffsetAfter(Calls(m), lengths, k) < |lengths|
    ensures k <= j <= k + |Str(m)| - OffsetAfter(Calls(m), lengths, k) && j < |lengths|
    ensures Chunk(Calls(m), lengths, j) == []
  {
    CallsReadMessage(m);
    j := ChunksEnd(Calls(m), Str(m), lengths, k);
  }
}
