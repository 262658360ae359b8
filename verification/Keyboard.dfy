/** The keystroke buffer of kbd.c: a ring of 1024 characters filled by the keyboard interrupt and
    drained by readers.
 */
module Keyboard {
  import opened Prelude

  const BUFFER_SIZE := 1024

  // ---------------------------------------------------------------- scancodes

  predicate IsKeyPress(scancode: bv8) {
    scancode & 0x80 == 0
  }

  lemma PressIsLow(scancode: bv8)
    ensures IsKeyPress(scancode) <==> scancode < 0x80
  {
  }

  function GetAscii(scancode: bv8): char {
    var s := (scancode & 0x7f) as int;
    if 0x02 <= s <= 0x0b then "1234567890"[s - 0x02]
    else if 0x10 <= s <= 0x19 then "qwertyuiop"[s - 0x10]
    else if 0x1e <= s <= 0x26 then "asdfghjkl"[s - 0x1e]
    else if 0x2c <= s <= 0x32 then "zxcvbnm"[s - 0x2c]
    else match s
      case 0x0C => '-'
      case 0x0D => '='
      case 0x0E => 8 as char
      case 0x0F => '\t'
      case 0x1A => '['
      case 0x1B => ']'
      case 0x1C => '\n'
      case 0x27 => ';'
      case 0x28 => '\''
      case 0x29 => '`'
      case 0x33 => ','
      case 0x34 => '.'
      case 0x35 => '/'
      case 0x39 => ' '
      case _ => '?'
  }

  /** A key sends its code when pressed and its code plus 0x80 when released; the two stand for the same character. */
  lemma PressAndRelease(key: bv8)
    requires key < 0x80
    ensures IsKeyPress(key) && !IsKeyPress(key + 0x80) && GetAscii(key + 0x80) == GetAscii(key)
  {
    assert (key + 0x80) & 0x7f == key & 0x7f;
  }

  /** The keys of a US keyboard, row by row as their codes follow each other. */
  lemma KeyRows(key: bv8)
    requires key < 0x80
    ensures var k, c := key as int, GetAscii(key);
      if 0x02 <= k < 0x10 then c == ("1234567890-=" + [8 as char] + "\t")[k - 0x02]
      else if 0x10 <= k < 0x1d then c == "qwertyuiop[]\n"[k - 0x10]
      else if 0x1e <= k < 0x2a then c == "asdfghjkl;'`"[k - 0x1e]
      else if 0x2c <= k < 0x36 then c == "zxcvbnm,./"[k - 0x2c]
      else c == if k == 0x39 then ' ' else '?'
  {
    assert (key & 0x7f) as int == key as int by { assert key & 0x7f == key; }
  }

  // ---------------------------------------------------------------- the ring as a value

  datatype Ring = Ring(buf: seq<char>, put: nat, get: nat, count: nat) {
    ghost predicate Ok() {
      && |buf| == BUFFER_SIZE && put < BUFFER_SIZE && get < BUFFER_SIZE && count <= BUFFER_SIZE
      && put == (get + count) % BUFFER_SIZE
    }
  }

  /** put_char */
  function Put(r: Ring, c: char): Ring
    requires r.put < |r.buf|
  {
    if r.count >= BUFFER_SIZE then r
    else Ring(r.buf[r.put := c], (r.put + 1) % BUFFER_SIZE, r.get, r.count + 1)
  }

  /** get_char on a buffer that is not empty */
  function Advance(r: Ring): Ring
    requires r.count > 0
  {
    r.(get := (r.get + 1) % BUFFER_SIZE, count := r.count - 1)
  }

  /** reset_buffer */
  function Reset(r: Ring): Ring {
    r.(count := 0, get := 0, put := 0)
  }

  /** The unread characters, oldest first. */
  function Contents(r: Ring): (s: seq<char>)
    requires |r.buf| == BUFFER_SIZE
    ensures |s| == r.count
  {
    seq(r.count, i requires 0 <= i < r.count => r.buf[(r.get + i) % BUFFER_SIZE])
  }

  lemma WrapsApart(get: nat, i: nat, n: nat)
    requires get < BUFFER_SIZE && i < n < BUFFER_SIZE
    ensures (get + i) % BUFFER_SIZE != (get + n) % BUFFER_SIZE
  {
  }

  lemma WrapsOn(get: nat, i: nat)
    requires get < BUFFER_SIZE && i < BUFFER_SIZE
    ensures ((get + 1) % BUFFER_SIZE + i) % BUFFER_SIZE == (get + (i + 1)) % BUFFER_SIZE
  {
  }

  lemma WrapsLater(get: nat, n: nat)
    requires get < BUFFER_SIZE && n <= BUFFER_SIZE
    ensures ((get + n) % BUFFER_SIZE + 1) % BUFFER_SIZE == (get + (n + 1)) % BUFFER_SIZE
  {
  }

  lemma PutStaysOk(r: Ring, c: char)
    requires r.Ok()
    ensures Put(r, c).Ok()
  {
    WrapsLater(r.get, r.count);
  }

  lemma AdvanceStaysOk(r: Ring)
    requires r.Ok() && r.count > 0
    ensures Advance(r).Ok()
  {
    WrapsOn(r.get, r.count - 1);
  }

  /** put_char appends at the back of the queue, or drops the character when 1024 are unread. */
  lemma PutIsEnqueue(r: Ring, c: char)
    requires r.Ok()
    ensures Put(r, c).Ok()
    ensures Contents(Put(r, c)) == if r.count == BUFFER_SIZE then Contents(r) else Contents(r) + [c]
  {
    PutStaysOk(r, c);
    if r.count < BUFFER_SIZE {
      var r' := Put(r, c);
      forall i | 0 <= i < r.count ensures Contents(r')[i] == Contents(r)[i] {
        WrapsApart(r.get, i, r.count);
      }
      assert Contents(r')[r.count] == c;
    }
  }

  lemma FrontOfContents(r: Ring)
    requires |r.buf| == BUFFER_SIZE && r.get < BUFFER_SIZE && 0 < r.count <= BUFFER_SIZE
    ensures Contents(r) == [r.buf[r.get]] + Contents(Advance(r))
  {
    var s := [r.buf[r.get]] + Contents(Advance(r));
    forall i | 0 <= i < |s| ensures s[i] == Contents(r)[i] {
      if i > 0 { WrapsOn(r.get, i - 1); }
    }
  }

  /** get_char removes at the front. */
  lemma GetIsDequeue(r: Ring)
    requires r.Ok() && r.count > 0
    ensures Advance(r).Ok() && r.get < |r.buf|
    ensures Contents(r) == [r.buf[r.get]] + Contents(Advance(r))
  {
    AdvanceStaysOk(r);
    FrontOfContents(r);
  }

  lemma ResetIsEmpty(r: Ring)
    requires r.Ok()
    ensures Reset(r).Ok() && Contents(Reset(r)) == []
  {
  }

  /** What the first `k` scancodes put into a buffer that holds `unread` characters and is not read meanwhile. */
  function Accepts(unread: nat, scancodes: seq<bv8>, k: nat): seq<char>
    requires k <= |scancodes|
    decreases k
  {
    if k == 0 then []
    else
      var front := Accepts(unread, scancodes, k - 1);
      if IsKeyPress(scancodes[k - 1]) && unread + |front| < BUFFER_SIZE then front + [GetAscii(scancodes[k - 1])]
      else front
  }

  /** What is accepted by `k` iterations of a reader that takes a character in each: before iteration i the interrupts
      `arrivals(i)` come in. */
  function Fed(unread: nat, arrivals: nat -> seq<bv8>, k: nat): seq<char> {
    if k == 0 then []
    else
      var front := Fed(unread, arrivals, k - 1);
      var left := unread + |front| - (k - 1);
      front + Accepts(if left < 0 then 0 else left, arrivals(k - 1), |arrivals(k - 1)|)
  }

  lemma FedMore(known: seq<char>, unread: nat, arrivals: nat -> seq<bv8>, k: nat, left: nat, known': seq<char>)
    requires left + k == unread + |Fed(unread, arrivals, k)|
    requires known' == known + Fed(unread, arrivals, k) + Accepts(left, arrivals(k), |arrivals(k)|)
    ensures known' == known + Fed(unread, arrivals, k + 1)
  {
  }

  /** While the buffer does not fill up, every press is accepted. */
  lemma {:induction false} RoomForAll(unread: nat, scancodes: seq<bv8>, k: nat)
    requires k <= |scancodes| && unread + k <= BUFFER_SIZE
    ensures Accepts(unread, scancodes, k) == Pressed(scancodes[..k]) && |Accepts(unread, scancodes, k)| <= k
    decreases k
  {
    if k > 0 {
      RoomForAll(unread, scancodes, k - 1);
      assert scancodes[..k][..k - 1] == scancodes[..k - 1];
      PressIsLow(scancodes[k - 1]);
    }
  }

  /** The characters of the presses among the scancodes. */
  function Pressed(scancodes: seq<bv8>): seq<char> {
    if scancodes == [] then []
    else
      var front, last := Pressed(scancodes[..|scancodes| - 1]), scancodes[|scancodes| - 1];
      if last < 0x80 then front + [GetAscii(last)] else front
  }

  // ---------------------------------------------------------------- the device

  class Kbd {
    const buf: array<char>
    var put_idx: nat
    var get_idx: nat
    var count: nat
    ghost var accepted: seq<char>  // every character that put_char ever stored

    ghost function View(): Ring
      reads this, buf
    {
      Ring(buf[..], put_idx, get_idx, count)
    }

    /** The unread characters are the last `count` accepted ones. */
    ghost predicate Valid()
      reads this, buf
    {
      View().Ok() && count <= |accepted| && Contents(View()) == accepted[|accepted| - count..]
    }

    constructor ()
      ensures Valid() && count == 0 && accepted == [] && fresh(buf)
    {
      buf := new char[BUFFER_SIZE];
      put_idx, get_idx, count := 0, 0, 0;
      accepted := [];
    }

    method PutChar(c: char)
      requires Valid()
      modifies this, buf
      ensures Valid() && View() == Put(old(View()), c)
      ensures accepted == old(accepted) + if old(count) == BUFFER_SIZE then [] else [c]
    {
      PutIsEnqueue(View(), c);
      if count >= BUFFER_SIZE { return; }
      buf[put_idx] := c;
      put_idx := (put_idx + 1) % BUFFER_SIZE;
      count := count + 1;
      accepted := accepted + [c];
      assert View() == Put(old(View()), c);
    }

    method GetChar() returns (c: Option<char>)
      requires Valid()
      modifies this`get_idx, this`count
      ensures Valid()
      ensures c.None? <==> old(count) == 0
      ensures c.None? ==> View() == old(View()) && Contents(View()) == []
      ensures count == old(count) - if c.Some? then 1 else 0
      ensures c.Some? ==> View() == Advance(old(View())) && Contents(old(View())) == [c.value] + Contents(View())
    {
      if count > 0 {
        GetIsDequeue(View());
        c := Some(buf[get_idx]);
        get_idx := (get_idx + 1) % BUFFER_SIZE;
        count := count - 1;
        assert View() == Advance(old(View()));
      } else {
        c := None;
      }
    }

    method ResetBuffer()
      requires Valid()
      modifies this`put_idx, this`get_idx, this`count
      ensures Valid() && View() == Reset(old(View()))
    {
      count := 0;
      get_idx := 0;
      put_idx := 0;
    }

    /** kbd_interrupt_handler, the data register holding `scancode` */
    method InterruptHandler(scancode: bv8)
      requires Valid()
      modifies this, buf
      ensures Valid()
      ensures View() == if scancode < 0x80 then Put(old(View()), GetAscii(scancode)) else old(View())
      ensures accepted == old(accepted) +
        if scancode < 0x80 && old(count) < BUFFER_SIZE then [GetAscii(scancode)] else []
      ensures count == old(count) + |accepted| - |old(accepted)|
      ensures Flow(old(Contents(View())), old(accepted), accepted, [], Contents(View()))
    {
      PutIsEnqueue(View(), GetAscii(scancode));
      PressIsLow(scancode);
      if IsKeyPress(scancode) {
        var ch := GetAscii(scancode);
        PutChar(ch);
      }
    }

    /** The interrupts that arrive between two iterations of a reader. */
    method Interrupts(scancodes: seq<bv8>)
      requires Valid()
      modifies this, buf
      ensures Valid() && accepted == old(accepted) + Accepts(old(count), scancodes, |scancodes|)
      ensures count == old(count) + |accepted| - |old(accepted)|
      ensures Flow(old(Contents(View())), old(accepted), accepted, [], Contents(View()))
    {
      var i := 0;
      while i < |scancodes|
        invariant i <= |scancodes| && Valid()
        invariant accepted == old(accepted) + Accepts(old(count), scancodes, i)
        invariant count == old(count) + |Accepts(old(count), scancodes, i)|
        invariant Flow(old(Contents(View())), old(accepted), accepted, [], Contents(View()))
      {
        ghost var before, known := Contents(View()), accepted;
        PressIsLow(scancodes[i]);
        InterruptHandler(scancodes[i]);
        FlowOn(old(Contents(View())), old(accepted), known, accepted, [], before, [], Contents(View()));
        i := i + 1;
      }
    }

    /** The interrupts before the next iteration of kbd_read; `start`, `known` and `held` are the unread characters at
        the read's entry, all accepted until then and the count then, and `out` is what the reader has got so far. */
    method Feed(arrivals: nat -> seq<bv8>, ghost start: seq<char>, ghost known: seq<char>, ghost held: nat,
                out: seq<char>)
      requires Valid() && Served(start, known, held, arrivals, out, accepted, count, Contents(View()))
      modifies this, buf
      ensures Valid() && accepted == known + Fed(held, arrivals, |out| + 1)
      ensures Flow(start, known, accepted, out, Contents(View()))
      ensures count + |out| == held + |Fed(held, arrivals, |out| + 1)|
    {
      ghost var unread, before, left := Contents(View()), accepted, count;
      Interrupts(arrivals(|out|));
      ServedMore(start, known, held, arrivals, out, before, left, unread, accepted, Contents(View()));
    }

    /** One iteration of kbd_read, up to the unlock. */
    method Take(arrivals: nat -> seq<bv8>, ghost start: seq<char>, ghost known: seq<char>, ghost held: nat,
                out: seq<char>) returns (c: Option<char>)
      requires Valid() && Served(start, known, held, arrivals, out, accepted, count, Contents(View()))
      modifies this, buf
      ensures Valid() && accepted == known + Fed(held, arrivals, |out| + 1)
      ensures c.None? ==> Flow(start, known, accepted, out, []) && Contents(View()) == []
      ensures c.Some? ==> Served(start, known, held, arrivals, out + [c.value], accepted, count, Contents(View()))
    {
      Feed(arrivals, start, known, held, out);
      c := GetChar();
      if c.Some? { ServedTakes(start, known, held, arrivals, out, c.value, accepted, count, Contents(View())); }
    }

    /** kbd_read, alone among readers and without a reset: before the k-th lock the interrupts
        `arrivals(k)` come in, and put_user fails in the iterations where `faults(k)` says so.
        What was unread at entry and what was accepted meanwhile is, in this order, what the reader
        got, then the character that a failing put_user lost, then what is still unread.  The call returns
        -EFAULT when `lost` is not empty, and |out| otherwise. */
    method KbdRead(size: nat, arrivals: nat -> seq<bv8>, faults: nat -> bool)
      returns (out: seq<char>, lost: seq<char>)
      requires Valid()
      modifies this, buf
      ensures Valid() && accepted == old(accepted) + Fed(old(count), arrivals, if |out| < size then |out| + 1 else size)
      ensures Flow(old(Contents(View())), old(accepted), accepted, out + lost, Contents(View()))
      ensures |out| + |lost| <= size && |lost| <= 1
      ensures lost == [] && |out| < size ==> Contents(View()) == []
      ensures lost != [] ==> faults(|out|)
      ensures Faultless(faults, |out|)
    {
      out, lost := [], [];
      var left, more := size, true;
      ghost var start, known, held := Contents(View()), accepted, count;
      while left > 0 && more
        invariant Valid() && |out| + left == size - (if more then 0 else 1)
        invariant more ==> lost == [] && Served(start, known, held, arrivals, out, accepted, count, Contents(View()))
        invariant !more ==> Stopped(start, known, held, arrivals, faults, out, lost, accepted, Contents(View()))
        invariant Faultless(faults, |out|)
        decreases left, more
      {
        left := left - 1;
        out, lost, more := Iteration(arrivals, faults, start, known, held, out);
      }
      assert more ==> out + lost == out;
    }

    /** One iteration, with the put_user after the unlock; the read goes on if there was a character and no fault. */
    method Iteration(arrivals: nat -> seq<bv8>, faults: nat -> bool, ghost start: seq<char>, ghost known: seq<char>,
                     ghost held: nat, out: seq<char>) returns (out': seq<char>, lost: seq<char>, more: bool)
      requires Valid() && Served(start, known, held, arrivals, out, accepted, count, Contents(View()))
      requires Faultless(faults, |out|)
      modifies this, buf
      ensures Valid() && Faultless(faults, |out'|) && |out'| == |out| + if more then 1 else 0
      ensures more ==> lost == [] && Served(start, known, held, arrivals, out', accepted, count, Contents(View()))
      ensures !more ==> Stopped(start, known, held, arrivals, faults, out', lost, accepted, Contents(View()))
    {
      var c := Take(arrivals, start, known, held, out);
      out', lost, more := out, [], false;
      if c.None? {
        StopsEmpty(start, known, held, arrivals, faults, out, accepted);
      } else if faults(|out|) {
        StopsFaulting(start, known, held, arrivals, faults, out, c.value, accepted, count, Contents(View()));
        lost := [c.value];
      } else {
        GoesFaultless(faults, |out|);
        out', more := out + [c.value], true;
      }
    }
  }

  ghost predicate Faultless(faults: nat -> bool, n: nat) {
    forall k :: 0 <= k < n ==> !faults(k)
  }

  /** A read has stopped early: it found the buffer empty, or lost a character to a failing put_user. */
  ghost predicate Stopped(start: seq<char>, known: seq<char>, held: nat, arrivals: nat -> seq<bv8>, faults: nat -> bool,
                          out: seq<char>, lost: seq<char>, accepted: seq<char>, rest: seq<char>)
  {
    && Flow(start, known, accepted, out + lost, rest) && accepted == known + Fed(held, arrivals, |out| + 1)
    && |lost| <= 1 && (lost == [] ==> rest == []) && (lost != [] ==> faults(|out|))
  }

  lemma GoesFaultless(faults: nat -> bool, n: nat)
    requires Faultless(faults, n) && !faults(n)
    ensures Faultless(faults, n + 1)
  {
  }

  lemma StopsEmpty(start: seq<char>, known: seq<char>, held: nat, arrivals: nat -> seq<bv8>, faults: nat -> bool,
                   out: seq<char>, accepted: seq<char>)
    requires Flow(start, known, accepted, out, []) && accepted == known + Fed(held, arrivals, |out| + 1)
    ensures Stopped(start, known, held, arrivals, faults, out, [], accepted, [])
  {
    assert out + [] == out;
  }

  lemma StopsFaulting(start: seq<char>, known: seq<char>, held: nat, arrivals: nat -> seq<bv8>, faults: nat -> bool,
                      out: seq<char>, c: char, accepted: seq<char>, count: nat, rest: seq<char>)
    requires Served(start, known, held, arrivals, out + [c], accepted, count, rest) && faults(|out|)
    ensures Stopped(start, known, held, arrivals, faults, out, [c], accepted, rest)
  {
  }

  /** A read that began with `start` unread, `known` accepted and count `held` has got `out`, one character in each of
      its iterations, and leaves `rest`. */
  ghost predicate Served(start: seq<char>, known: seq<char>, held: nat, arrivals: nat -> seq<bv8>, out: seq<char>,
                         accepted: seq<char>, count: nat, rest: seq<char>)
  {
    && Flow(start, known, accepted, out, rest)
    && accepted == known + Fed(held, arrivals, |out|) && count + |out| == held + |Fed(held, arrivals, |out|)|
  }

  /** A queue that held `start` and was fed what `known'` adds to `known` has given `out` and holds `rest`. */
  ghost predicate Flow(start: seq<char>, known: seq<char>, known': seq<char>, out: seq<char>, rest: seq<char>) {
    known <= known' && start + known'[|known|..] == out + rest
  }

  lemma ServedMore(start: seq<char>, known: seq<char>, held: nat, arrivals: nat -> seq<bv8>, out: seq<char>,
                   before: seq<char>, left: nat, unread: seq<char>, accepted: seq<char>, rest: seq<char>)
    requires Served(start, known, held, arrivals, out, before, left, unread)
    requires accepted == before + Accepts(left, arrivals(|out|), |arrivals(|out|)|)
    requires Flow(unread, before, accepted, [], rest)
    ensures accepted == known + Fed(held, arrivals, |out| + 1) && Flow(start, known, accepted, out, rest)
    ensures left + |accepted| - |before| + |out| == held + |Fed(held, arrivals, |out| + 1)|
  {
    FedMore(known, held, arrivals, |out|, left, accepted);
    FlowOn(start, known, before, accepted, out, unread, [], rest);
    assert out + [] == out;
  }

  lemma ServedTakes(start: seq<char>, known: seq<char>, held: nat, arrivals: nat -> seq<bv8>, out: seq<char>, c: char,
                    accepted: seq<char>, count: nat, rest: seq<char>)
    requires Flow(start, known, accepted, out, [c] + rest) && accepted == known + Fed(held, arrivals, |out| + 1)
    requires count + 1 + |out| == held + |Fed(held, arrivals, |out| + 1)|
    ensures Served(start, known, held, arrivals, out + [c], accepted, count, rest)
  {
    assert out + ([c] + rest) == out + [c] + rest;
  }

  lemma FlowOn(start: seq<char>, k0: seq<char>, k1: seq<char>, k2: seq<char>,
               out: seq<char>, mid: seq<char>, more: seq<char>, rest: seq<char>)
    requires Flow(start, k0, k1, out, mid) && Flow(mid, k1, k2, more, rest)
    ensures Flow(start, k0, k2, out + more, rest)
  {
    assert k2[|k0|..] == k1[|k0|..] + k2[|k1|..];
    assert start + k2[|k0|..] == (start + k1[|k0|..]) + k2[|k1|..];
    assert out + (mid + k2[|k1|..]) == (out + mid) + k2[|k1|..];
    assert (out + more) + rest == out + (more + rest);
  }
}
