/** The message device of char_device.c and its client loop in userspace_ioctl.c. */
module MessageDevice {
  import opened MessageBuffer
  import opened Prelude

  /** What get_user can fetch from a user pointer: a string with its NUL, or at least 80 characters. */
  ghost predicate Readable(user: seq<Byte>) {
    0 in user || |user| >= BUF_LEN
  }

  /** The buffer after `n` bytes of `user` were written over its start. */
  function Overlay(m: seq<Byte>, user: seq<Byte>, n: nat): seq<Byte>
    requires n <= |user| && n <= |m|
  {
    user[..n] + m[n..]
  }

  lemma OverlayNext(m: seq<Byte>, user: seq<Byte>, n: nat)
    requires n < |user| && n < |m|
    ensures Overlay(m, user, n)[n := user[n]] == Overlay(m, user, n + 1)
  {
  }

  /** How many bytes IOCTL_SET_MSG writes: the string and its terminator, at most 80, none if it is empty. */
  function SetLength(user: seq<Byte>): nat {
    if Str(user) == [] then 0 else Min(|Str(user)| + 1, BUF_LEN)
  }

  /** The 7-bit beginning of a string: the bytes before the first negative one. */
  function SevenBit(s: seq<Byte>): (r: seq<Byte>)
    ensures r <= s && (forall i :: 0 <= i < |r| ==> r[i] >= 0) && (|r| < |s| ==> s[|r|] < 0)
  {
    if s == [] || s[0] < 0 then [] else [s[0]] + SevenBit(s[1..])
  }

  lemma {:induction false} SevenBitIs(s: seq<Byte>, n: nat)
    requires n <= |s| && (forall i :: 0 <= i < n ==> s[i] >= 0) && (n < |s| ==> s[n] < 0)
    ensures SevenBit(s) == s[..n]
  {
    if n > 0 {
      SevenBitIs(s[1..], n - 1);
      assert s[..n] == [s[0]] + s[1..][..n - 1];
    }
  }

  lemma SevenBitExactly(s: seq<Byte>)
    ensures SevenBit(s) == s <==> forall i :: 0 <= i < |s| ==> s[i] >= 0
  {
    if forall i :: 0 <= i < |s| ==> s[i] >= 0 {
      SevenBitIs(s, |s|);
    }
  }

  /** A message that is not 7-bit: SET_MSG stores it like any other, whatever was there before. */
  lemma NotSevenBit(m: seq<Byte>)
    requires Sealed(m)
    ensures var user: seq<Byte> := [-1, 0];
      && Readable(user) && SetLength(user) <= 2 && Str(Overlay(m, user, SetLength(user))) == [-1]
      && SevenBit([-1]) == []
  {
    var user: seq<Byte> := [-1, 0];
    assert user[1] == 0;
    StrIs(user, 1);
    assert user[..1] == [-1];
    SetThenStr(m, user);
    assert [-1][..1] == [-1];
  }

  /** What the device holds after `user` is set over `held`. */
  function Stored(held: seq<Byte>, user: seq<Byte>): seq<Byte> {
    if Str(user) == [] then held else Str(user)[..Min(|Str(user)|, BUF_LEN)]
  }

  lemma ReadableLength(user: seq<Byte>)
    requires Readable(user)
    ensures SetLength(user) <= |user|
  {
    if 0 in user {
      var i :| 0 <= i < |user| && user[i] == 0;
      StrStopsAt(user, i);
    }
  }

  /** SET then GET: a non-empty string comes back cut to 80 characters, whatever was stored before, and the
      terminator stays in place; an empty string changes nothing. */
  lemma SetThenStr(m: seq<Byte>, user: seq<Byte>)
    requires Sealed(m) && Readable(user)
    ensures SetLength(user) <= |user| && SetLength(user) <= BUF_LEN && Sealed(Overlay(m, user, SetLength(user)))
    ensures Str(Overlay(m, user, SetLength(user))) == Stored(Str(m), user)
  {
    ReadableLength(user);
    var n, len := SetLength(user), Min(|Str(user)|, BUF_LEN);
    var m' := Overlay(m, user, n);
    if n > 0 {
      assert forall i :: 0 <= i < len ==> m'[i] == Str(user)[i];
      StrIs(m', len);
      assert m'[..len] == Str(user)[..len];
    } else {
      assert m' == m;
    }
  }

  datatype Ioctl = SetMsg(user: seq<Byte>) | GetMsg | GetNthByte(n: nat) | Other

  /** Done: the value returned and what was written to the user's buffer. */
  datatype Reply = Busy | Done(ret: int, out: seq<Byte>)

  class Device {
    const message: array<Byte>
    var inUse: bool  // already_open

    ghost predicate Valid()
      reads this, message
    {
      Sealed(message[..])
    }

    constructor ()
      ensures Valid() && !inUse && fresh(message) && Str(message[..]) == []
    {
      message := new Byte[BUF_LEN + 1](_ => 0);
      inUse := false;
      new;
      StrIs(message[..], 0);
    }

    /** device_read */
    method Read(f: File, length: nat) returns (out: seq<Byte>)
      requires Valid() && f.offset <= BUF_LEN
      modifies f
      ensures (out, f.offset) == ReadAt(message[..], old(f.offset), length) && f.offset <= BUF_LEN
    {
      var o;
      out, o := DeviceRead(message, length, f.offset);
      f.offset := o;
    }

    /** device_write: the file offset is not used. */
    method Write(user: seq<Byte>, length: nat) returns (written: nat)
      requires Valid() && Min(length, BUF_LEN) <= |user|
      modifies message
      ensures Valid() && written == Min(length, BUF_LEN)
      ensures message[..] == Overlay(old(message[..]), user, written)
    {
      var i := 0;
      while i < length && i < BUF_LEN
        invariant i <= Min(length, BUF_LEN)
        invariant message[..] == Overlay(old(message[..]), user, i)
      {
        OverlayNext(old(message[..]), user, i);
        message[i] := user[i];
        i := i + 1;
      }
      written := i;
    }

    /** The scan of IOCTL_SET_MSG: it fetches the first byte, and then again from the start. */
    method ScanLength(user: seq<Byte>) returns (i: nat)
      requires Readable(user)
      ensures i == SetLength(user)
    {
      ReadableLength(user);
      var ch := user[0];
      i := 0;
      while ch != 0 && i < BUF_LEN
        invariant i <= BUF_LEN && i <= |user| && user != []
        invariant ch == if i == 0 then user[0] else user[i - 1]
        invariant forall j :: 0 <= j < i - 1 ==> user[j] != 0
        invariant i > 0 ==> user[0] != 0
        decreases BUF_LEN - i, ch != 0
      {
        if i == |user| { StrPrefix(user, i); }
        ch := user[i];
        i := i + 1;
      }
      if i > 0 && ch == 0 {
        StrIs(user, i - 1);
      } else if i > 0 {
        StrPrefix(user, i);
      } else {
        StrIs(user, 0);
      }
    }

    /** device_ioctl */
    method DeviceIoctl(cmd: Ioctl) returns (r: Reply)
      requires Valid()
      requires cmd.SetMsg? ==> Readable(cmd.user)
      requires cmd.GetNthByte? ==> cmd.n <= BUF_LEN
      modifies this`inUse, message
      ensures Valid()
      ensures old(inUse) ==> r == Busy && inUse && message[..] == old(message[..])
      ensures !old(inUse) ==> !inUse && r.Done?
      ensures !old(inUse) && cmd.SetMsg? ==> r == Done(0, [])
      ensures !old(inUse) && cmd.SetMsg? ==> Str(message[..]) == Stored(Str(old(message[..])), cmd.user)
      ensures !old(inUse) && cmd.GetMsg? ==> r == Done(0, Str(message[..]) + [0])
      ensures !old(inUse) && cmd.GetNthByte? ==> r == Done(message[cmd.n], [])
      ensures !old(inUse) && cmd.Other? ==> r == Done(0, [])
      ensures !cmd.SetMsg? ==> message[..] == old(message[..])
    {
      if inUse { return Busy; }
      inUse := true;
      match cmd {
        case SetMsg(user) =>
          ReadableLength(user);
          SetThenStr(message[..], user);
          var i := ScanLength(user);
          var written := Write(user, i);
          r := Done(0, []);
        case GetMsg =>
          StrStopsAt(message[..], BUF_LEN);
          ReadsTheString(message[..], 0, 99);
          var out, o := DeviceRead(message, 99, 0);
          assert out == Str(message[..]);
          r := Done(0, out + [0]);
        case GetNthByte(n) =>
          r := Done(message[n], []);
        case Other =>
          r := Done(0, []);
      }
      inUse := false;
    }
  }

  /** ioctl(fd, IOCTL_GET_NTH_BYTE, i) as the client sees it: the C library turns the small negative return
      values of a system call into -1. */
  method Fetch(dev: Device, i: nat) returns (c: int)
    requires dev.Valid() && !dev.inUse && i <= BUF_LEN
    modifies dev`inUse, dev.message
    ensures dev.Valid() && !dev.inUse && dev.message[..] == old(dev.message[..])
    ensures c == if dev.message[i] < 0 then -1 else dev.message[i]
  {
    var r := dev.DeviceIoctl(GetNthByte(i));
    c := if -4095 <= r.ret < 0 then -1 else r.ret;
  }

  /** The client has printed bytes 0 to i - 1: 7-bit characters of the string. */
  ghost predicate Printing(m: seq<Byte>, i: nat, printed: seq<Byte>) {
    i <= |Str(m)| && printed == Str(m)[..i] && forall j :: 0 <= j < i ==> printed[j] >= 0
  }

  lemma ByteOfString(m: seq<Byte>, i: nat)
    requires Sealed(m) && i <= |Str(m)|
    ensures |Str(m)| <= BUF_LEN && (i < |Str(m)| <==> m[i] != 0)
    ensures i < |Str(m)| ==> Str(m)[i] == m[i]
  {
    StrStopsAt(m, BUF_LEN);
  }

  /** What byte i then says. */
  lemma NthByteDecides(m: seq<Byte>, i: nat, printed: seq<Byte>)
    requires Sealed(m) && Printing(m, i, printed)
    ensures i <= |Str(m)| <= BUF_LEN
    ensures m[i] < 0 ==> printed == SevenBit(Str(m)) != Str(m)
    ensures m[i] == 0 ==> printed == SevenBit(Str(m)) == Str(m)
    ensures m[i] > 0 ==> i < |Str(m)| && Printing(m, i + 1, printed + [m[i]])
  {
    ByteOfString(m, i);
    var s := Str(m);
    if m[i] > 0 {
      assert s[..i + 1] == s[..i] + [s[i]];
    } else {
      assert forall j :: 0 <= j < i ==> s[j] == printed[j];
      SevenBitIs(s, i);
    }
  }

  /** ioctl_get_nth_byte.  The loop prints the message up to its first byte that is not 7-bit and fails there; a 7-bit
      message is printed whole, with its NUL.  It never asks beyond index 80: Fetch could not be called. */
  method GetNthByteLoop(dev: Device) returns (ret: int, printed: seq<Byte>)
    requires dev.Valid() && !dev.inUse
    modifies dev`inUse, dev.message
    ensures dev.Valid() && !dev.inUse && dev.message[..] == old(dev.message[..])
    ensures ret == 0 <==> SevenBit(Str(dev.message[..])) == Str(dev.message[..])
    ensures ret == 0 ==> printed == Str(dev.message[..]) + [0]
    ensures ret != 0 ==> ret == -1 && printed == SevenBit(Str(dev.message[..]))
  {
    ghost var m, s := dev.message[..], Str(dev.message[..]);
    var i := 0;
    var c := 1;
    printed := [];
    while c != 0
      invariant dev.Valid() && !dev.inUse && dev.message[..] == m
      invariant c != 0 ==> Printing(m, i, printed)
      invariant c == 0 ==> SevenBit(s) == s && printed == s + [0]
      decreases c != 0, |s| - i
    {
      NthByteDecides(m, i, printed);
      c := Fetch(dev, i);
      assert c == if m[i] < 0 then -1 else m[i];
      if c < 0 {
        return c, printed;
      }
      printed := printed + [c];
      i := i + 1;
    }
    return 0, printed;
  }
}
