/** The read-only device of char_dev_example.c: one process at a time may open it, and each open formats a
    new greeting that counts the opens before it.
 */
module Greeter {
  import opened MessageBuffer
  import opened Prelude

  // ---------------------------------------------------------------- %d

  function Bytes(s: string): (b: seq<Byte>)
    requires forall i :: 0 <= i < |s| ==> 0 as char < s[i] < 128 as char
    ensures |b| == |s| && forall i :: 0 <= i < |s| ==> b[i] == s[i] as int && b[i] != 0
  {
    seq(|s|, i requires 0 <= i < |s| => s[i] as int)
  }

  function Digits(n: nat): (d: seq<Byte>)
    ensures d != [] && forall i :: 0 <= i < |d| ==> 48 <= d[i] <= 57
  {
    if n < 10 then [48 + n] else Digits(n / 10) + [48 + n % 10]
  }

  function Decimal(n: int): seq<Byte> {
    if n < 0 then [45] + Digits(-n) else Digits(n)
  }

  function Value(d: seq<Byte>): int {
    if d == [] then 0 else 10 * Value(d[..|d| - 1]) + d[|d| - 1] - 48
  }

  lemma {:induction false} ValueOfDigits(n: nat)
    ensures Value(Digits(n)) == n
  {
    var d := Digits(n);
    if n < 10 {
      assert d[..0] == [];
    } else {
      ValueOfDigits(n / 10);
      assert d[..|d| - 1] == Digits(n / 10);
    }
  }

  function Pow10(k: nat): nat {
    if k == 0 then 1 else 10 * Pow10(k - 1)
  }

  lemma {:induction false} DigitsLength(n: nat, k: nat)
    requires k > 0 && n < Pow10(k)
    ensures |Digits(n)| <= k
  {
    if n >= 10 {
      assert k > 1 && n / 10 < Pow10(k - 1);
      DigitsLength(n / 10, k - 1);
    }
  }

  /** The inverse of Decimal */
  function Parse(d: seq<Byte>): int {
    if d != [] && d[0] == 45 then -Value(d[1..]) else Value(d)
  }

  lemma ParseDecimal(n: int)
    ensures Parse(Decimal(n)) == n
  {
    if n < 0 {
      ValueOfDigits(-n);
      assert Decimal(n)[1..] == Digits(-n);
    } else {
      ValueOfDigits(n);
    }
  }

  /** No leading zeros: a number other than 0 starts with another digit. */
  lemma {:induction false} NoLeadingZero(n: nat)
    ensures Digits(n)[0] == 48 <==> n == 0
    ensures n == 0 ==> |Digits(n)| == 1
  {
    if n >= 10 {
      NoLeadingZero(n / 10);
    }
  }

  // ---------------------------------------------------------------- the greeting

  function Greeting(counter: int): seq<Byte> {
    Bytes("I already told you ") + Decimal(counter) + Bytes(" times Hello world!\n")
  }

  /** The text can be read: behind its beginning and before its end stands the counter, in decimal, and nothing else. */
  lemma GreetingReads(counter: int)
    ensures var g, front, back := Greeting(counter), Bytes("I already told you "), Bytes(" times Hello world!\n");
      && front <= g && |front| + |back| < |g| && g[|g| - |back|..] == back
      && Parse(g[|front|..|g| - |back|]) == counter
  {
    ParseDecimal(counter);
    MiddleOf(Bytes("I already told you "), Decimal(counter), Bytes(" times Hello world!\n"));
  }

  /** The formatted greeting contains no NUL and fits into the buffer with its terminator, for every int. */
  lemma GreetingFits(counter: int)
    requires -0x8000_0000 <= counter < 0x8000_0000
    ensures 0 < |Greeting(counter)| < BUF_LEN && forall i :: 0 <= i < |Greeting(counter)| ==> Greeting(counter)[i] != 0
  {
    assert Pow10(10) == 10_000_000_000 by { assert Pow10(5) == 100_000; }
    DigitsLength(if counter < 0 then -counter else counter, 10);
  }

  /** Two greetings differ unless the counters are equal as 32-bit ints: the counts told are distinct until
      the counter wraps. */
  lemma GreetingsDistinct(a: nat, b: nat)
    ensures Greeting(Int32(a)) == Greeting(Int32(b)) <==> a % 0x1_0000_0000 == b % 0x1_0000_0000
  {
    Int32Equal(a, b);
    if Greeting(Int32(a)) == Greeting(Int32(b)) {
      GreetingInjective(Int32(a), Int32(b));
    }
  }

  lemma GreetingInjective(x: int, y: int)
    requires Greeting(x) == Greeting(y)
    ensures x == y
  {
    var front, back := Bytes("I already told you "), Bytes(" times Hello world!\n");
    MiddleOf(front, Decimal(x), back);
    MiddleOf(front, Decimal(y), back);
    ParseDecimal(x);
    ParseDecimal(y);
  }

  lemma MiddleOf(front: seq<Byte>, middle: seq<Byte>, back: seq<Byte>)
    ensures (front + middle + back)[|front|..|front + middle + back| - |back|] == middle
  {
  }

  /** sprintf into the buffer: the greeting, its NUL, and what was there behind. */
  function Format(m: seq<Byte>, counter: int): seq<Byte>
    requires |Greeting(counter)| < |m|
  {
    Greeting(counter) + [0] + m[|Greeting(counter)| + 1..]
  }

  lemma FormatSpells(m: seq<Byte>, counter: int)
    requires Sealed(m) && -0x8000_0000 <= counter < 0x8000_0000
    ensures |Greeting(counter)| < |m| && Sealed(Format(m, counter)) && Str(Format(m, counter)) == Greeting(counter)
  {
    GreetingFits(counter);
    StrIs(Format(m, counter), |Greeting(counter)|);
  }

  lemma Splice(text: seq<Byte>, m: seq<Byte>, i: nat)
    requires i < |text| && i < |m|
    ensures (text[..i] + m[i..])[i := text[i]] == text[..i + 1] + m[i + 1..]
  {
  }

  lemma Terminate(text: seq<Byte>, m: seq<Byte>)
    requires |text| < |m|
    ensures (text + m[|text|..])[|text| := 0] == text + [0] + m[|text| + 1..]
  {
  }

  class Device {
    const msg: array<Byte>
    var inUse: bool  // already_open
    var counter: int

    ghost predicate Valid()
      reads this, msg
    {
      Sealed(msg[..]) && -0x8000_0000 <= counter < 0x8000_0000
    }

    constructor ()
      ensures Valid() && !inUse && counter == 0 && fresh(msg)
    {
      msg := new Byte[BUF_LEN + 1](_ => 0);
      inUse, counter := false, 0;
    }

    method Sprintf(text: seq<Byte>)
      requires Valid() && |text| < BUF_LEN
      modifies msg
      ensures Valid() && msg[..] == text + [0] + old(msg[..])[|text| + 1..]
    {
      var i := 0;
      while i < |text|
        invariant i <= |text| && msg[..] == text[..i] + old(msg[..])[i..]
      {
        Splice(text, old(msg[..]), i);
        msg[i] := text[i];
        i := i + 1;
      }
      assert text[..i] == text;
      Terminate(text, old(msg[..]));
      msg[i] := 0;
    }

    /** device_open: false stands for -EBUSY. */
    method Open() returns (ok: bool)
      requires Valid()
      modifies this`inUse, this`counter, msg
      ensures Valid() && inUse && ok == !old(inUse)
      ensures !ok ==> msg[..] == old(msg[..]) && counter == old(counter)
      ensures ok ==> Str(msg[..]) == Greeting(old(counter)) && counter == Int32(old(counter) + 1)
    {
      if inUse { return false; }
      inUse := true;
      GreetingFits(counter);
      FormatSpells(msg[..], counter);
      Sprintf(Greeting(counter));
      counter := Int32(counter + 1);
      ok := true;
    }

    /** device_release */
    method Release()
      requires Valid()
      modifies this`inUse
      ensures Valid() && !inUse
    {
      inUse := false;
    }

    /** device_read */
    method Read(f: File, length: nat) returns (out: seq<Byte>)
      requires Valid() && f.offset <= BUF_LEN
      modifies f
      ensures (out, f.offset) == ReadAt(msg[..], old(f.offset), length) && f.offset <= BUF_LEN
    {
      var o;
      out, o := DeviceRead(msg, length, f.offset);
      f.offset := o;
    }
  }
}
