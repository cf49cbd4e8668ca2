/** The kernel log (`kernel/log/syslog.c`): text appended to a ring and read without being consumed. */
module Syslog {
  import opened PhysicalBytes
  import opened RingBuffer

  const BUFFER_SIZE: nat := 4096

  /** A C string up to its terminator. */
  function Text(s: seq<Byte>): (r: seq<Byte>)
    requires 0 in s
    ensures |r| < |s| && r == s[..|r|] && s[|r|] == 0 && 0 !in r
  {
    if s[0] == 0 then [] else [s[0]] + Text(s[1..])
  }

  /** The texts one after the other. */
  function Written(strs: seq<seq<Byte>>): seq<Byte>
    requires forall i :: 0 <= i < |strs| ==> 0 in strs[i]
  {
    if strs == [] then [] else Written(strs[..|strs| - 1]) + Text(strs[|strs| - 1])
  }

  lemma BufferIsPower()
    ensures PowerOfTwo(BUFFER_SIZE)
  {
    SixteenTimes(1);
    SixteenTimes(0x10);
    SixteenTimes(0x100);
  }

  lemma TextStep(before: seq<Byte>, str: seq<Byte>, i: nat)
    requires 0 in str && i <= |Text(str)| && str[i] != 0
    ensures i < |Text(str)|
    ensures Last(Last(before + Text(str)[..i], BUFFER_SIZE) + [str[i]], BUFFER_SIZE) == Last(before + Text(str)[..i + 1], BUFFER_SIZE)
  {
    var text := Text(str);
    LastOfLast(before + text[..i], [str[i]], BUFFER_SIZE);
    assert before + text[..i] + [str[i]] == before + text[..i + 1];
  }

  class Log {
    const ring: Ring
    var ready: bool

    ghost predicate Valid()
      reads this, ring, ring.buf
    {
      ring.Valid() && ring.cap == BUFFER_SIZE
    }

    /** What the log holds; nothing before it is set up. */
    ghost function Contents(): seq<Byte>
      reads this, ring
    {
      if ready then ring.q else []
    }

    /** `syslog_init` */
    constructor (storage: array<Byte>)
      requires storage.Length == BUFFER_SIZE
      ensures Valid() && fresh(ring) && ring.buf == storage && ready && Contents() == []
    {
      BufferIsPower();
      ring := new Ring(storage);
      ready := true;
    }

    /** `syslog_putc` */
    method Put(c: Byte)
      requires Valid()
      modifies ring`head, ring`tail, ring`q, ring`gone, ring.buf
      ensures Valid() && Contents() == if ready then Last(old(Contents()) + [c], BUFFER_SIZE) else []
    {
      if !ready {
        return;
      }
      ring.Overwrite(c);
    }

    /** `syslog_write`: the log keeps the last bytes of what it held and the text. */
    method Write(str: seq<Byte>)
      requires Valid() && 0 in str
      modifies ring`head, ring`tail, ring`q, ring`gone, ring.buf
      ensures Valid() && Contents() == if ready then Last(old(Contents()) + Text(str), BUFFER_SIZE) else []
    {
      var i := 0;
      ghost var before, text := Contents(), Text(str);
      assert before + text[..0] == before;
      ghost var kept := before;
      while str[i] != 0
        invariant 0 <= i <= |text| && Valid() && kept == Last(before + text[..i], BUFFER_SIZE)
        invariant Contents() == if ready then kept else []
        decreases |text| - i
      {
        TextStep(before, str, i);
        Put(str[i]);
        kept := Last(kept + [str[i]], BUFFER_SIZE);
        i := i + 1;
      }
      assert text[..i] == text;
    }

    /** `syslog_read`: as much of the contents as fits, from the oldest byte, with a terminator; nothing is consumed. */
    method Read(dst: array?<Byte>, size: nat) returns (n: nat)
      requires Valid() && (dst != null ==> size <= dst.Length && dst != ring.buf)
      modifies dst
      ensures Valid() && Contents() == old(Contents())
      ensures n == if !ready || dst == null || size == 0 then 0 else if |Contents()| < size then |Contents()| else size - 1
      ensures ready && dst != null && size > 0 ==>
        n < dst.Length && dst[..n] == Contents()[..n] && dst[n] == 0 && dst[n + 1..] == old(dst[n + 1..])
      ensures !ready && dst != null ==> dst[..] == old(dst[..])
    {
      if !ready || dst == null || size == 0 {
        return 0;
      }
      n := ring.Length();
      if n >= size {
        n := size - 1;
      }
      var i := 0;
      while i < n
        invariant 0 <= i <= n && Valid() && ring.q == old(ring.q)
        invariant dst[..i] == ring.q[..i] && dst[n + 1..] == old(dst[n + 1..])
      {
        var a := ring.Peek(i);
        if a.Got? {
          dst[i] := a.b;
        }
        i := i + 1;
      }
      dst[n] := 0;
    }

    /** A whole session: after any texts a reader gets the beginning of the last bytes written. */
    method Session(strs: seq<seq<Byte>>, dst: array<Byte>, size: nat) returns (n: nat)
      requires Valid() && ready && Contents() == [] && 0 < size <= dst.Length && dst != ring.buf
      requires forall i :: 0 <= i < |strs| ==> 0 in strs[i]
      modifies ring`head, ring`tail, ring`q, ring`gone, ring.buf, dst
      ensures Valid() && n < dst.Length && dst[n] == 0
      ensures var kept := Last(Written(strs), 4096);
        n == (if |kept| < size then |kept| else size - 1) && dst[..n] == kept[..n]
    {
      for k := 0 to |strs|
        invariant Valid() && Contents() == Last(Written(strs[..k]), BUFFER_SIZE)
      {
        assert strs[..k + 1][..k] == strs[..k];
        LastOfLast(Written(strs[..k]), Text(strs[k]), BUFFER_SIZE);
        Write(strs[k]);
      }
      assert strs[..|strs|] == strs;
      n := Read(dst, size);
    }
  }
}
