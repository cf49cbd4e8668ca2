/**
 * The byte ring with free-running 32-bit counters (`kernel/klib/ringbuf.c`), and what it
 * stands for: a queue of at most `cap` bytes.
 */
module RingBuffer {
  import opened PhysicalBytes

  const WORD: nat := 0x1_0000_0000

  // ---- Masking by a power of two ----

  predicate PowerOfTwo(c: nat) { c == 1 || (c > 1 && c % 2 == 0 && PowerOfTwo(c / 2)) }

  /** Bitwise and. */
  function And(a: nat, b: nat): nat {
    if a == 0 || b == 0 then 0 else 2 * And(a / 2, b / 2) + (a % 2) * (b % 2)
  }

  /** Masking with a power of two less one is taking the remainder. */
  lemma {:induction false} MaskIsRemainder(x: nat, c: nat)
    requires PowerOfTwo(c)
    ensures And(x, c - 1) == x % c
  {
    if c == 1 {
      Remainder(x, 1, x, 0);
    } else if x == 0 {
      Remainder(0, c, 0, 0);
    } else {
      MaskIsRemainder(x / 2, c / 2);
      Doubled(x, c, c / 2);
      AndOnce(x, c, c / 2);
    }
  }

  lemma AndOnce(x: nat, c: nat, h: nat)
    requires x > 0 && h > 0 && c == 2 * h
    ensures And(x, c - 1) == 2 * And(x / 2, h - 1) + x % 2
  {
    assert (c - 1) / 2 == h - 1 && (c - 1) % 2 == 1;
  }

  lemma Doubled(x: nat, c: nat, h: nat)
    requires h > 0 && c == 2 * h
    ensures x % c == 2 * (x / 2 % h) + x % 2
  {
    var y, b := x / 2, x % 2;
    var q, r := y / h, y % h;
    assert y == q * h + r;
    assert q * c == 2 * (q * h);
    Remainder(x, c, q, 2 * r + b);
  }

  lemma Remainder(x: nat, m: nat, q: nat, r: nat)
    requires m > 0 && x == q * m + r && r < m
    ensures x % m == r
  {
    var d, e := x / m, x % m;
    assert x == d * m + e;
    assert (d - q) * m == r - e;
    assert 0 - m < (d - q) * m < m;
    assert d - q >= 1 ==> (d - q) * m >= m;
    assert d - q <= -1 ==> (d - q) * m <= 0 - m;
  }

  lemma {:induction false} PowersDivide(c: nat, d: nat)
    requires PowerOfTwo(c) && PowerOfTwo(d) && c <= d
    ensures exists q: nat :: d == q * c
  {
    if c == 1 {
      assert d == d * c;
    } else {
      PowersDivide(c / 2, d / 2);
      var q: nat :| d / 2 == q * (c / 2);
      assert d == q * c;
    }
  }

  lemma Twice(c: nat)
    requires PowerOfTwo(c)
    ensures PowerOfTwo(2 * c)
  {
    assert (2 * c) / 2 == c && (2 * c) % 2 == 0;
  }

  lemma SixteenTimes(c: nat)
    requires PowerOfTwo(c)
    ensures PowerOfTwo(16 * c)
  {
    Twice(c);
    Twice(2 * c);
    Twice(4 * c);
    Twice(8 * c);
  }

  lemma WordIsPower()
    ensures PowerOfTwo(WORD)
  {
    SixteenTimes(1);
    SixteenTimes(0x10);
    SixteenTimes(0x100);
    SixteenTimes(0x1000);
    SixteenTimes(0x1_0000);
    SixteenTimes(0x10_0000);
    SixteenTimes(0x100_0000);
    SixteenTimes(0x1000_0000);
  }

  lemma Regroup(d: nat, q: nat, e: nat, c: nat, s: nat)
    ensures d * (q * c) + (e * c + s) == (d * q + e) * c + s
  {
  }

  lemma RemainderTwice(x: nat, m: nat, q: nat, c: nat)
    requires m > 0 && c > 0 && m == q * c
    ensures x % m % c == x % c
  {
    var d, r := x / m, x % m;
    var e, s := r / c, r % c;
    assert x == d * m + r;
    assert r == e * c + s;
    Regroup(d, q, e, c, s);
    Remainder(x, c, d * q + e, s);
  }

  /** A counter that has wrapped around still selects the same slot. */
  lemma SlotAfterWrap(x: nat, c: nat)
    requires PowerOfTwo(c) && c <= WORD
    ensures And(x % WORD, c - 1) == x % c
  {
    WordIsPower();
    PowersDivide(c, WORD);
    var q: nat :| WORD == q * c;
    RemainderTwice(x, WORD, q, c);
    MaskIsRemainder(x % WORD, c);
  }

  /** Slots of two counters less than `c` apart differ. */
  lemma SlotsDiffer(a: nat, b: nat, c: nat)
    requires c > 0 && a < b < a + c
    ensures a % c != b % c
  {
    var p, q := a / c, b / c;
    assert a == p * c + a % c && b == q * c + b % c;
    assert a % c == b % c ==> (q - p) * c == b - a;
    assert q - p >= 1 ==> (q - p) * c >= c;
    assert q - p <= 0 ==> (q - p) * c <= 0;
  }

  // ---- The queue ----

  /** The last `n` bytes, or all of them. */
  function Last(s: seq<Byte>, n: nat): (r: seq<Byte>)
    ensures |r| == if |s| <= n then |s| else n
  {
    if |s| <= n then s else s[|s| - n..]
  }

  /** They are the end of the sequence. */
  lemma LastIsEnd(s: seq<Byte>, n: nat)
    ensures s == s[..|s| - |Last(s, n)|] + Last(s, n) && |Last(s, n)| == if |s| <= n then |s| else n
  {
  }

  lemma LastOne(q: seq<Byte>, b: Byte, n: nat)
    requires |q| <= n && n > 0
    ensures Last(q + [b], n) == (if |q| == n then q[1..] else q) + [b]
  {
  }

  lemma LastOfLast(s: seq<Byte>, t: seq<Byte>, n: nat)
    ensures Last(Last(s, n) + t, n) == Last(s + t, n)
  {
    if |s| > n {
      assert s + t == s[..|s| - n] + (Last(s, n) + t);
    }
  }

  datatype Op = Overwrite(b: Byte) | Push(b: Byte) | Pop | Peek(i: nat)
  datatype Answer = Done | Refused | Got(b: Byte)

  /** A bounded queue: overwriting drops the oldest byte of a full one, pushing is refused by it. */
  function After(q: seq<Byte>, cap: nat, op: Op): seq<Byte> {
    match op
    case Overwrite(b) => Last(q + [b], cap)
    case Push(b) => if |q| == cap then q else q + [b]
    case Pop => if q == [] then q else q[1..]
    case Peek(_) => q
  }

  function Reply(q: seq<Byte>, cap: nat, op: Op): Answer {
    match op
    case Overwrite(_) => Done
    case Push(_) => if |q| == cap then Refused else Done
    case Pop => if q == [] then Refused else Got(q[0])
    case Peek(i) => if i < |q| then Got(q[i]) else Refused
  }

  /** The queue after a sequence of operations, and what each of them answered. */
  function AfterAll(q: seq<Byte>, cap: nat, ops: seq<Op>): seq<Byte> {
    if ops == [] then q else After(AfterAll(q, cap, ops[..|ops| - 1]), cap, ops[|ops| - 1])
  }

  function Replies(q: seq<Byte>, cap: nat, ops: seq<Op>): (r: seq<Answer>)
    ensures |r| == |ops|
  {
    if ops == [] then []
    else
      var front := ops[..|ops| - 1];
      Replies(q, cap, front) + [Reply(AfterAll(q, cap, front), cap, ops[|ops| - 1])]
  }

  // ---- The ring ----

  /** The bytes from counter `tail` on are the queue's. */
  ghost predicate Holds(buf: seq<Byte>, cap: nat, tail: nat, q: seq<Byte>) {
    && 0 < cap == |buf| && |q| <= cap
    && forall i {:trigger q[i]} :: 0 <= i < |q| ==> buf[(tail + i) % cap] == q[i]
  }

  lemma HoldsMore(buf: seq<Byte>, cap: nat, tail: nat, q: seq<Byte>, b: Byte)
    requires Holds(buf, cap, tail, q) && |q| < cap
    ensures Holds(buf[(tail + |q|) % cap := b], cap, tail, q + [b])
  {
    var buf' := buf[(tail + |q|) % cap := b];
    forall i {:trigger (q + [b])[i]} | 0 <= i < |q| + 1 ensures buf'[(tail + i) % cap] == (q + [b])[i] {
      if i < |q| {
        SlotsDiffer(tail + i, tail + |q|, cap);
        assert (q + [b])[i] == q[i];
      }
    }
  }

  lemma HoldsLess(buf: seq<Byte>, cap: nat, tail: nat, q: seq<Byte>)
    requires Holds(buf, cap, tail, q) && q != []
    ensures Holds(buf, cap, tail + 1, q[1..])
  {
    forall i {:trigger q[1..][i]} | 0 <= i < |q| - 1 ensures buf[(tail + 1 + i) % cap] == q[1..][i] {
      assert q[1..][i] == q[i + 1];
      assert tail + 1 + i == tail + (i + 1);
    }
  }

  /** The 32-bit difference of two counters is the number of bytes between them. */
  lemma Difference(t: nat, n: nat)
    requires n < WORD
    ensures (WORD + (t + n) % WORD - t % WORD) % WORD == n
  {
  }

  lemma Increment(t: nat)
    ensures (t % WORD + 1) % WORD == (t + 1) % WORD
  {
  }

  lemma Sum(t: nat, i: nat)
    ensures (t % WORD + i) % WORD == (t + i) % WORD
  {
  }

  class Ring {
    const buf: array<Byte>
    const cap: nat
    var head: nat
    var tail: nat
    /** The queue, and how many bytes have ever left it. */
    ghost var q: seq<Byte>
    ghost var gone: nat

    ghost predicate Valid()
      reads this, buf
    {
      && PowerOfTwo(cap) && cap < WORD && buf.Length == cap
      && Holds(buf[..], cap, gone, q) && tail == gone % WORD && head == (gone + |q|) % WORD
    }

    /** `ringbuf_init` */
    constructor (storage: array<Byte>)
      requires PowerOfTwo(storage.Length) && storage.Length < WORD
      ensures Valid() && buf == storage && cap == storage.Length && q == []
    {
      buf, cap, head, tail, q, gone := storage, storage.Length, 0, 0, [], 0;
    }

    /** `ringbuf_len` */
    method Length() returns (n: nat)
      requires Valid()
      ensures n == |q|
    {
      Difference(gone, |q|);
      n := (WORD + head - tail) % WORD;
    }

    /** The oldest byte leaves. */
    method Drop()
      requires Valid() && q != []
      modifies this`tail, this`q, this`gone
      ensures Valid() && q == old(q)[1..]
    {
      Increment(gone);
      HoldsLess(buf[..], cap, gone, q);
      tail := (tail + 1) % WORD;
      q, gone := q[1..], gone + 1;
    }

    method Append(b: Byte)
      requires Valid() && |q| < cap
      modifies this`head, this`q, buf
      ensures Valid() && q == old(q) + [b]
    {
      HoldsMore(buf[..], cap, gone, q, b);
      SlotAfterWrap(gone + |q|, cap);
      Increment(gone + |q|);
      buf[And(head, cap - 1)] := b;
      head := (head + 1) % WORD;
      q := q + [b];
    }

    /** `ringbuf_overwrite` */
    method Overwrite(b: Byte)
      requires Valid()
      modifies this`head, this`tail, this`q, this`gone, buf
      ensures Valid() && q == Last(old(q) + [b], cap)
      ensures q == (if |old(q)| == cap then old(q)[1..] else old(q)) + [b]
    {
      LastOne(q, b, cap);
      var n := Length();
      if n == cap {
        Drop();
      }
      Append(b);
    }

    /** `ringbuf_push` */
    method Push(b: Byte) returns (ok: bool)
      requires Valid()
      modifies this`head, this`tail, this`q, this`gone, buf
      ensures Valid() && ok == (|old(q)| < cap) && q == if ok then old(q) + [b] else old(q)
    {
      var n := Length();
      if n == cap {
        return false;
      }
      Overwrite(b);
      ok := true;
    }

    /** `ringbuf_pop` */
    method Pop() returns (r: Answer)
      requires Valid()
      modifies this`tail, this`q, this`gone
      ensures Valid() && r == Reply(old(q), cap, Op.Pop) && q == After(old(q), cap, Op.Pop)
      ensures if old(q) == [] then r == Refused && q == [] else r == Got(old(q)[0]) && q == old(q)[1..]
    {
      var empty := IsEmpty();
      if empty {
        return Refused;
      }
      r := Got(Oldest());
      Drop();
    }

    /** `ringbuf_is_empty` */
    method IsEmpty() returns (b: bool)
      requires Valid()
      ensures b <==> q == []
    {
      Difference(gone, |q|);
      b := head == tail;
    }

    function Oldest(): (b: Byte)
      requires Valid() && q != []
      reads this, buf
      ensures b == q[0]
    {
      SlotAfterWrap(gone, cap);
      assert q[0] == buf[..][(gone + 0) % cap];
      buf[And(tail, cap - 1)]
    }

    /** `ringbuf_peek` */
    method Peek(i: nat) returns (r: Answer)
      requires Valid()
      ensures r == Reply(q, cap, Op.Peek(i)) && r == if i < |q| then Got(q[i]) else Refused
    {
      var n := Length();
      if i >= n {
        return Refused;
      }
      Sum(gone, i);
      SlotAfterWrap(gone + i, cap);
      assert buf[..][(gone + i) % cap] == q[i];
      r := Got(buf[And((tail + i) % WORD, cap - 1)]);
    }

    /** Any sequence of operations: the ring is the bounded queue. */
    method Run(ops: seq<Op>) returns (answers: seq<Answer>)
      requires Valid()
      modifies this`head, this`tail, this`q, this`gone, buf
      ensures Valid() && q == AfterAll(old(q), cap, ops) && answers == Replies(old(q), cap, ops)
    {
      answers := [];
      for k := 0 to |ops|
        invariant Valid() && q == AfterAll(old(q), cap, ops[..k]) && answers == Replies(old(q), cap, ops[..k])
      {
        assert ops[..k + 1][..k] == ops[..k];
        var a := Serve(ops[k]);
        answers := answers + [a];
      }
      assert ops[..|ops|] == ops;
    }

    method Serve(op: Op) returns (a: Answer)
      requires Valid()
      modifies this`head, this`tail, this`q, this`gone, buf
      ensures Valid() && q == After(old(q), cap, op) && a == Reply(old(q), cap, op)
    {
      match op
      case Overwrite(b) =>
        Overwrite(b);
        a := Done;
      case Push(b) =>
        var ok := Push(b);
        a := if ok then Done else Refused;
      case Pop =>
        a := Pop();
      case Peek(i) =>
        a := Peek(i);
    }
  }
}
