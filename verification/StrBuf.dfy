/** The growable string buffer of src/lua/lua-cjson/strbuf.c and strbuf.h. */
module StringBuffer {
  import opened Octets

  const DEFAULT_SIZE := 1023
  const DEFAULT_INCREMENT := -2

  // ----- Growth -----

  /** Repeated multiplication of the size, from a positive size, until it reaches the request. */
  function Grown(size: nat, factor: nat, request: nat): (n: nat)
    requires size >= 1 && factor >= 2
    decreases request - size
  {
    if size < request then Grown(size * factor, factor, request) else size
  }

  /** strbuf_set_increment refuses 0 and -1. */
  predicate IsIncrement(increment: int) {
    increment >= 1 || increment <= -2
  }

  function RoundedUp(size: nat, step: nat): nat
    requires step >= 1
  {
    (size + step - 1) / step * step
  }

  /** calculate_new_size for a request of len bytes and a terminator. */
  function NewSize(size: nat, increment: int, len: nat): nat
    requires size >= 1 && IsIncrement(increment)
  {
    if size > len + 1 then len + 1
    else if increment < 0 then Grown(size, -increment, len + 1)
    else RoundedUp(size, increment)
  }

  lemma {:induction false} GrownReaches(size: nat, factor: nat, request: nat)
    requires size >= 1 && factor >= 2
    ensures Grown(size, factor, request) >= request && Grown(size, factor, request) >= size
    decreases request - size
  {
    if size < request {
      GrownReaches(size * factor, factor, request);
    }
  }

  /**
   When the new size holds a request of len bytes and its terminator: always with an
   increment below -1, but with a linear one only if no multiple of it lies in [size, len].
   */
  predicate Reaches(size: nat, increment: int, len: nat)
    requires IsIncrement(increment)
  {
    increment <= -2 || size > len + 1 || (size + increment - 1) / increment > len / increment
  }

  lemma NewSizeHolds(size: nat, increment: int, len: nat)
    requires size >= 1 && IsIncrement(increment)
    ensures NewSize(size, increment, len) >= len + 1 <==> Reaches(size, increment, len)
  {
    if increment <= -2 {
      GrownReaches(size, -increment, len + 1);
    } else if size <= len + 1 {
      RoundedUpReaches((size + increment - 1) / increment, increment, len);
    }
  }

  /** The quotients decide which of the two is larger. */
  lemma RoundedUpReaches(n: nat, step: nat, len: nat)
    requires step >= 1
    ensures n * step >= len + 1 <==> n > len / step
  {
    var q := len / step;
    assert len == q * step + len % step;
    if n > q {
      assert n * step >= (q + 1) * step == q * step + step;
    } else {
      assert n * step <= q * step;
    }
  }

  /** What the condition says of a linear increment. */
  lemma NoMultipleBetween(size: nat, step: nat, len: nat, m: nat)
    requires step >= 1 && size <= len + 1
    ensures Reaches(size, step, len) && size <= m * step ==> m * step > len
    ensures !Reaches(size, step, len) ==> size <= (size + step - 1) / step * step <= len
  {
    var n := (size + step - 1) / step;
    assert size + step - 1 == n * step + (size + step - 1) % step;
    RoundedUpReaches(n, step, len);
    Ordered(m, n, step);
  }

  lemma Ordered(m: nat, n: nat, step: nat)
    ensures if m < n then m * step + step <= n * step else m * step >= n * step
  {
    if m < n {
      assert (m + 1) * step <= n * step;
    }
  }

  /** A linear buffer that misses: 10 bytes, in steps of 4, asked for 20. */
  lemma LinearGrowthMisses()
    ensures NewSize(10, 4, 20) == 12
  {
  }

  function Power(base: nat, k: nat): nat {
    if k == 0 then 1 else base * Power(base, k - 1)
  }

  /** Exponential growth multiplies as often as needed, and not once more. */
  lemma {:induction false} GrownLeast(size: nat, factor: nat, request: nat) returns (k: nat)
    requires size >= 1 && factor >= 2
    ensures Grown(size, factor, request) == size * Power(factor, k)
    ensures k == 0 || size * Power(factor, k - 1) < request
    decreases request - size
  {
    k := 0;
    if size < request {
      GrownStep(size, factor, request);
      var j := GrownLeast(size * factor, factor, request);
      k := j + 1;
      Product(size, factor, Power(factor, j));
      if j > 0 {
        Product(size, factor, Power(factor, j - 1));
      }
    }
  }

  lemma Product(a: nat, b: nat, c: nat)
    ensures a * b * c == a * (b * c)
  {
  }

  /** Linear growth goes to the next multiple of the step, and shrinking is exact. */
  lemma NewSizeIs(size: nat, increment: int, len: nat)
    requires size >= 1 && IsIncrement(increment)
    ensures size > len + 1 ==> NewSize(size, increment, len) == len + 1
    ensures size <= len + 1 && increment >= 1 ==>
      var n := NewSize(size, increment, len);
      size <= n < size + increment && n % increment == 0
  {
    if size <= len + 1 && increment >= 1 {
      var q := (size + increment - 1) / increment;
      assert size + increment - 1 == q * increment + (size + increment - 1) % increment;
      MultipleOf(q, increment);
    }
  }

  lemma MultipleOf(q: nat, step: nat)
    requires step >= 1
    ensures q * step % step == 0
  {
    var m := q * step;
    var d := m / step;
    assert m == d * step + m % step;
    Ordered(d, q, step);
    Ordered(q, d, step);
  }

  /** Room that is asked for is never taken away. */
  lemma NewSizeKeeps(size: nat, increment: int, len: nat)
    requires size >= 1 && IsIncrement(increment) && size <= len + 1
    ensures NewSize(size, increment, len) >= size
  {
    if increment <= -2 {
      GrownReaches(size, -increment, len + 1);
    } else {
      RoundedUpReaches((size + increment - 1) / increment, increment, size - 1);
      NoMultipleBetween(size, increment, size, 0);
    }
  }

  /** A full buffer that reaches a long request reaches a shorter one, in one step if linear. */
  lemma RoomForAll(size: nat, increment: int, len: nat)
    requires size >= 1 && IsIncrement(increment) && len >= size && Reaches(size, increment, len)
    ensures Reaches(size, increment, size)
    ensures increment >= 1 ==> NewSize(size, increment, size) >= len + 1
  {
    if increment >= 1 {
      NewSizeHolds(size, increment, len);
      RoundedUpReaches((size + increment - 1) / increment, increment, size);
    }
  }

  lemma GrownStep(size: nat, factor: nat, request: nat)
    requires size >= 1 && factor >= 2 && size < request
    ensures size * factor > size && Grown(size, factor, request) == Grown(size * factor, factor, request)
  {
  }

  /** The exponential sizing loop. */
  method MultiplyUp(start: nat, factor: nat, request: nat) returns (size: nat)
    requires start >= 1 && factor >= 2
    ensures size == Grown(start, factor, request)
  {
    size := start;
    while size < request
      invariant size >= 1 && Grown(size, factor, request) == Grown(start, factor, request)
      decreases request - size
    {
      GrownStep(size, factor, request);
      size := size * factor;
    }
  }

  class StrBuf {
    var buf: array<byte>
    var length: nat
    const increment: int
    var reallocs: nat

    /** The text fits the buffer with its terminator. */
    ghost predicate Valid()
      reads this
    {
      length < buf.Length && IsIncrement(increment)
    }

    ghost function Contents(): bytes
      reads this, buf
      requires length <= buf.Length
    {
      buf[..length]
    }

    /**
     strbuf_init: room for len bytes and a terminator, or for the default size. An increment
     other than the default is that of strbuf_set_increment.
     */
    constructor (len: int, increment: int := DEFAULT_INCREMENT)
      requires IsIncrement(increment)
      ensures Valid() && fresh(buf) && Contents() == [] && this.increment == increment
      ensures buf.Length == if len <= 0 then 1023 else len + 1
    {
      buf := new byte[if len <= 0 then DEFAULT_SIZE else len + 1](_ => 0);
      length := 0;
      this.increment := increment;
      reallocs := 0;
    }

    /** strbuf_reset */
    method Reset()
      requires Valid()
      modifies this`length
      ensures Valid() && Contents() == []
    {
      length := 0;
    }

    /** strbuf_empty_length: bytes that still fit, the terminator apart. */
    function EmptyLength(): int
      reads this
    {
      buf.Length - length - 1
    }

    method CalculateNewSize(len: nat) returns (size: nat)
      requires len >= 1 && buf.Length >= 1 && IsIncrement(increment)
      ensures size == NewSize(buf.Length, increment, len)
    {
      var request := len + 1;
      if buf.Length > request {
        return request;
      }
      size := buf.Length;
      if increment < 0 {
        size := MultiplyUp(size, -increment, request);
      } else {
        size := RoundedUp(size, increment);
      }
    }

    /** There is room for len more bytes, or a resize makes it. */
    predicate Roomy(len: nat)
      reads this
      requires IsIncrement(increment)
    {
      EmptyLength() >= len || Reaches(buf.Length, increment, length + len)
    }

    /** strbuf_resize: what fits both sizes survives; a text that no longer fits is left cut off. */
    method Resize(len: nat)
      requires Valid() && len >= 1
      modifies this`buf, this`reallocs
      ensures fresh(buf) && buf.Length == NewSize(old(buf.Length), increment, len)
      ensures buf.Length >= len + 1 <==> Reaches(old(buf.Length), increment, len)
      ensures forall i :: 0 <= i < buf.Length && i < old(buf.Length) ==> buf[i] == old(buf[i])
      ensures length < buf.Length ==> Valid() && Contents() == old(Contents())
      ensures reallocs == old(reallocs) + 1
    {
      var size := CalculateNewSize(len);
      NewSizeHolds(buf.Length, increment, len);
      var bigger := new byte[size](i requires 0 <= i < size reads this, buf => if i < buf.Length then buf[i] else 0);
      buf := bigger;
      reallocs := reallocs + 1;
    }

    /** Making room: with a linear increment it may fail, but it never shrinks the buffer. */
    method Grow(len: nat)
      requires Valid() && len > EmptyLength()
      modifies this`buf, this`reallocs
      ensures Valid() && fresh(buf) && Contents() == old(Contents())
      ensures buf.Length == NewSize(old(buf.Length), increment, length + len)
      ensures EmptyLength() >= len <==> old(Roomy(len))
      ensures reallocs == old(reallocs) + 1
    {
      NewSizeKeeps(buf.Length, increment, length + len);
      Resize(length + len);
    }

    /** strbuf_ensure_empty_length */
    method EnsureEmptyLength(len: nat)
      requires Valid()
      modifies this`buf, this`reallocs
      ensures Valid() && Contents() == old(Contents())
      ensures EmptyLength() >= len <==> old(Roomy(len))
      ensures buf == old(buf) || fresh(buf)
      ensures reallocs == old(reallocs) + if old(EmptyLength()) < len then 1 else 0
    {
      if len > EmptyLength() {
        Grow(len);
      }
    }

    /** strbuf_append_char_unsafe: only the byte itself has to fit. */
    method AppendCharUnsafe(c: byte)
      requires length < buf.Length
      modifies this`length, buf
      ensures length == old(length) + 1 && Contents() == old(Contents()) + [c]
    {
      buf[length] := c;
      length := length + 1;
    }

    /** strbuf_append_mem_unsafe */
    method AppendMemUnsafe(m: bytes)
      requires length + |m| <= buf.Length
      modifies this`length, buf
      ensures length == old(length) + |m| && Contents() == old(Contents()) + m
    {
      forall i | 0 <= i < |m| {
        buf[length + i] := m[i];
      }
      length := length + |m|;
    }

    /** strbuf_append_char */
    method AppendChar(c: byte)
      requires Valid() && Roomy(1)
      modifies this, buf
      ensures Valid() && Contents() == old(Contents()) + [c]
      ensures buf == old(buf) || fresh(buf)
    {
      EnsureEmptyLength(1);
      AppendCharUnsafe(c);
    }

    /** strbuf_append_mem */
    method AppendMem(m: bytes)
      requires Valid() && Roomy(|m|)
      modifies this, buf
      ensures Valid() && Contents() == old(Contents()) + m
      ensures buf == old(buf) || fresh(buf)
    {
      EnsureEmptyLength(|m|);
      AppendMemUnsafe(m);
    }

    /** strbuf_append_string: it checks for room itself, byte by byte. */
    method AppendString(str: bytes)
      requires Valid() && Roomy(|str|)
      modifies this, buf
      ensures Valid() && Contents() == old(Contents()) + str
      ensures buf == old(buf) || fresh(buf)
      ensures old(EmptyLength()) >= |str| ==> buf == old(buf) && reallocs == old(reallocs)
    {
      var space := EmptyLength();
      for i := 0 to |str|
        invariant Valid() && space == EmptyLength() && Roomy(|str| - i)
        invariant Contents() == old(Contents()) + str[..i]
        invariant buf == old(buf) || fresh(buf)
        invariant old(EmptyLength()) >= |str| ==> buf == old(buf) && reallocs == old(reallocs)
      {
        if space < 1 {
          RoomForAll(buf.Length, increment, length + (|str| - i));
          Grow(1);
          space := EmptyLength();
        }
        AppendCharUnsafe(str[i]);
        space := space - 1;
      }
    }

    /**
     strbuf_append_fmt: the caller vouches that the formatted text and its terminator need
     at most len bytes.
     */
    method AppendFmt(len: nat, formatted: bytes)
      requires Valid() && Roomy(len) && |formatted| < len
      modifies this, buf
      ensures Valid() && Contents() == old(Contents()) + formatted
      ensures buf == old(buf) || fresh(buf)
    {
      EnsureEmptyLength(len);
      AppendMemUnsafe(formatted);
    }

    /** strbuf_ensure_null: the terminator lies inside the buffer. */
    method EnsureNull()
      requires Valid()
      modifies buf
      ensures Contents() == old(Contents()) && buf[length] == 0
    {
      buf[length] := 0;
    }
  }
}
