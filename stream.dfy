/** The transport as the client sees it: a finite input byte string with a
    read cursor, and an output byte string that writes append to.  A read
    asking for more than is left delivers the rest and is short; the peer
    accepts at most `cap` output bytes, and a write past that is short.  A
    short read or write is what sets the connection's sticky error flag. */
module Stream {
  import opened Wire

  /** Where the cursor stands after `read(len)` from `pos`: a length of zero or
      less reads nothing, a read past the end stops at the end. */
  function Advance(input: seq<byte>, pos: nat, len: int): (p: nat)
    requires pos <= |input|
    ensures pos <= p <= |input|
  {
    if len <= 0 then pos else if pos + len <= |input| then pos + len else |input|
  }

  /** `read(len)` from `pos` comes up short: the input ends first. */
  predicate Short(input: seq<byte>, pos: nat, len: int) {
    pos + len > |input|
  }

  /** The n bytes a buffer holds after a read of n bytes into a zeroed
      buffer: the bytes the input still has, then zeros. */
  function Window(input: seq<byte>, pos: nat, n: nat): (w: seq<byte>)
    ensures |w| == n
  {
    seq(n, i requires 0 <= i < n => if pos + i < |input| then input[pos + i] else 0)
  }

  /** n zero bytes. */
  function Zeros(n: nat): (z: seq<byte>)
    ensures |z| == n && forall i :: 0 <= i < n ==> z[i] == 0
  {
    seq(n, _ => 0)
  }

  /** A window is what the read delivers followed by the zeros it leaves in place. */
  lemma WindowIsDeliveredThenZeros(input: seq<byte>, pos: nat, n: nat)
    requires pos <= |input|
    ensures Advance(input, pos, n) - pos <= n
    ensures Window(input, pos, n)
         == input[pos..Advance(input, pos, n)] + Zeros(n - (Advance(input, pos, n) - pos))
  {
    var w := Window(input, pos, n);
    var got := input[pos..Advance(input, pos, n)];
    var rhs := got + Zeros(n - |got|);
    assert |rhs| == n;
    forall i | 0 <= i < n ensures w[i] == rhs[i] {
      if i < |got| {
        assert rhs[i] == got[i] == input[pos + i];
      } else {
        assert pos + i >= |input|;
      }
    }
  }

  /** Reading a bytes and then b bytes fills the same window as reading a + b bytes. */
  lemma WindowSplit(input: seq<byte>, pos: nat, a: nat, b: nat)
    requires pos <= |input|
    ensures Window(input, pos, a + b) == Window(input, pos, a) + Window(input, Advance(input, pos, a), b)
  {
    var p := Advance(input, pos, a);
    var lhs := Window(input, pos, a + b);
    var rhs := Window(input, pos, a) + Window(input, p, b);
    forall i | 0 <= i < a + b ensures lhs[i] == rhs[i] {
      if i >= a {
        assert rhs[i] == Window(input, p, b)[i - a];
      }
    }
  }

  /** The window of a later field of a record is a slice of the record's window. */
  lemma WindowSlice(input: seq<byte>, pos: nat, n: nat, a: nat, b: nat)
    requires pos <= |input| && a + b <= n
    ensures Window(input, Advance(input, pos, a), b) == Window(input, pos, n)[a..a + b]
  {
    WindowSplit(input, pos, a, b);
    assert Window(input, pos, n)[..a + b] == Window(input, pos, a + b);
  }

  /** Reading a bytes and then b bytes leaves the cursor where reading a + b
      bytes does, and is short exactly when that read is. */
  lemma AdvanceSplit(input: seq<byte>, pos: nat, a: nat, b: nat)
    requires pos <= |input|
    ensures Advance(input, Advance(input, pos, a), b) == Advance(input, pos, a + b)
    ensures (Short(input, pos, a) || Short(input, Advance(input, pos, a), b)) == Short(input, pos, a + b)
  {
  }

  /** A field of `n` bytes at offset `off` of a record of `total` bytes, read
      after the fields before it: the cursor, the shortness and the bytes are
      those of the record read as a whole. */
  lemma Field(input: seq<byte>, pos: nat, total: nat, off: nat, n: nat)
    requires pos <= |input| && off + n <= total
    ensures Advance(input, Advance(input, pos, off), n) == Advance(input, pos, off + n)
    ensures (Short(input, pos, off) || Short(input, Advance(input, pos, off), n)) == Short(input, pos, off + n)
    ensures Window(input, Advance(input, pos, off), n) == Window(input, pos, total)[off..off + n]
  {
    AdvanceSplit(input, pos, off, n);
    WindowSlice(input, pos, total, off, n);
  }

  /** When the input holds message m at pos, every window inside m is the matching slice of m. */
  lemma WindowOfMessage(input: seq<byte>, pos: nat, m: seq<byte>, a: nat, n: nat)
    requires pos + |m| <= |input| && input[pos..pos + |m|] == m && a + n <= |m|
    ensures Window(input, pos + a, n) == m[a..a + n]
  {
    var w, s := Window(input, pos + a, n), m[a..a + n];
    forall i | 0 <= i < n ensures w[i] == s[i] {
      assert input[pos..pos + |m|][a + i] == input[pos + a + i];
    }
  }

  /** What the output holds after writing `data`: the part the peer still accepts. */
  function Emit(output: seq<byte>, cap: nat, data: seq<byte>): (o: seq<byte>)
    requires |output| <= cap
    ensures |o| <= cap
    ensures output <= o
  {
    var room := cap - |output|;
    output + (if |data| <= room then data else data[..room])
  }

  /** A write comes up short: the output would pass the peer's capacity. */
  predicate Overflows(output: seq<byte>, cap: nat, data: seq<byte>) {
    |output| + |data| > cap
  }

  /** Writing a and then b is writing a + b: same output, short exactly when the whole write is. */
  lemma EmitConcat(output: seq<byte>, cap: nat, a: seq<byte>, b: seq<byte>)
    requires |output| <= cap
    ensures Emit(Emit(output, cap, a), cap, b) == Emit(output, cap, a + b)
    ensures (Overflows(output, cap, a) || Overflows(Emit(output, cap, a), cap, b))
         == Overflows(output, cap, a + b)
  {
    var o1 := Emit(output, cap, a);
    if |a| <= cap - |output| {
      assert o1 == output + a;
      if |b| <= cap - |o1| {
        assert Emit(o1, cap, b) == output + (a + b);
      } else {
        assert (a + b)[..cap - |output|] == a + b[..cap - |o1|];
      }
    } else {
      assert (a + b)[..cap - |output|] == a[..cap - |output|];
    }
  }

  /** Two writes in a row, stated on the states they leave: after m has gone
      out onto o0, writing d as well is writing m + d. */
  lemma EmitStep(o0: seq<byte>, cap: nat, e0: bool, m: seq<byte>, d: seq<byte>,
                 out1: seq<byte>, err1: bool, out2: seq<byte>, err2: bool)
    requires |o0| <= cap && out1 == Emit(o0, cap, m) && err1 == (e0 || Overflows(o0, cap, m))
    requires out2 == Emit(out1, cap, d) && err2 == (err1 || Overflows(out1, cap, d))
    ensures out2 == Emit(o0, cap, m + d) && err2 == (e0 || Overflows(o0, cap, m + d))
  {
    EmitConcat(o0, cap, m, d);
  }

  /** Without overflow the whole message lands on the output. */
  lemma EmitAll(output: seq<byte>, cap: nat, data: seq<byte>)
    requires |output| <= cap && !Overflows(output, cap, data)
    ensures Emit(output, cap, data) == output + data
  {
  }
}
