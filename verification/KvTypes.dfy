/** C-level types and constants shared by the kernel module, the daemon and the tools. */
module KvTypes {

  const MAX_VALUE_LEN: nat := 64

  const TWO_32: int := 0x1_0000_0000
  const TWO_64: int := 0x1_0000_0000_0000_0000

  type u32 = k: int | 0 <= k < TWO_32
  type u64 = k: int | 0 <= k < TWO_64

  // A C `char`, seen as an unsigned byte.
  type Byte = c: char | c as int < 256 witness '\0'

  const NUL: Byte := '\0'

  // The characters of a NUL-terminated string, without the terminator.
  type CText = s: seq<Byte> | NUL !in s witness []

  // errno values; the kernel returns them negated.
  const ENOENT: int := 2
  const ENOMEM: int := 12
  const EINVAL: int := 22
  const ENOSPC: int := 28

  datatype Option<+T> = None | Some(value: T)

  datatype Entry = Entry(key: u64, value: CText)

  /** A 32-bit two's complement `int` holding the low bits of x. */
  function WrapInt(x: int): (r: int)
    ensures -0x8000_0000 <= r < 0x8000_0000
    ensures -0x8000_0000 <= x < 0x8000_0000 ==> r == x
    ensures (x - r) % TWO_32 == 0
  {
    var low := x % TWO_32;
    if low < 0x8000_0000 then low else low - TWO_32
  }

  // ---- finite sets ----

  lemma {:induction false} SubsetSize<T>(a: set<T>, b: set<T>)
    requires a <= b
    ensures |a| <= |b|
  {
    assert b == a + (b - a);
  }

  /** A number above all of a finite set. */
  lemma {:induction false} Above(s: set<nat>) returns (p: nat)
    ensures p > 0 && forall x | x in s :: x < p
  {
    p := 1;
    if s != {} {
      var x :| x in s;
      p := Above(s - {x});
      assert forall y | y in s :: y == x || y in s - {x};
      if p <= x { p := x + 1; }
    }
  }
}
