/** The freestanding memory primitives the shim exports for the compiler
    (`memcpy`, `memmove`, `memset`, `memcmp`, `bcmp`). Raw pointers are
    indices into one byte array `mem`, so overlapping ranges can be expressed;
    each requires says that the ranges the pointers denote exist. */
module NoStd {
  import opened Arch

  /** What the byte-by-byte forward loop of `memcpy` leaves in memory after
      copying `n` bytes: byte `k` is written from the memory as it stands
      after the first `k` writes. */
  function ForwardCopy(m: seq<byte>, dest: nat, src: nat, n: nat): (r: seq<byte>)
    requires dest + n <= |m| && src + n <= |m|
    ensures |r| == |m|
    ensures forall i :: 0 <= i < |m| && !(dest <= i < dest + n) ==> r[i] == m[i]
  {
    if n == 0 then m
    else
      var before := ForwardCopy(m, dest, src, n - 1);
      before[dest + n - 1 := before[src + n - 1]]
  }

  /** A forward copy reproduces the source bytes whenever the destination does
      not start inside the source range beyond its first byte. */
  lemma {:induction false} ForwardCopyCopies(m: seq<byte>, dest: nat, src: nat, n: nat)
    requires dest + n <= |m| && src + n <= |m|
    requires dest <= src || src + n <= dest
    ensures forall j :: dest <= j < dest + n ==> ForwardCopy(m, dest, src, n)[j] == m[j - dest + src]
  {
    if n > 0 {
      ForwardCopyCopies(m, dest, src, n - 1);
      var before := ForwardCopy(m, dest, src, n - 1);
      assert before[src + n - 1] == m[src + n - 1] by {
        assert !(dest <= src + n - 1 < dest + n - 1);
      }
    }
  }

  /** `memcpy`: copies `n` bytes forward, one at a time, and returns `dest`. */
  method Memcpy(mem: array<byte>, dest: nat, src: nat, n: nat) returns (r: nat)
    requires dest + n <= mem.Length && src + n <= mem.Length
    modifies mem
    ensures r == dest
    ensures mem[..] == ForwardCopy(old(mem[..]), dest, src, n)
    ensures dest <= src || src + n <= dest ==>
              forall j :: dest <= j < dest + n ==> mem[j] == old(mem[j - dest + src])
    ensures forall i :: 0 <= i < mem.Length && !(dest <= i < dest + n) ==> mem[i] == old(mem[i])
  {
    ghost var m0 := mem[..];
    var i := 0;
    while i < n
      invariant 0 <= i <= n
      invariant mem[..] == ForwardCopy(m0, dest, src, i)
    {
      mem[dest + i] := mem[src + i];
      i := i + 1;
    }
    if dest <= src || src + n <= dest {
      ForwardCopyCopies(m0, dest, src, n);
    }
    r := dest;
  }

  /** `memmove`: copies from the end when the source lies below the
      destination and from the start otherwise, so the destination receives
      the ORIGINAL source bytes even when the ranges overlap. */
  method Memmove(mem: array<byte>, dest: nat, src: nat, n: nat) returns (r: nat)
    requires dest + n <= mem.Length && src + n <= mem.Length
    modifies mem
    ensures r == dest
    ensures forall j :: dest <= j < dest + n ==> mem[j] == old(mem[j - dest + src])
    ensures forall i :: 0 <= i < mem.Length && !(dest <= i < dest + n) ==> mem[i] == old(mem[i])
  {
    if src < dest {
      var i := n;
      while i != 0
        invariant 0 <= i <= n
        invariant forall j :: dest + i <= j < dest + n ==> mem[j] == old(mem[j - dest + src])
        invariant forall j :: 0 <= j < mem.Length && !(dest + i <= j < dest + n) ==> mem[j] == old(mem[j])
      {
        i := i - 1;
        mem[dest + i] := mem[src + i];
      }
    } else {
      var i := 0;
      while i < n
        invariant 0 <= i <= n
        invariant forall j :: dest <= j < dest + i ==> mem[j] == old(mem[j - dest + src])
        invariant forall j :: 0 <= j < mem.Length && !(dest <= j < dest + i) ==> mem[j] == old(mem[j])
      {
        mem[dest + i] := mem[src + i];
        i := i + 1;
      }
    }
    r := dest;
  }

  /** `c as u8`: the low eight bits of the C `int` argument. */
  function LowByte(c: int): (b: byte)
    ensures (c - b) % 256 == 0
  {
    c % 256
  }

  /** `memset`: writes `c as u8` into `n` bytes and returns `s`. */
  method Memset(mem: array<byte>, s: nat, c: int, n: nat) returns (r: nat)
    requires s + n <= mem.Length
    requires -0x8000_0000 <= c < 0x8000_0000
    modifies mem
    ensures r == s
    ensures forall k :: s <= k < s + n ==> mem[k] == LowByte(c)
    ensures forall i :: 0 <= i < mem.Length && !(s <= i < s + n) ==> mem[i] == old(mem[i])
  {
    var i := 0;
    while i < n
      invariant 0 <= i <= n
      invariant forall k :: s <= k < s + i ==> mem[k] == LowByte(c)
      invariant forall j :: 0 <= j < mem.Length && !(s <= j < s + i) ==> mem[j] == old(mem[j])
    {
      mem[s + i] := LowByte(c);
      i := i + 1;
    }
    r := s;
  }

  /** The value `memcmp` promises for two equally long byte strings: zero when
      they are equal, otherwise the difference of the first pair of bytes
      that differ. */
  function Compare(a: seq<byte>, b: seq<byte>): (r: int)
    requires |a| == |b|
    ensures -255 <= r <= 255
    ensures r == 0 <==> a == b
  {
    if |a| == 0 then 0
    else if a[0] != b[0] then a[0] as int - b[0] as int
    else
      assert a == [a[0]] + a[1..] && b == [b[0]] + b[1..];
      Compare(a[1..], b[1..])
  }

  /** The comparison is decided by the first differing byte. */
  lemma {:induction false} CompareFirstDifference(a: seq<byte>, b: seq<byte>, i: nat)
    requires |a| == |b| && i < |a|
    requires a[..i] == b[..i] && a[i] != b[i]
    ensures Compare(a, b) == a[i] as int - b[i] as int
  {
    if i > 0 {
      assert a[0] == a[..i][0] && b[0] == b[..i][0];
      assert a[1..][..i - 1] == a[..i][1..] && b[1..][..i - 1] == b[..i][1..];
      CompareFirstDifference(a[1..], b[1..], i - 1);
    }
  }

  /** Swapping the operands negates the result. */
  lemma {:induction false} CompareAntisymmetric(a: seq<byte>, b: seq<byte>)
    requires |a| == |b|
    ensures Compare(b, a) == -Compare(a, b)
  {
    if |a| > 0 && a[0] == b[0] {
      CompareAntisymmetric(a[1..], b[1..]);
    }
  }

  /** `memcmp`: scans both ranges and stops at the first differing byte. It
      only reads memory. */
  method Memcmp(mem: array<byte>, s1: nat, s2: nat, n: nat) returns (r: int)
    requires s1 + n <= mem.Length && s2 + n <= mem.Length
    ensures r == Compare(mem[s1..s1 + n], mem[s2..s2 + n])
    ensures r == 0 <==> mem[s1..s1 + n] == mem[s2..s2 + n]
    ensures -255 <= r <= 255
  {
    ghost var a, b := mem[s1..s1 + n], mem[s2..s2 + n];
    var i := 0;
    while i < n
      invariant 0 <= i <= n
      invariant a[..i] == b[..i]
    {
      var x, y := mem[s1 + i], mem[s2 + i];
      if x != y {
        assert a[i] == x && b[i] == y;
        CompareFirstDifference(a, b, i);
        return x as int - y as int;
      }
      assert a[..i + 1] == a[..i] + [x] && b[..i + 1] == b[..i] + [y];
      i := i + 1;
    }
    assert a == a[..n] && b == b[..n];
    r := 0;
  }

  /** `bcmp`: the same as `memcmp`. */
  method Bcmp(mem: array<byte>, s1: nat, s2: nat, n: nat) returns (r: int)
    requires s1 + n <= mem.Length && s2 + n <= mem.Length
    ensures r == Compare(mem[s1..s1 + n], mem[s2..s2 + n])
    ensures r == 0 <==> mem[s1..s1 + n] == mem[s2..s2 + n]
  {
    r := Memcmp(mem, s1, s2, n);
  }
}
