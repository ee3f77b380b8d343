/**
 The memory the allocator lives in: a vector of bytes, read and written as 32-bit
 little-endian words at addresses that are multiples of four.

 Proofs about the heap never look at single bytes.  They look at the map of words
 that the bytes decode to, and the methods below say what they do to that map.
 */
module Memory {
  type byte = x: int | 0 <= x < 256

  /** Aligned address to unsigned 32-bit word. */
  type Words = map<int, int>

  const WORD_SPAN := 0x1_0000_0000

  function At(m: Words, a: int): int {
    if a in m then m[a] else 0
  }

  /** The words of `m` with every word in [lo, hi) replaced by `v`. */
  function Fill(m: Words, lo: int, hi: int, v: int): Words {
    map x | x in m :: if lo <= x < hi then v else m[x]
  }

  // Two's complement: a `bufsize` (signed) and the word that holds it.

  function ToWord(v: int): int {
    if v < 0 then v + WORD_SPAN else v
  }

  function ToSigned(w: int): int {
    if w >= 0x8000_0000 then w - WORD_SPAN else w
  }

  /** The word with the given bytes, least significant first. */
  function Join(b0: int, b1: int, b2: int, b3: int): int {
    b0 + 0x100 * b1 + 0x1_0000 * b2 + 0x100_0000 * b3
  }

  function Word(b: seq<byte>, a: int): (w: int)
    requires 0 <= a && a + 4 <= |b|
    ensures 0 <= w < WORD_SPAN
  {
    Join(b[a], b[a + 1], b[a + 2], b[a + 3])
  }

  function Decode(b: seq<byte>): Words {
    map a | 0 <= a < |b| - 3 && a % 4 == 0 :: Word(b, a)
  }

  /** Equal words come from equal bytes. */
  lemma WordInjective(b: seq<byte>, c: seq<byte>, a: int)
    requires 0 <= a && a + 4 <= |b| && a + 4 <= |c|
    requires Word(b, a) == Word(c, a)
    ensures b[a] == c[a] && b[a + 1] == c[a + 1] && b[a + 2] == c[a + 2] && b[a + 3] == c[a + 3]
  {
    JoinInjective(b[a], b[a + 1], b[a + 2], b[a + 3], c[a], c[a + 1], c[a + 2], c[a + 3]);
  }

  lemma JoinInjective(b0: byte, b1: byte, b2: byte, b3: byte, c0: byte, c1: byte, c2: byte, c3: byte)
    requires Join(b0, b1, b2, b3) == Join(c0, c1, c2, c3)
    ensures b0 == c0 && b1 == c1 && b2 == c2 && b3 == c3
  {
    LowByte(b0, Join(b1, b2, b3, 0), c0, Join(c1, c2, c3, 0));
    LowByte(b1, Join(b2, b3, 0, 0), c1, Join(c2, c3, 0, 0));
    LowByte(b2, b3, c2, c3);
  }

  lemma LowByte(b: byte, high: int, c: byte, high': int)
    requires b + 0x100 * high == c + 0x100 * high'
    ensures b == c && high == high'
  {
  }

  lemma DecodeAt(b: seq<byte>, x: int)
    requires 0 <= x && x + 4 <= |b| && x % 4 == 0
    ensures At(Decode(b), x) == Word(b, x)
  {
    hide Word;
  }

  /** The word a byte lies in. */
  lemma WordOf(i: int, lo: int, hi: int)
    requires lo <= i < hi && lo % 4 == 0 && hi % 4 == 0
    ensures var x := i - i % 4; x % 4 == 0 && lo <= x <= i < x + 4 <= hi
  {
  }

  lemma SameByte(b: seq<byte>, c: seq<byte>, x: int, i: int)
    requires |b| == |c| && 0 <= x <= i < x + 4 <= |b| && x % 4 == 0
    requires At(Decode(b), x) == At(Decode(c), x)
    ensures b[i] == c[i]
  {
    DecodeAt(b, x);
    DecodeAt(c, x);
    hide At, Decode, Word;
    WordInjective(b, c, x);
    assert i == x || i == x + 1 || i == x + 2 || i == x + 3;
  }

  /** Where two memories decode to the same words, they hold the same bytes. */
  lemma SameWordsSameBytes(b: seq<byte>, c: seq<byte>, lo: int, hi: int)
    requires |b| == |c| && |b| % 4 == 0
    requires 0 <= lo <= hi <= |b| && lo % 4 == 0 && hi % 4 == 0
    requires forall x :: lo <= x < hi && x % 4 == 0 ==> At(Decode(b), x) == At(Decode(c), x)
    ensures b[lo..hi] == c[lo..hi]
  {
    hide At, Decode;
    forall i | lo <= i < hi
      ensures b[i] == c[i]
    {
      WordOf(i, lo, hi);
      SameByte(b, c, i - i % 4, i);
    }
  }

  /** Where two memories hold the same bytes, they decode to the same words. */
  lemma SameBytesSameWords(b: seq<byte>, c: seq<byte>, x: int)
    requires |b| == |c|
    requires forall i :: x <= i < x + 4 && 0 <= i < |b| ==> b[i] == c[i]
    ensures At(Decode(b), x) == At(Decode(c), x)
  {
  }

  /** Reading a word of memory. */
  method Load(mem: array<byte>, a: int) returns (w: int)
    requires 0 <= a && a + 4 <= mem.Length && a % 4 == 0
    ensures w == At(Decode(mem[..]), a)
    ensures 0 <= w < WORD_SPAN
  {
    w := Join(mem[a], mem[a + 1], mem[a + 2], mem[a + 3]);
    assert w == Word(mem[..], a);
  }

  /** The bytes of a word, least significant first. */
  method Digits(v: int) returns (d0: byte, d1: byte, d2: byte, d3: byte)
    requires 0 <= v < WORD_SPAN
    ensures Join(d0, d1, d2, d3) == v
  {
    d0 := v % 0x100;
    var r1 := v / 0x100;
    d1 := r1 % 0x100;
    var r2 := r1 / 0x100;
    d2, d3 := r2 % 0x100, r2 / 0x100;
  }

  /** Writing a word of memory changes that word and no other. */
  method Store(mem: array<byte>, a: int, v: int)
    requires 0 <= a && a + 4 <= mem.Length && a % 4 == 0
    requires 0 <= v < WORD_SPAN
    modifies mem
    ensures Decode(mem[..]) == Decode(old(mem[..]))[a := v]
    ensures forall i :: 0 <= i < mem.Length && !(a <= i < a + 4) ==> mem[i] == old(mem[i])
  {
    ghost var was := mem[..];
    var d0, d1, d2, d3 := Digits(v);
    mem[a], mem[a + 1], mem[a + 2], mem[a + 3] := d0, d1, d2, d3;
    ghost var now := mem[..];
    assert Word(now, a) == v;
    forall x | 0 <= x < |was| - 3 && x % 4 == 0 && x != a
      ensures Word(now, x) == Word(was, x)
    {
      assert x + 4 <= a || a + 4 <= x;
    }
  }

  /** memset over whole words. */
  method Memset(mem: array<byte>, a: int, c: byte, n: int)
    requires 0 <= a && 0 <= n && a + n <= mem.Length && a % 4 == 0 && n % 4 == 0
    modifies mem
    ensures Decode(mem[..]) == Fill(Decode(old(mem[..])), a, a + n, 0x101_0101 * c)
    ensures forall i :: 0 <= i < mem.Length ==> mem[i] == if a <= i < a + n then c else old(mem[i])
  {
    ghost var was := mem[..];
    for i := 0 to n
      invariant forall j :: 0 <= j < mem.Length ==> mem[j] == if a <= j < a + i then c else was[j]
    {
      mem[a + i] := c;
    }
    ghost var now := mem[..];
    forall x | 0 <= x < |was| - 3 && x % 4 == 0
      ensures Word(now, x) == if a <= x < a + n then 0x101_0101 * c else Word(was, x)
    {
    }
  }

  /** memcpy between regions that do not overlap. */
  method Memcpy(mem: array<byte>, dst: int, src: int, n: int)
    requires 0 <= n && 0 <= dst && dst + n <= mem.Length && 0 <= src && src + n <= mem.Length
    requires dst + n <= src || src + n <= dst
    modifies mem
    ensures mem[dst..dst + n] == old(mem[src..src + n])
    ensures forall i :: 0 <= i < mem.Length && !(dst <= i < dst + n) ==> mem[i] == old(mem[i])
  {
    ghost var was := mem[..];
    for i := 0 to n
      invariant mem[dst..dst + i] == was[src..src + i]
      invariant forall j :: 0 <= j < mem.Length && !(dst <= j < dst + i) ==> mem[j] == was[j]
    {
      mem[dst + i] := mem[src + i];
      assert mem[dst..dst + i + 1] == mem[dst..dst + i] + [was[src + i]];
    }
  }

  /** memcmp, as far as its callers look: are the two regions equal? */
  method Memcmp(mem: array<byte>, p: int, q: int, n: int) returns (equal: bool)
    requires 0 <= n && 0 <= p && p + n <= mem.Length && 0 <= q && q + n <= mem.Length
    ensures equal <==> mem[p..p + n] == mem[q..q + n]
  {
    for i := 0 to n
      invariant mem[p..p + i] == mem[q..q + i]
    {
      if mem[p + i] != mem[q + i] {
        assert mem[p..p + n][i] != mem[q..q + n][i];
        return false;
      }
      assert mem[p..p + i + 1] == mem[p..p + i] + [mem[p + i]];
    }
    return true;
  }
}
