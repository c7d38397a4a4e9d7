/** The `fd_set` helpers that prepare a `select` call: a descriptor set is 32
    words of 32 bits (`fds_bits`), cleared by `FdZero`, marked by `FdSet` and
    queried by `FdIsSet`. Descriptors are Swift `Int32`s, whose `/` and `%`
    truncate toward zero.

    As written, `FdSet` finds a descriptor at word `fd / 16`, bit `fd % 16`, and
    `FdIsSet` looks for it at word `fd / 32`, bit `fd % 32`. `Marked` and
    `Marks` state both; `Marked32` and `FdSet32` are the consistent layout
    (word `fd / 32`, bit `fd % 32`, as `FD_SET` and `FD_ISSET` use it). */
module SelectSupport {

  const Words: nat := 32

  type Int32 = x: int | -0x8000_0000 <= x < 0x8000_0000

  /** Swift's `/` on integers: the quotient truncated toward zero. */
  function Quot(a: int, b: nat): (q: int)
    requires b > 0
    ensures a >= 0 ==> q == a / b
    ensures a < 0 ==> q == -((-a) / b)
  {
    if a >= 0 then a / b else -((-a) / b)
  }

  /** Swift's `%` on integers: the remainder takes the sign of the dividend. */
  function Rem(a: int, b: nat): (r: int)
    requires b > 0
    ensures a == Quot(a, b) * b + r
    ensures a >= 0 ==> 0 <= r < b
    ensures a < 0 ==> -(b as int) < r <= 0
  {
    a - Quot(a, b) * b
  }

  /** The word with only bit `k` set. */
  function Bit(k: int): bv32
    requires 0 <= k < 32
  {
    1 << (k as bv5)
  }

  lemma BitPosition(k: int)
    requires 0 <= k < 32
    ensures (k as bv5) as int == k
  {
  }

  /** A single bit is never 0, survives an or with it, and is untouched by an or
      with a different bit. */
  lemma BitFacts(x: bv32, b: bv5, c: bv5)
    ensures (1 as bv32 << b) != 0
    ensures (x | (1 << b)) & (1 << b) == 1 << b
    ensures b != c ==> (x | (1 << b)) & (1 << c) == x & (1 << c)
  {
  }

  lemma BitsOf(x: bv32, b: int, c: int)
    requires 0 <= b < 32 && 0 <= c < 32
    ensures Bit(b) != 0
    ensures (x | Bit(b)) & Bit(b) != 0
    ensures b != c ==> (x | Bit(b)) & Bit(c) == x & Bit(c)
  {
    BitPosition(b);
    BitPosition(c);
    BitFacts(x, b as bv5, c as bv5);
  }

  /** `Int32(1 << k)`: `<<` by a negative amount shifts right, leaving 0; a shift
      by 31 does not fit an `Int32` and traps, so it is excluded. */
  function Mask(k: int): (m: bv32)
    requires k < 31
    ensures k < 0 ==> m == 0
    ensures k >= 0 ==> m == Bit(k)
  {
    if k < 0 then 0 else Bit(k)
  }

  /** The words after `fdSet(fd, &set)` as written: word `fd / 16` gains bit `fd % 16`. */
  function Marks(words: seq<bv32>, fd: Int32): (r: seq<bv32>)
    requires |words| == Words
    ensures |r| == Words
  {
    var w, b := Quot(fd, 16), Rem(fd, 16);
    if 0 <= w < Words then words[w := words[w] | Mask(b)] else words
  }

  /** `fdIsSet(fd, &set)` as written: bit `fd % 32` of word `fd / 32`. */
  function Marked(words: seq<bv32>, fd: Int32): bool
    requires |words| == Words && Rem(fd, 32) != 31
  {
    var w, b := Quot(fd, 32), Rem(fd, 32);
    0 <= w < Words && words[w] & Mask(b) != 0
  }

  /** The all-clear set. */
  function Cleared(): (r: seq<bv32>)
    ensures |r| == Words
  {
    seq(Words, _ => 0)
  }

  // ---------------------------------------------------------------------------
  // The operations on the set itself

  /** `fdZero`: every word becomes 0. */
  method FdZero(fds: array<bv32>)
    requires fds.Length == Words
    modifies fds
    ensures fds[..] == Cleared()
  {
    forall i | 0 <= i < fds.Length {
      fds[i] := 0;
    }
  }

  /** `fdSet`: ORs the mask into the word the descriptor picks, if any. */
  method FdSet(fd: Int32, fds: array<bv32>)
    requires fds.Length == Words
    modifies fds
    ensures fds[..] == Marks(old(fds[..]), fd)
  {
    var intOffset := Quot(fd, 16);
    var bitOffset := Rem(fd, 16);
    var mask := Mask(bitOffset);
    if 0 <= intOffset < Words {
      fds[intOffset] := fds[intOffset] | mask;
    }
  }

  /** `fdIsSet`: tests the mask in the word the descriptor picks; false when it picks none. */
  method FdIsSet(fd: Int32, fds: array<bv32>) returns (isSet: bool)
    requires fds.Length == Words && Rem(fd, 32) != 31
    ensures isSet == Marked(fds[..], fd)
  {
    var intOffset := Quot(fd, 32);
    var bitOffset := Rem(fd, 32);
    var mask := Mask(bitOffset);
    if 0 <= intOffset < Words {
      isSet := fds[intOffset] & mask != 0;
    } else {
      isSet := false;
    }
  }

  // ---------------------------------------------------------------------------
  // What `fdSet` does and does not change

  /** For a descriptor in 0…511, `fdSet` sets bit `fd % 16` of word `fd / 16` and
      leaves every other word as it was. */
  lemma MarksOneWord(words: seq<bv32>, fd: Int32)
    requires |words| == Words && 0 <= fd < 16 * Words
    ensures Marks(words, fd)[fd / 16] == words[fd / 16] | Bit(fd % 16)
    ensures forall i :: 0 <= i < Words && i != fd / 16 ==> Marks(words, fd)[i] == words[i]
  {
  }

  /** Negative descriptors and descriptors from 512 on leave the set as it was. */
  lemma MarksOutOfRange(words: seq<bv32>, fd: Int32)
    requires |words| == Words && (fd < 0 || fd >= 16 * Words)
    ensures Marks(words, fd) == words
  {
  }

  /** Marking twice is marking once. */
  lemma MarksIdempotent(words: seq<bv32>, fd: Int32)
    requires |words| == Words
    ensures Marks(Marks(words, fd), fd) == Marks(words, fd)
  {
    var w, b := Quot(fd, 16), Rem(fd, 16);
    if 0 <= w < Words {
      var m := Mask(b);
      assert (words[w] | m) | m == words[w] | m;
    }
  }

  /** `fdIsSet` finds nothing in a cleared set. */
  lemma ClearedIsEmpty(fd: Int32)
    requires Rem(fd, 32) != 31
    ensures !Marked(Cleared(), fd)
  {
  }

  // ---------------------------------------------------------------------------
  // Where the two layouts disagree

  /** On a cleared set, `fdIsSet` finds a descriptor `fdSet` marked only when it
      lies in 0…15, where both layouts put it at word 0, bit `fd`. */
  lemma MarkThenTest(fd: Int32)
    requires Rem(fd, 32) != 31
    ensures Marked(Marks(Cleared(), fd), fd) <==> 0 <= fd < 16
  {
    if fd < 0 || fd >= 16 * Words {
      MarksOutOfRange(Cleared(), fd);
      ClearedIsEmpty(fd);
    } else if fd < 16 {
      LowDescriptorFound(fd);
    } else {
      HighDescriptorMissed(fd);
    }
  }

  lemma LowDescriptorFound(fd: Int32)
    requires 0 <= fd < 16
    ensures Marked(Marks(Cleared(), fd), fd)
  {
    assert Quot(fd, 16) == 0 && Quot(fd, 32) == 0;
    assert Rem(fd, 16) == fd && Rem(fd, 32) == fd;
    BitsOf(0, fd, fd);
  }

  lemma HighDescriptorMissed(fd: Int32)
    requires 16 <= fd < 16 * Words
    ensures Rem(fd, 32) != 31 ==> !Marked(Marks(Cleared(), fd), fd)
  {
    var w, v := fd / 16, fd / 32;
    assert Quot(fd, 16) == w && Quot(fd, 32) == v;
    assert v < w;
    var words := Marks(Cleared(), fd);
    assert words == Cleared()[w := Mask(Rem(fd, 16))];
    assert words[v] == 0;
  }

  /** Descriptor 20 is marked at word 1, bit 4, and looked for at word 0, bit 20. */
  lemma Descriptor20(fd: Int32)
    requires fd == 20
    ensures Marks(Cleared(), fd)[1] == 0x10
    ensures Marks(Cleared(), fd)[0] == 0
    ensures !Marked(Marks(Cleared(), fd), fd)
  {
    assert Quot(fd, 16) == 1 && Rem(fd, 16) == 4;
    assert Bit(4) == 0x10;
    HighDescriptorMissed(fd);
  }

  // ---------------------------------------------------------------------------
  // The consistent layout

  /** Bit `fd % 32` of word `fd / 32`, for a descriptor in 0…1023. */
  function Marked32(words: seq<bv32>, fd: int): bool
    requires |words| == Words && 0 <= fd < 32 * Words
  {
    words[fd / 32] & Bit(fd % 32) != 0
  }

  /** The words after marking `fd` in the consistent layout. */
  function Marks32(words: seq<bv32>, fd: int): (r: seq<bv32>)
    requires |words| == Words && 0 <= fd < 32 * Words
    ensures |r| == Words
  {
    words[fd / 32 := words[fd / 32] | Bit(fd % 32)]
  }

  /** `fdSet` in the consistent layout. */
  method FdSet32(fd: int, fds: array<bv32>)
    requires fds.Length == Words && 0 <= fd < 32 * Words
    modifies fds
    ensures fds[..] == Marks32(old(fds[..]), fd)
  {
    var intOffset := fd / 32;
    fds[intOffset] := fds[intOffset] | Bit(fd % 32);
  }

  /** Marking a descriptor makes it found, and leaves every other descriptor as it was. */
  lemma Marks32Found(words: seq<bv32>, fd: int)
    requires |words| == Words && 0 <= fd < 32 * Words
    ensures Marked32(Marks32(words, fd), fd)
  {
    var w, b := fd / 32, fd % 32;
    BitsOf(words[w], b, b);
    assert Marks32(words, fd)[w] == words[w] | Bit(b);
  }

  /** Marking a descriptor leaves every other descriptor as it was. */
  lemma Marks32Frame(words: seq<bv32>, fd: int, other: int)
    requires |words| == Words && 0 <= fd < 32 * Words && 0 <= other < 32 * Words && other != fd
    ensures Marked32(Marks32(words, fd), other) == Marked32(words, other)
  {
    var r := Marks32(words, fd);
    var w, b := fd / 32, fd % 32;
    var v, c := other / 32, other % 32;
    SplitPosition(fd, other);
    if v == w {
      assert r[v] == words[v] | Bit(b);
      SameWordFrame(words[v], b, c);
    } else {
      assert r[v] == words[v];
    }
    assert Marked32(r, other) == (r[v] & Bit(c) != 0);
  }

  lemma SplitPosition(fd: int, other: int)
    requires 0 <= fd && 0 <= other && other != fd
    ensures other / 32 == fd / 32 ==> other % 32 != fd % 32
  {
  }

  lemma SameWordFrame(x: bv32, b: int, c: int)
    requires 0 <= b < 32 && 0 <= c < 32 && b != c
    ensures ((x | Bit(b)) & Bit(c) != 0) == (x & Bit(c) != 0)
  {
    BitsOf(x, b, c);
  }

  /** Within 0…1023, `fdIsSet` as written already reads the consistent layout. */
  lemma MarkedIs32(words: seq<bv32>, fd: Int32)
    requires |words| == Words && 0 <= fd < 32 * Words && fd % 32 != 31
    ensures Marked(words, fd) == Marked32(words, fd)
  {
  }

  /** A cleared set marked in the consistent layout finds exactly the marked descriptor. */
  lemma ClearedMarks32(fd: int, other: int)
    requires 0 <= fd < 32 * Words && 0 <= other < 32 * Words
    ensures Marked32(Marks32(Cleared(), fd), other) <==> other == fd
  {
    Marks32Found(Cleared(), fd);
    if other != fd {
      Marks32Frame(Cleared(), fd, other);
    }
  }
}
