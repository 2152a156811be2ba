// PosSet, the knight's-tour solver's set of visited squares: one bit per
// square of the largest board the program accepts, and a count.

module KnightPosSet {

  /** A square, as (row, column). */
  datatype Pos = Pos(row: int, col: int)

  /** PosSet::kSize: the largest board side the bitset has room for. */
  const kSize: int := 4096
  /** kValSize: one bit per square of a kSize by kSize board, in bytes. */
  const kValSize: int := 2097152

  /** The squares PosSet can hold (getbit asserts this). */
  predicate InCapacity(p: Pos)
  {
    0 <= p.row < 4096 && 0 <= p.col < 4096
  }

  /** bit_index = row * kSize + col. */
  function BitNumber(p: Pos): nat
    requires InCapacity(p)
  {
    p.row * 4096 + p.col
  }

  /** The byte of the bitset that holds p. */
  function ByteOf(p: Pos): (r: nat)
    requires InCapacity(p)
    ensures r < kValSize
  {
    BitNumber(p) / 8
  }

  /** The bit within its byte that stands for p. */
  function BitOf(p: Pos): (r: nat)
    requires InCapacity(p)
    ensures r < 8
  {
    BitNumber(p) % 8
  }

  /** uint8_t{1} << bit. */
  function Mask(bit: nat): bv8
    requires bit < 8
  {
    [1, 2, 4, 8, 16, 32, 64, 128][bit]
  }

  /** Whether bit is set in the byte b. */
  predicate BitAt(b: bv8, bit: nat)
    requires bit < 8
  {
    b & Mask(bit) != 0
  }

  /** Two squares stored at the same bit of the same byte are the same square. */
  lemma SameBit(p: Pos, q: Pos)
    requires InCapacity(p) && InCapacity(q)
    requires ByteOf(p) == ByteOf(q) && BitOf(p) == BitOf(q)
    ensures p == q
  {
    var a, b := BitNumber(p), BitNumber(q);
    assert a == 8 * (a / 8) + a % 8 && b == 8 * (b / 8) + b % 8;
    assert a == b;
  }

  /** Setting one bit of a byte leaves every other bit as it was. */
  lemma SetBit(b: bv8, bit: nat, other: nat)
    requires bit < 8 && other < 8
    ensures BitAt(b | Mask(bit), other) <==> BitAt(b, other) || other == bit
  {
  }

  /** Clearing one bit of a byte leaves every other bit as it was. */
  lemma ClearBit(b: bv8, bit: nat, other: nat)
    requires bit < 8 && other < 8
    ensures BitAt(b & !Mask(bit), other) <==> BitAt(b, other) && other != bit
  {
  }

  /** Setting p's bit in the bitset changes what it says about p alone. */
  lemma SetKeeps(before: seq<bv8>, after: seq<bv8>, elems: set<Pos>, p: Pos, q: Pos)
    requires |before| == kValSize && InCapacity(p) && InCapacity(q)
    requires after == before[ByteOf(p) := before[ByteOf(p)] | Mask(BitOf(p))]
    requires q in elems <==> BitAt(before[ByteOf(q)], BitOf(q))
    ensures q in elems + {p} <==> BitAt(after[ByteOf(q)], BitOf(q))
  {
    if ByteOf(q) == ByteOf(p) {
      SetBit(before[ByteOf(p)], BitOf(p), BitOf(q));
      if BitOf(q) == BitOf(p) {
        SameBit(p, q);
      }
    }
  }

  /** Clearing p's bit in the bitset changes what it says about p alone. */
  lemma ClearKeeps(before: seq<bv8>, after: seq<bv8>, elems: set<Pos>, p: Pos, q: Pos)
    requires |before| == kValSize && InCapacity(p) && InCapacity(q)
    requires after == before[ByteOf(p) := before[ByteOf(p)] & !Mask(BitOf(p))]
    requires q in elems <==> BitAt(before[ByteOf(q)], BitOf(q))
    ensures q in elems - {p} <==> BitAt(after[ByteOf(q)], BitOf(q))
  {
    if ByteOf(q) == ByteOf(p) {
      ClearBit(before[ByteOf(p)], BitOf(p), BitOf(q));
      if BitOf(q) == BitOf(p) {
        SameBit(p, q);
      }
    }
  }

  /** The bytes stand for exactly the squares of elems: p's bit is set just when p is held. */
  ghost predicate Stands(bits: seq<bv8>, elems: set<Pos>)
  {
    |bits| == kValSize &&
    forall p :: InCapacity(p) ==> (p in elems <==> Marked(bits, p))
  }

  /** Whether p's bit is set in the bytes. */
  predicate Marked(bits: seq<bv8>, p: Pos)
    requires |bits| == kValSize && InCapacity(p)
  {
    BitAt(bits[ByteOf(p)], BitOf(p))
  }

  /** The bytes with p's bit set stand for the squares held plus p. */
  lemma SetStands(bits: seq<bv8>, elems: set<Pos>, p: Pos)
    requires Stands(bits, elems) && InCapacity(p)
    ensures Stands(bits[ByteOf(p) := bits[ByteOf(p)] | Mask(BitOf(p))], elems + {p})
  {
    var after := bits[ByteOf(p) := bits[ByteOf(p)] | Mask(BitOf(p))];
    forall q | InCapacity(q)
      ensures q in elems + {p} <==> Marked(after, q)
    {
      SetKeeps(bits, after, elems, p, q);
    }
  }

  /** The bytes with p's bit cleared stand for the squares held less p. */
  lemma ClearStands(bits: seq<bv8>, elems: set<Pos>, p: Pos)
    requires Stands(bits, elems) && InCapacity(p)
    ensures Stands(bits[ByteOf(p) := bits[ByteOf(p)] & !Mask(BitOf(p))], elems - {p})
  {
    var after := bits[ByteOf(p) := bits[ByteOf(p)] & !Mask(BitOf(p))];
    forall q | InCapacity(q)
      ensures q in elems - {p} <==> Marked(after, q)
    {
      ClearKeeps(bits, after, elems, p, q);
    }
  }

  /**
   * PosSet: a set of squares kept as one bit per square of the largest
   * board, with the number of squares it holds.
   */
  class PosSet {
    /** val_: bit BitOf(p) of byte ByteOf(p) is set when p is in the set. */
    const bits: array<bv8>
    /** size_. */
    var size: int
    /** The squares the set holds. */
    ghost var elems: set<Pos>

    /** The bits stand for exactly the squares held, and size counts them. */
    ghost predicate Valid()
      reads this, bits
    {
      (forall p :: p in elems ==> InCapacity(p)) &&
      Stands(bits[..], elems) &&
      size == |elems|
    }

    /** An empty set: every byte zero. */
    constructor()
      ensures Valid() && elems == {} && fresh(bits)
    {
      bits := new bv8[kValSize](_ => 0);
      size := 0;
      elems := {};
    }

    /** contains: whether p is in the set. */
    method Contains(p: Pos) returns (b: bool)
      requires Valid() && InCapacity(p)
      ensures b <==> p in elems
    {
      b := bits[ByteOf(p)] & Mask(BitOf(p)) != 0;
    }

    /** size(): the number of squares held. */
    method Size() returns (n: int)
      requires Valid()
      ensures n == |elems|
    {
      n := size;
    }

    /** insert: adds p; true exactly when p was not there before. */
    method Insert(p: Pos) returns (added: bool)
      requires Valid() && InCapacity(p)
      modifies this, bits
      ensures Valid() && elems == old(elems) + {p}
      ensures added <==> p !in old(elems)
    {
      var i, mask := ByteOf(p), Mask(BitOf(p));
      assert p in elems <==> BitAt(bits[i], BitOf(p));
      if bits[i] & mask != 0 {
        return false;
      }
      SetMember(p);
      return true;
    }

    /** The branch of insert that sets p's bit (*ptr |= mask) and counts it. */
    method SetMember(p: Pos)
      requires Valid() && InCapacity(p) && p !in elems
      modifies this, bits
      ensures Valid() && elems == old(elems) + {p}
    {
      var i, mask := ByteOf(p), Mask(BitOf(p));
      ghost var before := bits[..];
      bits[i] := bits[i] | mask;
      size := size + 1;
      elems := elems + {p};
      SetStands(before, old(elems), p);
      assert bits[..] == before[i := before[i] | mask];
    }

    /** erase: removes p; 1 when p was there, 0 when it was not. */
    method Erase(p: Pos) returns (removed: int)
      requires Valid() && InCapacity(p)
      modifies this, bits
      ensures Valid() && elems == old(elems) - {p}
      ensures removed == if p in old(elems) then 1 else 0
    {
      var i, mask := ByteOf(p), Mask(BitOf(p));
      assert p in elems <==> BitAt(bits[i], BitOf(p));
      if bits[i] & mask == 0 {
        return 0;
      }
      ClearMember(p);
      return 1;
    }

    /** The branch of erase that clears p's bit (*ptr &= ~mask) and uncounts it. */
    method ClearMember(p: Pos)
      requires Valid() && InCapacity(p) && p in elems
      modifies this, bits
      ensures Valid() && elems == old(elems) - {p}
    {
      var i, mask := ByteOf(p), Mask(BitOf(p));
      ghost var before := bits[..];
      bits[i] := bits[i] & !mask;
      size := size - 1;
      elems := elems - {p};
      ClearStands(before, old(elems), p);
      assert bits[..] == before[i := before[i] & !mask];
    }
  }
}
