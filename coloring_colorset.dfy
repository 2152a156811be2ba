// The set of colours still possible for one node of the graph being
// coloured: a byte used as a bitset over the kColors = 4 colours.

module ColorSets {
  const kColors: nat := 4

  /** The colours a node may still take, bit b standing for colour b. */
  datatype ColorSet = ColorSet(value: bv8)
  {
    /** operator[]: whether colour b is still possible (bits past the byte read as absent). */
    predicate Has(b: int)
    {
      0 <= b < 8 && value & Bits[b] != 0
    }

    /** The colours in the set. */
    ghost function Members(): set<int>
    {
      set b | 0 <= b < 8 && Has(b)
    }

    /** reset(bit): colour bit is no longer possible. */
    function Reset(bit: nat): (r: ColorSet)
      requires bit < kColors
      ensures r.Members() == Members() - {bit}
    {
      var r := ColorSet(value & !Bits[bit]);
      forall b | 0 <= b < 8
        ensures r.Has(b) <==> Has(b) && b != bit
      {
        ClearedBit(value, bit, b);
      }
      r
    }

    /** set(bit, new_value): colour bit becomes possible, or impossible when new_value is false. */
    function Set(bit: nat, newValue: bool): (r: ColorSet)
      requires bit < kColors
      ensures newValue ==> r.Members() == Members() + {bit}
      ensures !newValue ==> r.Members() == Members() - {bit}
    {
      if !newValue then Reset(bit)
      else
        var r := ColorSet(value | Bits[bit]);
        assert forall b :: 0 <= b < 8 ==> (r.Has(b) <==> Has(b) || b == bit);
        r
    }

    /** count(): std::popcount of the byte. */
    function Count(): nat
    {
      BitsBelow(8)
    }

    /** The number of set bits among bits 0 .. n - 1. */
    function BitsBelow(n: nat): nat
      requires n <= 8
    {
      if n == 0 then 0 else BitsBelow(n - 1) + if Has(n - 1) then 1 else 0
    }

    /** count_is_one(): a non-zero byte with no bit below its lowest set bit. */
    predicate CountIsOne()
    {
      value & (value - 1) == 0 && value != 0
    }

    /** is_empty(): no colour is possible. */
    predicate IsEmpty()
    {
      value == 0
    }

    /** make_singleton_at_bit(bit): only colour bit is possible. */
    function MakeSingletonAtBit(bit: nat): (r: ColorSet)
      requires bit < kColors
      ensures r.Members() == {bit}
    {
      var r := ColorSet(Bits[bit]);
      assert forall b :: 0 <= b < 8 ==> (r.Has(b) <==> b == bit);
      r
    }

    /** std::countl_zero of the byte: the zero bits above its highest set bit (8 for zero). */
    function CountlZero(): nat
    {
      if value & 0x80 != 0 then 0
      else if value & 0x40 != 0 then 1
      else if value & 0x20 != 0 then 2
      else if value & 0x10 != 0 then 3
      else if value & 0x08 != 0 then 4
      else if value & 0x04 != 0 then 5
      else if value & 0x02 != 0 then 6
      else if value & 0x01 != 0 then 7
      else 8
    }

    /** set_index(): the highest possible colour, -1 for the empty set. */
    function SetIndex(): int
    {
      7 - CountlZero()
    }
  }

  /** Bits[b] is 1 << b, the bit that stands for colour b. */
  const Bits: seq<bv8> := [0x01, 0x02, 0x04, 0x08, 0x10, 0x20, 0x40, 0x80]

  /** Clearing bit c of v keeps every other bit. */
  lemma ClearedBit(v: bv8, c: nat, b: nat)
    requires c < kColors && b < 8
    ensures v & !Bits[c] & Bits[b] != 0 <==> v & Bits[b] != 0 && b != c
  {
    var m := Bits[b];
    if c == 0 { assert v & !0x01 & m != 0 <==> v & m != 0 && b != 0; }
    else if c == 1 { assert v & !0x02 & m != 0 <==> v & m != 0 && b != 1; }
    else if c == 2 { assert v & !0x04 & m != 0 <==> v & m != 0 && b != 2; }
    else { assert v & !0x08 & m != 0 <==> v & m != 0 && b != 3; }
  }

  /** The default ColorSet, (1 << kColors) - 1: every colour possible. */
  const Full: ColorSet := ColorSet(0x0F)

  /** The default ColorSet holds exactly the kColors colours. */
  lemma FullMembers()
    ensures Full.Members() == {0, 1, 2, 3}
  {
    assert forall b :: 0 <= b < 8 ==> (Full.Has(b) <==> b < kColors);
  }

  /** The members below n. */
  ghost function MembersBelow(c: ColorSet, n: nat): set<int>
  {
    set b | 0 <= b < n && c.Has(b)
  }

  /** The members below n are those below n - 1, and n - 1 when it is one. */
  lemma MembersBelowStep(c: ColorSet, n: nat)
    requires 0 < n
    ensures MembersBelow(c, n) == MembersBelow(c, n - 1) + if c.Has(n - 1) then {n - 1} else {}
  {
  }

  /** The bits counted below n are the members below n. */
  lemma {:induction false} BitsBelowMembers(c: ColorSet, n: nat)
    requires n <= 8
    ensures c.BitsBelow(n) == |MembersBelow(c, n)|
  {
    if n > 0 {
      BitsBelowMembers(c, n - 1);
      MembersBelowStep(c, n);
    }
  }

  /** count() is the number of possible colours. */
  lemma CountMembers(c: ColorSet)
    ensures c.Count() == |c.Members()|
  {
    BitsBelowMembers(c, 8);
    assert c.Members() == MembersBelow(c, 8);
  }

  /** The highest possible colour: set_index names a member and no member lies above it. */
  lemma SetIndexHighest(c: ColorSet)
    ensures c.IsEmpty() <==> c.SetIndex() == -1
    ensures !c.IsEmpty() ==> 0 <= c.SetIndex() < 8 && c.Has(c.SetIndex())
    ensures forall b :: c.SetIndex() < b < 8 ==> !c.Has(b)
  {
  }

  /** After make_singleton_at_bit(b), set_index() is b. */
  lemma SingletonIndex(c: ColorSet, bit: nat)
    requires bit < kColors
    ensures c.MakeSingletonAtBit(bit).SetIndex() == bit
    ensures c.MakeSingletonAtBit(bit).CountIsOne()
  {
  }

  /** The empty set has no members, and a set without members is empty. */
  lemma EmptyMembers(c: ColorSet)
    ensures c.IsEmpty() <==> c.Members() == {}
  {
    if !c.IsEmpty() {
      SetIndexHighest(c);
      assert c.SetIndex() in c.Members();
    }
  }

  /** count_is_one holds exactly when one colour is possible. */
  lemma CountIsOneExact(c: ColorSet)
    ensures c.CountIsOne() <==> c.Count() == 1
  {
    assert c.BitsBelow(1) == if c.Has(0) then 1 else 0;
    assert c.BitsBelow(2) == c.BitsBelow(1) + if c.Has(1) then 1 else 0;
    assert c.BitsBelow(3) == c.BitsBelow(2) + if c.Has(2) then 1 else 0;
    assert c.BitsBelow(4) == c.BitsBelow(3) + if c.Has(3) then 1 else 0;
    assert c.BitsBelow(5) == c.BitsBelow(4) + if c.Has(4) then 1 else 0;
    assert c.BitsBelow(6) == c.BitsBelow(5) + if c.Has(5) then 1 else 0;
    assert c.BitsBelow(7) == c.BitsBelow(6) + if c.Has(6) then 1 else 0;
    assert c.Count() == c.BitsBelow(7) + if c.Has(7) then 1 else 0;
  }

  /** A set with one member is the singleton of its set_index. */
  lemma SingleMember(c: ColorSet)
    requires c.Count() == 1
    ensures c.Members() == {c.SetIndex()}
  {
    CountMembers(c);
    EmptyMembers(c);
    SetIndexHighest(c);
    assert c.SetIndex() in c.Members();
    if exists b :: b in c.Members() && b != c.SetIndex() {
      var b :| b in c.Members() && b != c.SetIndex();
      assert {b, c.SetIndex()} <= c.Members();
      assert |{b, c.SetIndex()}| == 2;
      SubsetCard({b, c.SetIndex()}, c.Members());
    }
  }

  lemma SubsetCard(a: set<int>, b: set<int>)
    requires a <= b
    ensures |a| <= |b|
  {
    assert b == a + (b - a);
  }

  /** GetColor: the one possible colour of a decided node. */
  function GetColor(c: ColorSet): (color: int)
    requires c.Count() == 1
    ensures 0 <= color < 8 && c.Members() == {color}
  {
    SingleMember(c);
    SetIndexHighest(c);
    c.SetIndex()
  }

  /** Every colour possible in a is possible in b. */
  predicate SubsetOf(a: ColorSet, b: ColorSet)
  {
    a.value & !b.value == 0
  }

  /** Only the kColors colours can be set: no bit above bit 3. */
  predicate InPalette(c: ColorSet)
  {
    c.value & 0xF0 == 0
  }

  /** SubsetOf is inclusion of the possible colours. */
  lemma SubsetHas(a: ColorSet, b: ColorSet, c: int)
    requires SubsetOf(a, b) && a.Has(c)
    ensures b.Has(c)
  {
  }

  lemma SubsetTrans(a: ColorSet, b: ColorSet, c: ColorSet)
    requires SubsetOf(a, b) && SubsetOf(b, c)
    ensures SubsetOf(a, c)
  {
  }

  /** A proper part of a part of c is not c. */
  lemma ProperSubset(a: ColorSet, b: ColorSet, c: ColorSet)
    requires SubsetOf(a, b) && a != b && SubsetOf(b, c)
    ensures a != c
  {
  }

  /** The singleton of a possible colour is part of the set. */
  lemma SingletonSubset(a: ColorSet, c: nat)
    requires c < kColors && a.Has(c)
    ensures SubsetOf(a.MakeSingletonAtBit(c), a)
  {
    assert c == 0 || c == 1 || c == 2 || c == 3;
  }

  /** A part of a palette set is a palette set. */
  lemma SubsetPalette(a: ColorSet, b: ColorSet)
    requires SubsetOf(a, b) && InPalette(b)
    ensures InPalette(a)
  {
  }

  /** A non-empty part of a one-colour set is that set. */
  lemma SubsetOfSingle(a: ColorSet, b: ColorSet)
    requires SubsetOf(a, b) && b.CountIsOne() && !a.IsEmpty()
    ensures a == b
  {
  }

  /** reset(c) removes exactly colour c, changing the set exactly when c was possible. */
  lemma ResetShrinks(a: ColorSet, c: nat)
    requires c < kColors
    ensures SubsetOf(a.Reset(c), a) && !a.Reset(c).Has(c)
    ensures a.Reset(c) != a <==> a.Has(c)
    ensures InPalette(a) ==> InPalette(a.Reset(c))
  {
  }

  /** Removing the one possible colour leaves nothing. */
  lemma ResetSingleton(a: ColorSet, c: nat)
    requires c < kColors && a.CountIsOne() && a.Has(c)
    ensures a.Reset(c).IsEmpty()
  {
    assert c == 0 || c == 1 || c == 2 || c == 3;
  }

  /** The set_index of a one-colour set is its colour. */
  lemma SingletonIndexHas(a: ColorSet, c: int)
    requires a.CountIsOne() && a.Has(c)
    ensures a.SetIndex() == c
  {
    assert 0 <= c < 8;
    assert c == 0 || c == 1 || c == 2 || c == 3 || c == 4 || c == 5 || c == 6 || c == 7;
  }

  /** The singleton of a palette colour is in the palette, and its colour is its set_index. */
  lemma SingletonFacts(a: ColorSet, c: nat)
    requires c < kColors
    ensures var s := a.MakeSingletonAtBit(c);
      s.CountIsOne() && s.Has(c) && s.SetIndex() == c && InPalette(s)
  {
    assert c == 0 || c == 1 || c == 2 || c == 3;
  }

  /** A non-empty palette set names a palette colour in set_index. */
  lemma PaletteIndex(a: ColorSet)
    requires InPalette(a) && !a.IsEmpty()
    ensures 0 <= a.SetIndex() < kColors && a.Has(a.SetIndex())
  {
  }

  /** count() is zero for the empty set and one exactly when count_is_one holds. */
  lemma CountZeroOne(a: ColorSet)
    ensures a.Count() == 0 <==> a.IsEmpty()
    ensures a.Count() == 1 <==> a.CountIsOne()
  {
    CountIsOneExact(a);
    CountMembers(a);
    EmptyMembers(a);
  }

  /** Counting colours below n is monotone in the set. */
  lemma {:induction false} SubsetBitsBelow(a: ColorSet, b: ColorSet, n: nat)
    requires SubsetOf(a, b) && n <= 8
    ensures a.BitsBelow(n) <= b.BitsBelow(n)
    ensures (exists k :: 0 <= k < n && b.Has(k) && !a.Has(k)) ==> a.BitsBelow(n) < b.BitsBelow(n)
  {
    if n > 0 {
      SubsetBitsBelow(a, b, n - 1);
      if a.Has(n - 1) {
        SubsetHas(a, b, n - 1);
      }
    }
  }

  /** A strictly smaller set has fewer colours. */
  lemma SubsetCount(a: ColorSet, b: ColorSet)
    requires SubsetOf(a, b)
    ensures a.Count() <= b.Count()
    ensures a != b ==> a.Count() < b.Count()
  {
    SubsetBitsBelow(a, b, 8);
    if a != b {
      var k := DifferingBit(a, b);
    }
  }

  /** A bit of b that a lacks, when a is a proper part of b. */
  lemma DifferingBit(a: ColorSet, b: ColorSet) returns (k: nat)
    requires SubsetOf(a, b) && a != b
    ensures k < 8 && b.Has(k) && !a.Has(k)
  {
    if b.Has(0) && !a.Has(0) { return 0; }
    if b.Has(1) && !a.Has(1) { return 1; }
    if b.Has(2) && !a.Has(2) { return 2; }
    if b.Has(3) && !a.Has(3) { return 3; }
    if b.Has(4) && !a.Has(4) { return 4; }
    if b.Has(5) && !a.Has(5) { return 5; }
    if b.Has(6) && !a.Has(6) { return 6; }
    assert b.Has(7) && !a.Has(7);
    return 7;
  }
}
