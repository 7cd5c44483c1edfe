/** A small curve with the laws that the BIP 32 theorems ask for: they are not vacuous. */
module CurveModel {
  import opened Common
  import opened Radix
  import opened Bip32Key
  import opened Bip32Derive
  import opened Bip32InPlace

  const ONE: Bytes32 := Repeat(0, 31) + [1]

  predicate On(p: Point) {
    p == Infinity || p == Affine(1, 0) || p == Affine(2, 0)
  }

  function Plus(p: Point, q: Point): Point {
    if p == Infinity then q
    else if q == Infinity then p
    else if p != q then Infinity
    else if p == Affine(1, 0) then Affine(2, 0)
    else Affine(1, 0)
  }

  /** Multiples of the generator, of order 3. */
  function Times(a: nat): Point {
    if a % 3 == 0 then Infinity else if a % 3 == 1 then Affine(1, 0) else Affine(2, 0)
  }

  function Encode(p: Point): Bytes33 {
    Repeat(if p == Affine(1, 0) then 2 else 3, 33)
  }

  function Decode(b: Bytes33): Option<Point> {
    if b == Encode(Affine(1, 0)) then Some(Affine(1, 0))
    else if b == Encode(Affine(2, 0)) then Some(Affine(2, 0))
    else None
  }

  /** The group of three elements, with constant hashes; every tweak is 1. */
  function Smallest(): Curve {
    Curve(3, (p: Point) => On(p), (p: Point, q: Point) => Plus(p, q), (a: nat) => Times(a), (p: Point) => Encode(p),
          (b: Bytes33) => Decode(b), (k: seq<byte>, d: seq<byte>) => ONE + ZERO32, (d: seq<byte>) => ZERO20)
  }

  lemma Applied(p: Point, q: Point, a: nat, b: Bytes33)
    ensures var c := Smallest();
            && c.onCurve(p) == On(p) && c.add(p, q) == Plus(p, q) && c.mul(a) == Times(a)
            && c.encode(p) == Encode(p) && c.decode(b) == Decode(b)
  {
  }

  lemma TimesAdds(a: nat, b: nat)
    ensures Plus(Times(a), Times(b)) == Times((a + b) % 3) && On(Times(a)) && (Times(a) == Infinity <==> a % 3 == 0)
  {
    var x, y, q := a % 3, b % 3, a / 3 + b / 3;
    assert a + b == q * 3 + (x + y);
    if x + y < 3 { DivMod(q, x + y, 3); } else { DivMod(q + 1, x + y - 3, 3); }
    SmallMod((a + b) % 3, 3);
  }

  lemma Encoded(p: Point, b: Bytes33)
    ensures On(p) && p != Infinity ==> Decode(Encode(p)) == Some(p)
    ensures Decode(b).Some? ==> On(Decode(b).value) && Decode(b).value != Infinity && Encode(Decode(b).value) == b
  {
    assert Encode(Affine(1, 0))[0] != Encode(Affine(2, 0))[0];
  }

  lemma SmallestOrder()
    ensures Smallest().order == 3
  {
  }

  lemma SmallestHasMultiples()
    ensures HasMultiples(Smallest())
  {
    hide Smallest, Plus, Times, On;
    var c := Smallest();
    SmallestOrder();
    forall a: nat
      ensures c.onCurve(c.mul(a)) && (c.mul(a) == Infinity <==> a % c.order == 0)
    {
      Applied(Times(a), Infinity, a, ZERO33);
      TimesAdds(a, 0);
    }
    forall a: nat, b: nat
      ensures c.add(c.mul(a), c.mul(b)) == c.mul((a + b) % c.order)
    {
      Applied(Infinity, Infinity, a, ZERO33);
      Applied(Infinity, Infinity, b, ZERO33);
      Applied(Times(a), Times(b), (a + b) % 3, ZERO33);
      TimesAdds(a, b);
    }
  }

  const ZERO33: Bytes33 := Repeat(0, 33)

  lemma PlusLaws(p: Point, q: Point, r: Point)
    requires On(p) && On(q) && On(r)
    ensures On(Plus(p, q)) && Plus(p, Infinity) == p && Plus(Plus(p, q), r) == Plus(p, Plus(q, r))
  {
  }

  lemma SmallestIsGroup()
    ensures IsGroup(Smallest())
  {
    hide Smallest, Plus, On;
    var c := Smallest();
    forall p, q | c.onCurve(p) && c.onCurve(q)
      ensures c.onCurve(c.add(p, q))
    {
      Applied(p, q, 0, ZERO33);
      Applied(q, q, 0, ZERO33);
      Applied(Plus(p, q), q, 0, ZERO33);
      PlusLaws(p, q, q);
    }
    forall p | c.onCurve(p)
      ensures c.add(p, Infinity) == p
    {
      Applied(p, Infinity, 0, ZERO33);
      PlusLaws(p, p, p);
    }
    forall p, q, r | c.onCurve(p) && c.onCurve(q) && c.onCurve(r)
      ensures c.add(c.add(p, q), r) == c.add(p, c.add(q, r))
    {
      Applied(p, q, 0, ZERO33);
      Applied(q, r, 0, ZERO33);
      Applied(r, r, 0, ZERO33);
      Applied(Plus(p, q), r, 0, ZERO33);
      Applied(p, Plus(q, r), 0, ZERO33);
      PlusLaws(p, q, r);
    }
  }

  lemma SmallestIsEncoded()
    ensures IsEncoded(Smallest())
  {
    hide Smallest, Encode, Decode, On;
    var c := Smallest();
    forall p: Point | c.onCurve(p) && p != Infinity
      ensures c.decode(c.encode(p)) == Some(p)
    {
      Applied(p, p, 0, Encode(p));
      Encoded(p, ZERO33);
    }
    forall b: Bytes33 | c.decode(b).Some?
      ensures c.onCurve(c.decode(b).value) && c.decode(b).value != Infinity && c.encode(c.decode(b).value) == b
    {
      Applied(Infinity, Infinity, 0, b);
      Encoded(Infinity, b);
      Applied(Decode(b).value, Infinity, 0, b);
    }
  }

  /** There is a lawful curve. */
  lemma LawfulHasModel()
    ensures Lawful(Smallest())
  {
    hide Smallest, HasMultiples, IsGroup, IsEncoded, Pow;
    SmallestOrder();
    SmallestHasMultiples();
    SmallestIsGroup();
    SmallestIsEncoded();
    PowOne();
    PowMonotone(256, 1, 32);
  }

  lemma PowOne()
    ensures Pow(256, 1) == 256
  {
  }

  const ROOT := Key(ZERO32, ZERO20, 0, [KEY_PRIVATE] + ONE, 0, ZERO20, VER_MAIN_PRIVATE, Encode(Affine(1, 0)), ZERO32)

  lemma OneIsOne()
    ensures Value(ONE, 256) == 1
  {
    LeadingZeros(31, [1], 256);
    assert ONE == Repeat<nat>(0, 31) + [1];
    AppendDigit([], 1, 256);
    assert [] + [1] == [1];
  }

  /** And a private root whose keys match. */
  lemma RootIsConsistent()
    ensures IsPrivate(ROOT) && Consistent(Smallest(), ROOT) && ROOT.tweakSum == ZERO32 && ROOT.privKey[1..] == ONE
  {
    hide Value, Encode;
    OneIsOne();
    assert ROOT.privKey[1..] == ONE;
    Applied(Affine(1, 0), Infinity, 1, ROOT.pubKey);
  }

  /** Every tweak of the root is 1. */
  lemma RootTweak(childNum: uint32)
    ensures DerivationHash(Smallest(), ROOT, childNum)[..32] == ONE
  {
    hide BytesOf;
    assert (ONE + ZERO32)[..32] == ONE;
  }

  lemma OnePlusOne()
    ensures SeckeyTweakAdd(Smallest(), ONE, ONE) == Some(BytesOf(2, 32))
    ensures PublicKeyOf(Smallest(), BytesOf(2, 32)) == Some(Encode(Affine(2, 0)))
  {
    hide Value, BytesOf, Encode, Pow, Lawful;
    LawfulHasModel();
    SmallestOrder();
    OneIsOne();
    ScalarValue(Smallest(), 2);
    Applied(Affine(2, 0), Affine(2, 0), 2, ZERO33);
  }

  lemma RootChildKeys()
    ensures ChildKeys(Smallest(), ROOT, ONE) == Some(([KEY_PRIVATE] + BytesOf(2, 32), Encode(Affine(2, 0))))
  {
    hide Value, BytesOf, Smallest, Encode, SeckeyTweakAdd, PublicKeyOf;
    RootIsConsistent();
    OnePlusOne();
  }

  /** Its children have twice the generator as public key, and a tweak sum of 1 if one is kept. */
  lemma RootDerives(childNum: uint32, flags: KeyFlags)
    requires !flags.undefined
    ensures var x := Derive(Smallest(), ROOT, childNum, flags);
            && x.Some? && x.value.pubKey == Encode(Affine(2, 0)) != ROOT.pubKey
            && x.value.tweakSum == if flags.tweakSum then ONE else ZERO32
  {
    hide Smallest, Encode, DerivationHash, ChildKeys, BytesOf;
    RootIsConsistent();
    RootTweak(childNum);
    RootChildKeys();
    EncodingsDiffer();
  }

  lemma EncodingsDiffer()
    ensures Encode(Affine(2, 0)) != Encode(Affine(1, 0))
  {
    assert Encode(Affine(1, 0))[0] != Encode(Affine(2, 0))[0];
  }

  /** With the tweak-sum flag the call gives the derived key, with the public flag alone another one. */
  lemma PublicAloneDiffers(childNum: uint32, tweakSum: bool)
    ensures var flags := KeyFlags(true, false, tweakSum, false);
            var x, y := DerivePath(Smallest(), ROOT, [childNum], flags),
                DeriveWithTweak(Smallest(), ROOT, [childNum], flags);
            && x.Some? && y.Some? && x.value.pubKey == Encode(Affine(2, 0))
            && y.value.pubKey == (if tweakSum then x.value.pubKey else ROOT.pubKey)
            && (x == y <==> tweakSum)
  {
    hide Derive, Smallest, Encode, Lawful, Consistent, PublicKeyTweak;
    var flags := KeyFlags(true, false, tweakSum, false);
    LawfulHasModel();
    RootIsConsistent();
    OneStep(Smallest(), ROOT, childNum, flags);
    RootDerives(childNum, flags);
    WithTweakMeans(Smallest(), ROOT, [childNum], flags);
    if tweakSum { WithTweakIsDerived(Smallest(), ROOT, [childNum], flags); }
  }

  const SUMMED := ROOT.(tweakSum := ONE)

  /** Twice the generator plus the generator is nothing. */
  lemma TwicePlusOne()
    ensures PublicKeyTweak(Smallest(), Encode(Affine(2, 0)), ONE) == None
  {
    hide Value, Encode, Decode;
    OneIsOne();
    SmallestOrder();
    Applied(Affine(2, 0), Affine(1, 0), 1, Encode(Affine(2, 0)));
    Encoded(Affine(2, 0), ZERO33);
  }

  /** The root with a tweak sum has children with the same public key. */
  lemma SummedDerives(childNum: uint32, flags: KeyFlags)
    requires !flags.undefined
    ensures var x := Derive(Smallest(), SUMMED, childNum, flags); x.Some? && x.value.pubKey == Encode(Affine(2, 0))
  {
    hide Smallest, Encode, DerivationHash, ChildKeys, BytesOf, SeckeyTweakAdd;
    RootIsConsistent();
    SummedTweak(childNum);
    SummedChildKeys();
    OnePlusOne();
    assert SUMMED.tweakSum[31] == 1;
  }

  lemma SummedTweak(childNum: uint32)
    ensures DerivationHash(Smallest(), SUMMED, childNum)[..32] == ONE
  {
    hide BytesOf;
    assert (ONE + ZERO32)[..32] == ONE;
  }

  lemma SummedChildKeys()
    ensures ChildKeys(Smallest(), SUMMED, ONE) == ChildKeys(Smallest(), ROOT, ONE)
         == Some(([KEY_PRIVATE] + BytesOf(2, 32), Encode(Affine(2, 0))))
  {
    hide Smallest, SeckeyTweakAdd, PublicKeyOf, BytesOf, Encode;
    RootChildKeys();
  }

  /** For a root with a tweak sum of its own there is no result where there is a derived key. */
  lemma RootSumDiffers(childNum: uint32, public: bool)
    ensures var flags := KeyFlags(public, false, true, false);
            && DerivePath(Smallest(), SUMMED, [childNum], flags).Some?
            && DeriveWithTweak(Smallest(), SUMMED, [childNum], flags) == None
  {
    hide Derive, Smallest, Encode, Lawful, Consistent, PublicKeyTweak;
    var flags := KeyFlags(public, false, true, false);
    LawfulHasModel();
    RootIsConsistent();
    SummedIsConsistent();
    OneStep(Smallest(), SUMMED, childNum, flags);
    SummedDerives(childNum, flags);
    WithTweakMeans(Smallest(), SUMMED, [childNum], flags);
    TwicePlusOne();
  }

  lemma SummedIsConsistent()
    ensures IsPrivate(SUMMED) && Consistent(Smallest(), SUMMED)
  {
    hide Smallest;
    RootIsConsistent();
  }

  /** Derived into the root itself, an unhardened child comes out wrong, and a hardened one loses the tweak sum. */
  lemma InPlaceDiffers(childNum: uint32, flags: KeyFlags)
    requires !flags.undefined
    ensures var x, y := Derive(Smallest(), ROOT, childNum, flags), DeriveInPlace(Smallest(), ROOT, childNum, flags);
            x.Some? && (x == y <==> IsHardened(childNum))
    ensures var x, y := Derive(Smallest(), SUMMED, childNum, flags),
                        DeriveInPlace(Smallest(), SUMMED, childNum, flags);
            x.Some? && (x == y <==> IsHardened(childNum) && !flags.tweakSum)
  {
    hide Derive, DeriveInPlace, Smallest, Lawful;
    LawfulHasModel();
    RootIsConsistent();
    RootDerives(childNum, flags);
    SummedDerives(childNum, flags);
    InPlaceIff(Smallest(), ROOT, childNum, flags);
    InPlaceIff(Smallest(), SUMMED, childNum, flags);
    assert ROOT.pubKey[1..][0] == 2 && ROOT.privKey[1..][0] == 0;
    assert SUMMED.tweakSum[31] == 1;
  }

  /** And every point is a multiple of the generator. */
  lemma SmallestIsGenerated()
    ensures Generated(Smallest())
  {
    hide Smallest;
    var c := Smallest();
    forall p | c.onCurve(p)
      ensures exists a: nat :: c.mul(a) == p
    {
      var a := if p == Infinity then 0 else if p == Affine(1, 0) then 1 else 2;
      Applied(p, p, a, ZERO33);
      assert c.mul(a) == p;
    }
  }

  /** A path of one element is one derivation. */
  lemma OneStep(c: Curve, k: Key, childNum: uint32, flags: KeyFlags)
    requires IsPrivate(k) && !flags.undefined
    ensures DerivePath(c, k, [childNum], flags) == Derive(c, k, childNum, flags)
  {
    hide Derive;
    var path := [childNum];
    var until := UntilFor(path, flags);
    assert StepFlags(flags, 0, 1, until) == flags;
    var x := Derive(c, k, childNum, flags);
    if x.Some? {
      assert PathFrom(c, x.value, path, 1, until, flags) == x;
    }
  }
}
