/**
  The bit-field macros of gd32f4xx.h and the field idioms of the drivers:
  writers `BITS(a,b) & (v << a)`, readers `GET_BITS`, and the read-modify-write
  `reg = (reg & ~BITS(a,b)) | field`.  All laws hold for every field position.
*/
module BitFields {
  import opened Words

  /** BIT(x) */
  function BitMask(x: nat): u32 {
    Shl(1, x)
  }

  /** BITS(start, end) */
  function Bits(start: nat, end: nat): u32
    requires end <= 31
  {
    And(Shl(0xFFFF_FFFF, start), Shr(0xFFFF_FFFF, 31 - end))
  }

  /** GET_BITS(regval, start, end) */
  function GetBits(r: u32, start: nat, end: nat): u32
    requires end <= 31
  {
    Shr(And(r, Bits(start, end)), start)
  }

  /** A field writer: BITS(start, end) & (v << start). */
  function Field(start: nat, end: nat, v: u32): u32
    requires end <= 31
  {
    And(Bits(start, end), Shl(v, start))
  }

  /** The masked update `r = (r & ~BITS(start, end)) | field`. */
  function Insert(r: u32, start: nat, end: nat, v: u32): u32
    requires end <= 31
  {
    Or(And(r, Not(Bits(start, end))), Field(start, end, v))
  }

  // ----- the bits of masks and fields -----

  lemma FieldBits()
    ensures forall x: nat, i: nat {:trigger Bit(BitMask(x), i)} ::
              x < 32 ==> (Bit(BitMask(x), i) <==> i == x)
    ensures forall a: nat, b: nat, i: nat {:trigger Bit(Bits(a, b), i)} ::
              b <= 31 ==> (Bit(Bits(a, b), i) <==> a <= i <= b)
    ensures forall r: u32, a: nat, b: nat, i: nat {:trigger Bit(GetBits(r, a, b), i)} ::
              b <= 31 ==> (Bit(GetBits(r, a, b), i) <==> i + a <= b && Bit(r, i + a))
    ensures forall a: nat, b: nat, v: u32, i: nat {:trigger Bit(Field(a, b, v), i)} ::
              b <= 31 ==> (Bit(Field(a, b, v), i) <==> a <= i <= b && Bit(v, i - a))
    ensures forall r: u32, a: nat, b: nat, v: u32, i: nat {:trigger Bit(Insert(r, a, b, v), i)} ::
              b <= 31 ==>
                (Bit(Insert(r, a, b, v), i) <==> if a <= i <= b then Bit(v, i - a) else Bit(r, i))
  {
    WordBits();
    forall x: nat, i: nat | x < 32
      ensures Bit(BitMask(x), i) <==> i == x
    {
      if x <= i {
        OneBit(i - x);
      }
    }
    forall a: nat, b: nat, i: nat | b <= 31
      ensures Bit(Bits(a, b), i) <==> a <= i <= b
    {
      MaskBit(a, b, i);
    }
  }

  lemma MaskBit(a: nat, b: nat, i: nat)
    requires b <= 31
    ensures Bit(Bits(a, b), i) <==> a <= i <= b
  {
    forall j: nat
      ensures Bit(0xFFFF_FFFF, j) <==> j < 32
    {
      AllOnesBit(j);
    }
    OverlapBit(0xFFFF_FFFF, a, b, i);
  }

  lemma OverlapBit(ones: u32, a: nat, b: nat, i: nat)
    requires b <= 31
    requires forall j: nat :: Bit(ones, j) <==> j < 32
    ensures Bit(And(Shl(ones, a), Shr(ones, 31 - b)), i) <==> a <= i <= b
  {
    hide *;
    WordBits();
  }

  /** GET_BITS is a quotient and a remainder. */
  lemma GetBitsValue(r: u32, a: nat, b: nat)
    requires a <= b <= 31
    ensures GetBits(r, a, b) == (r / Pow2(a)) % Pow2(b + 1 - a)
  {
    FieldBits();
    WordBits();
    var q := Halved(r, a);
    forall i: nat
      ensures Bit(GetBits(r, a, b), i) <==> Bit(LowPart(q, b + 1 - a), i)
    {
      LowPartBit(q, b + 1 - a, i);
      HalvedBit(r, a, i);
    }
    BitExtensionality(GetBits(r, a, b), LowPart(q, b + 1 - a));
    HalvedValue(r, a);
    HalvedValue(q, b + 1 - a);
  }

  /** A reader returns a value of its width. */
  lemma GetBitsBound(r: u32, a: nat, b: nat)
    requires a <= b <= 31
    ensures GetBits(r, a, b) < Pow2(b + 1 - a)
  {
    GetBitsValue(r, a, b);
  }

  /** A value of a field's width, moved to the field's place, stays below the field's end. */
  lemma PlacedBound(a: nat, width: nat, v: nat)
    requires v < Pow2(width)
    ensures 0 <= v * Pow2(a) < Pow2(width + a)
  {
    Pow2Add(width, a);
    MulMonotone(v + 1, Pow2(width), Pow2(a));
  }

  /** A value that fits the field is stored without loss, as a product. */
  lemma FieldFits(a: nat, b: nat, v: u32)
    requires a <= b <= 31 && v < Pow2(b + 1 - a)
    ensures Shl(v, a) == Field(a, b, v) == v * Pow2(a)
  {
    assert v * Pow2(a) < WORD_LIMIT by {
      PlacedBound(a, b + 1 - a, v);
      assert b + 1 - a + a == b + 1;
      Pow2Monotone(b + 1, 32);
      PowersOfTwo();
    }
    ShlExact(v, a);
    FieldKeepsShift(a, b, v);
  }

  lemma FieldKeepsShift(a: nat, b: nat, v: u32)
    requires a <= b <= 31 && v < Pow2(b + 1 - a)
    ensures Shl(v, a) == Field(a, b, v)
  {
    FieldBits();
    WordBits();
    forall i: nat | i < 32
      ensures Bit(Shl(v, a), i) <==> Bit(Field(a, b, v), i)
    {
      if i > b {
        HighBit(v, b + 1 - a, i - a);
      }
    }
    WordExtensionality(Shl(v, a), Field(a, b, v));
  }

  lemma MulMonotone(x: int, y: int, d: nat)
    requires x <= y
    ensures x * d <= y * d
  {
    assert (y - x) * d == y * d - x * d;
  }

  /** The mask itself is the field of all ones. */
  lemma FullField(a: nat, b: nat)
    requires a <= b <= 31
    ensures Pow2(b + 1 - a) - 1 <= ALL_ONES
    ensures Bits(a, b) == Field(a, b, Pow2(b + 1 - a) - 1)
  {
    Pow2Monotone(b + 1 - a, 32);
    PowersOfTwo();
    FieldBits();
    var ones := Pow2(b + 1 - a) - 1;
    forall i: nat | i < 32
      ensures Bit(Bits(a, b), i) <==> Bit(Field(a, b, ones), i)
    {
      if a <= i {
        OnesBit(b + 1 - a, i - a);
      }
    }
    WordExtensionality(Bits(a, b), Field(a, b, ones));
  }

  /** Masking keeps a field in its place. */
  lemma GetBitsAsMask(r: u32, a: nat, b: nat)
    requires a <= b <= 31
    ensures And(r, Bits(a, b)) == Field(a, b, GetBits(r, a, b))
  {
    hide *;
    FieldBits();
    WordBits();
    forall i: nat | i < 32
      ensures Bit(And(r, Bits(a, b)), i) <==> Bit(Field(a, b, GetBits(r, a, b)), i)
    {
      if a <= i {
        assert i - a + a == i;
      }
    }
    WordExtensionality(And(r, Bits(a, b)), Field(a, b, GetBits(r, a, b)));
  }

  // ----- readers against writers -----

  /** What a reader finds in a word built by the writer of the same field. */
  lemma GetField(a: nat, b: nat, v: u32)
    requires a <= b <= 31
    ensures GetBits(Field(a, b, v), a, b) == v % Pow2(b + 1 - a)
  {
    FieldBits();
    var w := GetBits(Field(a, b, v), a, b);
    forall i: nat
      ensures Bit(w, i) <==> Bit(LowPart(v, b + 1 - a), i)
    {
      LowPartBit(v, b + 1 - a, i);
      assert i + a - a == i;
    }
    BitExtensionality(w, LowPart(v, b + 1 - a));
    HalvedValue(v, b + 1 - a);
  }

  predicate Disjoint(a: nat, b: nat, c: nat, d: nat) {
    b < c || d < a
  }

  /** A reader finds nothing in a field disjoint from its own. */
  lemma GetDisjointField(a: nat, b: nat, c: nat, d: nat, v: u32)
    requires a <= b <= 31 && c <= d <= 31 && Disjoint(a, b, c, d)
    ensures GetBits(Field(c, d, v), a, b) == 0
  {
    FieldBits();
    forall i: nat | i < 32
      ensures Bit(GetBits(Field(c, d, v), a, b), i) <==> Bit(0, i)
    {
      ZeroBit(i);
    }
    WordExtensionality(GetBits(Field(c, d, v), a, b), 0);
  }

  /** Readers distribute over the union of words. */
  lemma GetOr(x: u32, y: u32, a: nat, b: nat)
    requires a <= b <= 31
    ensures GetBits(Or(x, y), a, b) == Or(GetBits(x, a, b), GetBits(y, a, b))
  {
    FieldBits();
    WordBits();
    forall i: nat | i < 32
      ensures Bit(GetBits(Or(x, y), a, b), i) <==> Bit(Or(GetBits(x, a, b), GetBits(y, a, b)), i)
    {
    }
    WordExtensionality(GetBits(Or(x, y), a, b), Or(GetBits(x, a, b), GetBits(y, a, b)));
  }

  /** Readers of disjoint fields see only their own member of a union of fields. */
  lemma GetOrDisjoint(x: u32, y: u32, a: nat, b: nat)
    requires a <= b <= 31
    ensures GetBits(y, a, b) == 0 ==> GetBits(Or(x, y), a, b) == GetBits(x, a, b)
    ensures GetBits(x, a, b) == 0 ==> GetBits(Or(x, y), a, b) == GetBits(y, a, b)
  {
    GetOr(x, y, a, b);
    OrZero(GetBits(x, a, b));
    OrZero(GetBits(y, a, b));
  }

  // ----- the masked update is a lens on the field -----

  /** Reading back a masked update gives the value written, reduced to the field's width. */
  lemma PutGet(r: u32, a: nat, b: nat, v: u32)
    requires a <= b <= 31
    ensures GetBits(Insert(r, a, b, v), a, b) == v % Pow2(b + 1 - a)
  {
    FieldBits();
    forall i: nat | i < 32
      ensures Bit(GetBits(Insert(r, a, b, v), a, b), i) <==> Bit(GetBits(Field(a, b, v), a, b), i)
    {
    }
    WordExtensionality(GetBits(Insert(r, a, b, v), a, b), GetBits(Field(a, b, v), a, b));
    GetField(a, b, v);
  }

  /** Writing back what was read changes nothing. */
  lemma GetPut(r: u32, a: nat, b: nat)
    requires a <= b <= 31
    ensures Insert(r, a, b, GetBits(r, a, b)) == r
  {
    FieldBits();
    forall i: nat | i < 32
      ensures Bit(Insert(r, a, b, GetBits(r, a, b)), i) <==> Bit(r, i)
    {
      if a <= i <= b {
        assert Bit(GetBits(r, a, b), i - a) <==> Bit(r, i - a + a);
      }
    }
    WordExtensionality(Insert(r, a, b, GetBits(r, a, b)), r);
  }

  /** The last of two updates of a field wins. */
  lemma PutPut(r: u32, a: nat, b: nat, v: u32, w: u32)
    requires a <= b <= 31
    ensures Insert(Insert(r, a, b, v), a, b, w) == Insert(r, a, b, w)
  {
    hide *;
    FieldBits();
    forall i: nat | i < 32
      ensures Bit(Insert(Insert(r, a, b, v), a, b, w), i) <==> Bit(Insert(r, a, b, w), i)
    {
    }
    WordExtensionality(Insert(Insert(r, a, b, v), a, b, w), Insert(r, a, b, w));
  }

  /** Updates of disjoint fields commute. */
  lemma PutCommutes(r: u32, a: nat, b: nat, v: u32, c: nat, d: nat, w: u32)
    requires a <= b <= 31 && c <= d <= 31 && Disjoint(a, b, c, d)
    ensures Insert(Insert(r, a, b, v), c, d, w) == Insert(Insert(r, c, d, w), a, b, v)
  {
    assert b < c || d < a;
    hide *;
    FieldBits();
    forall i: nat | i < 32
      ensures Bit(Insert(Insert(r, a, b, v), c, d, w), i) <==> Bit(Insert(Insert(r, c, d, w), a, b, v), i)
    {
    }
    WordExtensionality(Insert(Insert(r, a, b, v), c, d, w), Insert(Insert(r, c, d, w), a, b, v));
  }

  /** An update leaves every disjoint field as it was. */
  lemma PutFrame(r: u32, a: nat, b: nat, v: u32, c: nat, d: nat)
    requires a <= b <= 31 && c <= d <= 31 && Disjoint(a, b, c, d)
    ensures GetBits(Insert(r, a, b, v), c, d) == GetBits(r, c, d)
  {
    assert b < c || d < a;
    hide *;
    FieldBits();
    forall i: nat | i < 32
      ensures Bit(GetBits(Insert(r, a, b, v), c, d), i) <==> Bit(GetBits(r, c, d), i)
    {
    }
    WordExtensionality(GetBits(Insert(r, a, b, v), c, d), GetBits(r, c, d));
  }
}
