/**
  Register words put together as a union of field writers, `W1(x) | W2(y) | ...`: the shape of
  every codec of the drivers.  When the fields do not overlap, each reader finds its own value,
  and finds zero where no field was written.
*/
module FieldUnions {
  import opened Words
  import opened BitFields

  datatype Placed = Placed(start: nat, end: nat, value: u32) {
    predicate Apart(a: nat, b: nat) {
      Disjoint(start, end, a, b)
    }
  }

  type Part = p: Placed | p.start <= p.end <= 31 witness Placed(0, 0, 0)

  predicate Separate(parts: seq<Part>) {
    forall i, j | 0 <= i < j < |parts| :: parts[i].Apart(parts[j].start, parts[j].end)
  }

  function Union(parts: seq<Part>): u32 {
    if parts == [] then 0
    else
      var last := parts[|parts| - 1];
      Or(Union(parts[..|parts| - 1]), Field(last.start, last.end, last.value))
  }

  /** A reader whose field meets none of the parts finds zero. */
  lemma {:induction false} NothingWritten(parts: seq<Part>, a: nat, b: nat)
    requires a <= b <= 31
    requires forall p <- parts :: p.Apart(a, b)
    ensures GetBits(Union(parts), a, b) == 0
  {
    if parts == [] {
      GetZero(a, b);
    } else {
      var rest, last := parts[..|parts| - 1], parts[|parts| - 1];
      assert last in parts;
      NothingWritten(rest, a, b);
      GetDisjointField(a, b, last.start, last.end, last.value);
      GetOrDisjoint(Union(rest), Field(last.start, last.end, last.value), a, b);
    }
  }

  lemma GetZero(a: nat, b: nat)
    requires a <= b <= 31
    ensures GetBits(0, a, b) == 0
  {
    hide *;
    FieldBits();
    forall i: nat | i < 32
      ensures Bit(GetBits(0, a, b), i) <==> Bit(0, i)
    {
      ZeroBit(i);
      ZeroBit(i + a);
    }
    WordExtensionality(GetBits(0, a, b), 0);
  }

  /** The reader of a part finds its value, reduced to the width of the field. */
  lemma {:induction false} PartRead(parts: seq<Part>, k: nat)
    requires Separate(parts) && k < |parts|
    ensures var p := parts[k];
            GetBits(Union(parts), p.start, p.end) == LowPart(p.value, p.end + 1 - p.start)
    decreases |parts|
  {
    hide Field, GetBits, Or, LowPart, Pow2;
    var rest, last, p := parts[..|parts| - 1], parts[|parts| - 1], parts[k];
    assert p in parts && last in parts;
    GetField(p.start, p.end, p.value);
    HalvedValue(p.value, p.end + 1 - p.start);
    if k == |parts| - 1 {
      NothingWritten(rest, p.start, p.end);
    } else {
      PartRead(rest, k);
      GetDisjointField(p.start, p.end, last.start, last.end, last.value);
    }
    GetOrDisjoint(Union(rest), Field(last.start, last.end, last.value), p.start, p.end);
  }

  /** The same for a value that fits its field. */
  lemma PartReadExactly(parts: seq<Part>, k: nat)
    requires Separate(parts) && k < |parts|
    requires parts[k].value < Pow2(parts[k].end + 1 - parts[k].start)
    ensures var p := parts[k];
            GetBits(Union(parts), p.start, p.end) == p.value
  {
    PartRead(parts, k);
    SmallLowPart(parts[k].value, parts[k].end + 1 - parts[k].start);
  }

  // ----- unions written out -----

  lemma UnionOfOne(p: Part)
    ensures Union([p]) == Field(p.start, p.end, p.value)
  {
    OrZero(Field(p.start, p.end, p.value));
  }

  lemma UnionSnoc(parts: seq<Part>, p: Part)
    ensures Union(parts + [p]) == Or(Union(parts), Field(p.start, p.end, p.value))
  {
    assert (parts + [p])[..|parts + [p]| - 1] == parts;
  }

  lemma UnionOfThree(p: Part, q: Part, r: Part)
    ensures Union([p, q, r])
            == Or(Or(Field(p.start, p.end, p.value), Field(q.start, q.end, q.value)),
                  Field(r.start, r.end, r.value))
  {
    hide *;
    UnionOfOne(p);
    UnionSnoc([p], q);
    UnionSnoc([p] + [q], r);
    assert [p] + [q] + [r] == [p, q, r];
  }

  lemma UnionOfFour(p: Part, q: Part, r: Part, s: Part)
    ensures Union([p, q, r, s])
            == Or(Or(Or(Field(p.start, p.end, p.value), Field(q.start, q.end, q.value)),
                     Field(r.start, r.end, r.value)), Field(s.start, s.end, s.value))
  {
    hide *;
    UnionOfThree(p, q, r);
    UnionSnoc([p, q, r], s);
    assert [p, q, r] + [s] == [p, q, r, s];
  }

  lemma UnionOfFive(p: Part, q: Part, r: Part, s: Part, t: Part)
    ensures Union([p, q, r, s, t])
            == Or(Or(Or(Or(Field(p.start, p.end, p.value), Field(q.start, q.end, q.value)),
                        Field(r.start, r.end, r.value)), Field(s.start, s.end, s.value)),
                  Field(t.start, t.end, t.value))
  {
    hide *;
    UnionOfFour(p, q, r, s);
    UnionSnoc([p, q, r, s], t);
    assert [p, q, r, s] + [t] == [p, q, r, s, t];
  }
}
