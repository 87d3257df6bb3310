/** The mutable tree of address ranges, proved against the forest functions. */
module ContainedRangeMap {
  import opened Wrappers
  import opened Addresses
  import opened RangeForest
  import opened RangeHistory

  /** An element of a node's child map: the key is the child's high address. */
  datatype Slot<E(0)> = Slot(high: int, child: ContainedRangeMap<E>)

  class ContainedRangeMap<E(0)> {
    const base: int
    const entry: E
    const allowEqualRange: bool
    /** The child map in key order; a map never allocated reads as an empty one. */
    var slots: seq<Slot<E>>

    ghost var forest: Forest<E>
    ghost var Repr: set<object>

    ghost predicate Valid()
      reads this, Repr
      decreases Repr
      ensures Valid() ==> this in Repr
    {
      && this in Repr
      && |forest| == |slots|
      && (forall i | 0 <= i < |slots| :: slots[i].child in Repr && slots[i].child.Repr <= Repr)
      && (forall i | 0 <= i < |slots| :: ValidSlot(slots[i], forest[i], Repr))
      && (forall i, j | 0 <= i < j < |slots| :: slots[i].child.Repr !! slots[j].child.Repr)
    }

    /** The slot holds a valid node, inside `repr` and apart from this one, whose
        abstract value is `tree`. */
    ghost predicate ValidSlot(slot: Slot<E>, tree: Tree<E>, repr: set<object>)
      reads slot.child, slot.child.Repr
      decreases repr, 0
    {
      var child := slot.child;
      && this in repr && child in repr && child.Repr <= repr && this !in child.Repr
      && child.allowEqualRange == allowEqualRange
      && child.Valid()
      && tree == Tree(Span(child.base, slot.high, child.entry), child.forest)
    }

    ghost predicate ValidAt(i: nat)
      requires i < |slots| && i < |forest|
      reads this, slots[i].child, slots[i].child.Repr
    {
      ValidSlot(slots[i], forest[i], Repr)
    }

    /** A root: no range and no entry of its own. */
    constructor (allowEqual: bool)
      ensures Valid() && fresh(Repr)
      ensures forest == [] && allowEqualRange == allowEqual
    {
      base := 0;
      allowEqualRange := allowEqual;
      slots, forest, Repr := [], [], {this};
    }

    /** A stored range that takes over `children`. */
    constructor Child(base: int, entry: E, children: seq<Slot<E>>, allowEqual: bool,
                      ghost kids: Forest<E>, ghost parts: set<object>)
      requires |kids| == |children|
      requires forall i | 0 <= i < |children| ::
                 var c := children[i].child;
                 && c in parts && c.Repr <= parts && c.allowEqualRange == allowEqual && c.Valid()
                 && kids[i] == Tree(Span(c.base, children[i].high, c.entry), c.forest)
      requires forall i, j | 0 <= i < j < |children| :: children[i].child.Repr !! children[j].child.Repr
      ensures Valid() && Repr == parts + {this}
      ensures forest == kids && allowEqualRange == allowEqual && this.base == base && this.entry == entry
    {
      this.base := base;
      this.entry := entry;
      allowEqualRange := allowEqual;
      slots, forest, Repr := children, kids, parts + {this};
    }

    /** First child whose high address is at least `key`. */
    method LowerBound(key: int) returns (r: nat)
      requires Valid()
      ensures r == RangeForest.LowerBound(forest, key)
    {
      r := 0;
      assert forest[0..] == forest;
      while r < |slots| && slots[r].high < key
        invariant r <= |slots|
        invariant RangeForest.LowerBound(forest, key) == r + RangeForest.LowerBound(forest[r..], key)
      {
        assert ValidAt(r);
        assert forest[r..][1..] == forest[r + 1..];
        r := r + 1;
      }
      assert r < |slots| ==> ValidAt(r);
    }

    /** Stores a range; refuses an empty or wrapping one, one that crosses a stored
        range, and one equal to a stored range unless equal ranges are allowed. */
    method StoreRange(base: Address, size: Address, entry: E) returns (ok: bool)
      requires Valid()
      modifies Repr
      ensures Valid() && fresh(Repr - old(Repr))
      ensures (ok, forest) == RangeHistory.StoreRange(old(forest), base, size, entry, allowEqualRange)
      decreases Repr
    {
      var high := HighOf(base, size);
      if size <= 0 || high < base {
        return false;
      }
      ok := StoreProper(base, size, high, entry);
    }

    /** Stores a range that is not empty and does not wrap. */
    method StoreProper(base: Address, size: Address, high: int, entry: E) returns (ok: bool)
      requires Valid() && 0 < size && base <= high == HighOf(base, size)
      modifies Repr
      ensures Valid() && fresh(Repr - old(Repr))
      ensures ok <==> Store(old(forest), Span(base, high, entry), allowEqualRange).Some?
      ensures forest == if ok then Store(old(forest), Span(base, high, entry), allowEqualRange).value else old(forest)
      decreases Repr, 1
    {
      ghost var s := Span(base, high, entry);
      var ib := LowerBound(base);
      var ih := LowerBound(high);
      assert ib < |slots| ==> ValidAt(ib);
      if ib == ih && ib != |slots| && base >= slots[ib].child.base {
        assert GoesBelow(forest, s);
        if !allowEqualRange && slots[ib].child.base == base && slots[ib].high == high {
          return false;
        }
        ok := StoreBelow(ib, base, size, entry);
        assert !ok ==> Tree(old(forest)[ib].span, old(forest)[ib].kids) == old(forest)[ib];
        return;
      }
      assert !GoesBelow(forest, s);
      ok := StoreHere(ib, ih, base, high, entry);
    }

    /** Stores a range that no child contains, taking over the children inside it;
        refuses one that only partly contains a child. */
    method StoreHere(ib: nat, ih: nat, base: int, high: int, entry: E) returns (ok: bool)
      requires Valid() && base <= high
      requires ib == RangeForest.LowerBound(forest, base) && ih == RangeForest.LowerBound(forest, high)
      modifies this
      ensures Valid() && fresh(Repr - old(Repr))
      ensures ok <==> Place(old(forest), Span(base, high, entry)).Some?
      ensures forest == if ok then Place(old(forest), Span(base, high, entry)).value else old(forest)
    {
      assert ib < |slots| ==> ValidAt(ib);
      assert ih < |slots| ==> ValidAt(ih);
      ghost var s := Span(base, high, entry);
      var containsHigh := ih != |slots| && high >= slots[ih].child.base;
      var partly := (ib != |slots| && base > slots[ib].child.base) || (containsHigh && high < slots[ih].high);
      assert partly <==> PartlyContains(forest, s);
      if partly {
        return false;
      }
      var ie := if containsHigh then ih + 1 else ih;
      assert ie == PlaceEnd(forest, s);
      Reparent(ib, ie, base, high, entry);
      ok := true;
    }

    /** Passes a range on to a child that contains it. */
    method StoreBelow(k: nat, base: Address, size: Address, entry: E) returns (ok: bool)
      requires Valid() && k < |slots|
      modifies Repr
      ensures Valid() && fresh(Repr - old(Repr))
      ensures var r := RangeHistory.StoreRange(old(forest)[k].kids, base, size, entry, allowEqualRange);
              ok == r.0 && forest == old(forest)[k := Tree(old(forest)[k].span, r.1)]
      decreases Repr, 0
    {
      assert ValidAt(k);
      var child := slots[k].child;
      label before:
      ok := child.StoreRange(base, size, entry);
      forall i | 0 <= i < |slots| && i != k
        ensures slots[i].child in old(Repr) && slots[i].child.Valid() && slots[i].child.Repr == old(slots[i].child.Repr)
      {
        assert old@before(ValidAt(i));
        assert slots[i].child.Repr !! old(child.Repr);
      }
      Repr := Repr + child.Repr;
      forest := forest[k := Tree(forest[k].span, child.forest)];
      forall i | 0 <= i < |slots| ensures slots[i].child in Repr && slots[i].child.Repr <= Repr && ValidAt(i) {
        assert old@before(ValidAt(i));
      }
    }

    /** A new node, not yet stored, that has the children ib..ie. */
    method Adopt(ib: nat, ie: nat, base: int, entry: E) returns (child: ContainedRangeMap<E>)
      requires Valid() && ib <= ie <= |slots|
      ensures fresh(child) && child.Valid() && child.allowEqualRange == allowEqualRange
      ensures child.base == base && child.entry == entry && child.forest == forest[ib..ie]
      ensures child.Repr <= Repr - {this} + {child}
      ensures forall i | 0 <= i < |slots| && !(ib <= i < ie) :: slots[i].child.Repr !! child.Repr
    {
      ghost var parts := set i, o | ib <= i < ie && o in slots[i].child.Repr :: o;
      var inner := slots[ib..ie];
      forall i | 0 <= i < |inner|
        ensures inner[i].child in parts && inner[i].child.Repr <= parts
        ensures inner[i].child.Valid() && inner[i].child.allowEqualRange == allowEqualRange
        ensures forest[ib..ie][i] ==
                Tree(Span(inner[i].child.base, inner[i].high, inner[i].child.entry), inner[i].child.forest)
      {
        assert ValidAt(ib + i);
      }
      assert parts <= Repr - {this} by {
        forall i | ib <= i < ie ensures slots[i].child.Repr <= Repr - {this} {
          assert ValidAt(i);
        }
      }
      forall i | 0 <= i < |slots| && !(ib <= i < ie)
        ensures slots[i].child.Repr !! parts && slots[i].child.Repr <= Repr
      {
        assert ValidAt(i);
      }
      child := new ContainedRangeMap<E>.Child(base, entry, inner, allowEqualRange, forest[ib..ie], parts);
    }

    /** Makes a new child of the children ib..ie and stores it in their place. */
    method Reparent(ib: nat, ie: nat, base: int, high: int, entry: E)
      requires Valid() && ib <= ie <= |slots|
      modifies this
      ensures Valid() && fresh(Repr - old(Repr))
      ensures forest == old(forest[..ib] + [Tree(Span(base, high, entry), forest[ib..ie])] + forest[ie..])
    {
      var child := Adopt(ib, ie, base, entry);
      var newSlots := slots[..ib] + [Slot(high, child)] + slots[ie..];
      ghost var newForest := forest[..ib] + [Tree(Span(base, high, entry), forest[ib..ie])] + forest[ie..];
      ghost var newRepr := Repr + {child};
      forall i | 0 <= i < |newSlots|
        ensures newSlots[i].child in newRepr && newSlots[i].child.Repr <= newRepr && this !in newSlots[i].child.Repr
        ensures ValidSlot(newSlots[i], newForest[i], newRepr)
      {
        SpliceIndex(slots, ib, ie, Slot(high, child), i);
        SpliceIndex(forest, ib, ie, Tree(Span(base, high, entry), forest[ib..ie]), i);
        if i != ib {
          assert ValidAt(if i < ib then i else i - ib - 1 + ie);
        }
      }
      forall i, j | 0 <= i < j < |newSlots| ensures newSlots[i].child.Repr !! newSlots[j].child.Repr {
        SpliceIndex(slots, ib, ie, Slot(high, child), i);
        SpliceIndex(slots, ib, ie, Slot(high, child), j);
      }
      slots, forest, Repr := newSlots, newForest, newRepr;
      assert forall i | 0 <= i < |slots| :: ValidSlot(slots[i], forest[i], Repr);
    }

    /** The entry of the innermost stored range covering an address. */
    method RetrieveRange(address: int, entry: E) returns (found: bool, result: E)
      requires Valid()
      ensures found <==> Retrieve(forest, address) != []
      ensures result == if found then Retrieve(forest, address)[0].entry else entry
      decreases Repr
    {
      var i := LowerBound(address);
      assert i < |slots| ==> ValidAt(i);
      if i == |slots| || address < slots[i].child.base {
        return false, entry;
      }
      found, result := slots[i].child.RetrieveRange(address, entry);
      if !found {
        found, result := true, slots[i].child.entry;
      }
    }

    /** Appends the entries of all stored ranges covering an address, innermost first. */
    method RetrieveRanges(address: int, entries: seq<E>) returns (found: bool, result: seq<E>)
      requires Valid()
      ensures found <==> Retrieve(forest, address) != []
      ensures result == entries + Entries(Retrieve(forest, address))
      decreases Repr
    {
      var i := LowerBound(address);
      assert i < |slots| ==> ValidAt(i);
      if i == |slots| || address < slots[i].child.base {
        assert entries + [] == entries;
        return false, entries;
      }
      found, result := slots[i].child.RetrieveRanges(address, entries);
      result := result + [slots[i].child.entry];
      found := true;
    }

    method Clear()
      requires Valid()
      modifies this
      ensures Valid() && Repr <= old(Repr) && forest == []
    {
      slots, forest, Repr := [], [], {this};
    }
  }

  /** A run of calls on a new map leaves the forest that RangeHistory.Run describes. */
  method Replay<E(0)>(ops: seq<Op<E>>, allowEqual: bool) returns (m: ContainedRangeMap<E>)
    ensures m.Valid() && m.allowEqualRange == allowEqual && m.forest == Run(ops, allowEqual).forest
  {
    m := new ContainedRangeMap<E>(allowEqual);
    for i := 0 to |ops|
      invariant fresh(m.Repr) && m.Valid() && m.allowEqualRange == allowEqual
      invariant m.forest == Run(ops[..i], allowEqual).forest
    {
      assert ops[..i + 1][..i] == ops[..i];
      match ops[i] {
        case Clear => m.Clear();
        case Put(base, size, entry) => var ok := m.StoreRange(base, size, entry);
      }
    }
    assert ops[..|ops|] == ops;
  }
}
