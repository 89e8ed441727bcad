/**
 The heap manager itself: an `AllocBox` owns three maps from binding to
 value and updates them in place. Each operation except `ShadeWhite` and
 `FindIdMut` (which have no counterpart there) is proved to leave the state
 the `TriColour` function of the same name describes (and to return its
 result); `MarkRoots` does so when the heap was valid beforehand. The
 properties of those functions are proved in tricolour.dfy.
 */
module Alloc {
  import opened JsTypes
  import TriColour

  /** Which of the three maps an entry lookup lands in. */
  datatype Colour = White | Grey | Black

  class AllocBox {
    var white: TriColour.Slots
    var grey: TriColour.Slots
    var black: TriColour.Slots

    /** The abstract value of the heap. */
    function State(): TriColour.Heap
      reads this
    {
      TriColour.Heap(white, grey, black)
    }

    /** The colours are pairwise disjoint. */
    ghost predicate Valid()
      reads this
    {
      TriColour.Valid(State())
    }

    constructor ()
      ensures State() == TriColour.Empty()
      ensures Valid() && IsEmpty()
    {
      white, grey, black := map[], map[], map[];
    }

    function Len(): nat
      reads this
    {
      TriColour.Len(State())
    }

    function IsEmpty(): bool
      reads this
    {
      TriColour.IsEmpty(State())
    }

    function FindId(binding: Binding): Option<JsPtrEnum>
      reads this
    {
      TriColour.Find(State(), binding)
    }

    /** The map whose entry for `binding` an update goes to: the first that holds it, else black. */
    function FindIdMut(binding: Binding): (c: Colour)
      reads this
      ensures c == White <==> binding in white
      ensures c == Grey <==> binding !in white && binding in grey
      ensures c == White ==> FindId(binding) == Some(white[binding])
      ensures c == Grey ==> FindId(binding) == Some(grey[binding])
      ensures c == Black ==> FindId(binding) == (if binding in black then Some(black[binding]) else None)
    {
      if binding in white then White
      else if binding in grey then Grey
      else Black
    }

    /**
     Allocation: inserts into white, then fails if that displaced an entry.
     Only white is checked, so disjointness survives exactly when the binding
     is neither grey nor black.
     */
    method Alloc(binding: Binding, ptr: JsPtrEnum) returns (r: Result)
      modifies this
      ensures (State(), r) == TriColour.Alloc(old(State()), binding, ptr)
      ensures old(Valid()) ==> (Valid() <==> binding !in old(grey) && binding !in old(black))
    {
      ghost var h0 := State();
      var previous := TriColour.Get(white, binding);
      white := white[binding := ptr];
      if previous.None? {
        r := Ok;
      } else {
        r := Err(GcError.Alloc(binding));
      }
      if TriColour.Valid(h0) {
        TriColour.AllocValid(h0, binding, ptr);
      }
    }

    /** Removes `binding` from all three maps, returning the value it had in the first that held it. */
    method RemoveBinding(binding: Binding) returns (ptr: Option<JsPtrEnum>)
      modifies this
      ensures (State(), ptr) == TriColour.RemoveBinding(old(State()), binding)
    {
      var fromWhite := TriColour.Get(white, binding);
      white := white - {binding};
      var fromGrey := TriColour.Get(grey, binding);
      grey := grey - {binding};
      var fromBlack := TriColour.Get(black, binding);
      black := black - {binding};
      ptr := fromWhite.Or(fromGrey.Or(fromBlack));
    }

    /** Rebinding: moves the value under `oldBnd` into white under `newBnd`. */
    method Realloc(oldBnd: Binding, newBnd: Binding) returns (r: Result)
      modifies this
      ensures (State(), r) == TriColour.Realloc(old(State()), oldBnd, newBnd)
      ensures old(Valid()) && (newBnd == oldBnd || (newBnd !in old(grey) && newBnd !in old(black)))
        ==> Valid()
    {
      ghost var h0 := State();
      var removed := RemoveBinding(oldBnd);
      if removed.Some? {
        white := white[newBnd := removed.value];
        r := Ok;
        if TriColour.Valid(h0) {
          TriColour.ReallocValid(h0, oldBnd, newBnd);
        }
      } else {
        r := Err(HeapUpdate);
        TriColour.ReallocMissing(h0, oldBnd, newBnd);
      }
    }

    /** Replaces the value of `binding` where it is, without changing its colour. */
    method UpdatePtr(binding: Binding, ptr: JsPtrEnum) returns (r: Result)
      modifies this
      ensures (State(), r) == TriColour.UpdatePtr(old(State()), binding, ptr)
      ensures old(Valid()) ==> Valid()
    {
      ghost var h0 := State();
      if TriColour.Valid(h0) {
        TriColour.UpdatePtrValid(h0, binding, ptr);
      }
      match FindIdMut(binding)
      case White =>
        white := white[binding := ptr];
        r := Ok;
      case Grey =>
        grey := grey[binding := ptr];
        r := Ok;
      case Black =>
        if binding in black {
          black := black[binding := ptr];
          r := Ok;
        } else {
          r := Err(HeapUpdate);
        }
    }

    /** Moves each of `childIds` that is white into grey. */
    method GreyChildren(childIds: set<Binding>)
      modifies this
      ensures State() == TriColour.GreyChildren(old(State()), childIds)
    {
      grey := ShadeWhite(childIds, grey);
    }

    /**
     Marks every root held white or grey black and shades its white children;
     other roots are skipped. The roots are taken in an arbitrary order.
     */
    method MarkRoots(marks: set<Binding>)
      modifies this
      ensures old(Valid()) ==> State() == TriColour.MarkRoots(old(State()), marks)
      ensures old(Valid()) ==> Valid()
      ensures TriColour.Live(State()) == TriColour.Live(old(State()))
      ensures forall r :: r in marks && r in TriColour.Live(old(State())) ==> r in black
    {
      ghost var h0 := State();
      var todo := marks;
      TriColour.MarkRootsNone(h0);
      while todo != {}
        invariant todo <= marks
        invariant TriColour.Valid(h0) ==> State() == TriColour.MarkRoots(h0, marks - todo)
        invariant TriColour.Live(State()) == TriColour.Live(h0)
        invariant forall r :: r in marks - todo && r in TriColour.Live(h0) ==> r in black
        decreases todo
      {
        var mark :| mark in todo;
        ghost var before := State();
        if mark in white {
          var ptr := white[mark];
          white := white - {mark};
          var childIds := TriColour.GetPtrChildren(ptr);
          black := black[mark := ptr];
          GreyChildren(childIds);
        } else if mark in grey {
          var ptr := grey[mark];
          grey := grey - {mark};
          var childIds := TriColour.GetPtrChildren(ptr);
          black := black[mark := ptr];
          GreyChildren(childIds);
        }
        assert State() == TriColour.MarkRoot(before, mark);
        TriColour.MarkRootMovesOnly(before, mark);
        if TriColour.Valid(h0) {
          TriColour.MarkRootsInsert(h0, marks - todo, mark);
        }
        assert (marks - todo) + {mark} == marks - (todo - {mark});
        todo := todo - {mark};
      }
      assert marks - todo == marks;
      if TriColour.Valid(h0) {
        TriColour.MarkRootsValid(h0, marks);
      }
    }

    /**
     One marking generation: drains grey into black and collects the white
     children of the drained entries as the new grey map.
     */
    method MarkPtrs()
      modifies this
      ensures State() == TriColour.MarkPtrs(old(State()))
      ensures old(Valid()) ==> Valid()
    {
      ghost var h0 := State();
      var newGreySet: TriColour.Slots := map[];
      var draining := grey;
      grey := map[];
      // the entries drained so far, and the children they name
      ghost var drained: TriColour.Slots := map[];
      ghost var reached: set<Binding> := {};
      while draining.Keys != {}
        invariant Draining(h0, drained, draining, reached, white, black, newGreySet)
        invariant grey == map[]
        decreases draining.Keys
      {
        var bnd :| bnd in draining;
        var ptr := draining[bnd];
        ghost var (drainingBefore, whiteBefore, newGreyBefore) := (draining, white, newGreySet);
        draining := draining - {bnd};
        var childIds := TriColour.GetPtrChildren(ptr);
        black := black[bnd := ptr];
        newGreySet := ShadeWhite(childIds, newGreySet);
        DrainStep(h0, drained, drainingBefore, reached, whiteBefore, newGreyBefore, bnd);
        drained := drained[bnd := ptr];
        reached := reached + childIds;
      }
      DrainDone(h0, drained, draining, reached, white, black, newGreySet);
      grey := newGreySet;
      if TriColour.Valid(h0) {
        TriColour.MarkPtrsValid(h0);
      }
    }

    /**
     The inner loop of `MarkPtrs`: moves each of `childIds` that is white out
     of white and into `into`, leaving grey and black alone.
     */
    method ShadeWhite(childIds: set<Binding>, into: TriColour.Slots) returns (shaded: TriColour.Slots)
      modifies this
      ensures white == old(white) - childIds
      ensures shaded == into + TriColour.Restrict(old(white), childIds)
      ensures grey == old(grey) && black == old(black)
    {
      shaded := into;
      var todo := childIds;
      while todo != {}
        invariant todo <= childIds
        invariant grey == old(grey) && black == old(black)
        invariant white == old(white) - (childIds - todo)
        invariant shaded == into + TriColour.Restrict(old(white), childIds - todo)
        decreases todo
      {
        var childId :| childId in todo;
        ShadeOne(old(white), into, childIds - todo, childId);
        assert (childIds - todo) + {childId} == childIds - (todo - {childId});
        if childId in white {
          shaded := shaded[childId := white[childId]];
          white := white - {childId};
        }
        todo := todo - {childId};
      }
    }

    /** Sweep: white becomes the old black map; grey and black are cleared. */
    method SweepPtrs()
      modifies this
      ensures State() == TriColour.SweepPtrs(old(State()))
      ensures Valid()
    {
      white, black := black, map[];
      grey := map[];
    }
  }

  /**
   The invariant of the loop of `MarkPtrs`: `drained` holds the grey entries
   moved to black so far, `reached` the children they name, the white ones
   of which have moved from white to the new grey map.
   */
  ghost predicate Draining(h0: TriColour.Heap, drained: TriColour.Slots, draining: TriColour.Slots,
                           reached: set<Binding>, white: TriColour.Slots, black: TriColour.Slots,
                           newGrey: TriColour.Slots)
  {
    && drained.Keys !! draining.Keys && drained + draining == h0.grey
    && reached == TriColour.Reached(drained)
    && black == h0.black + drained
    && white == h0.white - reached
    && newGrey == TriColour.Restrict(h0.white, reached)
  }

  /** Draining one more grey entry keeps the invariant of `MarkPtrs`. */
  lemma DrainStep(h0: TriColour.Heap, drained: TriColour.Slots, draining: TriColour.Slots,
                  reached: set<Binding>, white: TriColour.Slots, newGrey: TriColour.Slots, bnd: Binding)
    requires Draining(h0, drained, draining, reached, white, h0.black + drained, newGrey)
    requires bnd in draining
    ensures
      var ptr := draining[bnd];
      var childIds := TriColour.GetPtrChildren(ptr);
      Draining(h0, drained[bnd := ptr], draining - {bnd}, reached + childIds,
               white - childIds, h0.black + drained[bnd := ptr],
               newGrey + TriColour.Restrict(white, childIds))
  {
    var ptr := draining[bnd];
    var childIds := TriColour.GetPtrChildren(ptr);
    assert bnd !in drained;
    assert drained[bnd := ptr] + (draining - {bnd}) == h0.grey;
    TriColour.ReachedAdd(drained, bnd, ptr);
    assert white - childIds == h0.white - (reached + childIds);
    assert newGrey + TriColour.Restrict(white, childIds) == TriColour.Restrict(h0.white, reached + childIds);
  }

  /** When nothing is left to drain, the invariant of `MarkPtrs` gives its result. */
  lemma DrainDone(h0: TriColour.Heap, drained: TriColour.Slots, draining: TriColour.Slots,
                  reached: set<Binding>, white: TriColour.Slots, black: TriColour.Slots,
                  newGrey: TriColour.Slots)
    requires Draining(h0, drained, draining, reached, white, black, newGrey)
    requires draining.Keys == {}
    ensures TriColour.Heap(white, newGrey, black) == TriColour.MarkPtrs(h0)
  {
    assert draining == map[];
    assert drained == h0.grey;
  }

  /**
   One step of shading: moving `k` from white (what is left of `w0` once
   `done` has been shaded) into `into` (`g0` plus the entries shaded so far).
   */
  lemma ShadeOne(w0: TriColour.Slots, g0: TriColour.Slots, done: set<Binding>, k: Binding)
    requires k !in done
    ensures
      var white := w0 - done;
      var into := g0 + TriColour.Restrict(w0, done);
      && (k in white ==> into[k := white[k]] == g0 + TriColour.Restrict(w0, done + {k}))
      && (k in white ==> white - {k} == w0 - (done + {k}))
      && (k !in white ==> into == g0 + TriColour.Restrict(w0, done + {k}))
      && (k !in white ==> white == w0 - (done + {k}))
  {
    TriColour.RestrictAdd(w0, done, k);
  }
}
