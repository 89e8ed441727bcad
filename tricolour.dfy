/**
 The abstract state of the tri-colour heap and the effect of each of its
 operations, as pure functions, with the properties the collector relies on.

 A heap is three maps from binding to value: white (not yet shown reachable
 in this cycle), grey (reachable, children not yet scanned) and black
 (reachable, children scanned). Each function below gives the state an
 operation of `AllocBox` leaves behind (and its result); the class in
 alloc_box.dfy is proved to compute exactly these, except that its root
 marking is proved to match `MarkRoots` only from a heap whose colours are
 disjoint.
 */
module TriColour {
  import opened JsTypes

  type Slots = map<Binding, JsPtrEnum>

  datatype Heap = Heap(white: Slots, grey: Slots, black: Slots)

  function Empty(): Heap {
    Heap(map[], map[], map[])
  }

  /** The colour invariant: a binding is in at most one of the three maps. */
  ghost predicate Valid(h: Heap) {
    && h.white.Keys !! h.grey.Keys
    && h.white.Keys !! h.black.Keys
    && h.grey.Keys !! h.black.Keys
  }

  /** Every binding the heap holds, whatever its colour. */
  function Live(h: Heap): set<Binding> {
    h.white.Keys + h.grey.Keys + h.black.Keys
  }

  /**
   The number of entries: the three map sizes added up. It counts every
   binding the heap holds, and counts each exactly once while the colours
   are disjoint.
   */
  function Len(h: Heap): (n: nat)
    ensures |Live(h)| <= n
    ensures Valid(h) ==> n == |Live(h)|
  {
    LiveCard(h);
    |h.black| + |h.grey| + |h.white|
  }

  function IsEmpty(h: Heap): (e: bool)
    ensures e <==> Live(h) == {}
    ensures e <==> h == Empty()
  {
    assert |h.white| == |h.white.Keys| && |h.grey| == |h.grey.Keys| && |h.black| == |h.black.Keys|;
    Len(h) == 0
  }

  function Get(m: Slots, b: Binding): Option<JsPtrEnum> {
    if b in m then Some(m[b]) else None
  }

  /** The entries of `m` whose keys are in `s`. */
  function Restrict(m: Slots, s: set<Binding>): Slots {
    map k | k in m && k in s :: m[k]
  }

  /** Widening a restriction by one key adds that key's entry, if any. */
  lemma RestrictAdd(m: Slots, s: set<Binding>, k: Binding)
    ensures Restrict(m, s + {k}) == if k in m then Restrict(m, s)[k := m[k]] else Restrict(m, s)
  {
  }

  /** The direct references of a value: an object's children, nothing for a leaf. */
  function GetPtrChildren(ptr: JsPtrEnum): (c: set<Binding>)
    ensures ptr.JsObj? ==> c == ptr.children
    ensures ptr.JsStr? ==> c == {}
  {
    if ptr.JsObj? then ptr.children else {}
  }

  /** Every binding named as a child by some value of `m`. */
  function Reached(m: Slots): set<Binding> {
    set k, c | k in m && c in GetPtrChildren(m[k]) :: c
  }

  /**
   Lookup: the value in the first of white, grey, black that holds `b`.
   While the colours are disjoint the search order does not matter.
   */
  function Find(h: Heap, b: Binding): (r: Option<JsPtrEnum>)
    ensures r.Some? <==> b in Live(h)
    ensures b in h.white ==> r == Some(h.white[b])
    ensures b !in h.white && b in h.grey ==> r == Some(h.grey[b])
    ensures b !in h.white && b !in h.grey && b in h.black ==> r == Some(h.black[b])
    ensures Valid(h) && b in h.grey ==> r == Some(h.grey[b])
    ensures Valid(h) && b in h.black ==> r == Some(h.black[b])
  {
    Get(h.white, b).Or(Get(h.grey, b).Or(Get(h.black, b)))
  }

  /** The children of the value stored under `b`, none when `b` is absent. */
  function ChildrenOf(h: Heap, b: Binding): set<Binding> {
    match Find(h, b)
    case Some(v) => GetPtrChildren(v)
    case None => {}
  }

  // ---------------------------------------------------------------------
  // The operations

  /**
   Allocation inserts `b |-> v` into white first and only then looks at what
   the insertion displaced: a previous white entry for `b` is an error, but
   the new value has already replaced it.
   */
  function Alloc(h: Heap, b: Binding, v: JsPtrEnum): (Heap, Result) {
    var previous := Get(h.white, b);
    (h.(white := h.white[b := v]),
     if previous.None? then Ok else Err(GcError.Alloc(b)))
  }

  /** In-place replacement of the value in the first map that holds `b`. */
  function UpdatePtr(h: Heap, b: Binding, v: JsPtrEnum): (Heap, Result) {
    if b in h.white then (h.(white := h.white[b := v]), Ok)
    else if b in h.grey then (h.(grey := h.grey[b := v]), Ok)
    else if b in h.black then (h.(black := h.black[b := v]), Ok)
    else (h, Err(HeapUpdate))
  }

  /**
   Removal of `b` from all three maps (the three removals all happen); the
   value returned is the white one, else the grey one, else the black one.
   */
  function RemoveBinding(h: Heap, b: Binding): (Heap, Option<JsPtrEnum>) {
    (Heap(h.white - {b}, h.grey - {b}, h.black - {b}),
     Get(h.white, b).Or(Get(h.grey, b).Or(Get(h.black, b))))
  }

  /** Rebinding: the value under `oldBnd` moves to white under `newBnd`. */
  function Realloc(h: Heap, oldBnd: Binding, newBnd: Binding): (Heap, Result) {
    var (rest, ptr) := RemoveBinding(h, oldBnd);
    if ptr.Some? then (rest.(white := rest.white[newBnd := ptr.value]), Ok)
    else (rest, Err(HeapUpdate))
  }

  /** Shading: each of `childIds` that is white moves to grey. */
  function GreyChildren(h: Heap, childIds: set<Binding>): Heap {
    Heap(h.white - childIds, h.grey + Restrict(h.white, childIds), h.black)
  }

  /**
   One root of `MarkRoots`: a white or grey root becomes black and its white
   children grey; a black or absent root is skipped.
   */
  function MarkRoot(h: Heap, r: Binding): Heap {
    if r in h.white then
      var ptr := h.white[r];
      GreyChildren(Heap(h.white - {r}, h.grey, h.black[r := ptr]), GetPtrChildren(ptr))
    else if r in h.grey then
      var ptr := h.grey[r];
      GreyChildren(Heap(h.white, h.grey - {r}, h.black[r := ptr]), GetPtrChildren(ptr))
    else h
  }

  /** The roots `MarkRoots` blackens (those in white or grey), with their values. */
  function Promoted(h: Heap, roots: set<Binding>): Slots {
    map r | r in roots && (r in h.white || r in h.grey) ::
      if r in h.white then h.white[r] else h.grey[r]
  }

  /**
   The state after marking every root of `roots`, in whatever order: the
   promoted roots are black, their white children that are not themselves
   promoted are grey, everything else keeps its colour.
   */
  function MarkRoots(h: Heap, roots: set<Binding>): (r: Heap)
    ensures Live(r) == Live(h)
    ensures h.black.Keys <= r.black.Keys
  {
    var promoted := Promoted(h, roots);
    var shaded := Reached(promoted) - promoted.Keys;
    Heap(h.white - promoted.Keys - shaded,
         (h.grey - promoted.Keys) + Restrict(h.white, shaded),
         h.black + promoted)
  }

  /** One marking generation: grey becomes black, its white children the new grey. */
  function MarkPtrs(h: Heap): (r: Heap)
    ensures r.black.Keys == h.black.Keys + h.grey.Keys
  {
    var shaded := Reached(h.grey);
    Heap(h.white - shaded, Restrict(h.white, shaded), h.black + h.grey)
  }

  /** Sweep: white and grey entries are dropped, black entries become white. */
  function SweepPtrs(h: Heap): Heap {
    Heap(h.black, map[], map[])
  }

  /**
   Marking generations repeated until nothing is grey, as the caller of
   `mark_ptrs` drives them. Every generation with something grey shrinks the
   number of white and grey entries, so this takes at most that many
   generations and always ends with nothing grey.
   */
  function MarkToFixpoint(h: Heap): (r: Heap)
    ensures r.grey == map[]
    decreases |h.white| + |h.grey|
  {
    if |h.grey| == 0 then
      assert h.grey == map[];
      h
    else
      MarkPtrsShrinks(h);
      MarkToFixpoint(MarkPtrs(h))
  }

  // ---------------------------------------------------------------------
  // Size and emptiness

  /** A fresh heap holds nothing. */
  lemma EmptyHeap()
    ensures Valid(Empty()) && Len(Empty()) == 0 && IsEmpty(Empty())
  {
  }

  /** The bindings held number at most the summed map sizes, and exactly that while the colours are disjoint. */
  lemma LiveCard(h: Heap)
    ensures |Live(h)| <= |h.black| + |h.grey| + |h.white|
    ensures Valid(h) ==> |Live(h)| == |h.black| + |h.grey| + |h.white|
  {
    var w, g, b := h.white.Keys, h.grey.Keys, h.black.Keys;
    assert |h.white| == |w| && |h.grey| == |g| && |h.black| == |b|;
    assert |w + g| + |w * g| == |w| + |g|;
    assert |w + g + b| + |(w + g) * b| == |w + g| + |b|;
    if Valid(h) {
      assert w * g == {};
      assert (w + g) * b == {};
    }
  }

  /** Two disjoint heaps holding the same bindings have the same length. */
  lemma SameLiveSameLen(h: Heap, h': Heap)
    requires Valid(h) && Valid(h') && Live(h) == Live(h')
    ensures Len(h) == Len(h')
  {
  }

  // ---------------------------------------------------------------------
  // Allocation

  /** Allocating a binding white does not hold succeeds and adds it to white. */
  lemma AllocFresh(h: Heap, b: Binding, v: JsPtrEnum)
    requires b !in h.white
    ensures Alloc(h, b, v).1 == Ok
    ensures Alloc(h, b, v).0 == Heap(h.white[b := v], h.grey, h.black)
    ensures b !in Live(h) ==> Len(Alloc(h, b, v).0) == Len(h) + 1
  {
  }

  /**
   Allocating a binding white already holds fails naming that binding, yet
   replaces its white value with the new one and changes nothing else: every
   key set, the length and every other lookup stay as they were.
   */
  lemma AllocConflict(h: Heap, b: Binding, v: JsPtrEnum)
    requires b in h.white
    ensures Alloc(h, b, v).1 == Err(GcError.Alloc(b))
    ensures Alloc(h, b, v).0 == Heap(h.white[b := v], h.grey, h.black)
    ensures forall k :: k != b ==> Find(Alloc(h, b, v).0, k) == Find(h, k)
    ensures Alloc(h, b, v).0.white.Keys == h.white.Keys
    ensures Alloc(h, b, v).0.white[b] == v
    ensures Alloc(h, b, v).0.grey == h.grey && Alloc(h, b, v).0.black == h.black
    ensures Len(Alloc(h, b, v).0) == Len(h)
  {
    assert h.white[b := v].Keys == h.white.Keys;
  }

  /** Allocation keeps the colours disjoint exactly when `b` is neither grey nor black. */
  lemma AllocValid(h: Heap, b: Binding, v: JsPtrEnum)
    requires Valid(h)
    ensures Valid(Alloc(h, b, v).0) <==> b !in h.grey && b !in h.black
  {
    var h' := Alloc(h, b, v).0;
    if b in h.grey {
      assert b in h'.white.Keys * h'.grey.Keys;
    } else if b in h.black {
      assert b in h'.white.Keys * h'.black.Keys;
    }
  }

  /** Whatever allocation returns, a lookup of `b` then finds the new value. */
  lemma AllocThenFind(h: Heap, b: Binding, v: JsPtrEnum)
    ensures Find(Alloc(h, b, v).0, b) == Some(v)
  {
  }

  // ---------------------------------------------------------------------
  // Lookup, update and rebinding

  /**
   Updating a present binding succeeds, changes no key's colour, makes a
   lookup of it return the new value and leaves every other lookup alone.
   */
  lemma UpdatePtrFound(h: Heap, b: Binding, v: JsPtrEnum)
    requires b in Live(h)
    ensures UpdatePtr(h, b, v).1 == Ok
    ensures UpdatePtr(h, b, v).0.white.Keys == h.white.Keys
    ensures UpdatePtr(h, b, v).0.grey.Keys == h.grey.Keys
    ensures UpdatePtr(h, b, v).0.black.Keys == h.black.Keys
    ensures Find(UpdatePtr(h, b, v).0, b) == Some(v)
    ensures forall k :: k != b ==> Find(UpdatePtr(h, b, v).0, k) == Find(h, k)
  {
  }

  /** Updating an absent binding fails and changes nothing. */
  lemma UpdatePtrMissing(h: Heap, b: Binding, v: JsPtrEnum)
    requires b !in Live(h)
    ensures UpdatePtr(h, b, v) == (h, Err(HeapUpdate))
  {
  }

  /** Updating keeps the colours disjoint and the length. */
  lemma UpdatePtrValid(h: Heap, b: Binding, v: JsPtrEnum)
    requires Valid(h)
    ensures Valid(UpdatePtr(h, b, v).0)
    ensures Len(UpdatePtr(h, b, v).0) == Len(h)
  {
    var h' := UpdatePtr(h, b, v).0;
    assert Live(h') == Live(h);
    SameLiveSameLen(h, h');
  }

  /**
   Removing a binding takes it out of every map, leaves everything else in
   place and returns what a lookup would have returned.
   */
  lemma RemoveBindingClears(h: Heap, b: Binding)
    ensures RemoveBinding(h, b).1 == Find(h, b)
    ensures Live(RemoveBinding(h, b).0) == Live(h) - {b}
    ensures forall k :: k != b ==> Find(RemoveBinding(h, b).0, k) == Find(h, k)
  {
  }

  /**
   Rebinding a present binding succeeds: `oldBnd` leaves every map and white
   maps `newBnd` to the value a lookup of `oldBnd` returned.
   */
  lemma ReallocFound(h: Heap, oldBnd: Binding, newBnd: Binding)
    requires oldBnd in Live(h)
    ensures Realloc(h, oldBnd, newBnd).1 == Ok
    ensures Realloc(h, oldBnd, newBnd).0 ==
      Heap((h.white - {oldBnd})[newBnd := Find(h, oldBnd).value], h.grey - {oldBnd}, h.black - {oldBnd})
    ensures Find(Realloc(h, oldBnd, newBnd).0, newBnd) == Find(h, oldBnd)
    ensures oldBnd != newBnd ==> Find(Realloc(h, oldBnd, newBnd).0, oldBnd) == None
  {
  }

  /** Rebinding an absent binding fails and changes nothing. */
  lemma ReallocMissing(h: Heap, oldBnd: Binding, newBnd: Binding)
    requires oldBnd !in Live(h)
    ensures Realloc(h, oldBnd, newBnd) == (h, Err(HeapUpdate))
  {
    assert h.white - {oldBnd} == h.white;
    assert h.grey - {oldBnd} == h.grey;
    assert h.black - {oldBnd} == h.black;
  }

  /**
   A successful rebinding keeps the colours disjoint exactly when `newBnd` is
   `oldBnd` or is neither grey nor black.
   */
  lemma ReallocValid(h: Heap, oldBnd: Binding, newBnd: Binding)
    requires Valid(h) && oldBnd in Live(h)
    ensures Valid(Realloc(h, oldBnd, newBnd).0) <==>
      newBnd == oldBnd || (newBnd !in h.grey && newBnd !in h.black)
  {
    var h' := Realloc(h, oldBnd, newBnd).0;
    if newBnd != oldBnd && newBnd in h.grey {
      assert newBnd in h'.white.Keys * h'.grey.Keys;
    } else if newBnd != oldBnd && newBnd in h.black {
      assert newBnd in h'.white.Keys * h'.black.Keys;
    }
  }

  /**
   The state a successful rebinding leaves, seen through its bindings: the
   old binding is replaced by the new one, whatever colour the new one had.
   */
  lemma ReallocLive(h: Heap, oldBnd: Binding, newBnd: Binding)
    requires oldBnd in Live(h)
    ensures Live(Realloc(h, oldBnd, newBnd).0) == (Live(h) - {oldBnd}) + {newBnd}
  {
    var h' := Realloc(h, oldBnd, newBnd).0;
    assert h'.white.Keys == (h.white.Keys - {oldBnd}) + {newBnd};
    assert h'.grey.Keys == h.grey.Keys - {oldBnd};
    assert h'.black.Keys == h.black.Keys - {oldBnd};
  }

  /**
   A rebinding on a valid heap keeps the length, except that it shrinks the
   heap by one when it overwrites another white entry. This holds whatever
   the colour of the new binding, even when the result is no longer valid.
   */
  lemma ReallocLen(h: Heap, oldBnd: Binding, newBnd: Binding)
    requires Valid(h) && oldBnd in Live(h)
    ensures Len(Realloc(h, oldBnd, newBnd).0) ==
      if newBnd != oldBnd && newBnd in h.white then Len(h) - 1 else Len(h)
  {
    var h' := Realloc(h, oldBnd, newBnd).0;
    ReallocFound(h, oldBnd, newBnd);
    var w := h.white - {oldBnd};
    assert |w| + |h.grey - {oldBnd}| + |h.black - {oldBnd}| == Len(h) - 1 by {
      RemoveCard(h.white, oldBnd);
      RemoveCard(h.grey, oldBnd);
      RemoveCard(h.black, oldBnd);
    }
    assert h'.white == w[newBnd := Find(h, oldBnd).value];
    assert |h'.white| == if newBnd in w then |w| else |w| + 1;
  }

  /** Removing a key from a map shrinks it by one exactly when the key was there. */
  lemma RemoveCard(m: Slots, k: Binding)
    ensures |m - {k}| == if k in m then |m| - 1 else |m|
  {
    if k in m {
      assert (m - {k}).Keys == m.Keys - {k};
      assert |m.Keys - {k}| == |m.Keys| - 1;
    } else {
      assert m - {k} == m;
    }
  }

  // ---------------------------------------------------------------------
  // Root marking

  /** Adding an entry to a map adds its value's children to what the map reaches. */
  lemma ReachedAdd(m: Slots, k: Binding, v: JsPtrEnum)
    requires k !in m
    ensures Reached(m[k := v]) == Reached(m) + GetPtrChildren(v)
  {
    var m' := m[k := v];
    forall c | c in Reached(m') ensures c in Reached(m) + GetPtrChildren(v) {
      var k' :| k' in m' && c in GetPtrChildren(m'[k']);
      if k' != k {
        assert k' in m && c in GetPtrChildren(m[k']);
      }
    }
    forall c | c in Reached(m) + GetPtrChildren(v) ensures c in Reached(m') {
      if c in GetPtrChildren(v) {
        assert k in m' && c in GetPtrChildren(m'[k]);
      } else {
        var k' :| k' in m && c in GetPtrChildren(m[k']);
        assert k' in m' && c in GetPtrChildren(m'[k']);
      }
    }
  }

  /** The promoted roots are the roots held white or grey, with the values held there. */
  lemma PromotedShape(h: Heap, roots: set<Binding>)
    ensures Promoted(h, roots).Keys == roots * (h.white.Keys + h.grey.Keys)
    ensures forall r :: r in Promoted(h, roots) ==> Find(h, r) == Some(Promoted(h, roots)[r])
  {
  }

  /** Root marking keeps the colours disjoint and loses or gains no binding. */
  lemma MarkRootsValid(h: Heap, roots: set<Binding>)
    requires Valid(h)
    ensures Valid(MarkRoots(h, roots))
    ensures Live(MarkRoots(h, roots)) == Live(h)
  {
    var p := Promoted(h, roots);
    PromotedShape(h, roots);
    var shaded := Reached(p) - p.Keys;
    var h' := MarkRoots(h, roots);
    assert h'.white.Keys == h.white.Keys - p.Keys - shaded;
    assert h'.grey.Keys == (h.grey.Keys - p.Keys) + (h.white.Keys * shaded);
    assert h'.black.Keys == h.black.Keys + p.Keys;
  }

  /** Root marking keeps the length. */
  lemma MarkRootsLen(h: Heap, roots: set<Binding>)
    requires Valid(h)
    ensures Len(MarkRoots(h, roots)) == Len(h)
  {
    MarkRootsValid(h, roots);
    SameLiveSameLen(h, MarkRoots(h, roots));
  }

  /** Root marking changes colours only: every lookup returns what it did before. */
  lemma MarkRootsFind(h: Heap, roots: set<Binding>, b: Binding)
    requires Valid(h)
    ensures Find(MarkRoots(h, roots), b) == Find(h, b)
  {
    MarkRootsValid(h, roots);
    PromotedShape(h, roots);
  }

  /** Marking no root changes nothing. */
  lemma MarkRootsNone(h: Heap)
    ensures MarkRoots(h, {}) == h
  {
    assert Promoted(h, {}) == map[];
    assert Reached(map[]) == {};
    assert h.white - {} - {} == h.white;
    assert (h.grey - {}) + Restrict(h.white, {}) == h.grey;
    assert h.black + map[] == h.black;
  }

  /** On a disjoint heap, marking a white or grey root takes it out of both and shades its children. */
  lemma MarkRootOnValid(h: Heap, r: Binding)
    requires Valid(h) && (r in h.white || r in h.grey)
    ensures MarkRoot(h, r) ==
      GreyChildren(Heap(h.white - {r}, h.grey - {r}, h.black[r := Find(h, r).value]),
                   GetPtrChildren(Find(h, r).value))
  {
    if r in h.white {
      assert h.grey - {r} == h.grey;
    } else {
      assert h.white - {r} == h.white;
    }
  }

  /**
   Whatever the colours, marking one root moves entries between maps only:
   nothing is added or dropped, black only grows, and a root the heap holds
   is black afterwards.
   */
  lemma MarkRootMovesOnly(h: Heap, r: Binding)
    ensures Live(MarkRoot(h, r)) == Live(h)
    ensures h.black.Keys <= MarkRoot(h, r).black.Keys
    ensures r in Live(h) ==> r in MarkRoot(h, r).black
  {
  }

  /** A root that is neither white nor grey changes neither what is promoted nor the heap. */
  lemma MarkRootsInsertSkipped(h: Heap, done: set<Binding>, r: Binding)
    requires Valid(h) && r !in h.white && r !in h.grey
    ensures MarkRoots(h, done + {r}) == MarkRoot(MarkRoots(h, done), r)
  {
    assert Promoted(h, done + {r}) == Promoted(h, done);
    var h1 := MarkRoots(h, done);
    assert r !in h1.white && r !in h1.grey;
  }

  /**
   Marking one more root after a set of them gives the state the closed form
   gives for the larger set: so the state after the loop of `MarkRoots` does
   not depend on the order the roots come in.
   */
  lemma MarkRootsInsert(h: Heap, done: set<Binding>, r: Binding)
    requires Valid(h) && r !in done
    ensures MarkRoots(h, done + {r}) == MarkRoot(MarkRoots(h, done), r)
  {
    if r !in h.white && r !in h.grey {
      MarkRootsInsertSkipped(h, done, r);
    } else {
      var p := Promoted(h, done);
      var v := Find(h, r).value;
      PromotedShape(h, done);
      PromotedShape(h, done + {r});
      assert Promoted(h, done + {r}) == p[r := v];
      ReachedAdd(p, r, v);
      var h1 := MarkRoots(h, done);
      MarkRootsValid(h, done);
      MarkRootsFind(h, done, r);
      MarkRootOnValid(h1, r);
      MarkRootsInsertParts(h, p, v, r);
    }
  }

  /** The three maps of `MarkRootsInsert`, one at a time. */
  lemma MarkRootsInsertParts(h: Heap, p: Slots, v: JsPtrEnum, r: Binding)
    requires r !in p && p.Keys <= h.white.Keys + h.grey.Keys
    requires Valid(h) && (r in h.white || r in h.grey) && Find(h, r) == Some(v)
    ensures
      var s := Reached(p) - p.Keys;
      var p' := p[r := v];
      var s' := (Reached(p) + GetPtrChildren(v)) - p'.Keys;
      var h1 := Heap(h.white - p.Keys - s, (h.grey - p.Keys) + Restrict(h.white, s), h.black + p);
      GreyChildren(Heap(h1.white - {r}, h1.grey - {r}, h1.black[r := v]), GetPtrChildren(v)) ==
        Heap(h.white - p'.Keys - s', (h.grey - p'.Keys) + Restrict(h.white, s'), h.black + p')
  {
    var c := GetPtrChildren(v);
    var s := Reached(p) - p.Keys;
    var p' := p[r := v];
    var s' := (Reached(p) + c) - p'.Keys;
    var h1 := Heap(h.white - p.Keys - s, (h.grey - p.Keys) + Restrict(h.white, s), h.black + p);
    assert p'.Keys == p.Keys + {r};
    var out := GreyChildren(Heap(h1.white - {r}, h1.grey - {r}, h1.black[r := v]), c);
    assert out.white == h.white - p'.Keys - s' by {
      WhiteAfterInsert(h.white, p.Keys, Reached(p), c, r);
    }
    assert out.grey == (h.grey - p'.Keys) + Restrict(h.white, s') by {
      GreyAfterInsert(h.white, h.grey, p.Keys, Reached(p), c, r);
    }
    assert out.black == h.black + p';
  }

  lemma WhiteAfterInsert(w: Slots, pk: set<Binding>, reached: set<Binding>, c: set<Binding>, r: Binding)
    ensures w - pk - (reached - pk) - {r} - c == w - (pk + {r}) - ((reached + c) - (pk + {r}))
  {
    var lhs := w - pk - (reached - pk) - {r} - c;
    var rhs := w - (pk + {r}) - ((reached + c) - (pk + {r}));
    assert lhs.Keys == rhs.Keys;
  }

  lemma GreyAfterInsert(w: Slots, g: Slots, pk: set<Binding>, reached: set<Binding>, c: set<Binding>, r: Binding)
    requires w.Keys !! g.Keys && r !in pk
    ensures ((g - pk) + Restrict(w, reached - pk)) - {r} + Restrict(w - pk - (reached - pk) - {r}, c)
         == (g - (pk + {r})) + Restrict(w, (reached + c) - (pk + {r}))
  {
    var lhs := ((g - pk) + Restrict(w, reached - pk)) - {r} + Restrict(w - pk - (reached - pk) - {r}, c);
    var rhs := (g - (pk + {r})) + Restrict(w, (reached + c) - (pk + {r}));
    assert lhs.Keys == rhs.Keys;
    forall k | k in lhs ensures lhs[k] == rhs[k] {
      if k in g { assert k !in w; }
    }
  }

  /** Every root held white or grey ends black, holding the value it had. */
  lemma MarkRootsBlackens(h: Heap, roots: set<Binding>)
    requires Valid(h)
    ensures forall r :: r in roots && r in h.white ==>
      r in MarkRoots(h, roots).black && MarkRoots(h, roots).black[r] == h.white[r]
    ensures forall r :: r in roots && r in h.grey ==>
      r in MarkRoots(h, roots).black && MarkRoots(h, roots).black[r] == h.grey[r]
  {
    PromotedShape(h, roots);
  }

  /** Roots already black, or not in the heap at all, are skipped. */
  lemma MarkRootsSkips(h: Heap, roots: set<Binding>)
    requires Valid(h)
    ensures forall r :: r in roots && r in h.black ==>
      r in MarkRoots(h, roots).black && MarkRoots(h, roots).black[r] == h.black[r]
    ensures forall r :: r in roots && r !in Live(h) ==> r !in Live(MarkRoots(h, roots))
  {
    PromotedShape(h, roots);
  }

  /**
   A white child of a root that is marked (one held white or grey) becomes
   grey with its value, unless it is itself such a root.
   */
  lemma MarkRootsShades(h: Heap, roots: set<Binding>)
    requires Valid(h)
    ensures forall r, c ::
      (r in roots && (r in h.white || r in h.grey) && c in ChildrenOf(h, r) && c in h.white && c !in roots) ==>
        c in MarkRoots(h, roots).grey && MarkRoots(h, roots).grey[c] == h.white[c]
  {
    var p := Promoted(h, roots);
    PromotedShape(h, roots);
    forall r, c | r in roots && (r in h.white || r in h.grey) && c in ChildrenOf(h, r) &&
      c in h.white && c !in roots
      ensures c in Reached(p) - p.Keys
    {
      assert r in p && c in GetPtrChildren(p[r]);
    }
  }

  /**
   A white binding that is neither a root nor the child of a marked root
   stays white, and a grey binding that is not a root stays grey, both with
   their values.
   */
  lemma MarkRootsKeepsOthers(h: Heap, roots: set<Binding>)
    requires Valid(h)
    ensures forall k ::
      (k in h.white && k !in roots &&
       forall r :: r in roots && (r in h.white || r in h.grey) ==> k !in ChildrenOf(h, r)) ==>
        k in MarkRoots(h, roots).white && MarkRoots(h, roots).white[k] == h.white[k]
    ensures forall k :: k in h.grey && k !in roots ==>
      k in MarkRoots(h, roots).grey && MarkRoots(h, roots).grey[k] == h.grey[k]
  {
    PromotedShape(h, roots);
  }

  /** When no root is white or grey, root marking changes nothing. */
  lemma MarkRootsNothingToPromote(h: Heap, roots: set<Binding>)
    requires Promoted(h, roots) == map[]
    ensures MarkRoots(h, roots) == h
  {
    assert Reached(map[]) == {};
    assert h.white - {} - {} == h.white;
    assert (h.grey - {}) + Restrict(h.white, {}) == h.grey;
    assert h.black + map[] == h.black;
  }

  /** Marking the same roots a second time changes nothing. */
  lemma MarkRootsIdempotent(h: Heap, roots: set<Binding>)
    requires Valid(h)
    ensures MarkRoots(MarkRoots(h, roots), roots) == MarkRoots(h, roots)
  {
    var h1 := MarkRoots(h, roots);
    PromotedShape(h, roots);
    PromotedShape(h1, roots);
    assert Promoted(h1, roots).Keys == {};
    MarkRootsNothingToPromote(h1, roots);
  }

  // ---------------------------------------------------------------------
  // Incremental marking

  /** One marking generation keeps the colours disjoint and loses or gains no binding. */
  lemma MarkPtrsValid(h: Heap)
    requires Valid(h)
    ensures Valid(MarkPtrs(h))
    ensures Live(MarkPtrs(h)) == Live(h)
  {
    var h' := MarkPtrs(h);
    var shaded := Reached(h.grey);
    assert h'.white.Keys == h.white.Keys - shaded;
    assert h'.grey.Keys == h.white.Keys * shaded;
    assert h'.black.Keys == h.black.Keys + h.grey.Keys;
  }

  /** One marking generation keeps the length. */
  lemma MarkPtrsLen(h: Heap)
    requires Valid(h)
    ensures Len(MarkPtrs(h)) == Len(h)
  {
    MarkPtrsValid(h);
    SameLiveSameLen(h, MarkPtrs(h));
  }

  /**
   One marking generation changes colours only: every lookup returns what it
   did before, on any heap. A binding held twice keeps the colour a lookup
   sees first (white stays white or turns grey, grey turns black).
   */
  lemma MarkPtrsFind(h: Heap, b: Binding)
    ensures Find(MarkPtrs(h), b) == Find(h, b)
  {
  }

  /** One marking generation adds or drops no binding, on any heap. */
  lemma MarkPtrsLive(h: Heap)
    ensures Live(MarkPtrs(h)) == Live(h)
  {
    var h' := MarkPtrs(h);
    var shaded := Reached(h.grey);
    assert h'.white.Keys == h.white.Keys - shaded;
    assert h'.grey.Keys == h.white.Keys * shaded;
  }

  /**
   One marking generation: every grey entry becomes black with its value, the
   new grey entries are exactly the white children of the old grey entries,
   and the other white entries stay white.
   */
  lemma MarkPtrsColours(h: Heap)
    ensures forall g :: g in h.grey ==> g in MarkPtrs(h).black && MarkPtrs(h).black[g] == h.grey[g]
    ensures forall k :: k in h.black && k !in h.grey ==>
      k in MarkPtrs(h).black && MarkPtrs(h).black[k] == h.black[k]
    ensures forall c :: c in MarkPtrs(h).grey <==>
      c in h.white && exists g :: g in h.grey && c in GetPtrChildren(h.grey[g])
    ensures forall c :: c in MarkPtrs(h).grey ==> MarkPtrs(h).grey[c] == h.white[c]
    ensures forall k :: k in h.white && k !in MarkPtrs(h).grey ==>
      k in MarkPtrs(h).white && MarkPtrs(h).white[k] == h.white[k]
  {
  }

  /** With nothing grey, a marking generation is a no-op. */
  lemma MarkPtrsIdle(h: Heap)
    requires h.grey == map[]
    ensures MarkPtrs(h) == h
  {
    assert Reached(h.grey) == {};
    assert h.white - {} == h.white;
    assert Restrict(h.white, {}) == map[];
    assert h.black + map[] == h.black;
  }

  /**
   After a marking generation the white and grey entries together number the
   white entries before, so a generation with something grey shrinks that count.
   */
  lemma MarkPtrsProgress(h: Heap)
    ensures |MarkPtrs(h).white| + |MarkPtrs(h).grey| == |h.white|
  {
    SplitCard(h.white, Reached(h.grey));
  }

  /** Removing a key set and restricting to it split a map's entries in two. */
  lemma SplitCard(m: Slots, s: set<Binding>)
    ensures |m - s| + |Restrict(m, s)| == |m|
  {
    var a, b := (m - s).Keys, Restrict(m, s).Keys;
    assert a == m.Keys - s && b == m.Keys * s;
    assert a * b == {} && a + b == m.Keys;
    assert |a + b| + |a * b| == |a| + |b|;
  }

  /** A generation with something grey shrinks the white and grey entries. */
  lemma MarkPtrsShrinks(h: Heap)
    requires |h.grey| > 0
    ensures |MarkPtrs(h).white| + |MarkPtrs(h).grey| < |h.white| + |h.grey|
  {
    MarkPtrsProgress(h);
  }

  // ---------------------------------------------------------------------
  // Sweeping

  /**
   After a sweep grey and black are empty, white is exactly the old black
   map, everything that was white or grey is gone and the length is the
   number of old black entries.
   */
  lemma SweepPtrsResets(h: Heap)
    ensures Valid(SweepPtrs(h))
    ensures SweepPtrs(h).grey == map[] && SweepPtrs(h).black == map[]
    ensures SweepPtrs(h).white == h.black
    ensures Len(SweepPtrs(h)) == |h.black|
    ensures forall k :: k !in h.black ==> k !in Live(SweepPtrs(h))
  {
  }

  // ---------------------------------------------------------------------
  // The strong tri-colour invariant and what a collection cycle keeps

  /** No black entry names a white entry as a child. */
  ghost predicate NoBlackToWhite(h: Heap) {
    forall k, c :: k in h.black && c in GetPtrChildren(h.black[k]) ==> c !in h.white
  }

  /**
   Root marking keeps the strong invariant, and afterwards no root is white:
   a root is black, grey only if it was never white or grey, or absent.
   */
  lemma MarkRootsKeepsInvariant(h: Heap, roots: set<Binding>)
    requires Valid(h) && NoBlackToWhite(h)
    ensures NoBlackToWhite(MarkRoots(h, roots))
    ensures forall r :: r in roots ==> r !in MarkRoots(h, roots).white
  {
    var p := Promoted(h, roots);
    PromotedShape(h, roots);
    var h' := MarkRoots(h, roots);
    forall k, c | k in h'.black && c in GetPtrChildren(h'.black[k]) ensures c !in h'.white {
      if k in p {
        assert c in Reached(p);
      } else {
        assert k in h.black && h'.black[k] == h.black[k];
      }
    }
  }

  /** A marking generation keeps the strong invariant and never makes anything white. */
  lemma MarkPtrsKeepsInvariant(h: Heap)
    requires NoBlackToWhite(h)
    ensures NoBlackToWhite(MarkPtrs(h))
    ensures MarkPtrs(h).white.Keys <= h.white.Keys
  {
    var h' := MarkPtrs(h);
    forall k, c | k in h'.black && c in GetPtrChildren(h'.black[k]) ensures c !in h'.white {
      if k in h.grey {
        assert c in Reached(h.grey);
      }
    }
  }

  /**
   Updating a black entry to name a white one breaks the strong invariant:
   nothing re-shades the child (there is no write barrier).
   */
  lemma UpdatePtrNoWriteBarrier(h: Heap, k: Binding, w: Binding)
    requires Valid(h) && k in h.black && w in h.white
    ensures !NoBlackToWhite(UpdatePtr(h, k, JsObj({w})).0)
  {
    var h' := UpdatePtr(h, k, JsObj({w})).0;
    assert k !in h.white && k !in h.grey;
    assert k in h'.black && w in GetPtrChildren(h'.black[k]) && w in h'.white;
  }

  /**
   Allocating a binding that a black entry already names breaks the strong
   invariant too.
   */
  lemma AllocNoWriteBarrier(h: Heap, k: Binding, c: Binding, v: JsPtrEnum)
    requires k in h.black && c in GetPtrChildren(h.black[k])
    ensures !NoBlackToWhite(Alloc(h, c, v).0)
  {
    var h' := Alloc(h, c, v).0;
    assert k in h'.black && c in GetPtrChildren(h'.black[k]) && c in h'.white;
  }

  /** A path of references from a root through bindings the heap holds. */
  ghost predicate IsPath(h: Heap, roots: set<Binding>, path: seq<Binding>) {
    && |path| > 0
    && path[0] in roots
    && (forall i :: 0 <= i < |path| ==> path[i] in Live(h))
    && (forall i :: 0 < i < |path| ==> path[i] in ChildrenOf(h, path[i - 1]))
  }

  /**
   At the fixpoint of marking (nothing grey, no black-to-white edge, no white
   root) everything reachable from the roots is black.
   */
  lemma {:induction false} MarkedPathIsBlack(h: Heap, roots: set<Binding>, path: seq<Binding>)
    requires Valid(h) && h.grey == map[] && NoBlackToWhite(h)
    requires forall r :: r in roots ==> r !in h.white
    requires IsPath(h, roots, path)
    ensures path[|path| - 1] in h.black
    decreases |path|
  {
    var n := |path|;
    if n > 1 {
      var prefix := path[..n - 1];
      assert IsPath(h, roots, prefix) by {
        forall i | 0 < i < |prefix| ensures prefix[i] in ChildrenOf(h, prefix[i - 1]) {
          assert prefix[i] == path[i] && prefix[i - 1] == path[i - 1];
        }
      }
      MarkedPathIsBlack(h, roots, prefix);
      var parent := path[n - 2];
      assert parent in h.black;
      assert path[n - 1] in GetPtrChildren(h.black[parent]);
    }
  }

  /**
   The invariants marking to the fixpoint keeps, once the roots are marked:
   disjoint colours, the strong invariant, no white root and unchanged values.
   */
  lemma {:induction false} MarkToFixpointKeeps(h: Heap, roots: set<Binding>)
    requires Valid(h) && NoBlackToWhite(h)
    requires forall r :: r in roots ==> r !in h.white
    ensures Valid(MarkToFixpoint(h)) && NoBlackToWhite(MarkToFixpoint(h))
    ensures forall r :: r in roots ==> r !in MarkToFixpoint(h).white
    ensures forall b :: Find(MarkToFixpoint(h), b) == Find(h, b)
    decreases |h.white| + |h.grey|
  {
    if |h.grey| != 0 {
      var h' := MarkPtrs(h);
      MarkPtrsShrinks(h);
      MarkPtrsValid(h);
      MarkPtrsKeepsInvariant(h);
      forall b ensures Find(h', b) == Find(h, b) {
        MarkPtrsFind(h, b);
      }
      MarkToFixpointKeeps(h', roots);
    }
  }

  /**
   A whole collection cycle keeps everything reachable: starting from a
   disjoint heap with no black-to-white edge (a fresh heap, or one a sweep
   left), marking the roots and then marking until nothing is grey, the
   sweep keeps every binding on a path from a root, with its value.
   */
  lemma CollectionKeepsReachable(h: Heap, roots: set<Binding>, path: seq<Binding>)
    requires Valid(h) && NoBlackToWhite(h)
    requires IsPath(h, roots, path)
    ensures Find(SweepPtrs(MarkToFixpoint(MarkRoots(h, roots))), path[|path| - 1]) ==
            Find(h, path[|path| - 1])
  {
    var h1 := MarkRoots(h, roots);
    MarkRootsValid(h, roots);
    MarkRootsKeepsInvariant(h, roots);
    var m := MarkToFixpoint(h1);
    MarkToFixpointKeeps(h1, roots);
    forall b ensures Find(m, b) == Find(h, b) {
      MarkRootsFind(h, roots, b);
    }
    assert IsPath(m, roots, path) by {
      forall i | 0 <= i < |path| ensures path[i] in Live(m) {
        assert Find(m, path[i]) == Find(h, path[i]);
      }
      forall i | 0 < i < |path| ensures path[i] in ChildrenOf(m, path[i - 1]) {
        assert Find(m, path[i - 1]) == Find(h, path[i - 1]);
      }
    }
    MarkedPathIsBlack(m, roots, path);
  }

  /** `k` lies at the end of some path of references from a root. */
  ghost predicate Reachable(h: Heap, roots: set<Binding>, k: Binding) {
    exists path :: IsPath(h, roots, path) && path[|path| - 1] == k
  }

  /** Every grey or black entry of `m` is reachable from the roots in `h`. */
  ghost predicate ShadedReachable(h: Heap, roots: set<Binding>, m: Heap) {
    forall k :: k in m.black.Keys + m.grey.Keys ==> Reachable(h, roots, k)
  }

  /** A path extended by a child of its last binding is a path. */
  lemma PathExtend(h: Heap, roots: set<Binding>, path: seq<Binding>, c: Binding)
    requires IsPath(h, roots, path)
    requires c in Live(h) && c in ChildrenOf(h, path[|path| - 1])
    ensures IsPath(h, roots, path + [c])
    ensures Reachable(h, roots, c)
  {
    var path' := path + [c];
    forall i | 0 <= i < |path'| ensures path'[i] in Live(h) {
      if i < |path| {
        assert path'[i] == path[i];
      }
    }
    forall i | 0 < i < |path'| ensures path'[i] in ChildrenOf(h, path'[i - 1]) {
      if i < |path| {
        assert path'[i] == path[i] && path'[i - 1] == path[i - 1];
      }
    }
    assert path'[|path'| - 1] == c;
  }

  /**
   Marking the roots of a heap with nothing grey or black shades only
   reachable bindings: the roots it blackens and their children.
   */
  lemma MarkRootsReachable(h: Heap, roots: set<Binding>)
    requires Valid(h) && h.grey == map[] && h.black == map[]
    ensures ShadedReachable(h, roots, MarkRoots(h, roots))
  {
    var p := Promoted(h, roots);
    PromotedShape(h, roots);
    var h' := MarkRoots(h, roots);
    forall k | k in h'.black.Keys + h'.grey.Keys ensures Reachable(h, roots, k) {
      if k in p {
        assert IsPath(h, roots, [k]);
      } else {
        assert k in Reached(p) && k in h.white;
        var r :| r in p && k in GetPtrChildren(p[r]);
        assert IsPath(h, roots, [r]);
        PathExtend(h, roots, [r], k);
      }
    }
  }

  /**
   A marking generation shades only children of grey entries, so it keeps
   every grey or black entry reachable.
   */
  lemma MarkPtrsReachable(h: Heap, roots: set<Binding>, m: Heap)
    requires Valid(m) && ShadedReachable(h, roots, m)
    requires forall b :: Find(m, b) == Find(h, b)
    ensures ShadedReachable(h, roots, MarkPtrs(m))
  {
    var m' := MarkPtrs(m);
    forall k | k in m'.black.Keys + m'.grey.Keys ensures Reachable(h, roots, k) {
      if k !in m.black && k !in m.grey {
        assert k in Reached(m.grey) && k in m.white;
        var g :| g in m.grey && k in GetPtrChildren(m.grey[g]);
        assert Reachable(h, roots, g);
        var path :| IsPath(h, roots, path) && path[|path| - 1] == g;
        assert Find(h, g) == Some(m.grey[g]) by {
          assert Find(m, g) == Find(h, g);
        }
        assert Find(h, k).Some? by {
          assert Find(m, k) == Find(h, k);
        }
        PathExtend(h, roots, path, k);
      }
    }
  }

  /** Marking to the fixpoint keeps every grey or black entry reachable. */
  lemma {:induction false} MarkToFixpointReachable(h: Heap, roots: set<Binding>, m: Heap)
    requires Valid(m) && ShadedReachable(h, roots, m)
    requires forall b :: Find(m, b) == Find(h, b)
    ensures ShadedReachable(h, roots, MarkToFixpoint(m))
    decreases |m.white| + |m.grey|
  {
    if |m.grey| != 0 {
      var m' := MarkPtrs(m);
      MarkPtrsShrinks(m);
      MarkPtrsValid(m);
      MarkPtrsReachable(h, roots, m);
      forall b ensures Find(m', b) == Find(h, b) {
        MarkPtrsFind(m, b);
      }
      MarkToFixpointReachable(h, roots, m');
    }
  }

  /**
   A collection cycle on a heap with nothing grey or black keeps only
   bindings reachable from the roots.
   */
  lemma CollectionKeepsOnlyReachable(h: Heap, roots: set<Binding>, k: Binding)
    requires Valid(h) && h.grey == map[] && h.black == map[]
    requires k in Live(SweepPtrs(MarkToFixpoint(MarkRoots(h, roots))))
    ensures Reachable(h, roots, k)
  {
    var h1 := MarkRoots(h, roots);
    MarkRootsValid(h, roots);
    MarkRootsReachable(h, roots);
    forall b ensures Find(h1, b) == Find(h, b) {
      MarkRootsFind(h, roots, b);
    }
    MarkToFixpointReachable(h, roots, h1);
  }

  /**
   A whole collection cycle on a heap with nothing grey or black (a fresh
   heap, or one a sweep left) keeps a binding exactly when it is reachable
   from the roots.
   */
  lemma CollectionKeepsExactlyReachable(h: Heap, roots: set<Binding>, k: Binding)
    requires Valid(h) && h.grey == map[] && h.black == map[]
    ensures k in Live(SweepPtrs(MarkToFixpoint(MarkRoots(h, roots)))) <==> Reachable(h, roots, k)
  {
    var after := SweepPtrs(MarkToFixpoint(MarkRoots(h, roots)));
    if k in Live(after) {
      CollectionKeepsOnlyReachable(h, roots, k);
    }
    if Reachable(h, roots, k) {
      var path :| IsPath(h, roots, path) && path[|path| - 1] == k;
      assert Find(after, k) == Find(h, k) by {
        CollectionKeepsReachable(h, roots, path);
      }
    }
  }
}
