/**
 Short client runs of `AllocBox`: the situations the heap's own unit tests
 describe, and two full collection cycles (an unrooted leaf is dropped; a
 rooted object keeps its child), each proved for every choice of bindings
 (distinct where the situation needs them).
 */
module Scenarios {
  import opened JsTypes
  import TriColour
  import Alloc

  /** A new heap is empty; one allocation succeeds and the heap then holds one entry. */
  method LenAfterOneAlloc(b: Binding, v: JsPtrEnum) returns (wasEmpty: bool, r: Result, len: nat)
    ensures wasEmpty && r == Ok && len == 1
  {
    var ab := new Alloc.AllocBox();
    wasEmpty := ab.IsEmpty();
    r := ab.Alloc(b, v);
    len := ab.Len();
  }

  /** Two different bindings can both be allocated. */
  method AllocTwo(x: Binding, y: Binding, vx: JsPtrEnum, vy: JsPtrEnum) returns (rx: Result, ry: Result)
    requires x != y
    ensures rx == Ok && ry == Ok
  {
    var ab := new Alloc.AllocBox();
    rx := ab.Alloc(x, vx);
    ry := ab.Alloc(y, vy);
  }

  /** Allocating the same binding twice fails the second time, naming it; one entry remains. */
  method AllocTwice(b: Binding, v: JsPtrEnum) returns (first: Result, second: Result, len: nat)
    ensures first == Ok
    ensures second == Err(GcError.Alloc(b))
    ensures len == 1
  {
    var ab := new Alloc.AllocBox();
    first := ab.Alloc(b, v);
    second := ab.Alloc(b, v);
    len := ab.Len();
  }

  /** After an update, lookup returns the new value. */
  method UpdateThenFind(b: Binding, v: JsPtrEnum, v': JsPtrEnum) returns (r: Result, found: Option<JsPtrEnum>)
    ensures r == Ok && found == Some(v')
  {
    var ab := new Alloc.AllocBox();
    var _ := ab.Alloc(b, v);
    r := ab.UpdatePtr(b, v');
    found := ab.FindId(b);
  }

  /** Updating a binding the heap does not hold fails. */
  method UpdateMissing(b: Binding, v: JsPtrEnum) returns (r: Result)
    ensures r == Err(HeapUpdate)
  {
    var ab := new Alloc.AllocBox();
    r := ab.UpdatePtr(b, v);
  }

  /** Marking two allocated bindings as roots makes both black. */
  method MarkTwoRoots(x: Binding, y: Binding, vx: JsPtrEnum, vy: JsPtrEnum) returns (xBlack: bool, yBlack: bool)
    requires x != y
    ensures xBlack && yBlack
  {
    var ab := new Alloc.AllocBox();
    var _ := ab.Alloc(x, vx);
    var _ := ab.Alloc(y, vy);
    ab.MarkRoots({x, y});
    xBlack := x in ab.black;
    yBlack := y in ab.black;
  }

  /** A new heap holding two distinct bindings, both white. */
  method AllocPair(x: Binding, vx: JsPtrEnum, y: Binding, vy: JsPtrEnum) returns (ab: Alloc.AllocBox)
    requires x != y
    ensures fresh(ab)
    ensures ab.State() == TriColour.Heap(map[x := vx, y := vy], map[], map[])
  {
    ab := new Alloc.AllocBox();
    var _ := ab.Alloc(x, vx);
    var _ := ab.Alloc(y, vy);
  }

  /** One collection cycle: mark the roots, run one marking generation, sweep. */
  method Collect(ab: Alloc.AllocBox, roots: set<Binding>)
    requires ab.Valid()
    modifies ab
    ensures ab.State() == TriColour.SweepPtrs(TriColour.MarkPtrs(TriColour.MarkRoots(old(ab.State()), roots)))
  {
    ab.MarkRoots(roots);
    ab.MarkPtrs();
    ab.SweepPtrs();
  }

  /** A full cycle with one leaf root and one unrooted leaf: only the root survives. */
  method CollectUnrooted(x: Binding, y: Binding) returns (fx: Option<JsPtrEnum>, fy: Option<JsPtrEnum>, len: nat)
    requires x != y
    ensures fx == Some(JsStr("hello"))
    ensures fy == None
    ensures len == 1
  {
    var ab := AllocPair(x, JsStr("hello"), y, JsStr("world"));
    UnrootedMarks(x, y);
    Collect(ab, {x});
    assert ab.State() == TriColour.Heap(map[x := JsStr("hello")], map[], map[]);
    fx := ab.FindId(x);
    fy := ab.FindId(y);
    len := ab.Len();
  }

  /**
   A full cycle with a rooted object and the leaf it refers to: the root
   goes black and the child grey, one marking generation blackens the child,
   and both survive the sweep as white entries.
   */
  method CollectChild(o: Binding, c: Binding) returns (oWhite: bool, cWhite: bool, len: nat)
    requires o != c
    ensures oWhite && cWhite
    ensures len == 2
  {
    var ab := AllocPair(o, JsObj({c}), c, JsStr("child"));
    ChildMarks(o, c);
    Collect(ab, {o});
    assert ab.State() == TriColour.Heap(map[o := JsObj({c}), c := JsStr("child")], map[], map[]);
    oWhite := o in ab.white;
    cWhite := c in ab.white;
    len := ab.Len();
  }

  /** The states of the cycle of `CollectUnrooted`, step by step. */
  lemma UnrootedMarks(x: Binding, y: Binding)
    requires x != y
    ensures
      var h := TriColour.Heap(map[x := JsStr("hello"), y := JsStr("world")], map[], map[]);
      var marked := TriColour.Heap(map[y := JsStr("world")], map[], map[x := JsStr("hello")]);
      && TriColour.Valid(h)
      && TriColour.MarkRoots(h, {x}) == marked
      && TriColour.MarkPtrs(marked) == marked
  {
    var h := TriColour.Heap(map[x := JsStr("hello"), y := JsStr("world")], map[], map[]);
    var p := map[x := JsStr("hello")];
    assert TriColour.Promoted(h, {x}) == p;
    assert TriColour.Reached(p) == {};
    assert h.white - p.Keys == map[y := JsStr("world")];
    assert TriColour.Reached(map[]) == {};
  }

  /** The states of the cycle of `CollectChild`, step by step. */
  lemma ChildMarks(o: Binding, c: Binding)
    requires o != c
    ensures
      var h := TriColour.Heap(map[o := JsObj({c}), c := JsStr("child")], map[], map[]);
      var marked := TriColour.Heap(map[], map[c := JsStr("child")], map[o := JsObj({c})]);
      && TriColour.Valid(h)
      && TriColour.MarkRoots(h, {o}) == marked
      && TriColour.MarkPtrs(marked) == TriColour.Heap(map[], map[], map[o := JsObj({c}), c := JsStr("child")])
  {
    var h := TriColour.Heap(map[o := JsObj({c}), c := JsStr("child")], map[], map[]);
    var p := map[o := JsObj({c})];
    assert TriColour.Promoted(h, {o}) == p;
    assert TriColour.Reached(map[]) == {};
    TriColour.ReachedAdd(map[], o, JsObj({c}));
    assert map[][o := JsObj({c})] == p;
    assert TriColour.Reached(p) == {c};
    assert h.white - p.Keys - {c} == map[];
    assert TriColour.Restrict(h.white, {c}) == map[c := JsStr("child")];
    var marked := TriColour.Heap(map[], map[c := JsStr("child")], map[o := JsObj({c})]);
    assert TriColour.Reached(marked.grey) == {};
  }
}
