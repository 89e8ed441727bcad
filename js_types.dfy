/**
 The values the heap stores and the errors it reports.

 A binding is an opaque identifier naming one heap slot; only its equality
 matters to the collector. A heap value is either an object, which names
 the bindings it refers to directly, or a leaf (a string here; every other
 value kind behaves like it as far as the collector is concerned).
 */
module JsTypes {

  /** A unique binding: the key of a heap slot. */
  type Binding(==, !new)

  /** A heap-resident value. Only objects have outgoing references. */
  datatype JsPtrEnum =
    | JsObj(children: set<Binding>)
    | JsStr(text: string)

  /** The two failures the heap reports to its caller. */
  datatype GcError =
    | Alloc(binding: Binding)  // the binding is already allocated in the white map
    | HeapUpdate               // the binding is not in the heap

  /** The outcome of a fallible heap operation (a unit result or an error). */
  datatype Result = Ok | Err(error: GcError)

  datatype Option<T> = None | Some(value: T) {

    /** Eager alternative: `this` if it holds a value, otherwise `other`. */
    function Or(other: Option<T>): Option<T> {
      if Some? then this else other
    }
  }
}
