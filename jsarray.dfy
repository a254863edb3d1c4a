/** The part of a JavaScript array that `MeshMorpher` uses: properties whose
    keys are integers, and `length`. Non-negative keys are array indices and
    keep `length` one past the largest of them; a negative key is an ordinary
    property that never moves `length`. Holes are simply absent keys. */
module JsArray {

  datatype Option<+T> = None | Some(value: T)

  datatype SparseArray<T> = SparseArray(entries: map<int, T>, length: nat) {

    /** The array invariant: every index in use lies below `length`, and
        `length - 1` is in use. `push` and indexed assignment never leave
        trailing holes, and nothing here deletes or shrinks. */
    ghost predicate Valid() {
      && (forall k :: k in entries && 0 <= k ==> k < length)
      && (length > 0 ==> length - 1 in entries)
    }

    /** `a[k]`: the stored element, or `undefined` for a hole or a missing key. */
    function Get(k: int): (r: Option<T>)
      ensures Valid() && 0 <= k && r.Some? ==> k < length
    {
      if k in entries then Some(entries[k]) else None
    }

    /** `a.push(x)`: store `x` at index `length` and grow `length` by one. */
    function Push(x: T): (r: SparseArray<T>)
      requires Valid()
      ensures r.Valid()
      ensures r.length == length + 1
      ensures r.Get(length) == Some(x)
      ensures forall k :: k != length ==> r.Get(k) == Get(k)
    {
      SparseArray(entries[length as int := x], length + 1)
    }

    /** `a[i] = x`: replace whatever key `i` held; an index at or past the end
        stretches `length` to `i + 1`, a negative key leaves it alone. */
    function Assign(i: int, x: T): (r: SparseArray<T>)
      requires Valid()
      ensures r.Valid()
      ensures r.Get(i) == Some(x)
      ensures forall k :: k != i ==> r.Get(k) == Get(k)
      ensures 0 <= i ==> r.length == if i < length then length else i + 1
      ensures i < 0 ==> r.length == length
    {
      SparseArray(entries[i := x], if 0 <= i && length <= i then i + 1 else length)
    }
  }

  /** In a valid array, `length - 1` is the last index in use: it holds an
      element, and no index from `length` on does. */
  lemma LastIndexInUse<T>(a: SparseArray<T>)
    requires a.Valid()
    ensures a.length > 0 ==> a.Get(a.length - 1).Some?
    ensures forall k :: k >= a.length ==> a.Get(k).None?
  {
  }

  /** `[]` */
  function Empty<T>(): (r: SparseArray<T>)
    ensures r.Valid() && r.length == 0
    ensures forall k :: r.Get(k) == None
  {
    SparseArray(map[], 0)
  }
}
