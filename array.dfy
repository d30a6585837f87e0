/**
 * The fixed-size array of Array/array.h and its type traits. `Array<T, N>`
 * owns an inline block of N elements; here that block is an `array<T>` of
 * length N that the object holds for its whole life. The traits `GetSize`,
 * `GetRank` and `GetNumElements` inspect the type of a (possibly nested)
 * built-in array; that type is modelled by `Shape`.
 */
module FixedArrays {
  import opened Results

  /** ArrayOutOfRange. */
  datatype ArrayError = OutOfRange

  class FixedArray<T> {
    /** The N elements; the block itself never changes, only its contents. */
    const elements: array<T>

    /** Aggregate initialisation with all N elements. */
    constructor (init: seq<T>)
      ensures elements[..] == init && fresh(elements)
    {
      elements := new T[|init|](i requires 0 <= i < |init| => init[i]);
    }

    /** At: the element when idx < N, ArrayOutOfRange otherwise. */
    function At(idx: nat): (r: Result<T, ArrayError>)
      reads elements
      ensures r.Ok? <==> idx < elements.Length
      ensures r.Ok? ==> r.value == elements[idx]
      ensures r.Err? ==> r.error == OutOfRange
    {
      if idx >= elements.Length then Err(OutOfRange) else Ok(elements[idx])
    }

    /** Front: element 0; it exists only when N > 0. */
    function Front(): (x: T)
      reads elements
      requires elements.Length > 0
      ensures At(0) == Ok(x)
    {
      elements[0]
    }

    /** Back: element N - 1; it exists only when N > 0. */
    function Back(): (x: T)
      reads elements
      requires elements.Length > 0
      ensures At(elements.Length - 1) == Ok(x)
      ensures forall idx: nat :: At(idx).Ok? ==> idx <= elements.Length - 1
    {
      elements[elements.Length - 1]
    }

    /** Size: N. */
    function Size(): (n: nat)
      reads elements
      ensures n == elements.Length
      ensures forall idx: nat :: idx < n <==> At(idx).Ok?
    {
      elements.Length
    }

    /** Empty: N == 0, so no index is accessible. */
    function Empty(): (r: bool)
      reads elements
      ensures r <==> elements.Length == 0
      ensures r <==> forall idx: nat :: At(idx).Err?
    {
      assert !(elements.Length == 0) ==> At(0).Ok?;
      elements.Length == 0
    }

    /** Fill: every element becomes value. */
    method Fill(value: T)
      modifies elements
      ensures elements[..] == seq(elements.Length, _ => value)
    {
      var i := 0;
      while i < elements.Length
        invariant 0 <= i <= elements.Length
        invariant forall k :: 0 <= k < i ==> elements[k] == value
      {
        elements[i] := value;
        i := i + 1;
      }
    }

    /** Swap: exchanges the elements position by position with another array of the same N. */
    method Swap(other: FixedArray<T>)
      requires other.elements.Length == elements.Length
      modifies elements, other.elements
      ensures elements[..] == old(other.elements[..])
      ensures other.elements[..] == old(elements[..])
    {
      var i := 0;
      while i < elements.Length
        invariant 0 <= i <= elements.Length
        invariant forall k :: 0 <= k < i ==>
                    elements[k] == old(other.elements[k]) && other.elements[k] == old(elements[k])
        invariant forall k :: i <= k < elements.Length ==>
                    elements[k] == old(elements[k]) && other.elements[k] == old(other.elements[k])
      {
        var saved := elements[i];
        elements[i] := other.elements[i];
        other.elements[i] := saved;
        i := i + 1;
      }
    }
  }

  /** The type of a value the traits inspect: a non-array, or an array of `extent` elements of type `element`. */
  datatype Shape = Scalar | ArrayOf(extent: nat, element: Shape)

  /** GetSize: the outermost extent, 0 for a non-array. */
  function GetSize(s: Shape): (n: nat)
    ensures n == if Extents(s) == [] then 0 else Extents(s)[0]
  {
    match s
    case Scalar => 0
    case ArrayOf(n, _) => n
  }

  /** GetRank: one more than the rank of the element type, 0 for a non-array; the number of array dimensions. */
  function GetRank(s: Shape): (r: nat)
    ensures r == |Extents(s)|
  {
    match s
    case Scalar => 0
    case ArrayOf(_, element) => 1 + GetRank(element)
  }

  /** GetNumElements: the extent times the number of elements of the element type, 1 for a non-array; the product of all extents. */
  function GetNumElements(s: Shape): (n: nat)
    ensures n == Product(Extents(s))
  {
    match s
    case Scalar => 1
    case ArrayOf(n, element) =>
      assert ([n] + Extents(element))[1..] == Extents(element);
      n * GetNumElements(element)
  }

  /** The extents of the nested array type, outermost first. */
  function Extents(s: Shape): seq<nat> {
    match s
    case Scalar => []
    case ArrayOf(n, element) => [n] + Extents(element)
  }

  /** The array type with the given extents, outermost first, around a non-array. */
  function Nest(extents: seq<nat>): Shape {
    if extents == [] then Scalar else ArrayOf(extents[0], Nest(extents[1..]))
  }

  /** The product of the extents. */
  function Product(extents: seq<nat>): nat {
    if extents == [] then 1 else extents[0] * Product(extents[1..])
  }

  /** A shape is determined by its extents. */
  lemma {:induction false} NestExtents(s: Shape)
    ensures Nest(Extents(s)) == s
  {
    match s
    case Scalar =>
    case ArrayOf(n, element) =>
      assert ([n] + Extents(element))[1..] == Extents(element);
      NestExtents(element);
  }

  /** The extents of the array type built from a list of extents are that list. */
  lemma {:induction false} ExtentsNest(extents: seq<nat>)
    ensures Extents(Nest(extents)) == extents
    decreases |extents|
  {
    if extents != [] {
      ExtentsNest(extents[1..]);
    }
  }
}
