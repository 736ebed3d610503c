/** The few pieces of the Java runtime the integrator relies on: nullable
    arrays, the exceptions it can raise, and System.arraycopy. Doubles are
    modelled as reals, so every value here is exact. */
module Java {

  /** A Java array reference: either null or an array holding `elems`. */
  datatype Array<T> = Null | Arr(elems: seq<T>) {

    /** The length the integrator's dimension check uses: a null array counts as empty. */
    function Length(): nat {
      if Null? then 0 else |elems|
    }
  }

  /** The exceptions raised along the modelled paths. */
  datatype Exception =
    | DimensionMismatch(actual: nat, expected: nat)   // IllegalArgumentException "dimension mismatch"
    | NullPointer                                     // NullPointerException
    | IndexOutOfBounds                                // ArrayIndexOutOfBounds / IndexOutOfBounds
    | NegativeArraySize                               // NegativeArraySizeException
    | EndOfStream                                     // EOFException while deserialising
    | StreamCorrupted                                 // an item of the wrong kind in the stream

  /** Either a value or the exception that aborted the computation. */
  datatype Result<+T> = Ok(value: T) | Err(error: Exception) {

    predicate IsFailure() {
      Err?
    }

    function PropagateFailure<U>(): Result<U>
      requires Err?
    {
      Err(error)
    }

    function Extract(): T
      requires Ok?
    {
      value
    }
  }

  /** A check that either passes or raises an exception. */
  datatype Outcome = Pass | Fail(error: Exception)

  /** System.arraycopy(src, srcPos, dest, destPos, length) on arrays of doubles:
      the destination array after the copy, or the exception when either range
      leaves its array. */
  function ArrayCopy(src: seq<real>, srcPos: nat, dest: seq<real>, destPos: nat, length: nat)
    : (r: Result<seq<real>>)
    ensures r.Ok? <==> srcPos + length <= |src| && destPos + length <= |dest|
    ensures r.Err? ==> r.error == IndexOutOfBounds
    ensures r.Ok? ==> |r.value| == |dest|
    ensures r.Ok? ==> forall x :: destPos <= x < destPos + length ==> r.value[x] == src[srcPos + (x - destPos)]
    ensures r.Ok? ==> forall x :: 0 <= x < |dest| && !(destPos <= x < destPos + length) ==> r.value[x] == dest[x]
  {
    if srcPos + length <= |src| && destPos + length <= |dest| then
      Ok(dest[..destPos] + src[srcPos..srcPos + length] + dest[destPos + length..])
    else
      Err(IndexOutOfBounds)
  }

  /** A copy to the start of the destination replaces its first `length`
      entries by the source range. */
  lemma ArrayCopyToFront(src: seq<real>, srcPos: nat, dest: seq<real>, length: nat)
    requires ArrayCopy(src, srcPos, dest, 0, length).Ok?
    ensures ArrayCopy(src, srcPos, dest, 0, length).value == src[srcPos..srcPos + length] + dest[length..]
  {
    assert dest[..0] == [];
  }
}
