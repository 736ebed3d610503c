/** Externalization of the step-interpolator wrapper: writeExternal emits the
    wrapped interpolator, the two dimensions and every array entry, and
    readExternal reads them back in the same order.

    A stream is the sequence of items written to it: an object, an int or a
    double. Reading consumes items from the front and hands back the rest. */
module Externalization {
  import opened Java
  import opened LinearAlgebra
  import opened Interpolation

  /** One item of an object stream. */
  datatype Item<I> = Object(obj: I) | Int(i: int) | Double(d: real)

  /** A value read from a stream, and what is left of the stream after it. */
  datatype Read<T, I> = Read(value: T, rest: seq<Item<I>>)

  // ---------------------------------------------------------------------
  // Writing.

  /** writeDouble for each entry of v, in index order. */
  function Doubles<I>(v: seq<real>): (r: seq<Item<I>>)
    ensures |r| == |v|
    ensures forall x :: 0 <= x < |v| ==> r[x] == Double(v[x])
  {
    if |v| == 0 then [] else [Double(v[0])] + Doubles(v[1..])
  }

  /** writeDouble for each entry of a matrix, row by row. */
  function MatrixDoubles<I>(m: seq<seq<real>>): seq<Item<I>> {
    if |m| == 0 then [] else Doubles(m[0]) + MatrixDoubles(m[1..])
  }

  /** writeExternal: with n = |y| and k the length of dydp[0], the interpolator,
      n, k, then n entries of y, n of yDot, the n by n leading block of dydy0
      and the n by k leading block of dydp. An array too short for those reads
      raises IndexOutOfBounds. */
  function WriteExternal<I>(w: InterpolatorWrapper<I>): (r: Result<seq<Item<I>>>)
    ensures r.Ok? <==> |w.dydp| > 0 && |w.y| <= |w.yDot|
                       && RowsFit(w.dydy0, |w.y|, |w.y|) && RowsFit(w.dydp, |w.y|, |w.dydp[0]|)
    ensures r.Err? ==> r.error == IndexOutOfBounds
    ensures r.Ok? ==> |r.value| >= 3 + 2 * |w.y|
                      && r.value[0] == Object(w.interpolator)
                      && r.value[1] == Int(|w.y|) && r.value[2] == Int(|w.dydp[0]|)
  {
    if |w.dydp| == 0 then
      Err(IndexOutOfBounds)
    else
      var n, k := |w.y|, |w.dydp[0]|;
      if n <= |w.yDot| && RowsFit(w.dydy0, n, n) && RowsFit(w.dydp, n, k) then
        Ok([Object(w.interpolator), Int(n), Int(k)]
           + Doubles(w.y) + Doubles(w.yDot[..n])
           + MatrixDoubles(Truncate(w.dydy0, n, n)) + MatrixDoubles(Truncate(w.dydp, n, k)))
      else
        Err(IndexOutOfBounds)
  }

  // ---------------------------------------------------------------------
  // Reading.

  /** readObject. */
  function ReadObject<I>(s: seq<Item<I>>): (r: Result<Read<I, I>>)
    ensures |s| == 0 ==> r == Err(EndOfStream)
    ensures 0 < |s| && s[0].Object? ==> r == Ok(Read(s[0].obj, s[1..]))
    ensures 0 < |s| && !s[0].Object? ==> r == Err(StreamCorrupted)
  {
    if |s| == 0 then Err(EndOfStream)
    else if s[0].Object? then Ok(Read(s[0].obj, s[1..]))
    else Err(StreamCorrupted)
  }

  /** readInt. */
  function ReadInt<I>(s: seq<Item<I>>): (r: Result<Read<int, I>>)
    ensures |s| == 0 ==> r == Err(EndOfStream)
    ensures 0 < |s| && s[0].Int? ==> r == Ok(Read(s[0].i, s[1..]))
    ensures 0 < |s| && !s[0].Int? ==> r == Err(StreamCorrupted)
  {
    if |s| == 0 then Err(EndOfStream)
    else if s[0].Int? then Ok(Read(s[0].i, s[1..]))
    else Err(StreamCorrupted)
  }

  /** readDouble. */
  function ReadDouble<I>(s: seq<Item<I>>): (r: Result<Read<real, I>>)
    ensures |s| == 0 ==> r == Err(EndOfStream)
    ensures 0 < |s| && s[0].Double? ==> r == Ok(Read(s[0].d, s[1..]))
    ensures 0 < |s| && !s[0].Double? ==> r == Err(StreamCorrupted)
  {
    if |s| == 0 then Err(EndOfStream)
    else if s[0].Double? then Ok(Read(s[0].d, s[1..]))
    else Err(StreamCorrupted)
  }

  /** `count` doubles read into a freshly allocated array. */
  function ReadDoubles<I>(s: seq<Item<I>>, count: nat): (r: Result<Read<seq<real>, I>>)
    ensures r.Ok? ==> |r.value.value| == count
    ensures r.Err? ==> r.error == EndOfStream || r.error == StreamCorrupted
    decreases count
  {
    if count == 0 then
      Ok(Read([], s))
    else
      var d :- ReadDouble(s);
      var tail :- ReadDoubles(d.rest, count - 1);
      Ok(Read([d.value] + tail.value, tail.rest))
  }

  /** `rows` rows of `width` doubles read into a freshly allocated matrix. */
  function ReadMatrix<I>(s: seq<Item<I>>, rows: nat, width: nat): (r: Result<Read<seq<seq<real>>, I>>)
    ensures r.Ok? ==> IsMatrix(r.value.value, rows, width)
    ensures r.Err? ==> r.error == EndOfStream || r.error == StreamCorrupted
    decreases rows
  {
    if rows == 0 then
      Ok(Read([], s))
    else
      var row :- ReadDoubles(s, width);
      var tail :- ReadMatrix(row.rest, rows - 1, width);
      Ok(Read([row.value] + tail.value, tail.rest))
  }

  /** `dest[x] = in.readDouble()` for x from `from` up to count - 1, into an
      existing array: each double is read before its index is checked, so an
      array shorter than count raises IndexOutOfBounds after one more read. */
  function ReadInto<I>(s: seq<Item<I>>, dest: seq<real>, from: nat, count: nat): (r: Result<Read<seq<real>, I>>)
    ensures r.Ok? ==> |r.value.value| == |dest|
    ensures r.Ok? ==> count <= |dest| || count <= from
    decreases count - from
  {
    if count <= from then
      Ok(Read(dest, s))
    else
      var d :- ReadDouble(s);
      if from < |dest| then ReadInto(d.rest, dest[from := d.value], from + 1, count)
      else Err(IndexOutOfBounds)
  }

  /** readExternal on a wrapper whose current yDot is `yDot`: read the
      interpolator, n and k, allocate y, dydy0 and dydp (a negative dimension
      raises NegativeArraySize), then read the entries in the order
      writeExternal wrote them. With `reallocateYDot` yDot is allocated afresh
      as well; without it the entries go into the existing yDot array. */
  function ReadFields<I>(s: seq<Item<I>>, yDot: seq<real>, reallocateYDot: bool)
    : (r: Result<Read<InterpolatorWrapper<I>, I>>)
    ensures |s| == 0 ==> r == Err(EndOfStream)
    ensures 3 <= |s| && s[0].Object? && s[1].Int? && s[2].Int? && (s[1].i < 0 || s[2].i < 0) ==>
              r == Err(NegativeArraySize)
    ensures r.Ok? ==> 3 <= |s| && s[0].Object? && s[1].Int? && s[2].Int?
                      && 0 <= s[1].i && 0 <= s[2].i
                      && r.value.value.interpolator == s[0].obj
                      && |r.value.value.y| == s[1].i
                      && IsMatrix(r.value.value.dydy0, s[1].i, s[1].i)
                      && IsMatrix(r.value.value.dydp, s[1].i, s[2].i)
    ensures r.Ok? && reallocateYDot ==> |r.value.value.yDot| == s[1].i
    ensures r.Ok? && !reallocateYDot ==> |r.value.value.yDot| == |yDot|
  {
    var interpolator :- ReadObject(s);
    var n :- ReadInt(interpolator.rest);
    var k :- ReadInt(n.rest);
    if n.value < 0 || k.value < 0 then
      Err(NegativeArraySize)
    else
      var y :- ReadDoubles(k.rest, n.value);
      var yDot :- if reallocateYDot then ReadDoubles(y.rest, n.value)
                  else ReadInto(y.rest, yDot, 0, n.value);
      var dydy0 :- ReadMatrix(yDot.rest, n.value, n.value);
      var dydp :- ReadMatrix(dydy0.rest, n.value, k.value);
      Ok(Read(InterpolatorWrapper(interpolator.value, y.value, yDot.value, dydy0.value, dydp.value), dydp.rest))
  }

  /** readExternal as written: yDot keeps the array the wrapper already had. */
  function ReadExternalAsWritten<I>(w: InterpolatorWrapper<I>, s: seq<Item<I>>): (r: Result<Read<InterpolatorWrapper<I>, I>>)
    ensures r.Ok? ==> |r.value.value.yDot| == |w.yDot|
  {
    ReadFields(s, w.yDot, false)
  }

  /** readExternal with yDot allocated like y: the result has the shapes the
      constructor gives. */
  function ReadExternal<I>(w: InterpolatorWrapper<I>, s: seq<Item<I>>): (r: Result<Read<InterpolatorWrapper<I>, I>>)
    ensures r.Ok? ==> 3 <= |s| && s[1].Int? && s[2].Int? && 0 <= s[1].i && 0 <= s[2].i
                      && Shaped(r.value.value, s[1].i, s[2].i)
  {
    ReadFields(s, w.yDot, true)
  }

  // ---------------------------------------------------------------------
  // Round trips.

  lemma {:induction false} ReadDoublesOf<I>(v: seq<real>, rest: seq<Item<I>>)
    ensures ReadDoubles(Doubles(v) + rest, |v|) == Ok(Read(v, rest))
    decreases |v|
  {
    if |v| > 0 {
      var s := Doubles(v) + rest;
      assert s == [Double(v[0])] + (Doubles(v[1..]) + rest);
      assert ReadDouble(s) == Ok(Read(v[0], Doubles(v[1..]) + rest));
      ReadDoublesOf(v[1..], rest);
      assert [v[0]] + v[1..] == v;
    } else {
      assert Doubles(v) + rest == rest;
    }
  }

  lemma {:induction false} ReadMatrixOf<I>(m: seq<seq<real>>, width: nat, rest: seq<Item<I>>)
    requires IsMatrix(m, |m|, width)
    ensures ReadMatrix(MatrixDoubles(m) + rest, |m|, width) == Ok(Read(m, rest))
    decreases |m|
  {
    if |m| > 0 {
      assert MatrixDoubles(m) + rest == Doubles(m[0]) + (MatrixDoubles(m[1..]) + rest);
      ReadDoublesOf(m[0], MatrixDoubles(m[1..]) + rest);
      assert IsMatrix(m[1..], |m| - 1, width);
      ReadMatrixOf(m[1..], width, rest);
      assert [m[0]] + m[1..] == m;
    } else {
      assert MatrixDoubles(m) + rest == rest;
    }
  }

  /** Reading doubles into an array at least as long as the stream's run
      overwrites positions from .. |v| - 1 and leaves the others alone. */
  lemma {:induction false} ReadIntoOf<I>(v: seq<real>, dest: seq<real>, from: nat, rest: seq<Item<I>>)
    requires from <= |v| <= |dest|
    ensures var r := ReadInto(Doubles(v[from..]) + rest, dest, from, |v|);
            && r.Ok? && r.value.rest == rest && |r.value.value| == |dest|
            && forall x :: 0 <= x < |dest| ==> r.value.value[x] == if from <= x < |v| then v[x] else dest[x]
    decreases |v| - from
  {
    if from < |v| {
      assert Doubles(v[from..]) + rest == [Double(v[from])] + (Doubles(v[from + 1..]) + rest) by {
        assert v[from..][1..] == v[from + 1..];
      }
      assert ReadDouble(Doubles(v[from..]) + rest) == Ok(Read(v[from], Doubles(v[from + 1..]) + rest));
      ReadIntoOf(v, dest[from := v[from]], from + 1, rest);
    } else {
      assert Doubles(v[from..]) + rest == rest;
    }
  }

  /** The whole run from index 0: the array's prefix is replaced. */
  lemma ReadIntoPrefix<I>(v: seq<real>, dest: seq<real>, rest: seq<Item<I>>)
    requires |v| <= |dest|
    ensures ReadInto(Doubles(v) + rest, dest, 0, |v|) == Ok(Read(v + dest[|v|..], rest))
  {
    ReadIntoOf(v, dest, 0, rest);
    assert v[0..] == v;
    var r := ReadInto(Doubles(v) + rest, dest, 0, |v|);
    assert r.value.value == v + dest[|v|..];
  }

  /** Reading doubles into an array shorter than the stream's run fails. */
  lemma {:induction false} ReadIntoShort<I>(v: seq<real>, dest: seq<real>, from: nat, rest: seq<Item<I>>)
    requires from <= |dest| < |v|
    ensures ReadInto(Doubles(v[from..]) + rest, dest, from, |v|) == Err(IndexOutOfBounds)
    decreases |dest| - from
  {
    assert Doubles(v[from..]) + rest == [Double(v[from])] + (Doubles(v[from + 1..]) + rest) by {
      assert v[from..][1..] == v[from + 1..];
    }
    if from < |dest| {
      ReadIntoShort(v, dest[from := v[from]], from + 1, rest);
    }
  }

  /** The items writeExternal emits, split into the header and the four runs of doubles. */
  lemma WrittenItems<I>(w: InterpolatorWrapper<I>, rest: seq<Item<I>>)
    requires WriteExternal(w).Ok?
    ensures var n, k := |w.y|, |w.dydp[0]|;
            WriteExternal(w).value + rest
            == [Object(w.interpolator), Int(n), Int(k)]
               + (Doubles(w.y) + (Doubles(w.yDot[..n])
               + (MatrixDoubles(Truncate(w.dydy0, n, n)) + (MatrixDoubles(Truncate(w.dydp, n, k)) + rest))))
  {
  }

  /** Copying a writable wrapper keeps y and the leading blocks of the other arrays. */
  lemma CopyFields<I>(w: InterpolatorWrapper<I>, copied: I)
    requires WriteExternal(w).Ok?
    ensures var n, k := |w.y|, |w.dydp[0]|;
            Copy(w, copied)
            == Ok(InterpolatorWrapper(copied, w.y, w.yDot[..n], Truncate(w.dydy0, n, n), Truncate(w.dydp, n, k)))
  {
    var n, k := |w.y|, |w.dydp[0]|;
    var c := Copy(w, copied).value;
    MatrixEquality(c.dydy0, Truncate(w.dydy0, n, n), n, n);
    MatrixEquality(c.dydp, Truncate(w.dydp, n, k), n, k);
  }

  /** Writing a wrapper and reading it back, with yDot reallocated, yields the
      wrapper's copy, and leaves whatever followed in the stream. */
  lemma {:induction false} RoundTrip<I>(w0: InterpolatorWrapper<I>, w: InterpolatorWrapper<I>, rest: seq<Item<I>>)
    requires WriteExternal(w).Ok?
    ensures Copy(w, w.interpolator).Ok?
    ensures ReadExternal(w0, WriteExternal(w).value + rest) == Ok(Read(Copy(w, w.interpolator).value, rest))
  {
    var n, k := |w.y|, |w.dydp[0]|;
    WrittenItems(w, rest);
    CopyFields(w, w.interpolator);
    var d := MatrixDoubles(Truncate(w.dydp, n, k)) + rest;
    var c := MatrixDoubles(Truncate(w.dydy0, n, n)) + d;
    var b := Doubles(w.yDot[..n]) + c;
    ReadDoublesOf(w.y, b);
    ReadDoublesOf(w.yDot[..n], c);
    ReadMatrixOf(Truncate(w.dydy0, n, n), n, d);
    ReadMatrixOf(Truncate(w.dydp, n, k), k, rest);
  }

  /** A wrapper of the constructor's shapes round-trips to itself. */
  lemma {:induction false} ShapedRoundTrip<I>(w0: InterpolatorWrapper<I>, w: InterpolatorWrapper<I>, n: nat, k: nat,
                                             rest: seq<Item<I>>)
    requires Shaped(w, n, k) && 0 < n
    ensures WriteExternal(w).Ok?
    ensures ReadExternal(w0, WriteExternal(w).value + rest) == Ok(Read(w, rest))
  {
    RoundTrip(w0, w, rest);
    CopyOfShaped(w, n, k, w.interpolator);
  }

  /** As written, the read-back yDot holds the n written entries followed by
      the tail of the reading wrapper's old yDot. */
  lemma {:induction false} AsWrittenRoundTrip<I>(w0: InterpolatorWrapper<I>, w: InterpolatorWrapper<I>, rest: seq<Item<I>>)
    requires WriteExternal(w).Ok? && |w.y| <= |w0.yDot|
    ensures Copy(w, w.interpolator).Ok?
    ensures var c := Copy(w, w.interpolator).value;
            ReadExternalAsWritten(w0, WriteExternal(w).value + rest)
            == Ok(Read(c.(yDot := c.yDot + w0.yDot[|w.y|..]), rest))
  {
    var n, k := |w.y|, |w.dydp[0]|;
    WrittenItems(w, rest);
    CopyFields(w, w.interpolator);
    var d := MatrixDoubles(Truncate(w.dydp, n, k)) + rest;
    var c := MatrixDoubles(Truncate(w.dydy0, n, n)) + d;
    var b := Doubles(w.yDot[..n]) + c;
    ReadDoublesOf(w.y, b);
    ReadIntoPrefix(w.yDot[..n], w0.yDot, c);
    ReadMatrixOf(Truncate(w.dydy0, n, n), n, d);
    ReadMatrixOf(Truncate(w.dydp, n, k), k, rest);
  }

  /** As written, a wrapper whose old yDot is shorter than the stream's n
      cannot read back what writeExternal wrote. */
  lemma {:induction false} AsWrittenShortYDot<I>(w0: InterpolatorWrapper<I>, w: InterpolatorWrapper<I>, rest: seq<Item<I>>)
    requires WriteExternal(w).Ok? && |w0.yDot| < |w.y|
    ensures ReadExternalAsWritten(w0, WriteExternal(w).value + rest) == Err(IndexOutOfBounds)
  {
    var n, k := |w.y|, |w.dydp[0]|;
    WrittenItems(w, rest);
    var c := MatrixDoubles(Truncate(w.dydy0, n, n)) + (MatrixDoubles(Truncate(w.dydp, n, k)) + rest);
    ReadDoublesOf(w.y, Doubles(w.yDot[..n]) + c);
    ReadIntoShort(w.yDot[..n], w0.yDot, 0, c);
    assert w.yDot[..n][0..] == w.yDot[..n];
  }

  /** The concrete instance: a freshly written one-component wrapper cannot be
      read into a wrapper whose yDot is empty. */
  lemma EmptyYDotCounterexample(rest: seq<Item<int>>)
    ensures var w := InterpolatorWrapper(7, [1.0], [2.0], [[3.0]], [[]]);
            var w0 := InterpolatorWrapper(0, [], [], [], []);
            WriteExternal(w).Ok?
            && ReadExternal(w0, WriteExternal(w).value + rest) == Ok(Read(w, rest))
            && ReadExternalAsWritten(w0, WriteExternal(w).value + rest) == Err(IndexOutOfBounds)
  {
    var w := InterpolatorWrapper(7, [1.0], [2.0], [[3.0]], [[]]);
    var w0 := InterpolatorWrapper(0, [], [], [], []);
    ShapedRoundTrip(w0, w, 1, 0, rest);
    AsWrittenShortYDot(w0, w, rest);
  }
}
