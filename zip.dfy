/** `zip` and `unzip` of zip.hpp, for rows of two components: columns
    become rows and back. */
module Zip {

  /** Row i of zipping `a` with `b`: (a[i], b[i]), for every position of
      the first column. */
  function Zipped<A, B>(a: seq<A>, b: seq<B>): (rows: seq<(A, B)>)
    requires |b| >= |a|
    ensures |rows| == |a|
  {
    seq(|a|, i requires 0 <= i < |a| => (a[i], b[i]))
  }

  /** The first components of the rows. */
  function Firsts<A, B>(rows: seq<(A, B)>): (a: seq<A>)
    ensures |a| == |rows|
  {
    seq(|rows|, i requires 0 <= i < |rows| => rows[i].0)
  }

  /** The second components of the rows. */
  function Seconds<A, B>(rows: seq<(A, B)>): (b: seq<B>)
    ensures |b| == |rows|
  {
    seq(|rows|, i requires 0 <= i < |rows| => rows[i].1)
  }

  /** zip(tup): as many rows as the first column has entries; every other
      column must be at least that long. */
  method ZipTuple<A, B>(tup: (seq<A>, seq<B>)) returns (ret: seq<(A, B)>)
    requires |tup.1| >= |tup.0|
    ensures |ret| == |tup.0|
    ensures forall i :: 0 <= i < |ret| ==> ret[i].0 == tup.0[i] && ret[i].1 == tup.1[i]
  {
    var size := |tup.0|;
    ret := [];
    for i := 0 to size
      invariant |ret| == i
      invariant forall k :: 0 <= k < i ==> ret[k] == (tup.0[k], tup.1[k])
    {
      var row: (A, B) := (tup.0[i], tup.1[i]);
      ret := ret + [row];
    }
  }

  /** zip(vecs...): the tuple form applied to the columns. */
  method Zip<A, B>(a: seq<A>, b: seq<B>) returns (ret: seq<(A, B)>)
    requires |b| >= |a|
    ensures ret == Zipped(a, b)
  {
    ret := ZipTuple((a, b));
  }

  /** unzip(vec): component k of row i lands at position i of column k. */
  method Unzip<A, B>(vec: seq<(A, B)>) returns (ret: (seq<A>, seq<B>))
    ensures |ret.0| == |vec| && |ret.1| == |vec|
    ensures forall i :: 0 <= i < |vec| ==> ret.0[i] == vec[i].0 && ret.1[i] == vec[i].1
    ensures ret == (Firsts(vec), Seconds(vec))
  {
    var xs: seq<A> := [];
    var ys: seq<B> := [];
    for i := 0 to |vec|
      invariant |xs| == i && |ys| == i
      invariant forall k :: 0 <= k < i ==> xs[k] == vec[k].0 && ys[k] == vec[k].1
    {
      xs := xs + [vec[i].0];
      ys := ys + [vec[i].1];
    }
    assert xs == Firsts(vec) && ys == Seconds(vec);
    ret := (xs, ys);
  }

  /** Unzipping zipped columns gives them back, the second cut to the
      first's length. */
  lemma UnzipZip<A, B>(a: seq<A>, b: seq<B>)
    requires |b| >= |a|
    ensures Firsts(Zipped(a, b)) == a
    ensures Seconds(Zipped(a, b)) == b[..|a|]
  {
  }

  /** Zipping unzipped rows gives them back. */
  lemma ZipUnzip<A, B>(rows: seq<(A, B)>)
    ensures Zipped(Firsts(rows), Seconds(rows)) == rows
  {
  }
}
