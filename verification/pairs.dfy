/** The user-major cross product of two id lists (`xs.flatMap(x => ys.map(y => ...))`). */
module Pairs {

  function Cross<A, B>(xs: seq<A>, ys: seq<B>): (r: seq<(A, B)>)
    ensures |r| == |xs| * |ys|
    decreases |xs|
  {
    if xs == [] then []
    else Cross(xs[..|xs| - 1], ys) + seq(|ys|, j requires 0 <= j < |ys| => (xs[|xs| - 1], ys[j]))
  }

  lemma {:induction false} RowStart(i: nat, rows: nat, width: nat)
    requires i < rows
    ensures i * width + width <= rows * width
    decreases rows
  {
    if i + 1 < rows {
      RowStart(i, rows - 1, width);
      assert rows * width == (rows - 1) * width + width;
    }
  }

  /** Position `i * |ys| + j` holds the pair of the `i`-th x and the `j`-th y. */
  lemma {:induction false} CrossAt<A, B>(xs: seq<A>, ys: seq<B>, i: nat, j: nat)
    requires i < |xs| && j < |ys|
    ensures i * |ys| + j < |Cross(xs, ys)|
    ensures Cross(xs, ys)[i * |ys| + j] == (xs[i], ys[j])
    decreases |xs|
  {
    var n := |xs|;
    var prefix := xs[..n - 1];
    RowStart(i, n, |ys|);
    assert |Cross(prefix, ys)| == (n - 1) * |ys|;
    if i < n - 1 {
      CrossAt(prefix, ys, i, j);
    } else {
      assert i * |ys| + j - |Cross(prefix, ys)| == j;
    }
  }

  /** Every pair of the product comes from some position of each list. */
  lemma {:induction false} CrossMember<A, B>(xs: seq<A>, ys: seq<B>, k: nat)
    requires k < |Cross(xs, ys)|
    ensures Cross(xs, ys)[k].0 in xs && Cross(xs, ys)[k].1 in ys
    decreases |xs|
  {
    var prefix := xs[..|xs| - 1];
    if k < |Cross(prefix, ys)| {
      CrossMember(prefix, ys, k);
    }
  }

  /** The pairs whose first component is `x`, in product order. */
  function WithFirst<A(==), B>(ps: seq<(A, B)>, x: A): (r: seq<(A, B)>)
    ensures |r| <= |ps|
    ensures forall k :: 0 <= k < |r| ==> r[k].0 == x
    decreases |ps|
  {
    if ps == [] then []
    else
      var rest := WithFirst(ps[..|ps| - 1], x);
      if ps[|ps| - 1].0 == x then rest + [ps[|ps| - 1]] else rest
  }

  lemma {:induction false} WithFirstAppend<A, B>(a: seq<(A, B)>, b: seq<(A, B)>, x: A)
    ensures WithFirst(a + b, x) == WithFirst(a, x) + WithFirst(b, x)
    decreases |b|
  {
    if b == [] {
      assert a + b == a;
    } else {
      var b' := b[..|b| - 1];
      assert (a + b)[..|a + b| - 1] == a + b';
      WithFirstAppend(a, b', x);
    }
  }

  function Row<A, B>(x: A, ys: seq<B>): (r: seq<(A, B)>)
    ensures |r| == |ys| && forall j :: 0 <= j < |ys| ==> r[j] == (x, ys[j])
  {
    seq(|ys|, j requires 0 <= j < |ys| => (x, ys[j]))
  }

  lemma {:induction false} WithFirstOfRow<A, B>(y: A, ys: seq<B>, x: A)
    ensures WithFirst(Row(y, ys), x) == if x == y then Row(y, ys) else []
    decreases |ys|
  {
    if ys != [] {
      var ys' := ys[..|ys| - 1];
      assert Row(y, ys)[..|ys| - 1] == Row(y, ys');
      WithFirstOfRow(y, ys', x);
    }
  }

  /** The occurrences of `x` in `xs`. */
  function Only<A(==)>(xs: seq<A>, x: A): (r: seq<A>)
    ensures |r| <= |xs|
    ensures forall k :: 0 <= k < |r| ==> r[k] == x
    decreases |xs|
  {
    if xs == [] then []
    else Only(xs[..|xs| - 1], x) + (if xs[|xs| - 1] == x then [x] else [])
  }

  /** Filtering the product by first component is the product of `x`'s occurrences with the second list. */
  lemma {:induction false} WithFirstOfCross<A, B>(xs: seq<A>, ys: seq<B>, x: A)
    ensures WithFirst(Cross(xs, ys), x) == Cross(Only(xs, x), ys)
    decreases |xs|
  {
    if xs != [] {
      var prefix := xs[..|xs| - 1];
      var last := xs[|xs| - 1];
      assert Cross(xs, ys) == Cross(prefix, ys) + Row(last, ys);
      WithFirstAppend(Cross(prefix, ys), Row(last, ys), x);
      WithFirstOfCross(prefix, ys, x);
      WithFirstOfRow(last, ys, x);
      var o := Only(prefix, x);
      if last == x {
        assert Only(xs, x) == o + [x];
        assert (o + [x])[..|o + [x]| - 1] == o;
      } else {
        assert Only(xs, x) == o;
      }
    }
  }

  /** A user listed once gets exactly their row of the product; a user not listed gets nothing. */
  lemma WithFirstOfListedOnce<A, B>(xs: seq<A>, ys: seq<B>, x: A)
    ensures |WithFirst(Cross(xs, ys), x)| == |Only(xs, x)| * |ys|
    ensures Only(xs, x) == [] ==> WithFirst(Cross(xs, ys), x) == []
    ensures |Only(xs, x)| == 1 ==> WithFirst(Cross(xs, ys), x) == Row(x, ys)
  {
    WithFirstOfCross(xs, ys, x);
    if |Only(xs, x)| == 1 {
      assert Only(xs, x) == [x];
      assert Cross([x], ys) == Cross([x][..0], ys) + Row(x, ys);
    }
  }
}
