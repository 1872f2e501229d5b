/** Rows of values laid out at a stride. */
module Strides {
  /** Every row holds w values. */
  ghost predicate Rectangular<T>(rows: seq<seq<T>>, w: int) {
    forall i :: 0 <= i < |rows| ==> |rows[i]| == w
  }

  /** The rows one after the other, each followed by the same padding. */
  ghost function Stacked<B>(rows: seq<seq<B>>, pad: seq<B>): seq<B> {
    if rows == [] then [] else rows[0] + pad + Stacked(rows[1..], pad)
  }

  lemma {:induction false} StackedAt<B>(rows: seq<seq<B>>, pad: seq<B>, n: int, r: int, b: int)
    requires Rectangular(rows, n) && 0 <= r < |rows| && 0 <= b < n
    ensures |Stacked(rows, pad)| == |rows| * (n + |pad|)
    ensures 0 <= r * (n + |pad|) + b < |Stacked(rows, pad)|
    ensures Stacked(rows, pad)[r * (n + |pad|) + b] == rows[r][b]
    decreases |rows|
  {
    var rest, stride := rows[1..], n + |pad|;
    if rest == [] {
      assert Stacked(rest, pad) == [];
    } else {
      StackedAt(rest, pad, n, if r == 0 then 0 else r - 1, b);
    }
    NextRow(|rows|, r, stride);
  }

  lemma NextRow(h: int, r: int, stride: int)
    ensures (h - 1) * stride + stride == h * stride && (r - 1) * stride + stride == r * stride
  {
  }
}
