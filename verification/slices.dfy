/** Facts about slices of sequences used to line up fields of the container. */
module Slices {

  /** A slice of a slice of `data` is a slice of `data`. */
  lemma SliceOfSlice<T>(data: seq<T>, offset: nat, e: seq<T>, i: nat, j: nat)
    requires offset + |e| <= |data| && data[offset..offset + |e|] == e
    requires i <= j <= |e|
    ensures data[offset + i..offset + j] == e[i..j]
  {
    forall k | 0 <= k < j - i
      ensures data[offset + i..offset + j][k] == e[i..j][k]
    {
      assert data[offset + i + k] == data[offset..offset + |e|][i + k];
    }
  }

  /** Four adjacent slices of a sequence make up the slice that spans them. */
  lemma Adjacent4<T>(data: seq<T>, a: nat, b: nat, c: nat, d: nat, e: nat)
    requires a <= b <= c <= d <= e <= |data|
    ensures data[a..e] == data[a..b] + data[b..c] + data[c..d] + data[d..e]
  {
    var w, x, y, z := data[a..b], data[b..c], data[c..d], data[d..e];
    Adjacent2(data, c, d, e);
    Adjacent2(data, b, c, e);
    Adjacent2(data, a, b, e);
    AppendAssoc(w, x, y + z);
    AppendAssoc(w + x, y, z);
  }

  /** Four adjacent slices holding `w`, `x`, `y` and `z` hold their concatenation. */
  lemma Fields4<T>(data: seq<T>, a: nat, b: nat, c: nat, d: nat, e: nat,
                   w: seq<T>, x: seq<T>, y: seq<T>, z: seq<T>)
    requires a <= b <= c <= d <= e <= |data|
    requires data[a..b] == w && data[b..c] == x && data[c..d] == y && data[d..e] == z
    ensures data[a..e] == w + x + y + z
  {
    Adjacent4(data, a, b, c, d, e);
  }

  /** Two adjacent slices of a sequence make up the slice that spans them. */
  lemma Adjacent2<T>(data: seq<T>, a: nat, b: nat, c: nat)
    requires a <= b <= c <= |data|
    ensures data[a..c] == data[a..b] + data[b..c]
  {
  }

  /** The two halves of a concatenation, as slices of it. */
  lemma ConcatSlices<T>(x: seq<T>, y: seq<T>)
    ensures (x + y)[..|x|] == x && (x + y)[|x|..] == y
  {
  }

  /** A slice of a sequence whose tail from `offset` on is a prefix of `e`. */
  lemma PrefixSlice<T>(data: seq<T>, offset: nat, e: seq<T>, i: nat, j: nat)
    requires offset <= |data| && |data| - offset <= |e| && data[offset..] == e[..|data| - offset]
    requires i <= j <= |data| - offset
    ensures data[offset + i..offset + j] == e[i..j]
  {
    forall k | 0 <= k < j - i
      ensures data[offset + i..offset + j][k] == e[i..j][k]
    {
      assert data[offset + i + k] == data[offset..][i + k];
    }
  }

  /** Concatenations of equal parts are equal, and equal concatenations have equal parts. */
  lemma ConcatEqual<T>(x: seq<T>, y: seq<T>, x': seq<T>, y': seq<T>)
    requires |x| == |x'|
    ensures x + y == x' + y' <==> x == x' && y == y'
  {
    if x + y == x' + y' {
      assert x == (x + y)[..|x|] && x' == (x' + y')[..|x|];
      assert y == (x + y)[|x|..] && y' == (x' + y')[|x|..];
    }
  }

  /** Concatenation is associative. */
  lemma AppendAssoc<T>(x: seq<T>, y: seq<T>, z: seq<T>)
    ensures x + (y + z) == (x + y) + z
  {
  }

  /** The parts one after another. */
  function Flatten<T>(parts: seq<seq<T>>): (r: seq<T>)
    ensures parts != [] ==> |r| == |parts[0]| + |Flatten(parts[1..])|
  {
    if parts == [] then [] else parts[0] + Flatten(parts[1..])
  }

  /** `data` holds `p` from `offset` on. */
  ghost predicate HoldsAt<T>(data: seq<T>, offset: nat, p: seq<T>) {
    offset + |p| <= |data| && data[offset..offset + |p|] == p
  }

  /** `data` holds `parts`, one after another and nothing in between, from `offset` on. */
  ghost predicate HoldsParts<T>(data: seq<T>, offset: nat, parts: seq<seq<T>>)
    decreases |parts|
  {
    if parts == [] then offset <= |data|
    else HoldsAt(data, offset, parts[0]) && HoldsParts(data, offset + |parts[0]|, parts[1..])
  }

  /** Holding a first part and then the rest. */
  lemma HoldsPartsCons<T>(data: seq<T>, offset: nat, p: seq<T>, rest: seq<seq<T>>)
    ensures HoldsParts(data, offset, [p] + rest)
        <==> HoldsAt(data, offset, p) && HoldsParts(data, offset + |p|, rest)
  {
    assert ([p] + rest)[0] == p && ([p] + rest)[1..] == rest;
  }

  /** Holding the parts one after another is holding their concatenation. */
  lemma {:induction false} HoldsPartsFlatten<T>(data: seq<T>, offset: nat, parts: seq<seq<T>>)
    ensures HoldsParts(data, offset, parts) <==> HoldsAt(data, offset, Flatten(parts))
    decreases |parts|
  {
    if parts == [] {
      HoldsNothing(data, offset);
    } else {
      HoldsPartsFlatten(data, offset + |parts[0]|, parts[1..]);
      HoldsTwo(data, offset, parts[0], Flatten(parts[1..]));
    }
  }

  /** Every offset up to the end holds the empty sequence. */
  lemma HoldsNothing<T>(data: seq<T>, offset: nat)
    ensures HoldsAt(data, offset, []) <==> offset <= |data|
  {
    if offset <= |data| {
      assert data[offset..offset] == [];
    }
  }

  /** Holding `p` and then `t` is holding `p + t`. */
  lemma HoldsTwo<T>(data: seq<T>, offset: nat, p: seq<T>, t: seq<T>)
    ensures HoldsAt(data, offset, p + t) <==> HoldsAt(data, offset, p) && HoldsAt(data, offset + |p|, t)
  {
    if offset + |p| + |t| <= |data| {
      Adjacent2(data, offset, offset + |p|, offset + |p| + |t|);
      ConcatEqual(data[offset..offset + |p|], data[offset + |p|..offset + |p| + |t|], p, t);
    }
  }

  /** A concatenation holds its left part at its start. */
  lemma HoldsLeft<T>(s: seq<T>, t: seq<T>)
    ensures HoldsAt(s + t, 0, s)
  {
    assert (s + t)[0..|s|] == s;
  }
}
