/** A dense four-dimensional array of numbers, indexed frame × channel × row ×
    column, standing in for the buffer's numpy tensor. */
module Tensors {

  type Tensor = seq<seq<seq<seq<int>>>>

  /** The index (f, c, r, k) lies inside t, dimension by dimension. */
  predicate Valid(t: Tensor, f: int, c: int, r: int, k: int) {
    && 0 <= f < |t|
    && 0 <= c < |t[f]|
    && 0 <= r < |t[f][c]|
    && 0 <= k < |t[f][c][r]|
  }

  /** t is rectangular with shape (frames, channels, side, side). */
  ghost predicate HasShape(t: Tensor, frames: nat, channels: nat, side: nat) {
    && |t| == frames
    && (forall f :: 0 <= f < frames ==> |t[f]| == channels)
    && (forall f, c :: 0 <= f < frames && 0 <= c < channels ==> |t[f][c]| == side)
    && (forall f, c, r :: 0 <= f < frames && 0 <= c < channels && 0 <= r < side ==>
          |t[f][c][r]| == side)
  }

  /** Every in-shape index is valid. */
  lemma ValidInShape(t: Tensor, frames: nat, channels: nat, side: nat, f: int, c: int, r: int, k: int)
    requires HasShape(t, frames, channels, side)
    requires 0 <= f < frames && 0 <= c < channels && 0 <= r < side && 0 <= k < side
    ensures Valid(t, f, c, r, k)
  {
  }

  /** t and u have the same extent along every dimension. */
  ghost predicate SameShape(t: Tensor, u: Tensor) {
    && |t| == |u|
    && (forall f :: 0 <= f < |t| ==> |t[f]| == |u[f]|)
    && (forall f, c :: 0 <= f < |t| && 0 <= c < |t[f]| ==> |t[f][c]| == |u[f][c]|)
    && (forall f, c, r :: 0 <= f < |t| && 0 <= c < |t[f]| && 0 <= r < |t[f][c]| ==>
          |t[f][c][r]| == |u[f][c][r]|)
  }

  function Get(t: Tensor, f: int, c: int, r: int, k: int): int
    requires Valid(t, f, c, r, k)
  {
    t[f][c][r][k]
  }

  /** numpy's `np.zeros((frames, channels, side, side))`. */
  function Zeros(frames: nat, channels: nat, side: nat): (t: Tensor)
    ensures HasShape(t, frames, channels, side)
    ensures forall f, c, r, k :: Valid(t, f, c, r, k) ==> Get(t, f, c, r, k) == 0
  {
    seq(frames, _ => seq(channels, _ => seq(side, _ => seq(side, _ => 0))))
  }

  /** The single-element assignment `t[f, c, r, k] = v`: the shape is kept, the
      addressed element becomes v, and every other element is untouched. */
  function Set(t: Tensor, f: int, c: int, r: int, k: int, v: int): (u: Tensor)
    requires Valid(t, f, c, r, k)
    ensures SameShape(t, u)
    ensures forall frames: nat, channels: nat, side: nat ::
              HasShape(t, frames, channels, side) ==> HasShape(u, frames, channels, side)
    ensures Valid(u, f, c, r, k) && Get(u, f, c, r, k) == v
    ensures forall f', c', r', k' :: Valid(u, f', c', r', k') <==> Valid(t, f', c', r', k')
    ensures forall f', c', r', k' ::
              Valid(t, f', c', r', k') && (f', c', r', k') != (f, c, r, k) ==>
                Get(u, f', c', r', k') == Get(t, f', c', r', k')
  {
    t[f := t[f][c := t[f][c][r := t[f][c][r][k := v]]]]
  }

  /** Two tensors of the same shape that agree on every element are equal. */
  lemma {:induction false} Extensionality(t: Tensor, u: Tensor)
    requires SameShape(t, u)
    requires forall f, c, r, k :: Valid(t, f, c, r, k) ==> Get(t, f, c, r, k) == Get(u, f, c, r, k)
    ensures t == u
  {
    forall f | 0 <= f < |t|
      ensures t[f] == u[f]
    {
      forall c | 0 <= c < |t[f]|
        ensures t[f][c] == u[f][c]
      {
        forall r | 0 <= r < |t[f][c]|
          ensures t[f][c][r] == u[f][c][r]
        {
          assert |t[f][c][r]| == |u[f][c][r]|;
          forall k | 0 <= k < |t[f][c][r]|
            ensures t[f][c][r][k] == u[f][c][r][k]
          {
            assert Valid(t, f, c, r, k);
            assert Get(t, f, c, r, k) == Get(u, f, c, r, k);
          }
        }
      }
    }
  }

  /** Writing the same element twice keeps only the second value. */
  lemma SetSet(t: Tensor, f: int, c: int, r: int, k: int, v: int, w: int)
    requires Valid(t, f, c, r, k)
    ensures Set(Set(t, f, c, r, k, v), f, c, r, k, w) == Set(t, f, c, r, k, w)
  {
    Extensionality(Set(Set(t, f, c, r, k, v), f, c, r, k, w), Set(t, f, c, r, k, w));
  }

  /** Writes to two different elements commute. */
  lemma SetCommutes(t: Tensor, f: int, c: int, r: int, k: int, v: int,
                    f': int, c': int, r': int, k': int, w: int)
    requires Valid(t, f, c, r, k) && Valid(t, f', c', r', k')
    requires (f, c, r, k) != (f', c', r', k')
    ensures Set(Set(t, f, c, r, k, v), f', c', r', k', w)
         == Set(Set(t, f', c', r', k', w), f, c, r, k, v)
  {
    Extensionality(Set(Set(t, f, c, r, k, v), f', c', r', k', w),
                   Set(Set(t, f', c', r', k', w), f, c, r, k, v));
  }
}
