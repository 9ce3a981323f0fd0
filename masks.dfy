/** Mask sampling: `VideoPerturbationAnalyzer._generate_repeted_perturbed_matrices`.

    The labelling `segments` (the output of the superpixel segmentation) and
    the stream of random bits are inputs: `draw(k)` is the outcome of the
    k-th `random.randint(0, 1) == 1` the method performs. */
module Masks {
  import opened Volumes

  /** The distinct region IDs that occur in the labelling. */
  function Labels(segments: seq<int>): set<int>
  {
    set c | c in segments
  }

  /** `cluster_size`: the number of distinct region IDs (`len(np.unique(segments))`).
      It is at most the number of cells, and zero only for an empty labelling. */
  function ClusterSize(segments: seq<int>): (n: nat)
    ensures n <= |segments|
    ensures n == 0 <==> |segments| == 0
  {
    LabelCountBounds(segments);
    |Labels(segments)|
  }

  /** The cells labelled `id`: the boolean volume `segments == id`. */
  function LabelCells(segments: seq<int>, id: int): (cells: Mask)
    ensures |cells| == |segments|
  {
    seq(|segments|, c requires 0 <= c < |segments| => segments[c] == id)
  }

  /** The IDs `0 .. n - 1` that the sampling loop covers. */
  function Range(n: nat): (ids: set<int>)
    ensures forall i :: i in ids <==> 0 <= i < n
  {
    if n == 0 then {} else Range(n - 1) + {n - 1}
  }

  /** True when the region `id` is blacked out under `activation`: the
      loop only covers IDs below the activation's length. */
  predicate BlackedOut(id: int, activation: seq<bool>)
  {
    0 <= id < |activation| && activation[id]
  }

  /** The mask the loop builds from one activation vector: a cell is set iff
      some covered ID `idx` has its bit on and labels that cell. */
  function MaskOf(segments: seq<int>, activation: seq<bool>): (mask: Mask)
    ensures |mask| == |segments|
    ensures forall c :: 0 <= c < |segments| ==>
      (mask[c] <==> exists idx :: 0 <= idx < |activation| && activation[idx] && segments[c] == idx)
  {
    var mask := seq(|segments|, c requires 0 <= c < |segments| => BlackedOut(segments[c], activation));
    assert forall c :: 0 <= c < |segments| && mask[c] ==>
      var idx := segments[c]; 0 <= idx < |activation| && activation[idx] && segments[c] == idx;
    mask
  }

  /** The `n` bits drawn from position `start` of the random stream. */
  function Draws(draw: nat -> bool, start: nat, n: nat): (bits: seq<bool>)
    ensures |bits| == n
    ensures forall k :: 0 <= k < n ==> bits[k] == draw(start + k)
  {
    seq(n, k requires 0 <= k < n => draw(start + k))
  }

  /** `mask |= (segments == idx)`, in place. */
  method OrInLabel(mask: array<bool>, segments: seq<int>, idx: int)
    requires mask.Length == |segments|
    modifies mask
    ensures forall c :: 0 <= c < mask.Length ==> mask[c] == (old(mask[c]) || segments[c] == idx)
  {
    var c := 0;
    while c < mask.Length
      invariant 0 <= c <= mask.Length
      invariant forall k :: 0 <= k < c ==> mask[k] == (old(mask[k]) || segments[k] == idx)
      invariant forall k :: c <= k < mask.Length ==> mask[k] == old(mask[k])
    {
      mask[c] := mask[c] || segments[c] == idx;
      c := c + 1;
    }
  }

  /** Appending one more bit to the activation ORs in the cells of the next ID. */
  lemma MaskOfSnoc(segments: seq<int>, activation: seq<bool>, bit: bool, c: nat)
    requires c < |segments|
    ensures MaskOf(segments, activation + [bit])[c]
         == (MaskOf(segments, activation)[c] || (bit && segments[c] == |activation|))
  {
  }

  /** One step of the inner loop, seen on the video: blacking out the mask
      of `activation + [bit]` is blacking out the mask of `activation` and
      then, when `bit` is on, the cells of the next ID `|activation|`. */
  lemma BlackOutStep(video: Volume, segments: seq<int>, activation: seq<bool>, bit: bool)
    requires |segments| == |video|
    ensures Perturbed(video, MaskOf(segments, activation + [bit]))
         == if bit
            then Perturbed(Perturbed(video, MaskOf(segments, activation)), LabelCells(segments, |activation|))
            else Perturbed(video, MaskOf(segments, activation))
  {
    forall c | 0 <= c < |segments|
      ensures MaskOf(segments, activation + [bit])[c]
           == (MaskOf(segments, activation)[c] || (bit && segments[c] == |activation|))
    {
      MaskOfSnoc(segments, activation, bit, c);
    }
  }

  /** Draws `numMatrix` activation vectors of `cluster_size` bits each and
      builds the mask of each one. Mask `i` comes from activation `i`, and
      activation `i` is the `i`-th block of `cluster_size` draws. */
  method GenerateMasks(segments: seq<int>, numMatrix: nat, draw: nat -> bool)
    returns (masks: seq<Mask>, activations: seq<seq<bool>>)
    ensures |masks| == numMatrix && |activations| == numMatrix
    ensures forall i :: 0 <= i < numMatrix ==>
      activations[i] == Draws(draw, i * ClusterSize(segments), ClusterSize(segments))
    ensures forall i :: 0 <= i < numMatrix ==> masks[i] == MaskOf(segments, activations[i])
  {
    var clusterSize := |Labels(segments)|;
    masks, activations := [], [];
    var n := 0;
    while n < numMatrix
      invariant n <= numMatrix
      invariant |masks| == n && |activations| == n
      invariant forall i :: 0 <= i < n ==> activations[i] == Draws(draw, i * clusterSize, clusterSize)
      invariant forall i :: 0 <= i < n ==> masks[i] == MaskOf(segments, activations[i])
    {
      var activation := [];
      var mask := new bool[|segments|](_ => false);
      assert mask[..] == MaskOf(segments, activation);
      var idx := 0;
      while idx < clusterSize
        invariant idx <= clusterSize
        invariant activation == Draws(draw, n * clusterSize, idx)
        invariant mask[..] == MaskOf(segments, activation)
      {
        var isBlack := draw(n * clusterSize + idx);
        if isBlack {
          OrInLabel(mask, segments, idx);
        }
        forall c | 0 <= c < |segments|
          ensures mask[c] == MaskOf(segments, activation + [isBlack])[c]
        {
          MaskOfSnoc(segments, activation, isBlack, c);
        }
        activation := activation + [isBlack];
        idx := idx + 1;
      }
      activations := activations + [activation];
      masks := masks + [mask[..]];
      n := n + 1;
    }
  }

  /** Region IDs outside `0 .. |activation| - 1` are never blacked out. */
  lemma OutOfRangeNeverMasked(segments: seq<int>, activation: seq<bool>, c: nat)
    requires c < |segments|
    requires segments[c] < 0 || segments[c] >= |activation|
    ensures !MaskOf(segments, activation)[c]
  {
  }

  /** An activation vector with every bit off yields an all-false mask. */
  lemma AllOffMasksNothing(segments: seq<int>, activation: seq<bool>)
    requires forall idx :: 0 <= idx < |activation| ==> !activation[idx]
    ensures forall c :: 0 <= c < |segments| ==> !MaskOf(segments, activation)[c]
  {
  }

  /** When every ID of the labelling is below the activation's length, a
      cell is masked exactly when its region's bit is on. */
  lemma MaskFollowsRegionBit(segments: seq<int>, activation: seq<bool>, c: nat)
    requires Labels(segments) <= Range(|activation|)
    requires c < |segments|
    ensures 0 <= segments[c] < |activation|
    ensures MaskOf(segments, activation)[c] == activation[segments[c]]
  {
    assert segments[c] in Labels(segments);
  }

  /** Flipping the bit of an ID that labels no cell leaves the mask unchanged. */
  lemma AbsentIdIgnored(segments: seq<int>, activation: seq<bool>, idx: nat, bit: bool)
    requires idx < |activation| && idx !in Labels(segments)
    ensures MaskOf(segments, activation[idx := bit]) == MaskOf(segments, activation)
  {
  }

  /** `|{0, .., n - 1}| == n`. */
  lemma {:induction false} RangeSize(n: nat)
    ensures |Range(n)| == n
  {
    if n > 0 {
      RangeSize(n - 1);
    }
  }

  /** A subset as large as a finite set is that set. */
  lemma SubsetOfSameSize(a: set<int>, b: set<int>)
    requires a <= b && |a| == |b|
    ensures a == b
  {
    assert a + (b - a) == b;
    assert |b - a| == 0;
  }

  /** The labelling has no more distinct IDs than cells, and at least one
      when it has a cell. */
  lemma {:induction false} LabelCountBounds(segments: seq<int>)
    ensures |Labels(segments)| <= |segments|
    ensures |segments| > 0 ==> |Labels(segments)| > 0
  {
    if |segments| > 0 {
      var rest := segments[1..];
      LabelCountBounds(rest);
      assert Labels(segments) == Labels(rest) + {segments[0]};
    }
  }

  /** The loop covers the IDs `0 .. cluster_size - 1`. When the labelling's
      IDs are not exactly those (a labelling that starts at 1, say), some
      cell carries an ID the loop never covers, so that cell is never
      blacked out, and some covered ID labels no cell, so its bit has no
      effect on any mask. */
  lemma {:induction false} UncoveredRegionExists(segments: seq<int>)
    requires Labels(segments) != Range(ClusterSize(segments))
    ensures exists c :: 0 <= c < |segments| && !(0 <= segments[c] < ClusterSize(segments))
    ensures exists idx :: 0 <= idx < ClusterSize(segments) && idx !in Labels(segments)
  {
    var n := ClusterSize(segments);
    RangeSize(n);
    if Labels(segments) <= Range(n) {
      SubsetOfSameSize(Labels(segments), Range(n));
    }
    var l :| l in Labels(segments) && l !in Range(n);
    var c :| 0 <= c < |segments| && segments[c] == l;
    if Range(n) <= Labels(segments) {
      SubsetOfSameSize(Range(n), Labels(segments));
    }
    var idx :| idx in Range(n) && idx !in Labels(segments);
  }

  /** With a labelling whose IDs are exactly `0 .. cluster_size - 1`, every
      region can be blacked out: the all-on activation masks every cell. */
  lemma AllOnMasksEverything(segments: seq<int>, activation: seq<bool>)
    requires Labels(segments) == Range(ClusterSize(segments))
    requires |activation| == ClusterSize(segments)
    requires forall idx :: 0 <= idx < |activation| ==> activation[idx]
    ensures forall c :: 0 <= c < |segments| ==> MaskOf(segments, activation)[c]
  {
    forall c | 0 <= c < |segments|
      ensures MaskOf(segments, activation)[c]
    {
      MaskFollowsRegionBit(segments, activation, c);
    }
  }
}
