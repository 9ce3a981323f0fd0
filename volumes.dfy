/** Video volumes as the analyzer handles them after `np.stack`.

    A volume of shape frames x height x width is stored flattened in C order:
    every operation of the analyzer on volumes (`segments == idx`,
    `mask |= ...`, `video[mask] = [0, 0, 0]`) works cell by cell, so two
    volumes of the same shape are two sequences of the same length whose
    cells correspond index by index. */
module Volumes {

  /** One pixel of a frame: three integer colour channels. */
  datatype Pixel = Pixel(r: int, g: int, b: int)

  /** The value written into every blacked-out pixel. */
  const Black: Pixel := Pixel(0, 0, 0)

  /** A video volume, cells in C order. */
  type Volume = seq<Pixel>

  /** A boolean volume with the shape of the segment labelling. */
  type Mask = seq<bool>

  /** The copy of `video` in which every cell selected by `mask` is black
      in all three channels and every other cell keeps its pixel. */
  function Perturbed(video: Volume, mask: Mask): (p: Volume)
    requires |mask| == |video|
    ensures |p| == |video|
    ensures forall c :: 0 <= c < |video| && mask[c] ==> p[c] == Black
    ensures forall c :: 0 <= c < |video| && !mask[c] ==> p[c] == video[c]
  {
    seq(|video|, c requires 0 <= c < |video| => if mask[c] then Black else video[c])
  }

  /** An all-false mask leaves the video as it is. */
  lemma EmptyMaskIsIdentity(video: Volume, mask: Mask)
    requires |mask| == |video|
    requires forall c :: 0 <= c < |mask| ==> !mask[c]
    ensures Perturbed(video, mask) == video
  {
  }

  /** A cell differs from the original only if the mask selects it, and a
      selected cell is black. */
  lemma PerturbedChangesOnlyMasked(video: Volume, mask: Mask, c: nat)
    requires |mask| == |video| && c < |video|
    ensures Perturbed(video, mask)[c] != video[c] ==> mask[c]
    ensures mask[c] ==> Perturbed(video, mask)[c] == Black
  {
  }

  /** `pertubated_video[mask] = [0, 0, 0]`: blacks out, in place, every cell
      of `video` that `mask` selects. */
  method BlackOut(video: array<Pixel>, mask: Mask)
    requires video.Length == |mask|
    modifies video
    ensures video[..] == Perturbed(old(video[..]), mask)
  {
    var c := 0;
    while c < video.Length
      invariant 0 <= c <= video.Length
      invariant forall k :: 0 <= k < c ==> video[k] == (if mask[k] then Black else old(video[k]))
      invariant forall k :: c <= k < video.Length ==> video[k] == old(video[k])
    {
      if mask[c] {
        video[c] := Black;
      }
      c := c + 1;
    }
  }
}
