/** Dataset assembly: `VideoPerturbationAnalyzer._generate_dataset`, without
    the cosine distances and kernel weights. */
module Dataset {
  import opened Volumes

  /** What the black-box model returns for one video (a score vector). */
  type Output = seq<real>

  /** The caller's `model_function`: an opaque function from volumes to
      outputs. `calls` records, in order, every volume it was applied to, so
      `|calls|` is the number of calls. */
  class ScoringFunction {
    const f: Volume -> Output
    var calls: seq<Volume>

    constructor (f: Volume -> Output)
      ensures this.f == f && calls == []
    {
      this.f := f;
      calls := [];
    }

    /** One call of the model on `video`. */
    method Call(video: Volume) returns (y: Output)
      modifies this
      ensures y == f(video)
      ensures calls == old(calls) + [video]
    {
      y := f(video);
      calls := calls + [video];
    }
  }

  /** The perturbed copy of `video` for every mask, in mask order. */
  function Perturbations(video: Volume, masks: seq<Mask>): (videos: seq<Volume>)
    requires forall i :: 0 <= i < |masks| ==> |masks[i]| == |video|
    ensures |videos| == |masks|
  {
    seq(|masks|, i requires 0 <= i < |masks| => Perturbed(video, masks[i]))
  }

  /** `frames_3d.copy()` followed by `pertubated_video[mask] = [0, 0, 0]`: a
      fresh array holding the perturbed copy; `frames` is left as it was. */
  method PerturbedCopy(frames: array<Pixel>, mask: Mask) returns (perturbed: array<Pixel>)
    requires frames.Length == |mask|
    ensures fresh(perturbed)
    ensures perturbed[..] == Perturbed(frames[..], mask)
    ensures unchanged(frames)
  {
    perturbed := new Pixel[frames.Length](c requires 0 <= c < frames.Length reads frames => frames[c]);
    BlackOut(perturbed, mask);
  }

  /** Scores the unperturbed video once, then every perturbed copy in mask
      order. `x` is the activation list passed through unchanged, and `y[i]`
      is the model's output on the copy blacked out by mask `i`. */
  method GenerateDataset(model: ScoringFunction, video: Volume, masks: seq<Mask>, activations: seq<seq<bool>>)
    returns (x: seq<seq<bool>>, y: seq<Output>)
    requires forall i :: 0 <= i < |masks| ==> |masks[i]| == |video|
    modifies model
    ensures x == activations
    ensures |y| == |masks|
    ensures forall i :: 0 <= i < |masks| ==> y[i] == model.f(Perturbed(video, masks[i]))
    ensures model.calls == old(model.calls) + [video] + Perturbations(video, masks)
    ensures |model.calls| == |old(model.calls)| + |masks| + 1
  {
    var baseline := model.Call(video);
    var frames3d := new Pixel[|video|](c requires 0 <= c < |video| => video[c]);
    var scores := [];
    var i := 0;
    while i < |masks|
      invariant i <= |masks|
      invariant frames3d[..] == video
      invariant |scores| == i
      invariant forall k :: 0 <= k < i ==> scores[k] == model.f(Perturbed(video, masks[k]))
      invariant model.calls == old(model.calls) + [video] + Perturbations(video, masks)[..i]
    {
      var perturbed := PerturbedCopy(frames3d, masks[i]);
      var score := model.Call(perturbed[..]);
      assert Perturbations(video, masks)[..i + 1] == Perturbations(video, masks)[..i] + [perturbed[..]];
      scores := scores + [score];
      i := i + 1;
    }
    assert Perturbations(video, masks)[..i] == Perturbations(video, masks);
    x, y := activations, scores;
  }
}
