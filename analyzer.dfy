/** `VideoPerturbationAnalyzer.explain_instance` up to the regression
    dataset: the masks are sampled from the labelling and the random stream,
    then every perturbed copy is scored. */
module Analyzer {
  import opened Volumes
  import opened Masks
  import opened Dataset

  /** Sample `numMatrix` masks over `segments` and build the dataset from them.
      Row `i` of the dataset pairs the `i`-th activation vector, of
      `cluster_size` bits, with the model's output on the video blacked out
      where that vector's mask is set; the model is called once more than
      there are samples. */
  method PerturbationDataset(model: ScoringFunction, video: Volume, segments: seq<int>,
                             numMatrix: nat, draw: nat -> bool)
    returns (x: seq<seq<bool>>, y: seq<Output>)
    requires |segments| == |video|
    modifies model
    ensures |x| == numMatrix && |y| == numMatrix
    ensures forall i :: 0 <= i < numMatrix ==>
      x[i] == Draws(draw, i * ClusterSize(segments), ClusterSize(segments))
    ensures forall i :: 0 <= i < numMatrix ==> y[i] == model.f(Perturbed(video, MaskOf(segments, x[i])))
    ensures |model.calls| == |old(model.calls)| + numMatrix + 1
    ensures model.calls[|old(model.calls)|] == video
  {
    var masks, activations := GenerateMasks(segments, numMatrix, draw);
    x, y := GenerateDataset(model, video, masks, activations);
  }
}
