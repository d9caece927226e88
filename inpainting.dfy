/**
  The inpainting module: the once-only pipeline cache with its choice of model
  source, the mask and image preprocessing, and the guarded entry point.

  The pretrained pipeline itself is opaque: loading it yields a generator,
  supplied by the environment, that maps the call's arguments to an image.
 */
module Inpainting {
  import opened Imaging

  const FineTunedInpaintDir := "./models/inpainting_pipeline"
  const BaseInpaintModel := "runwayml/stable-diffusion-inpainting"

  /** The side of the square the pipeline works on. */
  const Side: nat := 512

  /** The fixed arguments of the pipeline call. */
  const Prompt := "A realistic reconstruction of the missing regions of the photo."
  const NumInferenceSteps: nat := 40
  const GuidanceScale: real := 7.5

  const NoInputMessage := "No input image provided for inpainting."
  const NoMaskMessage := "No mask provided for inpainting."

  datatype DType = Float16 | Float32
  datatype Device = Cpu | Cuda

  /** The random initial latents a pipeline call draws. The call passes no
      seeded generator, so every call may draw different ones. */
  type Noise = seq<real>

  /** What a loaded pipeline computes: from the device it runs on, the prompt,
      image, mask image, number of inference steps, guidance scale and the
      call's latents to the first output image. */
  type Generator = (Device, string, Image<Rgb>, Image<nat>, nat, real, Noise) -> Image<Rgb>

  /** What the process can observe when it loads a model: whether the
      fine-tuned directory exists, whether a GPU is available, and the
      generator the weights stored under a model source amount to when
      loaded at a given precision. */
  datatype Environment = Environment(fineTunedExists: bool, cudaAvailable: bool,
                                     fromPretrained: (string, DType) -> Generator)

  /** The colour conversions and resampling filters the preprocessing uses,
      for images whose pixels are of type P. */
  datatype Conversions<!P> = Conversions(toRgb: P -> Rgb, toL: P -> nat,
                                         resampleRgb: Sampler<Rgb>, resampleL: Sampler<nat>)

  /** A loaded pipeline object. */
  class Pipeline {
    const modelSource: string
    const dtype: DType
    const safetyChecker: bool
    const generate: Generator
    var device: Device

    /** `StableDiffusionInpaintPipeline.from_pretrained(source, torch_dtype=…,
        safety_checker=None, …)`: a new pipeline on the CPU. */
    constructor FromPretrained(source: string, torchDtype: DType, weights: Generator)
      ensures modelSource == source && dtype == torchDtype && generate == weights
      ensures !safetyChecker && device == Cpu
    {
      modelSource := source;
      dtype := torchDtype;
      safetyChecker := false;
      generate := weights;
      device := Cpu;
    }

    /** `pipe.to(device)`: moves this pipeline and returns it. */
    method To(d: Device) returns (self: Pipeline)
      modifies this
      ensures self == this && device == d
    {
      device := d;
      self := this;
    }
  }

  /** The module's global state: `inpaint_pipe`, null until the first load.
      `loads` counts the calls to `from_pretrained`. */
  class InpaintingModule {
    var inpaintPipe: Pipeline?
    ghost var loads: nat

    /** The pipeline is loaded at most once: no load while the cache is
        empty, exactly one once it is filled. */
    ghost predicate Valid()
      reads this
    {
      loads == if inpaintPipe == null then 0 else 1
    }

    constructor ()
      ensures Valid()
      ensures inpaintPipe == null && loads == 0
    {
      inpaintPipe := null;
      loads := 0;
    }

    /** `load_inpainting_pipeline`: returns the cached pipeline when there is
        one; otherwise loads from the fine-tuned directory if it exists and
        from the base model otherwise, in half precision on a GPU when one is
        available, and caches the result. */
    method LoadInpaintingPipeline(env: Environment) returns (pipe: Pipeline)
      requires Valid()
      modifies this
      ensures Valid() && loads == 1
      ensures inpaintPipe == pipe
      ensures old(inpaintPipe) != null ==> pipe == old(inpaintPipe) && loads == old(loads)
      ensures old(inpaintPipe) == null ==>
                && fresh(pipe) && loads == old(loads) + 1
                && pipe.modelSource == (if env.fineTunedExists then FineTunedInpaintDir else BaseInpaintModel)
                && pipe.generate == env.fromPretrained(pipe.modelSource, pipe.dtype)
                && pipe.dtype == (if env.cudaAvailable then Float16 else Float32)
                && pipe.device == (if env.cudaAvailable then Cuda else Cpu)
                && !pipe.safetyChecker
    {
      if inpaintPipe != null {
        return inpaintPipe;
      }
      var modelToLoad;
      if env.fineTunedExists {
        modelToLoad := FineTunedInpaintDir;
      } else {
        modelToLoad := BaseInpaintModel;
      }
      var torchDtype := if env.cudaAvailable then Float16 else Float32;
      pipe := new Pipeline.FromPretrained(modelToLoad, torchDtype,
                                          env.fromPretrained(modelToLoad, torchDtype));
      loads := loads + 1;
      if env.cudaAvailable {
        pipe := pipe.To(Cuda);
      }
      inpaintPipe := pipe;
    }

    /** `inpaint_image`: refuses a missing image, then a missing mask, before the
        pipeline is touched; otherwise loads (or reuses) the pipeline and runs
        it on the preprocessed image and mask with the latents `noise` this
        call draws. */
    method InpaintImage<P>(inputImg: Option<Image<P>>, maskImg: Option<Image<P>>,
                           conv: Conversions<P>, env: Environment, noise: Noise)
      returns (r: Result<Image<Rgb>>)
      requires Valid()
      requires inputImg.Some? ==> inputImg.value.Valid()
      requires maskImg.Some? ==> maskImg.value.Valid()
      modifies this
      ensures Valid()
      ensures inputImg.None? ==> r == Err(NoInputMessage) && unchanged(this)
      ensures inputImg.Some? && maskImg.None? ==> r == Err(NoMaskMessage) && unchanged(this)
      ensures inputImg.Some? && maskImg.Some? ==>
                && inpaintPipe != null
                && (old(inpaintPipe) != null ==> inpaintPipe == old(inpaintPipe) && loads == old(loads))
                && (old(inpaintPipe) == null ==>
                      && fresh(inpaintPipe) && loads == old(loads) + 1
                      && inpaintPipe.modelSource == (if env.fineTunedExists then FineTunedInpaintDir else BaseInpaintModel)
                      && inpaintPipe.generate == env.fromPretrained(inpaintPipe.modelSource, inpaintPipe.dtype)
                      && inpaintPipe.dtype == (if env.cudaAvailable then Float16 else Float32)
                      && inpaintPipe.device == (if env.cudaAvailable then Cuda else Cpu))
                && r == Ok(inpaintPipe.generate(inpaintPipe.device, Prompt,
                                                PreprocessInpaintImage(inputImg.value, conv),
                                                PreprocessMask(maskImg.value, conv),
                                                NumInferenceSteps, GuidanceScale, noise))
    {
      if inputImg.None? {
        return Err(NoInputMessage);
      }
      if maskImg.None? {
        return Err(NoMaskMessage);
      }
      var pipe := LoadInpaintingPipeline(env);
      var image := PreprocessInpaintImage(inputImg.value, conv);
      var mask := PreprocessMask(maskImg.value, conv);
      r := Ok(pipe.generate(pipe.device, Prompt, image, mask, NumInferenceSteps, GuidanceScale, noise));
    }
  }

  /** Two loads in a row, the second perhaps in a changed environment: the
      second returns the very object the first loaded, so the model source
      chosen the first time sticks. */
  method SecondLoadReturnsCached(first: Environment, second: Environment)
    returns (p1: Pipeline, p2: Pipeline)
    ensures p1 == p2
    ensures p2.modelSource == if first.fineTunedExists then FineTunedInpaintDir else BaseInpaintModel
  {
    var m := new InpaintingModule();
    p1 := m.LoadInpaintingPipeline(first);
    p2 := m.LoadInpaintingPipeline(second);
  }

  // ---------------------------------------------------------------------
  // Preprocessing
  // ---------------------------------------------------------------------

  /** The mask threshold `255 if p > 50 else 0`. */
  function Threshold(p: nat): (q: nat)
    ensures q == 0 || q == 255
    ensures q == 255 <==> p > 50
  {
    if p > 50 then 255 else 0
  }

  /** Every pixel is 0 or 255. */
  predicate IsBinary(img: Image<nat>) {
    forall y, x :: 0 <= y < |img.rows| && 0 <= x < |img.rows[y]| ==>
      img.rows[y][x] == 0 || img.rows[y][x] == 255
  }

  /** `mask.point(lambda p: 255 if p > 50 else 0)`. */
  function Binarize(img: Image<nat>): (r: Image<nat>)
    requires img.Valid()
    ensures r.Valid() && r.Size() == img.Size()
    ensures IsBinary(r)
  {
    MapPixels(img, Threshold)
  }

  /** A binary image is left as it is by the threshold. */
  lemma BinarizeFixesBinary(img: Image<nat>)
    requires img.Valid() && IsBinary(img)
    ensures Binarize(img) == img
  {
    var r := Binarize(img);
    forall y, x | 0 <= y < img.height && 0 <= x < img.width
      ensures r.rows[y][x] == img.rows[y][x]
    {
      assert r.rows[y][x] == Threshold(img.rows[y][x]);
    }
    ImageExtensionality(r, img);
  }

  /** Thresholding its own output changes nothing. */
  lemma BinarizeIdempotent(img: Image<nat>)
    requires img.Valid()
    ensures Binarize(Binarize(img)) == Binarize(img)
  {
    BinarizeFixesBinary(Binarize(img));
  }

  /** `preprocess_mask`: converted to one channel, resized to 512 x 512 and
      thresholded. */
  function PreprocessMask<P>(mask: Image<P>, conv: Conversions<P>): (r: Image<nat>)
    requires mask.Valid()
    ensures r.Valid() && r.Size() == (Side, Side)
    ensures IsBinary(r)
    ensures forall y, x :: 0 <= y < Side && 0 <= x < Side ==>
              (r.rows[y][x] == 255 <==> ResizedLuma(mask, conv).rows[y][x] > 50)
  {
    Binarize(ResizedLuma(mask, conv))
  }

  /** The one-channel 512 x 512 mask before the threshold. */
  function ResizedLuma<P>(mask: Image<P>, conv: Conversions<P>): (r: Image<nat>)
    requires mask.Valid()
    ensures r.Valid() && r.Size() == (Side, Side)
  {
    Resize(MapPixels(mask, conv.toL), Side, Side, conv.resampleL)
  }

  /** `preprocess_inpaint_image`: converted to RGB and resized to 512 x 512. */
  function PreprocessInpaintImage<P>(img: Image<P>, conv: Conversions<P>): (r: Image<Rgb>)
    requires img.Valid()
    ensures r.Valid() && r.Size() == (Side, Side)
  {
    Resize(MapPixels(img, conv.toRgb), Side, Side, conv.resampleRgb)
  }

  /** The preprocessed mask holds 512 * 512 = 262144 pixels, each 0 or 255. */
  lemma PreprocessedMaskPixelCount<P>(mask: Image<P>, conv: Conversions<P>)
    requires mask.Valid()
    ensures CountPixels(PreprocessMask(mask, conv).rows) == 262144
  {
    var r := PreprocessMask(mask, conv);
    CountPixelsOfValid(r);
  }
}
