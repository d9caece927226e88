# Image helpers and inpainting preconditions of the image-enhancement web app

The web application sends uploaded pictures to pretrained diffusion pipelines.
The pipelines are black boxes. Around them the repository has a small layer of
integer and string logic, and this project models that layer in Dafny:

- **Upload check** (`validate_image`). A missing or nameless upload is refused first.
  Next comes a case-insensitive suffix test against `png`, `jpg`, `jpeg`, `bmp` and
  `webp`; no dot is needed, so `xpng` passes. Only then is the decoder asked.
- **Size normalisation** (`resize_to_divisible_by_8`). Width and height are truncated
  down to multiples of 8.
- **Mask rasterisation** (`create_mask_from_coordinates`). A black canvas the size of
  the image is allocated. The inclusive rectangle `[left, top, right, bottom]`, with
  bounds `int(dimension * fraction)`, is painted white in place and clipped to the
  canvas. In the model this is an `array2` filled by nested loops.
- **Mask preprocessing** (`preprocess_mask`). The mask is converted to one channel,
  resized to 512 x 512 and thresholded: `p > 50` gives 255, anything else gives 0.
- **Pipeline cache** (`load_inpainting_pipeline`). The module-level `inpaint_pipe` is
  loaded once. It comes from the fine-tuned directory when that directory exists,
  otherwise from `runwayml/stable-diffusion-inpainting`. It uses float16 on a GPU and
  float32 otherwise. Later calls return the same object.
- **Entry point** (`inpaint_image`). A missing image is refused, then a missing mask,
  and in both cases the pipeline is not touched. Otherwise the pipeline runs on the
  preprocessed image and mask with the fixed prompt, 40 steps and guidance scale 7.5.

How the model is built:

- Images are values: width, height and rows of pixels (`Imaging.Image<P>`).
  RGB pixels are `Rgb` triples and one-channel pixels are `nat`.
- Several library pieces are parameters: the image decoder (`verify`), the colour
  conversions and the resampling filters (`Sampler`).
- The environment is a value (`Environment`). It holds the filesystem test, the GPU
  test and the weights behind each model source at each precision.
- A resampling filter supplies each target pixel, so the model fixes only the size of
  a resized image.
- The pipeline object and the module's global cache are classes (`Pipeline`,
  `InpaintingModule`). Their methods update fields in place.

Files: `imaging.dfy` (module `Imaging`), `image_utils.dfy` (module `ImageUtils`),
`inpainting.dfy` (module `Inpainting`).

## Model

| member | source | states |
|---|---|---|
| `ImageUtils.ValidateImage` | utils/image_utils.py:7-24 | A falsy upload gives `(False, "No file provided")` whatever else holds. A truthy upload with a refused name gives `(False, invalid-type message)`. If name and decoder both pass the result is `(True, None)`; if the decoder raises, the result is `(False, "Invalid image file: " + reason)`. Success holds exactly when the message is None. |
| `ImageUtils.LowerHasNoUpper` | utils/image_utils.py:13 | The lower-cased name contains no upper-case ASCII letter. |
| `ImageUtils.LowerFixesNoUpper` | utils/image_utils.py:13 | A name without upper-case ASCII letters comes back unchanged from lower-casing. |
| `ImageUtils.LowerIdempotent` | utils/image_utils.py:13 | Lower-casing twice equals lower-casing once. |
| `ImageUtils.HasAllowedExtensionIgnoresCase` | utils/image_utils.py:13-15 | Two names with the same lower-case form are both accepted or both refused. |
| `ImageUtils.HasAllowedExtensionIff` | utils/image_utils.py:12-15 | A name is accepted exactly when its last characters, as many as the extension has, lower-cased, equal some allowed extension. |
| `ImageUtils.SuffixWithoutDotAccepted` | utils/image_utils.py:12-15 | `xpng` (no dot) and `Photo.JPEG` (upper case) are accepted. |
| `ImageUtils.AcceptedNameEndsInGOrP` | utils/image_utils.py:12-16 | Every accepted name has at least 3 characters and ends in `g` or `p` in either case. So `image.gif`, `png.txt` and the empty name are refused. |
| `ImageUtils.RefusedNameNeverDecoded` | utils/image_utils.py:9-20 | For a falsy upload or a refused name the result does not depend on the decoder, so no decode is attempted. |
| `ImageUtils.RoundDownTo8` | utils/image_utils.py:30-31 | The new dimension is a multiple of 8, at most the old one and less than 8 below it. Below 8 it is 0; a multiple of 8 is kept unchanged. |
| `ImageUtils.RoundDownTo8IsLargest` | utils/image_utils.py:30-31 | Every multiple of 8 that is at most d is at most the result. |
| `ImageUtils.RoundDownTo8Idempotent` | utils/image_utils.py:30-31 | Truncating twice equals truncating once. |
| `ImageUtils.DivisibleBy8Size` | utils/image_utils.py:29-31 | Both target dimensions are multiples of 8, each at most the original and less than 8 below it. |
| `ImageUtils.ResizeToDivisibleBy8` | utils/image_utils.py:27-32 | The result is a well-formed image whose size is the truncated size of the input. |
| `ImageUtils.ResizeToDivisibleBy8SizeIdempotent` | utils/image_utils.py:29-32 | Normalising an already normalised image does not change its size. |
| `ImageUtils.TruncDiv` | utils/image_utils.py:57-60 | `int()` of a rational truncates toward zero (bounds stated for both signs). |
| `ImageUtils.MaskOf` | utils/image_utils.py:53-64 | The specified mask has exactly the image's width and height. |
| `ImageUtils.CreateMaskFromCoordinates` | utils/image_utils.py:48-66 | The mask has the image's size. A pixel is white exactly when left <= x <= right and top <= y <= bottom; every other pixel is black. The bounds are the truncated products with defaults 0.1 and 0.9. The result equals `MaskOf`. |
| `ImageUtils.FullFrameMaskAllWhite` | utils/image_utils.py:57-64 | With top=0, bottom=1, left=0, right=1 the rectangle is (0, 0, width, height) and every pixel of the mask is white. |
| `ImageUtils.DefaultRect` | utils/image_utils.py:57-60 | With no keys given, the bounds are width/10, height/10, 9*width/10 and 9*height/10, truncated. |
| `ImageUtils.PixelBoundInRange` | utils/image_utils.py:57-60 | A fraction in [0, 1] gives a bound in [0, dimension]. |
| `Imaging.Resize` | utils/image_utils.py:32 | A resize yields a well-formed image of exactly the requested width and height. |
| `Imaging.CountPixelsOfValid` | models/Inpainting.py:60 | A well-formed image holds width * height pixels. |
| `Inpainting.Threshold` | models/Inpainting.py:63 | The output is 0 or 255, and it is 255 exactly when the input is above 50 (so 50 gives 0). |
| `Inpainting.Binarize` | models/Inpainting.py:63 | Thresholding keeps the size and leaves only 0 and 255 pixels. |
| `Inpainting.BinarizeFixesBinary` | models/Inpainting.py:63 | An image with only 0 and 255 pixels is unchanged by the threshold. |
| `Inpainting.BinarizeIdempotent` | models/Inpainting.py:63 | Thresholding the threshold's output changes nothing. |
| `Inpainting.ResizedLuma` | models/Inpainting.py:59-60 | The one-channel mask before thresholding is 512 x 512. |
| `Inpainting.PreprocessMask` | models/Inpainting.py:55-65 | The output is a 512 x 512 image of 0/255 pixels. A pixel is 255 exactly when the resized one-channel pixel at that place is above 50. |
| `Inpainting.PreprocessedMaskPixelCount` | models/Inpainting.py:60-63 | The preprocessed mask holds 512 * 512 = 262144 pixels. |
| `Inpainting.PreprocessInpaintImage` | models/Inpainting.py:68-74 | The pipeline's input image is 512 x 512. |
| `Inpainting.Pipeline.FromPretrained` | models/Inpainting.py:38-43 | A freshly loaded pipeline carries the model source, dtype and weights it was given, has no safety checker and sits on the CPU. |
| `Inpainting.Pipeline.To` | models/Inpainting.py:46-47 | `.to(device)` moves the pipeline and returns the same object. |
| `Inpainting.InpaintingModule.constructor` | models/Inpainting.py:10-11 | The cache starts empty, with no loads, and the once-only invariant `Valid()` holds. |
| `Inpainting.InpaintingModule.LoadInpaintingPipeline` | models/Inpainting.py:14-52 | Keeps the invariant `Valid()` (no load while the cache is empty, exactly one once it is filled), and after the call exactly one load has happened. With a cached pipeline, the same object is returned and nothing is loaded. Otherwise a new pipeline is loaded and cached. Its source is the fine-tuned directory if that exists, else the base model id. Its dtype is float16 with CUDA, else float32, and its weights are those stored under that source loaded at that dtype. It is on CUDA when CUDA is available. |
| `Inpainting.InpaintingModule.InpaintImage` | models/Inpainting.py:77-105 | Keeps `Valid()`, so the pipeline is loaded at most once over any sequence of calls. With no image the result is the "No input image" error; with an image but no mask it is the "No mask" error. In both error cases state is unchanged and nothing is loaded. Otherwise a cached pipeline is reused without loading. On a first call, one pipeline is loaded: its source is the fine-tuned directory if that exists and the base model id otherwise, its weights are those stored under that source at the chosen dtype, and its dtype and device follow GPU availability. The result is that pipeline's output on its device for the preprocessed image and mask, the fixed prompt, 40 steps, guidance 7.5 and the latents this call draws. |
| `Inpainting.SecondLoadReturnsCached` | models/Inpainting.py:20-23 | Two loads in a row return the same object, and the model source chosen the first time sticks even if the environment changes. |

## Left out

- `image_to_base64`, `base64_to_image` and `convert_to_grayscale`: PNG encoding, base64 and the weighted luminance conversion all happen inside the imaging and base64 libraries.
- The decoder (`Image.open` plus `verify()`) is an oracle parameter of `ValidateImage`. Rewinding the stream (`seek(0)`) is a side effect on an I/O stream and is not modelled.
- ValidateImage: Python's `str.lower()` is modelled only on ASCII letters. In Python only U+0130 and U+212A lower-case to ASCII letters ('i' and 'k'), and neither is a letter of any allowed extension, so the decision is the same; the model does not prove this.
- ValidateImage: the invalid-type message embeds the printed allow-list set. A Python set prints its elements in a per-process hash order, so that text is a parameter (`allowedShown`).
- ValidateImage: a truthy upload is modelled as a present upload with a non-empty file name, which is what the web framework's file object reports.
- ResizeToDivisibleBy8: pixel values after Lanczos resampling are not modelled, only the size. The imaging library's refusal to resize to a zero dimension (inputs under 8 pixels on a side) is not modelled either: the model returns an image with zero rows or columns.
- CreateMaskFromCoordinates: requires left <= right and top <= bottom. The library's rectangle drawing for inverted bounds is not part of the shown code, so inverted rectangles are not modelled.
- CreateMaskFromCoordinates: fractions are exact rationals, not floating-point numbers. Rounding of the float product is not modelled. For the defaults 0.1 and 0.9 times an integer dimension the truncated result is the same.
- CreateMaskFromCoordinates: an RGB pixel is an `Rgb` triple. All pixels are (0,0,0) or (255,255,255).
- PreprocessMask: the one-channel conversion and the default resampling filter are parameters (`Conversions`). The input image and the mask use the same pixel type.
- LoadInpaintingPipeline: loading weights, the log lines it prints, and exceptions raised by `from_pretrained`, `.to` or the pipeline call are not modelled. Torch devices and dtypes are reduced to two-valued datatypes.
- LoadInpaintingPipeline: the once-only load holds for calls made one after another. The module global `inpaint_pipe` is not guarded, so two concurrent first calls could both load; concurrency is not modelled.
- InpaintImage: the pipeline call is the loaded pipeline's `generate` function, giving the first output image. The call passes no seeded generator, so the random latents are a per-call parameter (`noise`): two calls agree only when given the same latents. The output may depend on the device and on the precision the weights were loaded at; both are inputs of `generate`, but how they change it is not modelled.
- The lazy, unsynchronised global caches in the web layer, the HTTP routes, the demo page, the colorizer and inpainter wrapper classes, and the HTTP test client are left out. They are I/O, concurrency, or calls into pretrained models.
