# Car dent detector: a Dafny model of its front-end

The system is a small web front-end around an object-detection model that
finds damage on cars. A user uploads a photo or a video, or opens a live
camera feed. Every frame is run through the model, and each detection
confident enough is drawn on the frame: a corner rectangle over its box
and a label "<damage class> <confidence>" above it. The annotated copy is
written next to the upload. The live feed is streamed as a
`multipart/x-mixed-replace` response of JPEG parts.

The model covers what that front-end decides for itself, and leaves the
libraries it calls as parameters:

- `Uploads` covers several steps:
  - which file names `allowed_file` accepts;
  - how `upload_file` picks image or video processing from the extension;
  - where the upload and its annotated copy are stored, following POSIX
    `os.path.join` and `os.path.basename`;
  - what the route answers with. That is the result page, a redirect back
    to the form, the "Unsupported file type." message, or a server error
    when processing raises. Processing is a parameter of the route, and
    `Media.Pipeline` supplies the model's own.
- `Annotation` is the per-detection block shared by the three pipelines:
  - it rounds the confidence up to hundredths (`math.ceil(conf * 100) / 100`);
  - it applies the 0.3 threshold;
  - it looks up the class label with Python list indexing;
  - it formats the label as Python prints the float;
  - it emits the two drawing calls, in the model's order.
- `Media` holds the three frame loops: `process_image`, `process_video`
  and `generate_frames`. A capture device is the finite sequence of results
  its reads return. The detector and the JPEG encoder are function
  parameters, and a frame is any type `F`. An annotated frame is the frame
  read together with the draw commands issued on it.
- `Multipart` is the byte framing of one part of the live stream.
- `Text` holds the Python string operations the code relies on, written
  out: `str.rsplit(sep, 1)`, `str.split` and `str.lower`. It also defines
  `Join`, which is used only to state what `Split` does, and
  `NatToDecimal`, the decimal digits of a natural number, which prints the
  integer part of the float in the label.
- `Wrappers` provides `Option` and `Result`.

Each loop is a method proved against a specification function:
`Annotation.AnnotateDetections` against `Annotations`, `Media.ProcessVideo`
against `VideoSpec`, and `Media.GenerateFrames` against `LiveSpec`. The
properties of those functions are proved as lemmas.

Behaviour of the code worth noting:

- A class index outside -17..16 raises `IndexError`. The model returns it
  as `Err(LabelIndexError(cls))`, which ends the frame and the loop that
  drew it. An upload whose processing raises gets a server error instead
  of the result page.
- A negative class index from -17 to -1 is not an error in Python: it
  silently picks a label from the end of the table.
- The label is looked up only for detections that pass the threshold.

## Model

| member | source | states |
|---|---|---|
| Uploads.AllowedFile | CarDentDetector.py:31-32 | `allowed_file`: a `.` in the name and the lower-cased text after its last `.` among png, jpg, jpeg and mp4 |
| Uploads.AllowedFileIff | CarDentDetector.py:31-32 | a name is accepted exactly when some `.` in it is followed by no other `.` and the lower-cased text after it is png, jpg, jpeg or mp4 |
| Uploads.AllowedFileExamples | CarDentDetector.py:31-32 | `photo.GIF` and `noext` are refused; `car.JPG` and `a.b.mp4` are accepted |
| Uploads.AllowedFileIgnoresCase | CarDentDetector.py:32 | a name is accepted exactly when its lower-cased form is |
| Uploads.Dispatch | CarDentDetector.py:134-139 | the branch `upload_file` takes: the lower-cased last `split('.')` segment of the sanitised name picks image, video or neither |
| Uploads.LastSegment | CarDentDetector.py:134-144 | `filename.split('.')[-1]`: the text after the last `.`, or the whole name when it has none |
| Uploads.KindOfExtension | CarDentDetector.py:134-137 | jpg, jpeg and png are images, mp4 is a video, anything else is neither |
| Uploads.KindOfAllowed | CarDentDetector.py:134-137 | each allowed extension is dispatched: mp4 as a video, the other three as an image |
| Uploads.DispatchAcceptsAllowed | CarDentDetector.py:128-137 | every accepted name is dispatched, as a video exactly when its `rsplit` extension lower-cases to mp4 |
| Uploads.PathJoin | CarDentDetector.py:50 | POSIX `os.path.join` of two parts: an absolute second part wins, otherwise a `/` is put between them unless the first is empty or already ends in one |
| Uploads.Basename | CarDentDetector.py:50 | the base name of a path holds no `/` |
| Uploads.OutputPath | CarDentDetector.py:50 | the output path of `process_image` and `process_video`: the upload folder joined with `output_` and the base name of the input |
| Uploads.OutputPathInUploadFolder | CarDentDetector.py:50 | the annotated copy is `static/uploads/output_<base name>`, and its own base name is `output_<base name>` |
| Uploads.OutputPathOfStoredUpload | CarDentDetector.py:129-130 | an upload stored under a name without `/` keeps that name as its base name, and its copy is `static/uploads/output_<name>` |
| Uploads.OutputKeepsExtension | CarDentDetector.py:50 | the `output_` prefix keeps the `rsplit` extension, the last `split` segment and therefore the dispatch of a name with a `.` |
| Uploads.UploadFile | CarDentDetector.py:119-147 | `upload_file`: redirect when no file or a refused name, "Unsupported file type." when neither branch applies, a server error when processing raises, and otherwise the result page for the processed copy |
| Uploads.UploadRejectsIff | CarDentDetector.py:119-128 | the route redirects back to the form exactly when no file part was sent or `allowed_file` refuses its name (an empty name is refused) |
| Uploads.ShowResultPaths | CarDentDetector.py:128-145 | a shown result stores the upload at `upload folder / secure(name)`, is the successful outcome of processing that stored file, and links the copy as `uploads/` followed by its base name |
| Uploads.UnsupportedUnreachable | CarDentDetector.py:128-145 | when sanitising keeps the lower-cased extension, an accepted upload never gets "Unsupported file type.": it is processed as a video exactly for mp4, and answers with the server error processing raises or the result page whose `file_type` is the extension |
| Text.LastIndexOf | CarDentDetector.py:32 | the index found holds the character, no later index does, and -1 is returned exactly when the character is absent |
| Text.RSplitOnce | CarDentDetector.py:32 | `rsplit(sep, 1)` is the whole string when `sep` is absent; otherwise two parts that rejoin around `sep` to the string, the second free of `sep` |
| Text.Split | CarDentDetector.py:134 | `str.split(sep)`: at least one part, the last being the text after the last `sep` |
| Text.RSplitOnceBetween | CarDentDetector.py:32 | splitting `a + sep + b` from the right, with no `sep` in `b`, gives back `[a, b]` |
| Text.SplitJoin | CarDentDetector.py:134 | `sep.join(s.split(sep)) == s` |
| Text.SplitPartAvoidsSep | CarDentDetector.py:134 | no part of `s.split(sep)` holds `sep` |
| Text.LastPartIsRSplitTail | CarDentDetector.py:134 | `split('.')[-1]` (used for dispatch) equals the tail of `rsplit('.', 1)` (used for validation) when there is a `.`, and the whole name otherwise |
| Text.Lower | CarDentDetector.py:32 | `str.lower` on ASCII: same length, each letter lower-cased |
| Text.NatToDecimal | CarDentDetector.py:48 | the integer part of the printed confidence is a non-empty string of digits with no leading zero |
| Text.NatToDecimalValue | CarDentDetector.py:48 | the digits of the integer part read back as the number printed |
| Annotation.ClassLabel | CarDentDetector.py:22-28 | `class_labels[cls]` exists exactly for -17 <= cls < 17, and is the table entry for a non-negative index |
| Annotation.Ceil | CarDentDetector.py:43 | `math.ceil(x)` is the integer n with n - 1 < x <= n |
| Annotation.Hundredths | CarDentDetector.py:43 | the confidence in hundredths, rounded up: `math.ceil(conf * 100)` |
| Annotation.Shown | CarDentDetector.py:43 | the confidence as computed: `math.ceil(conf * 100) / 100` |
| Annotation.Admits | CarDentDetector.py:46 | the test `conf > 0.3` on the rounded confidence |
| Annotation.ShownBounds | CarDentDetector.py:43 | the shown confidence is at least the real one and less than 0.01 above it |
| Annotation.ShownIsLeast | CarDentDetector.py:43 | no hundredth at or above the confidence is below the shown one |
| Annotation.AdmitsIff | CarDentDetector.py:43-46 | the rounded confidence exceeds 0.3 exactly when the exact confidence does, and exactly when it rounds to at least 31 hundredths |
| Annotation.AdmitsBoundary | CarDentDetector.py:46 | confidence 0.3 is not drawn; 0.30000001 is |
| Annotation.FormatHundredths | CarDentDetector.py:48 | how Python prints k/100: the integer part, a `.`, and one or two fraction digits with a trailing zero dropped |
| Annotation.Label | CarDentDetector.py:48 | the label text `f'{class_labels[cls]} {conf}'` of a drawn detection |
| Annotation.FormatHundredthsValue | CarDentDetector.py:48 | the printed rounded confidence reads back as k/100, holds no space, and ends in `0` only as `x.0` |
| Annotation.ShownReadsBack | CarDentDetector.py:43-48 | for a confidence that is drawn, the printed number reads back as the shown confidence |
| Annotation.LabelRoundTrip | CarDentDetector.py:48 | the label splits at its last space into the class name and a number that reads back as the shown confidence |
| Annotation.BoxAndLabel | CarDentDetector.py:42-48 | the two drawing calls of an admitted box: `cornerRect` at `(x1, y1, x2 - x1, y2 - y1)`, then `putTextRect` of the label at `(x1, y1 - 10)` |
| Annotation.DrawDetection | CarDentDetector.py:40-48 | one box: nothing below the threshold; otherwise the corner rectangle at `(x1, y1, w, h)` and the label at `(x1, y1 - 10)`, or `IndexError` for an unknown class |
| Annotation.Annotations | CarDentDetector.py:38-48 | the boxes of a frame in turn, stopping at the first error |
| Annotation.Drawn | CarDentDetector.py:46 | the kept detections are exactly the admitted ones, no more than were given |
| Annotation.DrawnAppend | CarDentDetector.py:38-46 | the threshold filter distributes over concatenation, so it keeps the model's order |
| Annotation.CommandsForLength | CarDentDetector.py:47-48 | the reference drawing issues two calls per kept detection |
| Annotation.CommandsForAt | CarDentDetector.py:40-48 | the j-th kept detection contributes its corner rectangle and its label at positions 2j and 2j+1 |
| Annotation.AnnotationsSpec | CarDentDetector.py:38-48 | drawing a frame succeeds exactly when every admitted detection has a known class, and is then the reference drawing; otherwise it fails with the class of the first admitted detection that has none |
| Annotation.NothingAdmittedNothingDrawn | CarDentDetector.py:46-48 | a frame with no detection over the threshold gets no drawing call |
| Annotation.AnnotationsErrSticky | CarDentDetector.py:48 | once a prefix of the detections fails, the whole frame fails with the same error |
| Annotation.AnnotateDetections | CarDentDetector.py:38-48 | the loop over boxes issues exactly the drawing of `Annotations`, or its error |
| Media.SuccessfulReads | CarDentDetector.py:63-66 | the frames processed are the reads up to the first failed one, in order |
| Media.AnnotateAll | CarDentDetector.py:63-81 | the frames are annotated in turn; every annotated frame is its source with its drawing, and a failure is that of the first frame that fails |
| Media.ImageSpec | CarDentDetector.py:35-52 | what `process_image` writes: the image with its drawing at the output path, or the drawing's error |
| Media.ProcessImage | CarDentDetector.py:35-52 | the image is written to the output path with its drawing exactly when the drawing succeeds, and otherwise the error is the drawing's |
| Media.ImageUnchangedWithoutAdmittedDetections | CarDentDetector.py:38-51 | an image with no detection over the threshold is written undrawn, to `static/uploads/output_<name>` |
| Media.FramesRead | CarDentDetector.py:63-66 | the frames read while the capture is open, none when it did not open |
| Media.VideoSpec | CarDentDetector.py:55-85 | what `process_video` writes: the frames read, each with its drawing, at the input's size, 30 fps, mp4v, at the output path, or the first frame's error |
| Media.ProcessVideo | CarDentDetector.py:55-85 | the read–detect–draw–write loop produces exactly `VideoSpec` |
| Media.AnnotateAllErrSticky | CarDentDetector.py:68-79 | once a prefix of the frames fails, the whole video fails with the same error |
| Media.VideoKeepsFramesAndSize | CarDentDetector.py:57-81 | the video is written at the input's size, 30 fps, mp4v, to the output path, one frame per successful read, each the frame read with its drawing |
| Media.VideoFrameCount | CarDentDetector.py:63-81 | when every read succeeds and every frame draws, the video has as many frames as reads |
| Media.Chunks | CarDentDetector.py:108-111 | one chunk per annotated frame |
| Media.LiveSpec | CarDentDetector.py:88-111 | what `generate_frames` yields: one framed JPEG per successful read with its drawing, then the first error if a frame raised |
| Media.GenerateFrames | CarDentDetector.py:88-111 | the live loop yields exactly `LiveSpec` |
| Media.LiveFeedChunks | CarDentDetector.py:104-111 | every chunk yielded, also those before a frame that raises, is the framed JPEG of the matching read with its drawing, and unframing it gives back the encoder's bytes; no more chunks than successful reads, and exactly one per read when no frame raises |
| Media.LiveFeedStopsAtFailedRead | CarDentDetector.py:90-93 | a camera whose first read fails yields nothing and ends without error |
| Media.Pipeline | CarDentDetector.py:133-137 | the processing `upload_file` calls: `process_image` or `process_video` on the stored file, giving the copy's path or the error raised |
| Media.PipelineOutcome | CarDentDetector.py:35-85 | processing writes the copy to `static/uploads/output_<base name>`, and fails exactly when drawing the image, or one of the video's frames, fails |
| Media.UploadShowsCopy | CarDentDetector.py:128-145 | a shown upload's copy is `static/uploads/output_<base name>` of the stored file, linked as `uploads/output_<base name>` |
| Media.UploadImageOutcome | CarDentDetector.py:128-145 | an accepted image upload gets the result page exactly when drawing its image succeeds, and otherwise the server error carries the drawing's error |
| Media.UploadCarExample | CarDentDetector.py:119-145 | `car.JPG`, kept as is, whose image draws, is shown as an image stored at `static/uploads/car.JPG`, with its copy at `static/uploads/output_car.JPG`, linked as `uploads/output_car.JPG`, file type `jpg` |
| Media.UploadCarUnknownClass | CarDentDetector.py:119-145 | the same upload with one confident detection of class 17 fails with `IndexError(17)` instead of showing a result |
| Multipart.Unframe | CarDentDetector.py:110-111 | reads a chunk back: the bytes between the part header and the final CRLF |
| Multipart.FrameChunk | CarDentDetector.py:110-111 | a chunk is 39 bytes longer than its JPEG |
| Multipart.UnframeIff | CarDentDetector.py:110-111 | unframing gives back exactly the payload, and accepts only chunks built by `FrameChunk` |
| Multipart.FrameChunkInjective | CarDentDetector.py:110-111 | different frames give different chunks |
| Multipart.PartOpensWithDelimiter | CarDentDetector.py:110-111 | the delimiter is "--" followed by the `boundary=` parameter of the live feed's media type (line 151), and every part opens with it and a CRLF |
| Multipart.DelimiterBetweenChunks | CarDentDetector.py:110-111 | between two consecutive chunks the bytes read CRLF "--frame", the full delimiter of section 5.1.1 of RFC 2046 |

## Left out

- Flask is not modelled. That covers routing, `render_template`,
  `url_for` and `redirect(request.url)`. The result page is the
  `UploadResponse` value; the link to the copy is its `outputFile`, the
  path that `url_for('static', ...)` is given. An exception raised while
  processing is the `ServerError` value, not Flask's 500 response.
- `file.save` and `cv2.imwrite` are not modelled as file I/O. Writing
  shows up only as the returned `ImageFile` and `VideoFile` values.
- `cv2.VideoWriter` is not modelled as a stream: a video that fails
  midway is modelled as `Err`. Its partly written file is not modelled,
  and neither are the `release` calls.
- `secure_filename` is a parameter of `UploadFile`. Werkzeug's
  sanitisation rules are not part of this model. For this reason
  `Uploads.UnsupportedUnreachable` requires that the sanitised name keeps
  the extension.
- The YOLO model is the `detect` parameter. It gives one flat sequence of
  detections per frame, which stands for the nested loops over results
  and boxes. Box coordinates are whole pixels: the `map(int, ...)`
  truncation of the model's float output happens before that point.
- Confidences are exact reals, not the detector's float32 values.
  `Annotation.AdmitsIff` and `Annotation.AdmitsBoundary` therefore hold
  for exact values. With the detector's float32 value of 0.3
  (0.30000001192...), `conf * 100` is about 30.0000019 and `math.ceil`
  gives 31, so that confidence is drawn. In Python's float64, `0.3 * 100`
  is exactly 30.0 and `math.ceil` gives 30.
- Annotation.FormatHundredthsValue: the model's float printing covers
  only the `x.y` and `x.yz` forms, the exact decimal of k/100. From about
  1e14 on, Python's shortest float repr departs from it: k =
  15000000000000001 prints as `150000000000000.0`. Exponent notation
  comes later still. A confidence in [0, 1] never gets near either.
- `Text.Lower` lower-cases ASCII letters only. For the allowed extensions
  this is exact: no other character lower-cases to one of their letters.
- The drawing styles (`t=2`, `scale`, `thickness`, `colorR`) are not
  modelled, nor are the pixels drawn. Drawing is the sequence of
  `DrawCommand`s.
- A failed `cv2.imread` is not modelled: the image is a parameter. The
  success flag of `cv2.imencode` is ignored, as the code ignores it; the
  encoder is the `encode` parameter.
- The camera is not modelled as a device: the live feed reads from a
  finite sequence of read results. The infinite lazy generator is not
  modelled, nor is a client that disconnects mid-stream.
- `cap.isOpened()` is modelled as a fixed flag of the capture, so it
  gives the same answer before every read.
- Module setup is not modelled: `os.makedirs`, loading the model weights
  and `app.run`.
