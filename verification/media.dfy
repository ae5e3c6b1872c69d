/**
 * The three ways media are processed: a still image, every frame of an
 * uploaded video, and the live camera feed. Frames are of an arbitrary type
 * `F`; the detection model is the function `detect`, the JPEG encoder the
 * function `encode`, and a capture device is the finite sequence of results
 * its `read` calls return (`None` for a failed read). An annotated frame is
 * the frame read together with the draw commands issued on it.
 */
module Media {
  import opened Wrappers
  import opened Annotation
  import opened Uploads
  import opened Multipart

  datatype Annotated<F> = Annotated(source: F, overlay: seq<DrawCommand>)

  /** A still image as written: its path and its annotated pixels. */
  datatype ImageFile<F> = ImageFile(path: string, image: Annotated<F>)

  /** A video capture: whether it opened, the width and height it reports,
      and the results of its successive reads. */
  datatype Capture<F> = Capture(isOpen: bool, width: int, height: int, results: seq<Option<F>>)

  /** A video as written: path, codec, frame rate, frame size and frames. */
  datatype VideoFile<F> = VideoFile(path: string, codec: string, fps: nat, width: int, height: int,
                                    frames: seq<Annotated<F>>)

  /** The frames annotated before the first failure, and that failure. */
  datatype Progress<F> = Progress(done: seq<Annotated<F>>, failure: Option<AnnotateError>)

  /** The live feed as sent: the chunks yielded, and the error that ended
      the generator, if any. */
  datatype LiveFeed = LiveFeed(chunks: seq<seq<byte>>, failure: Option<AnnotateError>)

  const VideoCodec: string := "mp4v"
  const VideoFps: nat := 30

  /** The frames read before the first failed read; running out of results
      counts as a failed read. */
  function SuccessfulReads<F>(results: seq<Option<F>>): (frames: seq<F>)
    ensures |frames| <= |results|
    ensures forall i :: 0 <= i < |frames| ==> results[i] == Some(frames[i])
    ensures |frames| < |results| ==> results[|frames|].None?
  {
    if results == [] || results[0].None? then []
    else [results[0].value] + SuccessfulReads(results[1..])
  }

  /** Annotating frames in turn, stopping at the first frame whose drawing
      fails. */
  function AnnotateAll<F>(frames: seq<F>, detect: F -> seq<Detection>): (p: Progress<F>)
    ensures |p.done| <= |frames|
    ensures forall i :: 0 <= i < |p.done| ==>
      p.done[i].source == frames[i] && Annotations(detect(frames[i])) == Ok(p.done[i].overlay)
    ensures p.failure.None? ==> |p.done| == |frames|
    ensures p.failure.Some? ==>
      |p.done| < |frames| && Annotations(detect(frames[|p.done|])) == Err(p.failure.value)
  {
    if frames == [] then Progress([], None)
    else
      var init := frames[..|frames| - 1];
      var frame := frames[|frames| - 1];
      var p := AnnotateAll(init, detect);
      if p.failure.Some? then p
      else match Annotations(detect(frame))
        case Err(e) => Progress(p.done, Some(e))
        case Ok(cmds) => Progress(p.done + [Annotated(frame, cmds)], None)
  }

  /** One more frame: annotating it extends the progress, or records its
      failure. */
  lemma AnnotateAllStep<F>(frames: seq<F>, detect: F -> seq<Detection>, i: nat)
    requires i < |frames| && AnnotateAll(frames[..i], detect).failure.None?
    ensures var p := AnnotateAll(frames[..i], detect);
      AnnotateAll(frames[..i + 1], detect)
        == match Annotations(detect(frames[i]))
           case Err(e) => Progress(p.done, Some(e))
           case Ok(cmds) => Progress(p.done + [Annotated(frames[i], cmds)], None)
  {
    assert frames[..i + 1][..i] == frames[..i];
    assert frames[..i + 1][i] == frames[i];
  }

  /** What `process_image` writes. */
  function ImageSpec<F>(filePath: string, img: F, detect: F -> seq<Detection>): Result<ImageFile<F>, AnnotateError>
  {
    match Annotations(detect(img))
    case Err(e) => Err(e)
    case Ok(cmds) => Ok(ImageFile(OutputPath(filePath), Annotated(img, cmds)))
  }

  /** `process_image`: detect and draw on the image, then write it to the
      output path. */
  method ProcessImage<F>(filePath: string, img: F, detect: F -> seq<Detection>)
    returns (r: Result<ImageFile<F>, AnnotateError>)
    ensures r == ImageSpec(filePath, img, detect)
    ensures r.Ok? <==> Annotations(detect(img)).Ok?
    ensures r.Ok? ==> r.value == ImageFile(OutputPath(filePath), Annotated(img, Annotations(detect(img)).value))
    ensures r.Err? ==> Annotations(detect(img)) == Err(r.error)
  {
    var drawn := AnnotateDetections(detect(img));
    if drawn.Err? {
      return Err(drawn.error);
    }
    var outputPath := OutputPath(filePath);
    return Ok(ImageFile(outputPath, Annotated(img, drawn.value)));
  }

  /** An image on which nothing passes the threshold is written unchanged,
      under `static/uploads/output_<name>`. */
  lemma ImageUnchangedWithoutAdmittedDetections<F>(filePath: string, img: F, detect: F -> seq<Detection>)
    requires forall k :: 0 <= k < |detect(img)| ==> !IsAdmitted(detect(img)[k])
    ensures Annotations(detect(img)) == Ok([])
    ensures OutputPath(filePath) == UploadFolder + OutputPrefix + Basename(filePath)
  {
    NothingAdmittedNothingDrawn(detect(img));
    OutputPathInUploadFolder(filePath);
  }

  /** The frames `process_video` reads from a capture: none from one that
      did not open. */
  function FramesRead<F>(cap: Capture<F>): seq<F>
  {
    if cap.isOpen then SuccessfulReads(cap.results) else []
  }

  /** What `process_video` writes. */
  function VideoSpec<F>(filePath: string, cap: Capture<F>, detect: F -> seq<Detection>)
    : Result<VideoFile<F>, AnnotateError>
  {
    var p := AnnotateAll(FramesRead(cap), detect);
    match p.failure
    case Some(e) => Err(e)
    case None => Ok(VideoFile(OutputPath(filePath), VideoCodec, VideoFps, cap.width, cap.height, p.done))
  }

  /** `process_video`: while the capture is open, read a frame; stop at the
      first failed read; otherwise detect, draw and append it to the writer. */
  method ProcessVideo<F>(filePath: string, cap: Capture<F>, detect: F -> seq<Detection>)
    returns (r: Result<VideoFile<F>, AnnotateError>)
    ensures r == VideoSpec(filePath, cap, detect)
  {
    var outputPath := OutputPath(filePath);
    ghost var frames := FramesRead(cap);
    var written: seq<Annotated<F>> := [];
    var i := 0;
    while cap.isOpen
      invariant i <= |frames|
      invariant AnnotateAll(frames[..i], detect) == Progress(written, None)
      decreases |cap.results| - i
    {
      if i >= |cap.results| || cap.results[i].None? {
        break;
      }
      var frame := cap.results[i].value;
      assert i < |frames| && frames[i] == frame;
      AnnotateAllStep(frames, detect, i);
      var drawn := AnnotateDetections(detect(frame));
      if drawn.Err? {
        AnnotateAllErrSticky(frames, detect, i + 1);
        return Err(drawn.error);
      }
      written := written + [Annotated(frame, drawn.value)];
      i := i + 1;
    }
    assert frames[..i] == frames;
    return Ok(VideoFile(outputPath, VideoCodec, VideoFps, cap.width, cap.height, written));
  }

  /** Once annotating a prefix of the frames has failed, annotating all of
      them fails in the same way, with nothing more done. */
  lemma {:induction false} AnnotateAllErrSticky<F>(frames: seq<F>, detect: F -> seq<Detection>, i: nat)
    requires i <= |frames| && AnnotateAll(frames[..i], detect).failure.Some?
    ensures AnnotateAll(frames, detect) == AnnotateAll(frames[..i], detect)
  {
    if i == |frames| {
      assert frames[..i] == frames;
    } else {
      var init := frames[..|frames| - 1];
      assert init[..i] == frames[..i];
      AnnotateAllErrSticky(init, detect, i);
    }
  }

  /** The written video has the input's frame size, 30 frames per second,
      and one frame per successful read, in order: the frame read with the
      commands drawn on it. */
  lemma VideoKeepsFramesAndSize<F>(filePath: string, cap: Capture<F>, detect: F -> seq<Detection>)
    requires VideoSpec(filePath, cap, detect).Ok?
    ensures var v := VideoSpec(filePath, cap, detect).value;
      v.width == cap.width && v.height == cap.height && v.fps == 30 && v.codec == "mp4v"
      && v.path == UploadFolder + OutputPrefix + Basename(filePath)
      && |v.frames| == (if cap.isOpen then |SuccessfulReads(cap.results)| else 0)
      && forall i :: 0 <= i < |v.frames| ==>
           cap.results[i] == Some(v.frames[i].source)
           && Annotations(detect(v.frames[i].source)) == Ok(v.frames[i].overlay)
  {
    OutputPathInUploadFolder(filePath);
  }

  /** A video on which every read succeeds and no frame fails to draw has
      exactly as many output frames as input frames. */
  lemma VideoFrameCount<F>(filePath: string, cap: Capture<F>, detect: F -> seq<Detection>)
    requires cap.isOpen
    requires forall i :: 0 <= i < |cap.results| ==> cap.results[i].Some?
    requires VideoSpec(filePath, cap, detect).Ok?
    ensures |VideoSpec(filePath, cap, detect).value.frames| == |cap.results|
  {
  }

  /** The chunks the live feed yields for frames already annotated. */
  function Chunks<F>(done: seq<Annotated<F>>, encode: Annotated<F> -> seq<byte>): (chunks: seq<seq<byte>>)
    ensures |chunks| == |done|
  {
    seq(|done|, i requires 0 <= i < |done| => FrameChunk(encode(done[i])))
  }

  lemma ChunksAppend<F>(done: seq<Annotated<F>>, a: Annotated<F>, encode: Annotated<F> -> seq<byte>)
    ensures Chunks(done + [a], encode) == Chunks(done, encode) + [FrameChunk(encode(a))]
  {
  }

  /** What `generate_frames` yields before it stops. */
  function LiveSpec<F>(results: seq<Option<F>>, detect: F -> seq<Detection>,
                       encode: Annotated<F> -> seq<byte>): LiveFeed
  {
    var p := AnnotateAll(SuccessfulReads(results), detect);
    LiveFeed(Chunks(p.done, encode), p.failure)
  }

  /** `generate_frames`: read from the camera until a read fails; detect and
      draw on each frame, encode it as JPEG and yield it as one part of the
      multipart stream. */
  method GenerateFrames<F>(results: seq<Option<F>>, detect: F -> seq<Detection>,
                           encode: Annotated<F> -> seq<byte>)
    returns (feed: LiveFeed)
    ensures feed == LiveSpec(results, detect, encode)
  {
    ghost var frames := SuccessfulReads(results);
    ghost var done: seq<Annotated<F>> := [];
    var chunks: seq<seq<byte>> := [];
    var i := 0;
    while true
      invariant i <= |frames|
      invariant AnnotateAll(frames[..i], detect) == Progress(done, None)
      invariant chunks == Chunks(done, encode)
      decreases |results| - i
    {
      if i >= |results| || results[i].None? {
        break;
      }
      var frame := results[i].value;
      assert i < |frames| && frames[i] == frame;
      AnnotateAllStep(frames, detect, i);
      var drawn := AnnotateDetections(detect(frame));
      if drawn.Err? {
        AnnotateAllErrSticky(frames, detect, i + 1);
        return LiveFeed(chunks, Some(drawn.error));
      }
      var annotated := Annotated(frame, drawn.value);
      var jpeg := encode(annotated);
      ChunksAppend(done, annotated, encode);
      chunks := chunks + [FrameChunk(jpeg)];
      done := done + [annotated];
      i := i + 1;
    }
    assert frames[..i] == frames;
    return LiveFeed(chunks, None);
  }

  /** The i-th chunk yielded, also before a frame that raises, is the framed
      JPEG of the i-th read annotated, and stripped of its framing it gives
      back the encoder's bytes; when every frame draws, the feed yields one
      chunk per successful read. */
  lemma LiveFeedChunks<F>(results: seq<Option<F>>, detect: F -> seq<Detection>,
                          encode: Annotated<F> -> seq<byte>, i: nat)
    requires i < |LiveSpec(results, detect, encode).chunks|
    ensures |LiveSpec(results, detect, encode).chunks| <= |SuccessfulReads(results)|
    ensures LiveSpec(results, detect, encode).failure.None? ==>
      |LiveSpec(results, detect, encode).chunks| == |SuccessfulReads(results)|
    ensures var p := AnnotateAll(SuccessfulReads(results), detect);
      results[i] == Some(p.done[i].source)
      && LiveSpec(results, detect, encode).chunks[i] == FrameChunk(encode(p.done[i]))
      && Unframe(LiveSpec(results, detect, encode).chunks[i]) == Some(encode(p.done[i]))
  {
    var p := AnnotateAll(SuccessfulReads(results), detect);
    UnframeIff(FrameChunk(encode(p.done[i])), encode(p.done[i]));
  }

  /** A camera whose first read fails yields nothing and ends without error. */
  lemma LiveFeedStopsAtFailedRead<F>(results: seq<Option<F>>, detect: F -> seq<Detection>,
                                     encode: Annotated<F> -> seq<byte>)
    requires results == [] || results[0].None?
    ensures LiveSpec(results, detect, encode) == LiveFeed([], None)
  {
  }

  /** The processing step of `upload_file` over the whole pipeline: an image
      is read from its stored path by `image` and handled as `process_image`
      handles it, a video is opened from its stored path by `capture` and
      handled as `process_video` handles it. The outcome is the path of the
      copy written, or the error raised. */
  function Pipeline<F>(image: string -> F, capture: string -> Capture<F>, detect: F -> seq<Detection>): Processing
  {
    (kind: MediaKind, filePath: string) =>
      match kind
      case Image =>
        (match ImageSpec(filePath, image(filePath), detect)
         case Err(e) => Err(e)
         case Ok(file) => Ok(file.path))
      case Video =>
        (match VideoSpec(filePath, capture(filePath), detect)
         case Err(e) => Err(e)
         case Ok(video) => Ok(video.path))
  }

  /** The pipeline writes the copy to the output path of the stored file,
      and fails exactly when drawing on the image, or on one of the frames
      read from the video, fails. */
  lemma PipelineOutcome<F>(image: string -> F, capture: string -> Capture<F>, detect: F -> seq<Detection>,
                           kind: MediaKind, filePath: string)
    ensures var r := Pipeline(image, capture, detect)(kind, filePath);
      (r.Ok? ==> r.value == UploadFolder + OutputPrefix + Basename(filePath))
      && (kind == Image ==> (r.Err? <==> Annotations(detect(image(filePath))).Err?))
      && (kind == Video ==> (r.Err? <==> AnnotateAll(FramesRead(capture(filePath)), detect).failure.Some?))
  {
    OutputPathInUploadFolder(filePath);
    var r := Pipeline(image, capture, detect)(kind, filePath);
    match kind
    case Image =>
      var spec := ImageSpec(filePath, image(filePath), detect);
      assert r == (if spec.Ok? then Ok(spec.value.path) else Err(spec.error));
    case Video =>
      var spec := VideoSpec(filePath, capture(filePath), detect);
      assert r == (if spec.Ok? then Ok(spec.value.path) else Err(spec.error));
  }

  /** The result page of an upload links the annotated copy written next to
      it: `static/uploads/output_<name>`, served as `uploads/output_<name>`. */
  lemma UploadShowsCopy<F>(field: Option<string>, secure: string -> string,
                           image: string -> F, capture: string -> Capture<F>, detect: F -> seq<Detection>)
    ensures var r := UploadFile(field, secure, Pipeline(image, capture, detect));
      r.ShowResult? ==>
        r.outputPath == UploadFolder + OutputPrefix + Basename(r.storedPath)
        && r.outputFile == StaticUploads + OutputPrefix + Basename(r.storedPath)
  {
    var r := UploadFile(field, secure, Pipeline(image, capture, detect));
    if !r.ShowResult? {
      return;
    }
    ShowResultPaths(field, secure, Pipeline(image, capture, detect));
    PipelineOutcome(image, capture, detect, r.kind, r.storedPath);
    OutputPathInUploadFolder(r.storedPath);
    var name := Basename(r.storedPath);
    assert r.outputPath == OutputPath(r.storedPath);
    assert Basename(r.outputPath) == OutputPrefix + name;
    Text.ConcatAssoc(StaticUploads, OutputPrefix, name);
  }

  /** An accepted image upload gets the result page exactly when drawing on
      the stored image succeeds; otherwise the route fails with the error
      the drawing raised. */
  lemma UploadImageOutcome<F>(name: string, secure: string -> string,
                              image: string -> F, capture: string -> Capture<F>, detect: F -> seq<Detection>)
    requires AllowedFile(name) && Dispatch(secure(name)) == Some(Image)
    ensures var r := UploadFile(Some(name), secure, Pipeline(image, capture, detect));
      var drawing := Annotations(detect(image(PathJoin(UploadFolder, secure(name)))));
      (r.ShowResult? <==> drawing.Ok?) && (r.ServerError? <==> drawing.Err?)
      && (r.ServerError? ==> r.error == drawing.error)
  {
    assert name != "";
  }

  /** An upload named `car.JPG`, stored under the same name, whose image
      draws without error, is shown as an image with its copy at
      `static/uploads/output_car.JPG`. */
  lemma UploadCarExample<F>(image: string -> F, capture: string -> Capture<F>, detect: F -> seq<Detection>)
    requires Annotations(detect(image("static/uploads/car.JPG"))).Ok?
    ensures UploadFile(Some("car.JPG"), (n: string) => n, Pipeline(image, capture, detect))
      == ShowResult(Image, "static/uploads/car.JPG", "static/uploads/output_car.JPG",
                    "uploads/output_car.JPG", "jpg")
  {
    var name := "car.JPG";
    var secure := (n: string) => n;
    var process := Pipeline(image, capture, detect);
    CarExtension();
    CarSplit();
    CarPaths();
    UnsupportedUnreachable(name, secure, process);
    var path := PathJoin(UploadFolder, name);
    assert path == "static/uploads/car.JPG";
    assert process(Image, path) == Ok(OutputPath(path));
    var r := UploadFile(Some(name), secure, process);
    assert r.ShowResult?;
    assert r.kind == Image;
    assert r.storedPath == path;
    assert r.outputPath == "static/uploads/output_car.JPG";
    UploadShowsCopy(Some(name), secure, image, capture, detect);
    assert r.outputFile == StaticUploads + OutputPrefix + "car.JPG";
    CarLink();
    assert r.fileType == "jpg";
    assert r == ShowResult(r.kind, r.storedPath, r.outputPath, r.outputFile, r.fileType);
  }

  /** The same upload whose image holds one confident detection of class 17,
      past the end of the label table, makes the route fail with IndexError
      instead of showing a result. */
  lemma UploadCarUnknownClass<F>(image: string -> F, capture: string -> Capture<F>, detect: F -> seq<Detection>)
    requires detect(image("static/uploads/car.JPG")) == [Detection(0, 0, 1, 1, 17, 0.9)]
    ensures UploadFile(Some("car.JPG"), (n: string) => n, Pipeline(image, capture, detect))
      == ServerError(LabelIndexError(17))
  {
    var name := "car.JPG";
    var secure := (n: string) => n;
    var ds := [Detection(0, 0, 1, 1, 17, 0.9)];
    AdmitsIff(0.9);
    assert DrawDetection(ds[0]) == Err(LabelIndexError(17));
    assert ds[..0] == [];
    assert Annotations(ds) == Err(LabelIndexError(17));
    CarExtension();
    CarSplit();
    CarPaths();
    UnsupportedUnreachable(name, secure, Pipeline(image, capture, detect));
  }
}
