/**
 * Upload handling of the damage detector: which file names are accepted,
 * whether an accepted upload is treated as an image or a video, where it is
 * stored and where its annotated copy is written.
 */
module Uploads {
  import opened Wrappers
  import opened Text
  import Annotation

  /** The directory uploads and their annotated copies are written to. */
  const UploadFolder: string := "static/uploads/"

  /** Extensions an upload may carry, compared after lower-casing. */
  const AllowedExtensions: set<string> := {"png", "jpg", "jpeg", "mp4"}

  /** Extensions processed as a still image; "mp4" is processed as a video. */
  const ImageExtensions: seq<string> := ["jpg", "jpeg", "png"]

  const OutputPrefix: string := "output_"

  datatype MediaKind = Image | Video

  /** `allowed_file`: the name has a `.` and the lower-cased text after its
      last `.` is an allowed extension. */
  function AllowedFile(filename: string): (ok: bool)
  {
    '.' in filename && Lower(RSplitOnce(filename, '.')[1]) in AllowedExtensions
  }

  /** A description of the accepted names that does not go through
      `rsplit`: some `.` is followed only by an allowed extension. */
  ghost predicate HasAllowedExtension(filename: string)
  {
    exists i :: 0 <= i < |filename| && filename[i] == '.'
      && (forall j :: i < j < |filename| ==> filename[j] != '.')
      && Lower(filename[i + 1..]) in AllowedExtensions
  }

  lemma AllowedFileIff(filename: string)
    ensures AllowedFile(filename) <==> HasAllowedExtension(filename)
  {
    if AllowedFile(filename) {
      var i := LastIndexOf(filename, '.');
      assert filename[i] == '.';
    }
    if HasAllowedExtension(filename) {
      var i :| 0 <= i < |filename| && filename[i] == '.'
        && (forall j :: i < j < |filename| ==> filename[j] != '.')
        && Lower(filename[i + 1..]) in AllowedExtensions;
      LastIndexOfUnique(filename, '.', i);
    }
  }

  /** Examples of names accepted and refused: a disallowed extension and a
      name without extension are refused, upper case and extra dots are
      accepted. */
  lemma AllowedFileExamples()
    ensures !AllowedFile("photo.GIF")
    ensures !AllowedFile("noext")
    ensures AllowedFile("car.JPG")
    ensures AllowedFile("a.b.mp4")
  {
    var gif := "photo.GIF";
    LastIndexOfUnique(gif, '.', 5);
    assert Lower(gif[6..]) == "gif";
    assert "noext"[0] != '.' && "noext"[1] != '.' && "noext"[2] != '.' && "noext"[3] != '.' && "noext"[4] != '.';
    var car := "car.JPG";
    LastIndexOfUnique(car, '.', 3);
    assert Lower(car[4..]) == "jpg";
    var ab := "a.b.mp4";
    LastIndexOfUnique(ab, '.', 3);
    assert Lower(ab[4..]) == "mp4";
  }

  /** Validation ignores case: a name is accepted exactly when its
      lower-cased form is. */
  lemma AllowedFileIgnoresCase(filename: string)
    ensures AllowedFile(Lower(filename)) == AllowedFile(filename)
  {
    var low := Lower(filename);
    LastDotOfLower(filename);
    if '.' in filename {
      var i := LastIndexOf(filename, '.');
      assert '.' in low;
      assert RSplitOnce(low, '.')[1] == low[i + 1..];
      LowerSlice(filename, i + 1);
      LowerIdempotent(filename[i + 1..]);
    } else {
      assert '.' !in low;
    }
  }

  /** The branch of `upload_file` that picks the processing: the lower-cased
      last `.`-separated segment decides; anything else is unsupported. */
  function Dispatch(filename: string): (kind: Option<MediaKind>)
  {
    KindOfExtension(Lower(LastSegment(filename)))
  }

  function KindOfExtension(ext: string): Option<MediaKind>
  {
    if ext in ImageExtensions then Some(Image)
    else if ext == "mp4" then Some(Video)
    else None
  }

  /** Every allowed extension has a kind: mp4 a video, the others an image. */
  lemma KindOfAllowed(ext: string)
    requires ext in AllowedExtensions
    ensures KindOfExtension(ext) == Some(if ext == "mp4" then Video else Image)
  {
  }

  /** `filename.split('.')[-1]`: the text after the last `.`, or the whole
      name when it has none. */
  function LastSegment(filename: string): (segment: string)
    ensures segment == filename[LastIndexOf(filename, '.') + 1..]
    ensures '.' !in filename ==> segment == filename
  {
    var parts := Split(filename, '.');
    parts[|parts| - 1]
  }

  /** Every name `allowed_file` accepts is dispatched: images for png, jpg
      and jpeg, a video for mp4, whatever the case of the extension. */
  lemma DispatchAcceptsAllowed(filename: string)
    requires AllowedFile(filename)
    ensures Dispatch(filename).Some?
    ensures Dispatch(filename) == Some(Video) <==> Lower(RSplitOnce(filename, '.')[1]) == "mp4"
  {
    LastPartIsRSplitTail(filename, '.');
  }

  /** `os.path.join(a, b)` on POSIX: an absolute `b` replaces `a`, otherwise
      a `/` is put between them unless `a` is empty or ends in one. */
  function PathJoin(a: string, b: string): string
  {
    if |b| > 0 && b[0] == '/' then b
    else if a == [] || a[|a| - 1] == '/' then a + b
    else a + "/" + b
  }

  /** `os.path.basename(p)`: the text after the last `/`. */
  function Basename(p: string): (name: string)
    ensures '/' !in name
  {
    p[LastIndexOf(p, '/') + 1..]
  }

  /** The path of the annotated copy of the upload at `filePath`. */
  function OutputPath(filePath: string): string
  {
    PathJoin(UploadFolder, OutputPrefix + Basename(filePath))
  }

  /** The annotated copy lies directly in the upload folder and is named
      `output_` followed by the upload's own file name. */
  lemma OutputPathInUploadFolder(filePath: string)
    ensures OutputPath(filePath) == UploadFolder + OutputPrefix + Basename(filePath)
    ensures Basename(OutputPath(filePath)) == OutputPrefix + Basename(filePath)
  {
    var name := OutputPrefix + Basename(filePath);
    assert OutputPath(filePath) == UploadFolder + name;
    assert '/' !in name by {
      NotInAppend(OutputPrefix, Basename(filePath), '/');
    }
    LastIndexOfAppendMiss(UploadFolder, name, '/');
    LastIndexOfUnique(UploadFolder, '/', |UploadFolder| - 1);
    assert (UploadFolder + name)[|UploadFolder|..] == name;
  }

  /** For an upload stored under a name without `/`, the copy is
      `static/uploads/output_<name>`. */
  lemma OutputPathOfStoredUpload(filename: string)
    requires '/' !in filename
    ensures Basename(PathJoin(UploadFolder, filename)) == filename
    ensures OutputPath(PathJoin(UploadFolder, filename)) == UploadFolder + OutputPrefix + filename
  {
    var p := PathJoin(UploadFolder, filename);
    assert filename != [] ==> filename[0] in filename;
    assert p == UploadFolder + filename;
    LastIndexOfAppendMiss(UploadFolder, filename, '/');
    LastIndexOfUnique(UploadFolder, '/', |UploadFolder| - 1);
    assert p[|UploadFolder|..] == filename;
    OutputPathInUploadFolder(p);
  }

  /** Prefixing `output_` keeps the extension of a name that has one, and
      so the copy is dispatched like the upload. */
  lemma OutputKeepsExtension(filename: string)
    requires '.' in filename
    ensures '.' in OutputPrefix + filename
    ensures RSplitOnce(OutputPrefix + filename, '.')[1] == RSplitOnce(filename, '.')[1]
    ensures LastSegment(OutputPrefix + filename) == LastSegment(filename)
    ensures Dispatch(OutputPrefix + filename) == Dispatch(filename)
  {
    var named := OutputPrefix + filename;
    LastIndexOfAppendHit(OutputPrefix, filename, '.');
    var i := LastIndexOf(filename, '.');
    assert named[|OutputPrefix| + i] == '.';
    assert named[|OutputPrefix| + i + 1..] == filename[i + 1..];
  }

  /** What `upload_file` answers. An exception raised while the upload is
      processed is not caught by the route, and the server answers with an
      error instead of the result page. */
  datatype UploadResponse =
    | RedirectToForm
    | Unsupported
    | ServerError(error: Annotation.AnnotateError)
    | ShowResult(kind: MediaKind, storedPath: string, outputPath: string, outputFile: string, fileType: string)

  /** The processing step `upload_file` calls on the stored upload: given
      the kind and the stored path, the path of the annotated copy, or the
      error processing raised. */
  type Processing = (MediaKind, string) -> Result<string, Annotation.AnnotateError>

  /** The directory, relative to the static folder, the result page links
      the annotated copy from. */
  const StaticUploads: string := "uploads/"

  /** `upload_file`: `field` is the `file` part of the form, if any; `secure`
      is the sanitiser applied to the client's name before storing, and
      `process` the processing of the stored file. */
  function UploadFile(field: Option<string>, secure: string -> string, process: Processing): UploadResponse
  {
    match field
    case None => RedirectToForm
    case Some(name) =>
      if name == "" || !AllowedFile(name) then RedirectToForm
      else
        var filename := secure(name);
        var filePath := PathJoin(UploadFolder, filename);
        match Dispatch(filename)
        case None => Unsupported
        case Some(kind) =>
          match process(kind, filePath)
          case Err(e) => ServerError(e)
          case Ok(outputPath) =>
            ShowResult(kind, filePath, outputPath, StaticUploads + Basename(outputPath), Lower(LastSegment(filename)))
  }

  /** The form is sent back exactly when no file was sent or its name is
      refused by `allowed_file`. */
  lemma UploadRejectsIff(field: Option<string>, secure: string -> string, process: Processing)
    ensures UploadFile(field, secure, process).RedirectToForm? <==> field.None? || !AllowedFile(field.value)
  {
  }

  /** A shown result stores the upload in the upload folder under the
      sanitised name, is the outcome of processing it as its kind, and
      links the copy processing wrote from the static `uploads/` directory. */
  lemma ShowResultPaths(field: Option<string>, secure: string -> string, process: Processing)
    ensures var r := UploadFile(field, secure, process);
      r.ShowResult? ==>
        field.Some?
        && r.storedPath == PathJoin(UploadFolder, secure(field.value))
        && process(r.kind, r.storedPath) == Ok(r.outputPath)
        && r.outputFile == StaticUploads + Basename(r.outputPath)
  {
  }

  /** When the sanitiser keeps the lower-cased extension, an accepted upload
      is always processed: the "Unsupported file type." branch is
      unreachable, the kind follows the extension, and the answer is the
      result page or the error processing raised. */
  lemma UnsupportedUnreachable(name: string, secure: string -> string, process: Processing)
    requires AllowedFile(name)
    requires Lower(LastSegment(secure(name))) == Lower(RSplitOnce(name, '.')[1])
    ensures var ext := Lower(RSplitOnce(name, '.')[1]);
      var kind := if ext == "mp4" then Video else Image;
      var filePath := PathJoin(UploadFolder, secure(name));
      UploadFile(Some(name), secure, process)
        == match process(kind, filePath)
           case Err(e) => ServerError(e)
           case Ok(out) => ShowResult(kind, filePath, out, StaticUploads + Basename(out), ext)
  {
    var ext := Lower(RSplitOnce(name, '.')[1]);
    var filename := secure(name);
    KindOfAllowed(ext);
    var kind := if ext == "mp4" then Video else Image;
    assert Dispatch(filename) == Some(kind);
    assert name != "";
  }

  lemma CarSplit()
    ensures RSplitOnce("car.JPG", '.') == ["car", "JPG"]
    ensures LastSegment("car.JPG") == "JPG"
  {
    var name := "car.JPG";
    assert name == "car" + ['.'] + "JPG";
    LastIndexOfBetween("car", '.', "JPG");
    assert name[..3] == "car";
    assert name[4..] == "JPG";
    LastPartIsRSplitTail(name, '.');
  }

  lemma LowerJPG()
    ensures Lower("JPG") == "jpg"
  {
    assert LowerChar('J') == 'j' && LowerChar('P') == 'p' && LowerChar('G') == 'g';
  }

  lemma CarExtension()
    ensures AllowedFile("car.JPG")
    ensures Lower(LastSegment("car.JPG")) == "jpg"
  {
    CarSplit();
    LowerJPG();
  }

  lemma CarPaths()
    ensures PathJoin(UploadFolder, "car.JPG") == "static/uploads/car.JPG"
    ensures OutputPath("static/uploads/car.JPG") == "static/uploads/output_car.JPG"
    ensures Basename("static/uploads/car.JPG") == "car.JPG"
  {
    CarNames();
    assert '/' !in "car.JPG";
    OutputPathOfStoredUpload("car.JPG");
  }

  lemma CarNames()
    ensures PathJoin(UploadFolder, "car.JPG") == "static/uploads/car.JPG"
    ensures UploadFolder + OutputPrefix + "car.JPG" == "static/uploads/output_car.JPG"
  {
  }

  lemma CarLink()
    ensures StaticUploads + OutputPrefix + "car.JPG" == "uploads/output_car.JPG"
  {
  }
}
