/**
 * The image store behind the two HTTP endpoints: `POST /api/upload`
 * (`upload_image`) and `GET /api/images/<path>` (`serve_image`). The
 * `images` directory is an abstract map from file name to bytes held in
 * one object; HTTP aborts become explicit result values.
 */
module ImageServer {
  import opened FileNames

  newtype byte = b: int | 0 <= b < 256

  datatype Option<T> = None | Some(value: T)

  datatype Result<T, E> = Success(value: T) | Failure(error: E)

  /** A multipart file part: the client's original file name and its bytes. */
  datatype FilePart = FilePart(filename: string, content: seq<byte>)

  /** Route prefix under which a stored image is served back. */
  const ImagesRoute: string := "/api/images/"

  /** Message of a successful upload's JSON payload. */
  const UploadedMessage: string := "File uploaded successfully"

  /** Why an upload was refused; every refusal is a 400. */
  datatype UploadError = NoFilePart | NoSelectedFile | InvalidFileType
  {
    /** The text the client sees. */
    function Message(): (m: string)
      ensures m == "No file part" <==> NoFilePart?
      ensures m == "No selected file" <==> NoSelectedFile?
      ensures m == "Invalid file type" <==> InvalidFileType?
    {
      match this
      case NoFilePart => "No file part"
      case NoSelectedFile => "No selected file"
      case InvalidFileType => "Invalid file type"
    }

    /**
     * The first two refusals are `abort(400, description=...)` error pages;
     * only the extension refusal is returned as a JSON `{"error": ...}` body.
     */
    predicate IsJsonBody(): (json: bool)
      ensures json <==> Message() == "Invalid file type"
    {
      InvalidFileType?
    }
  }

  /**
   * The JSON `{"error": ...}` refusal is the fall-through after a named file
   * part was found; a missing part or an empty name gets an error page.
   */
  lemma JsonRefusalIffNamedPart(part: Option<FilePart>)
    requires CheckUpload(part).Failure?
    ensures CheckUpload(part).error.IsJsonBody() <==> part.Some? && part.value.filename != []
  {
  }

  /** Outcome of an upload request. */
  datatype UploadResult = Uploaded(message: string, path: string) | UploadFailed(error: UploadError)
  {
    function Status(): (code: nat)
      ensures code == 200 <==> Uploaded?
      ensures code == 400 <==> UploadFailed?
    {
      if Uploaded? then 200 else 400
    }
  }

  /** Prefix of the description of every failed serve. */
  const ServeErrorPrefix: string := "Error serving image: "

  /** Why a stored name could not be served (the reason inside the try block). */
  datatype ServeError = ImageNotFound | NotAnImage
  {
    /** The status the inner `abort` raises before the generic handler catches it. */
    function InnerStatus(): (code: nat)
      ensures code == 404 <==> ImageNotFound?
      ensures code == 400 <==> NotAnImage?
    {
      if ImageNotFound? then 404 else 400
    }

    /** The `description` the inner `abort` is given. */
    function InnerDescription(): (d: string)
      ensures d == "Image not found" <==> ImageNotFound?
      ensures d == "Invalid file type" <==> NotAnImage?
    {
      if ImageNotFound? then "Image not found" else "Invalid file type"
    }

    /**
     * Description of the 500 the generic handler re-aborts with: its prefix
     * followed by the caught exception's text "<code> <name>: <description>",
     * which ends in the inner description.
     */
    function Description(): (d: string)
      ensures |d| > |ServeErrorPrefix| + |InnerDescription()|
      ensures d[..|ServeErrorPrefix|] == ServeErrorPrefix
      ensures d[|d| - |InnerDescription()|..] == InnerDescription()
    {
      var head := ServeErrorPrefix + ExceptionName();
      assert (head + InnerDescription())[|head|..] == InnerDescription();
      head + InnerDescription()
    }

    /** The "<code> <name>: " head of the caught exception's text. */
    function ExceptionName(): string
    {
      if ImageNotFound? then "404 Not Found: " else "400 Bad Request: "
    }
  }

  /** The 500 still tells the two inner reasons apart. */
  lemma DescriptionsDistinct(a: ServeError, b: ServeError)
    ensures a != b ==> a.Description() != b.Description()
  {
  }

  /**
   * Outcome of a serve request. Both refusals raised inside the try block
   * are caught by its `except Exception` and surface as an internal error
   * that keeps the inner reason.
   */
  datatype ServeResult = Served(content: seq<byte>) | InternalError(cause: ServeError)
  {
    function Status(): (code: nat)
      ensures code == 200 <==> Served?
      ensures code == 500 <==> InternalError?
    {
      if Served? then 200 else 500
    }

    /** The status the inner aborts were evidently meant to answer with. */
    function IntendedStatus(): (code: nat)
      ensures code == 200 <==> Served?
      ensures code == 404 <==> this == InternalError(ImageNotFound)
      ensures code == 400 <==> this == InternalError(NotAnImage)
    {
      if Served? then 200 else cause.InnerStatus()
    }
  }

  /**
   * The validation half of `upload_image`, in the source's order: file part
   * present, then a non-empty name, then a whitelisted extension. On success
   * it yields the key the bytes are stored under, the name's basename.
   */
  function CheckUpload(part: Option<FilePart>): (r: Result<string, UploadError>)
    ensures r == Failure(NoFilePart) <==> part.None?
    ensures r == Failure(NoSelectedFile) <==> part.Some? && part.value.filename == []
    ensures r == Failure(InvalidFileType) <==>
              part.Some? && part.value.filename != [] && !AllowedFile(part.value.filename)
    ensures r.Success? ==> part.Some? && r.value == Basename(part.value.filename)
    ensures r.Success? ==> r.value != [] && '/' !in r.value && AllowedFile(r.value)
  {
    match part
    case None => Failure(NoFilePart)
    case Some(file) =>
      if file.filename == [] then Failure(NoSelectedFile)
      else if AllowedFile(file.filename) then
        BasenameKeepsAllowed(file.filename);
        Success(Basename(file.filename))
      else Failure(InvalidFileType)
  }

  /** The contents of the `images` directory. */
  class ImageStore {
    var images: map<string, seq<byte>>

    /** The directory as found at startup, possibly holding files of any name. */
    constructor (existing: map<string, seq<byte>>)
      ensures images == existing
    {
      images := existing;
    }

    /**
     * Every stored name is a servable image name without a directory part.
     * The store keeps this once it holds: upload only adds such names.
     */
    ghost predicate OnlyImages()
      reads this
    {
      forall name :: name in images ==> AllowedFile(name) && '/' !in name
    }

    /**
     * `upload_image`: a refused request leaves the directory as it was; an
     * accepted one writes the bytes under the basename, replacing any file
     * of that name and no other, and reports the retrieval path.
     */
    method Upload(part: Option<FilePart>) returns (r: UploadResult)
      modifies this
      ensures CheckUpload(part).Failure? ==>
                r == UploadFailed(CheckUpload(part).error) && images == old(images)
      ensures CheckUpload(part).Success? ==>
                var key := CheckUpload(part).value;
                && r == Uploaded(UploadedMessage, ImagesRoute + key)
                && images == old(images)[key := part.value.content]
      ensures r.Uploaded? ==> r.path[|ImagesRoute|..] in images
      ensures old(OnlyImages()) ==> OnlyImages()
    {
      var checked := CheckUpload(part);
      match checked
      case Failure(e) =>
        r := UploadFailed(e);
      case Success(key) =>
        images := images[key := part.value.content];
        r := Uploaded(UploadedMessage, ImagesRoute + key);
        assert r.path[|ImagesRoute|..] == key;
    }

    /**
     * `serve_image`: existence is checked before the extension, so a missing
     * name is "not found" whatever its extension; a present, whitelisted name
     * yields exactly its stored bytes.
     */
    function Serve(filename: string): (r: ServeResult)
      reads this
      ensures r.Served? <==> filename in images && AllowedFile(filename)
      ensures r.Served? ==> r.content == images[filename]
      ensures filename !in images ==> r == InternalError(ImageNotFound)
      ensures filename in images && !AllowedFile(filename) ==> r == InternalError(NotAnImage)
    {
      if filename !in images then InternalError(ImageNotFound)
      else if !AllowedFile(filename) then InternalError(NotAnImage)
      else Served(images[filename])
    }
  }

  /**
   * As written, a name that was never stored is answered with 500, not the
   * 404 its inner abort carries; a stored non-image likewise with 500, not 400.
   */
  lemma RefusalsSurfaceAs500(store: ImageStore, name: string)
    requires !(name in store.images && AllowedFile(name))
    ensures store.Serve(name).Status() == 500
    ensures store.Serve(name).IntendedStatus() == (if name in store.images then 400 else 404)
  {
  }

  /** A store that holds only image names serves every name it holds. */
  lemma OnlyImagesAreServed(store: ImageStore, name: string)
    requires store.OnlyImages() && name in store.images
    ensures store.Serve(name) == Served(store.images[name])
  {
  }

  /**
   * Upload of a whitelisted name followed by Serve of the returned path
   * gives back exactly the uploaded bytes.
   */
  method UploadThenServe(store: ImageStore, name: string, content: seq<byte>)
    returns (up: UploadResult, served: ServeResult)
    modifies store
    ensures AllowedFile(name) ==> up == Uploaded(UploadedMessage, ImagesRoute + Basename(name))
    ensures AllowedFile(name) ==> served == Served(content)
    ensures !AllowedFile(name) ==>
              && up == UploadFailed(if name == [] then NoSelectedFile else InvalidFileType)
              && store.images == old(store.images)
  {
    up := store.Upload(Some(FilePart(name, content)));
    served := store.Serve(Basename(name));
  }

  /** Writing a key twice leaves only the second write. */
  lemma OverwriteTwice<K, V>(m: map<K, V>, k: K, a: V, b: V)
    ensures m[k := a][k := b] == m[k := b]
  {
  }

  /** A second upload under the same name replaces the first one's bytes. */
  method ReuploadOverwrites(store: ImageStore, name: string, first: seq<byte>, second: seq<byte>)
    returns (served: ServeResult)
    requires AllowedFile(name)
    modifies store
    ensures served == Served(second)
    ensures store.images == old(store.images)[Basename(name) := second]
  {
    var key := Basename(name);
    assert CheckUpload(Some(FilePart(name, first))) == Success(key);
    assert CheckUpload(Some(FilePart(name, second))) == Success(key);
    var _ := store.Upload(Some(FilePart(name, first)));
    ghost var afterFirst := store.images;
    var _ := store.Upload(Some(FilePart(name, second)));
    assert store.images == afterFirst[key := second];
    OverwriteTwice(old(store.images), key, first, second);
    served := store.Serve(key);
  }
}
