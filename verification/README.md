# Image server: extension whitelist and image store

A Dafny model of the Flask image server in `app.py`. It has two endpoints:

- `POST /api/upload` stores an uploaded image under its base file name.
- `GET /api/images/<path>` serves a stored image back.

A whitelist of image extensions guards both endpoints.

The model has two modules:

- `FileNames` (`filenames.dfy`) covers `allowed_file`. It also covers the string operations that function and the upload path rely on: Python's `str.rfind` and `rsplit('.', 1)`, ASCII lowercasing and POSIX `os.path.basename`.
  - It proves that `allowed_file` accepts exactly the names whose final dot-separated suffix, lowercased, is one of `png`, `jpg`, `jpeg`, `gif` or `bmp`.
  - It also proves that an accepted name still passes, with the same extension, once reduced to its basename.
- `ImageServer` (`image_store.dfy`) models the `images` directory as an `ImageStore` object. Its one field `images` is a map from file name to bytes.
  - `Upload` is a method that changes that map.
  - `Serve` is a read-only function.
  - HTTP aborts become explicit result values: `UploadResult`, `ServeResult` and their error kinds.

Serve outcomes follow the code, not the intended 404/400:

- The `abort(404)` at app.py:34 and the `abort(400)` at app.py:37 are raised inside the `try` block that starts at app.py:28.
- Werkzeug's HTTP exceptions are `Exception`s, so the handler at app.py:46-48 catches both and aborts again with a 500.
- So a missing or non-image name is observed as a 500 internal error. Its description embeds the inner exception's text ("404 Not Found: Image not found" or "400 Bad Request: Invalid file type").
- `ServeResult.InternalError(cause)` keeps that inner reason (`ImageNotFound` or `NotAnImage`), and `ServeError.InnerStatus` gives the status the inner abort carried.
- The inner `abort(404)` and `abort(400)` at app.py:34 and app.py:37 show the intended statuses. `ServeError.InnerStatus` and `ServeResult.IntendedStatus` record them, and `ServeResult.Status` gives the 500 that is actually observed (see "## Findings").

## Model

| member | source | states |
|---|---|---|
| `FileNames.RFind` | app.py:20 | The result is the index of the last occurrence of the character, or -1 exactly when the character does not occur. |
| `FileNames.Extension` | app.py:20 | The `rsplit('.', 1)[1]` part is the dot-free suffix of the name that directly follows a '.'. |
| `FileNames.Basename` | app.py:65 | The basename holds no '/'. It is a suffix of the path and is either the whole path or directly preceded by a '/'. |
| `FileNames.AllowedFileIff` | app.py:18-20 | `allowed_file(f)` holds if and only if some '.' in `f` is followed only by dot-free text whose ASCII-lowercased form is in the whitelist (both directions). |
| `FileNames.SuffixIsExtension` | app.py:20 | A '.' with no later '.' is the point where `rsplit('.', 1)` splits the name. |
| `FileNames.AllowedSuffixShape` | app.py:12 | A suffix that passes the whitelist in any letter case has at least three characters and no '/'. |
| `FileNames.BasenameKeepsAllowed` | app.py:63-65 | If `allowed_file(f)` holds, then `basename(f)` is non-empty, has the same extension and passes `allowed_file`. So every stored key is servable. |
| `FileNames.AcceptedExamples` | app.py:20 | `photo.JPG` and `a.exe.png` are accepted: the check ignores case and uses only the final suffix. |
| `FileNames.RejectedExamples` | app.py:20 | `a.png.exe`, `notes.txt`, `virus.exe` and `png` (no '.') are rejected. |
| `FileNames.LowerChar` | app.py:20 | ASCII lowercasing of one character: an upper-case letter becomes its lower-case letter, every other character is kept, and the result is never upper case. |
| `FileNames.Lower` | app.py:20 | `.lower()` keeps the length, lowercases each character in place and leaves no upper-case ASCII letter. |
| `FileNames.LowerIdempotent` | app.py:20 | Lowercasing an already lowercased string changes nothing. |
| `FileNames.AllowedFile` | app.py:18-20 | `allowed_file`: an accepted name contains a '.' and its final suffix has three or four characters. `AllowedFileIff` gives the full characterisation. |
| `ImageServer.UploadError.Message` | app.py:57-70 | Each refusal carries its own text ("No file part", "No selected file", "Invalid file type"), and the text identifies the refusal. |
| `ImageServer.UploadError.IsJsonBody` | app.py:57-70 | The JSON `{"error": ...}` body is the "Invalid file type" refusal. The other two refusals are `abort` error pages. |
| `ImageServer.JsonRefusalIffNamedPart` | app.py:56-70 | A refusal is the JSON body exactly when a file part with a non-empty name was sent, so it is the fall-through at app.py:70. |
| `ImageServer.UploadResult.Status` | app.py:57-70 | An upload answers 200 exactly when it succeeded and 400 exactly when it was refused. |
| `ImageServer.ServeError.InnerStatus` | app.py:33-37 | The inner abort is 404 exactly for a missing file and 400 exactly for a disallowed extension. |
| `ImageServer.ServeError.InnerDescription` | app.py:33-37 | The inner abort's description is "Image not found" exactly for a missing file and "Invalid file type" exactly for a disallowed extension. |
| `ImageServer.ServeError.Description` | app.py:46-48 | The 500's description starts with "Error serving image: " and ends with the inner abort's description, so it still carries the inner reason. |
| `ImageServer.DescriptionsDistinct` | app.py:46-48 | The two inner reasons give different 500 descriptions. |
| `ImageServer.ServeResult.Status` | app.py:28-48 | A serve answers 200 exactly when it returned bytes. Every refusal is observed as 500. |
| `ImageServer.ServeResult.IntendedStatus` | app.py:33-37 | The status the inner aborts were meant to answer with: 200 for bytes, 404 exactly for a missing name, 400 exactly for a stored non-image. |
| `ImageServer.RefusalsSurfaceAs500` | app.py:28-48 | Every name that is not a stored image is answered with 500, where 404 (never stored) or 400 (stored non-image) was intended. |
| `ImageServer.CheckUpload` | app.py:56-65 | The checks run in order: file part present, then non-empty name, then allowed extension. Each refusal happens exactly under its condition. On success the storage key is `basename(filename)`, which is non-empty, has no '/' and passes `allowed_file`. |
| `ImageServer.ImageStore.constructor` | app.py:14-16 | The store starts as the directory found at startup, which may already hold files of any name. |
| `ImageServer.ImageStore.Upload` | app.py:56-70 | A refused upload returns its error and leaves the store unchanged. An accepted one sets `store[basename(f)] := bytes`, overwriting any earlier value and leaving every other key alone. It returns `/api/images/<basename>` with the success message. It keeps the invariant that the store holds only servable image names. |
| `ImageServer.ImageStore.Serve` | app.py:28-48 | Existence is checked first: a missing name fails as not-found whatever its extension. A present name with a disallowed extension fails as not-an-image. A present, allowed name returns exactly its stored bytes. |
| `ImageServer.OnlyImagesAreServed` | app.py:33-40 | When the store holds only image names without '/', every stored name is served with its bytes. |
| `ImageServer.UploadThenServe` | app.py:63-68 | Uploading a whitelisted name and then serving its basename returns exactly the uploaded bytes. Any other name is refused, as "No selected file" when empty and "Invalid file type" otherwise, and changes nothing. |
| `ImageServer.ReuploadOverwrites` | app.py:65-67 | A second upload under the same name replaces the first. Serve then returns the newer bytes. |

## Findings

| source | as written | input that shows it | evidently intended | confidence | as-written member | corrected member |
|---|---|---|---|---|---|---|
| app.py:28-48 | The `abort(404)` and `abort(400)` at app.py:34/37 are raised inside the `try`; the `except Exception` at app.py:46 catches them (HTTP exceptions are `Exception`s) and aborts with 500. | `GET /api/images/missing.png` on an empty store | 404 for a missing image, 400 for a disallowed extension | high, not executed | `ImageServer.RefusalsSurfaceAs500` | `ImageServer.ServeResult.IntendedStatus` |

## Left out

- `test.py` is not part of this model. It probes a socket, reads a file, calls an external inference client and prints the result. None of that is statable logic.
- Flask and Werkzeug machinery is not modelled: routing, the `<path:>` converter, CORS, JSON and error-page rendering, `send_file` and its mimetype guessing, and `app.logger`. The model keeps what a response depends on: the status, the error kind and its text, and which refusal is a JSON body (`UploadError.IsJsonBody`).
- The filesystem is an abstract map. These are not modelled: directory creation at startup (app.py:15-16), `os.path.join` with `..` or absolute segments, directories that `os.path.exists` also reports, partial writes, and I/O or permission errors. The last would be a further 500 from `send_file` or `file.save`.
- Serve keys are taken verbatim and may contain '/'. Upload keys never do. Path normalisation by the filesystem is not modelled: `.` segments and repeated '/' name the same file on disk, so `Serve("./x.png")` finds a stored `x.png` through `os.path.exists` but is not-found in the model.
- Concurrent workers and last-write-wins races between uploads are not modelled.
- Lowering is ASCII only. Python's `str.lower` also maps some non-ASCII letters: the Kelvin sign becomes 'k', and U+0130 becomes two characters. Neither can produce one of the five whitelisted extensions, so the accepted set is the same.
- The `if file` truthiness at app.py:63 is not modelled as a separate branch. A Werkzeug file part is truthy exactly when its file name is non-empty, which app.py:60 has already ensured.
- The unused `PIL` and `io` imports (app.py:3-4) and the `app.run` entry point (app.py:72-73) are left out.
