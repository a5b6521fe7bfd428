# Upload filter and adaptive JPEG compression, verified in Dafny

This project models the two pieces of real logic in a small Express upload
server (`index.js`): the type filter multer runs on every uploaded file, and
the search `compressImage` runs to shrink an uploaded image below a size
target by lowering the JPEG quality and, when the image is far too large,
its dimensions. It also models the name the compressed copy is written under.

- `node_path.dfy` (module `NodePath`): the two Node.js string functions the
  filter relies on, `path.extname` (POSIX rules: from the last `.` of the last path
  component, after trailing `/` are dropped, to its end; nothing for a name
  without a `.`, for a dot-file such as `.png`, and for `..`) and `toLowerCase`.
- `upload_filter.dfy` (module `UploadFilter`): the pattern
  `/jpeg|jpg|png|pdf|doc|docx/` and its `test` (an unanchored search that
  tries every start position and, at each, the alternatives in order), and
  `fileFilter`. The filter accepts a file exactly when the lower-cased
  extension contains one of the six alternatives and the mimetype, as sent,
  contains one too; every other file gets the single error
  "Invalid file type!". Lemmas show the consequences: the case of the name
  never matters, while a `mimetype` field of `IMAGE/PNG` is refused, because
  `fileFilter` lower-cases the extension (index.js:27) but not the mimetype
  (index.js:29) (`UpperCaseMimetypeRejected`); either test alone is not
  enough; containment, not equality, is tested; a Word 97 file sent with its
  registered mimetype `application/msword` is always refused.
- `compressor.dfy` (module `Compressor`): the search. The image library is an
  abstract `Encoder` from a job (quality, and either the original geometry or
  a resize) to bytes, or to nothing when the library fails; nothing is
  assumed about the sizes it produces. The resize factor is kept in integer
  tenths (10 is 1.0) and `Math.round(f * w)` is rounded exactly.
  `CompressImage` runs the loop on local state as the source does and is
  proved equal to `Compress`, the recursive definition. `IsSearchTrace`
  describes a run as a relation between consecutive attempts, and the run
  the definition makes is proved to be the only run that satisfies it. Over
  any run: at most 14 iterations; quality 80, 75, … never below 10; the
  factor never rises, drops only when the size was above twice the target,
  and has no floor, since the loop never guards it (`ScaleHasNoFloor`: down
  to -0.4, asking the library for a 0 by 0 image on the eleventh attempt); on exit the written buffer is within the target or
  was encoded at quality 10. A factor of 0 or less always asks for a width
  and height of 0 or less (`RoundTenthsDegenerate`). The quality-10,
  factor -0.4 result of `ScaleHasNoFloor` needs an encoder that accepts such
  a resize; sharp's `resize` wants positive integer sizes, so with sharp the
  run fails at the eleventh attempt at the latest, earlier when a side is
  under 5 pixels, and nothing is written.
- `wrappers.dfy`: the `Option` type.

## Model

| member | source | states |
|---|---|---|
| `NodePath.Lower` | index.js:27 | `toLowerCase` on ASCII; characterised by `LowerSpec` |
| `NodePath.LowerSpec` | index.js:27 | lower-casing keeps the length, maps A–Z to a–z, leaves no upper-case ASCII letter, leaves non-letters and lower-case letters alone, and is idempotent |
| `NodePath.ExtName` | index.js:27 | `path.extname`; characterised by `ExtNameSpec` and `ExtNameLower` |
| `NodePath.LastIndexOf` | index.js:27 | the index found holds the character and no later index does; -1 only when the character is absent |
| `NodePath.ExtNameSpec` | index.js:27 | the extension is empty or starts with the last component's last `.` and runs to its end; it is empty exactly when that component is `..` or has no `.` after its first character |
| `NodePath.ExtNameLower` | index.js:26-28 | taking the extension of a lower-cased name gives the lower-cased extension |
| `UploadFilter.MatchAt` | index.js:23 | the alternative the pattern matches at one position occurs there; none is returned only when no alternative occurs there |
| `UploadFilter.SearchFrom` | index.js:23 | the search from a position finds a match exactly when some alternative occurs at or after it |
| `UploadFilter.Test` | index.js:23 | `allowedTypes.test(s)` holds exactly when one of jpeg, jpg, png, pdf, doc, docx is a substring of `s` |
| `UploadFilter.FileFilter` | index.js:21-36 | a file is accepted if and only if its lower-cased extension and its unaltered mimetype both contain an alternative; every refusal carries "Invalid file type!" |
| `UploadFilter.FilterIgnoresNameCase` | index.js:26-28 | two files whose names differ only in case and whose mimetypes are equal get the same verdict |
| `UploadFilter.UpperCaseExtensionAccepted` | index.js:26-32 | a `.PNG` file sent as `image/png` is accepted |
| `UploadFilter.UpperCaseMimetypeRejected` | index.js:29-34 | a `.png` file whose `mimetype` field is `IMAGE/PNG` is refused: `fileFilter` does not lower-case the mimetype |
| `UploadFilter.ExtensionAloneRejected` | index.js:31-34 | a `.png` file sent as `text/plain` is refused |
| `UploadFilter.MimetypeAloneRejected` | index.js:31-34 | a `.txt` file sent as `image/png` is refused |
| `UploadFilter.NoExtensionRejected` | index.js:26-34 | a file whose name has no extension is refused whatever its mimetype |
| `UploadFilter.ContainmentSuffices` | index.js:23-32 | the extension `.docxyz` with the mimetype `text/x-doc` is accepted: the pattern is unanchored |
| `UploadFilter.MsWordMimetypeRejected` | index.js:29-34 | any file sent as `application/msword` is refused |
| `UploadFilter.DocxIsRedundant` | index.js:23 | a string matches the pattern exactly when it contains one of the first five alternatives |
| `UploadFilter.UpperCaseNameExtension` | index.js:27 | the extension of `PHOTO.PNG` is `.PNG`, case kept |
| `UploadFilter.DoubleExtension` | index.js:27 | the extension of `scan.pdf.txt` is `.txt` |
| `UploadFilter.DotFileHasNoExtension` | index.js:27 | the name `.png` has no extension |
| `Compressor.RoundTenthsNearest` | index.js:66-71 | the result is the integer nearest to factor × length, halves rounded up, as `Math.round` does |
| `Compressor.RoundTenthsDegenerate` | index.js:66-71 | a factor of 0 or less gives a requested size of 0 or less for every non-negative length, since nothing in the loop keeps the factor positive |
| `Compressor.RoundTenths` | index.js:66-71 | `Math.round(resizeFactor * w)` in tenths; characterised by `RoundTenthsNearest` and `RoundTenthsDegenerate` |
| `Compressor.NextScale` | index.js:58-61 | the factor update of one iteration; `ScaleDropsOnlyWhenFar` and `TraceBounds` state its effect over a run |
| `Compressor.NextJob` | index.js:62-74 | the job one iteration sends to the encoder: quality 5 lower, resized by the new factor; characterised over a run by `SearchRunIsTrace` and `CompressOutcome` |
| `Compressor.RunFrom` | index.js:57-75 | the run from an attempt starts with that attempt |
| `Compressor.SearchRun` | index.js:54-75 | either at least one attempt succeeds, or the run reports the failed initial quality-80 encode without resize |
| `Compressor.Compress` | index.js:51-78 | `compressImage` as a function of the encoder; `CompressImage` is proved equal to it and `CompressOutcome`, `AlreadyWithinTarget` and `ScaleHasNoFloor` characterise it |
| `Compressor.CompressImage` | index.js:51-78 | the loop over `quality`, `resizeFactor` and `outputBuffer` ends with the file written or the failed encode that `Compress` gives |
| `Compressor.SearchRunIsTrace` | index.js:52-75 | the search starts at quality 80 and factor 1.0, each later attempt is one loop iteration after a passed guard, and the run ends when the guard fails or an encode fails |
| `Compressor.TraceIsUnique` | index.js:57-75 | two runs satisfying that description are equal, so the description fixes the search |
| `Compressor.TraceBounds` | index.js:52-63 | at most 15 attempts (14 iterations); attempt i has quality 80 - 5i, a multiple of 5 in [10, 80], and factor between 1.0 - 0.1i and 1.0, never below -0.4; quality and factor never rise |
| `Compressor.ScaleDropsOnlyWhenFar` | index.js:58-61 | the factor falls by 0.1 in an iteration exactly when the size before it was above twice the target, and is unchanged otherwise |
| `Compressor.CompressOutcome` | index.js:57-77 | a written file goes under `compress/`, is within the target or at quality 10, with quality a multiple of 5 in [10, 80] and factor in [-0.4, 1.0]; a failure is the first encode or a resize at quality in [10, 75] |
| `Compressor.AlreadyWithinTarget` | index.js:54-57 | when the first encode is within the target the loop does not run and the quality-80, factor-1.0 buffer is written |
| `Compressor.ScaleHasNoFloor` | index.js:58-71 | when every encode is above twice the target, all 14 iterations shrink, the eleventh attempt asks for a 0 by 0 image at quality 30, and the result has quality 10 and factor -0.4 |
| `Compressor.CompressedName` | index.js:99 | the name `compress-` + original name; characterised by the round trips and `CompressedNamesDistinct` |
| `Compressor.CompressedNameRoundTrip` | index.js:99 | the original name is recovered from `compress-<originalname>` |
| `Compressor.OriginalNameRoundTrip` | index.js:99 | a name recognised as a compressed copy's is rebuilt from the original name it gives |
| `Compressor.CompressedNamesDistinct` | index.js:99 | distinct original names give distinct output names |
| `Compressor.UploadOutputLocation` | index.js:99 | an uploaded file's compressed copy, when written, is at `compress/compress-<originalname>` |

## Left out

- Express routing, the `/upload` handler's responses and status codes, the
  error middleware, static serving and the port (index.js:49, 81-127): HTTP
  plumbing with no logic of its own.
- multer's disk storage and file naming (index.js:10-18): the library's I/O.
  The per-file size limit of 2 MB and the limit of 5 files per request
  (index.js:42-45) are enforced inside multer; they are recorded as the
  constants `UploadFilter.MaxFileSize` and `UploadFilter.MaxFiles` only.
- The `forEach` with an `async` callback that nobody awaits, and the
  `try`/`catch` around it that cannot catch its rejections (index.js:96-103):
  concurrency, not logic. Each file's search is modelled on its own.
- sharp: decoding, encoding and `metadata()` are the abstract `Encoder` and
  fixed `width`/`height` parameters; the model does not assume that a lower
  quality or a smaller image encodes smaller, so the size is not proved to
  fall from one attempt to the next. A failing `metadata()` call is not
  modelled separately from a failing encode.
- `fs.writeFileSync` (index.js:77): the write is the `Written` result with its
  path; a failing write is not modelled.
- Compressor.RoundTenths: the factor is exact tenths, while the source
  subtracts 0.1 in IEEE doubles: after ten subtractions it holds about
  1.4e-16 (1.3877787807814457e-16), not 0, and the next four values are
  -0.09999999999999987, -0.19999999999999987, -0.2999999999999999 and
  -0.3999999999999999. Each double lies at or just above the exact tenth, so
  the drift pushes the product upward and `Math.round` rounds halves up
  anyway; floating-point rounding of the factor and of the product is still
  not modelled.
- Compressor.CompressImage: the target is a whole number of KB (the handler
  passes 20), so `length / 1024 > target` is compared as
  `length > 1024 * target`; fractional targets are not modelled.
- UploadFilter.FileFilter: `file.mimetype` is taken as `fileFilter` receives
  it. multer fills it in from its multipart parser, which may already
  lower-case the declared type, so the case asymmetry is a property of
  `fileFilter`, not necessarily of the `/upload` route; the parser is not
  part of this model.
- NodePath.ExtName: `path.extname` belongs to Node.js, not to this
  repository, and only its POSIX behaviour (separator `/`) is modelled.
- `toLowerCase` lower-cases only A-Z here. The other characters whose lower
  case contains an ASCII letter (U+0130 gives `i` plus U+0307; U+212A gives
  `k`) produce no letter that any alternative contains, so the test result
  is unaffected.
