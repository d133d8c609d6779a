# image-uploader: upload and cleanup endpoints in Dafny

This project is a model of the two API endpoints of the image uploader. Both
are written for Astro on Vercel.

- **Upload** (`POST`, `src/pages/api/upload.js`). It reads the multipart form
  and takes its `image` entry. It answers 400 when the entry is missing or its
  MIME type does not start with `image/`. Otherwise it writes the bytes to
  `public/pictures/<name>` and answers 200 with that name. Any exception is
  answered with 500. The name is made by `generateRandomFilename`: 16 random
  bytes in lower-case hex, a dot, and the last piece of
  `originalFilename.split('.')`.
- **Cleanup** (`handler`, `src/pages/api/cleanup.ts`). It lists the `images`
  bucket and selects the files created strictly before now − 24 h, keeping
  listing order. It calls `remove` once per selected file, in that order,
  and logs and skips a failed removal. It answers 200 with the number of
  files *selected*. A listing error is answered with 500.

Modules:

- `Hex` (hex.dfy): `toString('hex')` on bytes, with its inverse.
- `Filename` (filename.dfy): JavaScript's `split('.')`, `join('.')` and
  `lastIndexOf('.')` on strings, the extension, and `generateRandomFilename`.
- `Upload` (upload.dfy): `POST` as a function from the form entry, the faults
  of the awaited calls and the random bytes to a status, a reply and the
  file write performed.
- `Cleanup` (cleanup.dfy): a `Bucket` class stands for the storage service.
  It holds the listing as a field that `Remove` updates, plus a log of
  `remove` calls. The method `Handler` runs the selection and calls the loop
  `RemoveEach`.

The code has no storage quota, no eviction and no upload size ceiling. The
upload endpoint writes to the local `public/pictures` directory, not to the
bucket, and answers with the generated file name.

Inputs that the source takes from the outside world are parameters here:

- the 16 random bytes (`crypto.randomBytes`);
- the clock (`Date.now()`, as `now` in milliseconds);
- the parsed `created_at` of each file (milliseconds, or an invalid date);
- whether `request.formData()`, `file.arrayBuffer()` and `writeFile` throw;
- whether the bucket listing fails;
- which names the bucket refuses to remove.

JavaScript edge cases the model makes explicit:

- `formData.get('image')` can yield null, a text value or a file.
- `!file` holds for null and for the empty string, so both give 400.
- A non-empty text value has no `type`, so `file.type.startsWith` throws and
  the answer is 500.
- A name without a dot is its own extension.
- A name ending in a dot has an empty extension, so the generated name ends
  in a bare dot.
- `remove` works by name. A file that is not old but shares its name with
  an old one is removed together with it.
- An unparseable `created_at` is an invalid date. It compares false with the
  cutoff, so that file is never selected.

## Model

| member | source | states |
|---|---|---|
| `Hex.Encode` | src/pages/api/upload.js:34 | the hex text of n bytes is 2n lower-case hex digits and contains no dot |
| `Hex.Decode` | src/pages/api/upload.js:34 | reading hex text back gives half as many bytes as characters |
| `Hex.DecodeEncode` | src/pages/api/upload.js:34 | decoding the hex text of bytes gives the bytes back |
| `Hex.EncodeDecode` | src/pages/api/upload.js:34 | every even-length lower-case hex string is the hex text of the bytes it decodes to |
| `Hex.EncodeInjective` | src/pages/api/upload.js:34 | different random bytes always give different hex text |
| `Filename.Split` | src/pages/api/upload.js:33 | `split('.')` yields at least one piece and no piece contains a dot |
| `Filename.JoinSplit` | src/pages/api/upload.js:33 | joining the pieces of `split('.')` with dots gives the name back |
| `Filename.SplitJoin` | src/pages/api/upload.js:33 | splitting dot-joined dot-free pieces gives exactly those pieces |
| `Filename.SplitNoDot` | src/pages/api/upload.js:33 | a name without a dot splits into itself alone |
| `Filename.SplitAppend` | src/pages/api/upload.js:33 | a dot-free head followed by a dot becomes its own first piece |
| `Filename.SplitPrefix` | src/pages/api/upload.js:33 | whatever comes before a final dot-free tail, the last piece is that tail |
| `Filename.Extension` | src/pages/api/upload.js:33 | the extension (`split('.').pop()`) contains no dot |
| `Filename.ExtensionAfterLastDot` | src/pages/api/upload.js:33 | the extension is exactly the text after the last dot, or the whole name when there is none |
| `Filename.ExtensionIsSuffix` | src/pages/api/upload.js:33 | the extension is a suffix of the original name and contains no dot |
| `Filename.ExtensionWithoutDot` | src/pages/api/upload.js:33 | a name without a dot is its own extension |
| `Filename.ExtensionAfterTrailingDot` | src/pages/api/upload.js:33 | a name ending in a dot has the empty extension |
| `Filename.Generate` | src/pages/api/upload.js:32-36 | the generated name has length 33 + the extension's length: 32 lower-case hex characters, a dot, then the original extension |
| `Filename.GenerateSplitsInTwo` | src/pages/api/upload.js:33-35 | the generated name contains exactly one dot: it splits into the hex text and the extension |
| `Filename.GeneratePreservesExtension` | src/pages/api/upload.js:33-35 | the extension of the generated name equals the extension of the original name |
| `Filename.GenerateRecoversRandom` | src/pages/api/upload.js:34-35 | the random bytes can be decoded from the first 32 characters of the generated name |
| `Filename.GenerateInjective` | src/pages/api/upload.js:34-35 | two generated names are equal only if their random bytes and extensions are equal |
| `Filename.GenerateTrailingDot` | src/pages/api/upload.js:33-35 | the generated name ends in a bare dot exactly when the original extension is empty |
| `Upload.Post` | src/pages/api/upload.js:6-30 | status is 200, 400 or 500. A file is written exactly when the status is 200. 200 iff the form parses, the entry is a file of type `image/...`, and reading and writing succeed; then the reply is the generated name and the write goes to `public/pictures/<that name>` with the uploaded bytes. `NoFile` (400) iff the form parses and the entry is falsy. `NotAnImage` (400) iff the entry is a file whose type does not start with `image/`. Every other case is 500 |
| `Upload.ErrorMessage` | src/pages/api/upload.js:12-28 | every failure reply carries a non-empty error text: the missing-file text (line 12), the not-an-image text (line 17) or the processing-error text (line 28) |
| `Upload.ErrorMessagesDistinct` | src/pages/api/upload.js:12-28 | the three failures carry three different texts |
| `Upload.MissingImageIsRejected` | src/pages/api/upload.js:9-13 | a form without `image` gives 400 with no write, whatever the later faults |
| `Upload.PresenceCheckedFirst` | src/pages/api/upload.js:11-18 | a missing or empty entry is never answered with the not-an-image error |
| `Upload.TextPlainIsRejected` | src/pages/api/upload.js:16-18 | a `text/plain` file gives 400 with no write |
| `Upload.SavedNameKeepsExtension` | src/pages/api/upload.js:21-25 | on 200 the file goes to `public/pictures` under a name 33 characters longer than the extension, with the original extension |
| `Cleanup.Status` | src/pages/api/cleanup.ts:36-39 | the status is 200 exactly for a completed run and 500 exactly for a server error |
| `Cleanup.Cutoff` | src/pages/api/cleanup.ts:10 | the cutoff lies exactly 86,400,000 ms before now |
| `Cleanup.Select` | src/pages/api/cleanup.ts:22 | a file is selected iff it is listed and its creation time is strictly before the cutoff; the selection is no longer than the listing |
| `Cleanup.SelectAppend` | src/pages/api/cleanup.ts:22 | selecting from a concatenation concatenates the selections, so listing order is kept |
| `Cleanup.SelectCounts` | src/pages/api/cleanup.ts:22 | each old file is selected as many times as it is listed; other files are never selected |
| `Cleanup.SelectBoundary` | src/pages/api/cleanup.ts:10-22 | a listed file is selected iff its valid creation time is strictly below now − 86,400,000; a file at the cutoff or later is not selected |
| `Cleanup.SelectExample` | src/pages/api/cleanup.ts:10-22 | of files aged 23 h, 24 h and 25 h, only the 25 h one is selected |
| `Cleanup.Names` | src/pages/api/cleanup.ts:24-27 | the names passed to `remove` correspond one to one, in order, to the selected files |
| `Cleanup.Keep` | src/pages/api/cleanup.ts:25-27 | after removing a set of names, a file remains iff it was there and its name is not in the set |
| `Cleanup.KeepKeep` | src/pages/api/cleanup.ts:24-27 | removing names one after another equals removing their union at once |
| `Cleanup.Bucket.List` | src/pages/api/cleanup.ts:13-19 | the listing reports failure exactly when the bucket's listing fails; otherwise it is the bucket's contents |
| `Cleanup.Bucket.Remove` | src/pages/api/cleanup.ts:25-27 | each call is logged. It succeeds iff the bucket does not refuse the name, and only then are the files with that name gone |
| `Cleanup.RemoveEach` | src/pages/api/cleanup.ts:24-34 | exactly one `remove` per selected file, in order, continuing past failures. Afterwards the bucket holds the original files minus those whose name was selected and not refused |
| `Cleanup.RemovalStep` | src/pages/api/cleanup.ts:24-34 | one more iteration adds one call to the log; a refused name leaves the bucket as it was |
| `Cleanup.Handler` | src/pages/api/cleanup.ts:8-41 | the status is 500 exactly when the listing fails and 200 otherwise. If the listing fails: 500, with no removal and no change. Otherwise the count is the number of selected files, whatever failed. The removals are the selected names in listing order, and the bucket loses exactly the selected, non-refused names |
| `Cleanup.Survivors` | src/pages/api/cleanup.ts:22-34 | after a run, a file remains iff it was there and either no selected file has its name or that name was refused. Removal is by name, so a young file is removed along with an old file of the same name |
| `Cleanup.YoungFilesStay` | src/pages/api/cleanup.ts:22-27 | a file that is not old and shares its name with no other file remains in the bucket |

## Left out

- Request parsing (`request.formData()`, `file.arrayBuffer()`) and the file
  write (`writeFile`, `Buffer.from`, `join(process.cwd(), ...)`) are I/O. Each
  one is modelled only by whether it throws and, for the write, by the
  recorded target and bytes. A write that fails partway is recorded as no
  write.
- Path handling by `join` is not modelled. The write target is recorded as
  the directory `public/pictures` plus the generated name. An extension that
  contains `/` names a file in a subdirectory `<hex>.` that does not exist, so
  the real `writeFile` throws and the answer is 500. The model leaves that
  outcome to the `writeThrows` input.
- `crypto.randomBytes` is nondeterministic. Its 16 bytes are a parameter.
- `Date.now()` and the parsing of `created_at` are left out. `now` and the
  parsed times are given in milliseconds.
- The storage client: its construction, environment variables and network
  calls. The bucket is abstract. Service-side behaviour is not modelled,
  such as listing limits, folder entries or throwing instead of returning an
  error.
- Logging (`console.log`, `console.error`), `async`/`await` sequencing and the
  response objects. The cleanup reply keeps the count but not its message
  text, and the upload reply keeps the file name but not its JSON encoding.
- `astro.config.mjs` is framework configuration with no logic and is not
  part of this model.
- Storage quota, eviction and an upload size ceiling are not modelled,
  because the code does not have them.
