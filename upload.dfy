/**
  The `POST` handler of the upload endpoint: read the form, take the `image`
  entry, refuse it when missing or not an image, otherwise write its bytes
  to `public/pictures/<generated name>` and answer with that name. Any
  exception on the way is answered with 500.

  The request parsing, the file read and the file write are I/O; whether
  each of them throws is a parameter (`Faults`), as are the sixteen random
  bytes the name is made from.
 */
module Upload {
  import Hex
  import Filename

  /** A `File` of the multipart form. */
  datatype UploadedFile = UploadedFile(name: string, mimeType: string, content: seq<Hex.byte>)

  /** What `formData.get('image')` yields: null, a text value or a file. */
  datatype FormEntry = Absent | Text(value: string) | File(file: UploadedFile)

  /** Which of the awaited calls throw. */
  datatype Faults = Faults(formDataThrows: bool, readThrows: bool, writeThrows: bool)

  /** The JSON body of the response. */
  datatype Reply = Saved(filename: string) | NoFile | NotAnImage | ProcessingFailed

  /** The file write the handler performs, if any. */
  datatype Effect = NoWrite | Wrote(directory: seq<string>, filename: string, content: seq<Hex.byte>)

  datatype Response = Response(status: int, reply: Reply, effect: Effect)

  /** Where uploaded pictures go, below the working directory. */
  const PicturesDirectory: seq<string> := ["public", "pictures"]

  const ImagePrefix: string := "image/"

  /** JavaScript's `!file`: true for null and for the empty string. */
  predicate IsFalsy(entry: FormEntry) {
    entry.Absent? || entry == Text("")
  }

  /** `s.startsWith(prefix)`. */
  predicate StartsWith(s: string, prefix: string) {
    |prefix| <= |s| && s[..|prefix|] == prefix
  }

  /** The error text each failure carries. */
  function ErrorMessage(reply: Reply): (message: string)
    requires !reply.Saved?
    ensures |message| > 0
  {
    match reply
    case NoFile => "Файл не загружен"
    case NotAnImage => "Файл не является изображением"
    case ProcessingFailed => "Ошибка обработки загрузки"
  }

  /** The three failures carry three different texts, so a client can tell them apart. */
  lemma ErrorMessagesDistinct(a: Reply, b: Reply)
    requires !a.Saved? && !b.Saved? && a != b
    ensures ErrorMessage(a) != ErrorMessage(b)
  {
  }

  function ServerError(): Response {
    Response(500, ProcessingFailed, NoWrite)
  }

  /** The status and effect of one `POST` with the given form entry. */
  function Post(entry: FormEntry, faults: Faults, random: seq<Hex.byte>): (r: Response)
    requires |random| == Filename.RandomBytes
    ensures r.status == 200 || r.status == 400 || r.status == 500
    ensures r.effect.Wrote? <==> r.status == 200
    ensures r.status == 200 <==>
      !faults.formDataThrows && entry.File? && StartsWith(entry.file.mimeType, ImagePrefix)
      && !faults.readThrows && !faults.writeThrows
    ensures r.status == 200 ==>
      var name := Filename.Generate(entry.file.name, random);
      r.reply == Saved(name) && r.effect == Wrote(PicturesDirectory, name, entry.file.content)
    ensures r.reply == NoFile <==> !faults.formDataThrows && IsFalsy(entry)
    ensures r.reply == NotAnImage <==>
      !faults.formDataThrows && entry.File? && !StartsWith(entry.file.mimeType, ImagePrefix)
    ensures r.status == 400 <==> r.reply == NoFile || r.reply == NotAnImage
    ensures r.status == 500 <==> r.reply == ProcessingFailed
    ensures r.status != 200 ==> !r.reply.Saved? && |ErrorMessage(r.reply)| > 0
  {
    if faults.formDataThrows then ServerError()
    else if IsFalsy(entry) then Response(400, NoFile, NoWrite)
    // a text value has no `type`: `undefined.startsWith` throws
    else if entry.Text? then ServerError()
    else if !StartsWith(entry.file.mimeType, ImagePrefix) then Response(400, NotAnImage, NoWrite)
    else if faults.readThrows then ServerError()
    else
      var filename := Filename.Generate(entry.file.name, random);
      if faults.writeThrows then ServerError()
      else Response(200, Saved(filename), Wrote(PicturesDirectory, filename, entry.file.content))
  }

  /** No image field: 400, and nothing is written, whatever the other faults. */
  lemma MissingImageIsRejected(faults: Faults, random: seq<Hex.byte>)
    requires |random| == Filename.RandomBytes
    requires !faults.formDataThrows
    ensures Post(Absent, faults, random) == Response(400, NoFile, NoWrite)
  {
  }

  /** The type check comes after the presence check: a missing entry never reads as a non-image. */
  lemma PresenceCheckedFirst(entry: FormEntry, faults: Faults, random: seq<Hex.byte>)
    requires |random| == Filename.RandomBytes
    requires IsFalsy(entry)
    ensures Post(entry, faults, random).reply != NotAnImage
  {
  }

  /** A plain-text upload is refused with 400 and never written. */
  lemma TextPlainIsRejected(name: string, content: seq<Hex.byte>, faults: Faults, random: seq<Hex.byte>)
    requires |random| == Filename.RandomBytes
    requires !faults.formDataThrows
    ensures Post(File(UploadedFile(name, "text/plain", content)), faults, random)
      == Response(400, NotAnImage, NoWrite)
  {
    assert "text/plain"[0] != ImagePrefix[0];
  }

  /** The saved file keeps the extension of the uploaded one and lands in `public/pictures`. */
  lemma SavedNameKeepsExtension(entry: FormEntry, faults: Faults, random: seq<Hex.byte>)
    requires |random| == Filename.RandomBytes
    ensures var r := Post(entry, faults, random);
      r.status == 200 ==>
        r.effect.directory == PicturesDirectory &&
        |r.effect.filename| == 33 + |Filename.Extension(entry.file.name)| &&
        Filename.Extension(r.effect.filename) == Filename.Extension(entry.file.name)
  {
    var r := Post(entry, faults, random);
    if r.status == 200 {
      Filename.GeneratePreservesExtension(entry.file.name, random);
    }
  }
}
