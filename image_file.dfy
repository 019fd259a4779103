/**
 * The upload validator for images (Server/LuciferCore/Helper/ImageFileHelper.cs):
 * an uploaded file is accepted when its content type is an image type, its
 * extension (declared by the file name or inferred from the content type) is an
 * allowed one, and its first bytes carry that format's signature. The PNG test
 * reads the first four bytes of the signature of section 5.2 of the PNG
 * specification.
 */
module ImageFiles {
  import opened Wrappers
  import opened Text
  import opened Utf8
  import opened Multipart

  const AllowedExtensions: seq<string> := [".jpg", ".jpeg", ".png", ".gif"]

  const NoFile: string := "Không có file!"
  const NotAnImage: string := "File không phải ảnh!"
  const BadFormat: string := "Định dạng ảnh không hợp lệ!"
  const BadData: string := "Dữ liệu file ảnh không hợp lệ!"

  /** The result triple: validity, the extension on success, the message on failure. */
  datatype Validation = Validation(isValid: bool, extension: Option<string>, error: Option<string>)

  /** Path separators that end the extension scan. */
  predicate IsSeparator(c: char)
  {
    c == '/' || c == '\\'
  }

  /** The extension scan of Path.GetExtension from position `i` down to the start. */
  function ExtensionFrom(path: string, i: int): (r: string)
    requires -1 <= i < |path|
    requires forall k :: i < k < |path| ==> path[k] != '.' && !IsSeparator(path[k])
    decreases i + 1
    ensures |r| <= |path|
    ensures r == [] || (|r| >= 2 && r[0] == '.' && r == path[|path| - |r|..])
    ensures forall k :: 1 <= k < |r| ==> r[k] != '.' && !IsSeparator(r[k])
  {
    if i < 0 then []
    else if path[i] == '.' then (if i != |path| - 1 then path[i..] else [])
    else if IsSeparator(path[i]) then []
    else ExtensionFrom(path, i - 1)
  }

  /**
   * Path.GetExtension: null for null; otherwise the text from the last '.' after the
   * last separator to the end, or "" when there is none or it ends the path.
   */
  function Extension(path: Option<string>): (r: Option<string>)
    ensures r.Some? <==> path.Some?
  {
    if path.None? then None else Some(ExtensionFrom(path.value, |path.value| - 1))
  }

  /** The extension inferred from the exact content type when the file name has none. */
  function InferredExtension(contentType: string): (r: string)
    ensures r in [".png", ".jpg", ".gif", ".dat"]
  {
    if contentType == "image/png" then ".png"
    else if contentType == "image/jpeg" then ".jpg"
    else if contentType == "image/gif" then ".gif"
    else ".dat"
  }

  /** The extension Validate goes on with: the declared one, else the inferred one. */
  function ChosenExtension(file: UploadedFile): string
    requires file.contentType.Some?
  {
    var declared := Extension(file.fileName);
    if declared.None? || declared.value == [] then InferredExtension(file.contentType.value) else declared.value
  }

  /** IsValidImage: at least four bytes, starting with the signature of the extension's format. */
  function IsValidImage(content: seq<byte>, extension: string): (b: bool)
    ensures b ==> |content| >= 4 && Lower(extension) in AllowedExtensions
    ensures b && Lower(extension) in [".jpg", ".jpeg"] ==> content[0] == 0xFF && content[1] == 0xD8
    ensures b && Lower(extension) == ".png" ==> content[..4] == [0x89, 0x50, 0x4E, 0x47]
    ensures b && Lower(extension) == ".gif" ==> content[..3] == [0x47, 0x49, 0x46]
  {
    if |content| < 4 then false
    else
      var e := Lower(extension);
      if e == ".jpg" || e == ".jpeg" then content[0] == 0xFF && content[1] == 0xD8
      else if e == ".png" then content[0] == 0x89 && content[1] == 0x50 && content[2] == 0x4E && content[3] == 0x47
      else if e == ".gif" then content[0] == 0x47 && content[1] == 0x49 && content[2] == 0x46
      else false
  }

  /** The content type test: present, non-empty and starting with "image/", ignoring case. */
  predicate ImageContentType(contentType: Option<string>)
  {
    contentType.Some? && contentType.value != [] && StartsWithLower(contentType.value, "image/")
  }

  /**
   * Validate: the first failed test gives its message; success gives the extension
   * as written (not lower-cased). The declared extension is not compared with the
   * image subtype of the content type.
   */
  function Validate(file: Option<UploadedFile>): (r: Validation)
    ensures r.isValid <==> file.Some? && ImageContentType(file.value.contentType)
                           && IsValidImage(file.value.content, ChosenExtension(file.value))
    ensures r.isValid ==> r.extension == Some(ChosenExtension(file.value)) && r.error.None?
                          && Lower(ChosenExtension(file.value)) in AllowedExtensions
    ensures !r.isValid ==> r.extension.None? && r.error.Some?
    ensures file.None? ==> r.error == Some(NoFile)
    ensures file.Some? && !ImageContentType(file.value.contentType) ==> r.error == Some(NotAnImage)
    ensures file.Some? && ImageContentType(file.value.contentType) ==>
              (Lower(ChosenExtension(file.value)) !in AllowedExtensions ==> r.error == Some(BadFormat))
    ensures file.Some? && ImageContentType(file.value.contentType)
              && Lower(ChosenExtension(file.value)) in AllowedExtensions
              && !IsValidImage(file.value.content, ChosenExtension(file.value))
            ==> r.error == Some(BadData)
  {
    if file.None? then Validation(false, None, Some(NoFile))
    else if !ImageContentType(file.value.contentType) then Validation(false, None, Some(NotAnImage))
    else
      var extension := ChosenExtension(file.value);
      if Lower(extension) !in AllowedExtensions then Validation(false, None, Some(BadFormat))
      else if !IsValidImage(file.value.content, extension) then Validation(false, None, Some(BadData))
      else Validation(true, Some(extension), None)
  }

  /** A file with no extension and a content type outside png/jpeg/gif gets ".dat", which is refused. */
  lemma DatRefused(file: UploadedFile)
    requires ImageContentType(file.contentType)
    requires file.contentType.value !in ["image/png", "image/jpeg", "image/gif"]
    requires Extension(file.fileName).None? || Extension(file.fileName).value == []
    ensures Validate(Some(file)) == Validation(false, None, Some(BadFormat))
  {
    assert ChosenExtension(file) == ".dat";
    assert Lower(".dat") == ".dat";
  }

  /** The format a (lower-cased) allowed extension stands for. */
  function Format(lowerExtension: string): nat
  {
    if lowerExtension in [".jpg", ".jpeg"] then 0 else if lowerExtension == ".png" then 1 else 2
  }

  /** The signatures are mutually exclusive: content accepted under two extensions is accepted under the same format. */
  lemma SignaturesExclusive(content: seq<byte>, e1: string, e2: string)
    requires IsValidImage(content, e1) && IsValidImage(content, e2)
    ensures Format(Lower(e1)) == Format(Lower(e2))
  {
  }

  /** A file whose name ends in ".gif" and whose bytes are a GIF passes although its declared content type says PNG. */
  lemma NoSubtypeCrossCheck(file: UploadedFile)
    requires file.contentType == Some("image/png")
    requires Extension(file.fileName) == Some(".gif")
    requires |file.content| >= 4 && file.content[0] == 0x47 && file.content[1] == 0x49 && file.content[2] == 0x46
    ensures Validate(Some(file)) == Validation(true, Some(".gif"), None)
  {
    PngIsImage();
    GifAllowed();
    assert ChosenExtension(file) == ".gif";
    assert IsValidImage(file.content, ".gif");
  }

  lemma PngIsImage()
    ensures ImageContentType(Some("image/png"))
  {
    assert Lower("image/png")[..6] == "image/";
  }

  lemma GifAllowed()
    ensures Lower(".gif") == ".gif" && ".gif" in AllowedExtensions
  {
  }
}
