/**
 * Upload validation and file naming (backend/app/utils/file_handler.py): the extension
 * check and the two file-name formats. The file system, `uuid4` and werkzeug's
 * `secure_filename` stay outside; the identifier and the sanitiser are parameters.
 */
module FileHandler {
  import opened Strings
  import opened TableModel

  /** `ALLOWED_EXTENSIONS` of the configuration. */
  const AllowedExtensions: set<string> := {"xlsx", "xls"}

  /** `filename.rsplit('.', 1)[1]`: the text after the last '.'. */
  function Extension(filename: string): (ext: string)
    requires '.' in filename
    ensures |ext| < |filename| && '.' !in ext
    ensures filename[|filename| - |ext| - 1] == '.' && filename[|filename| - |ext|..] == ext
  {
    var last := filename[|filename| - 1];
    if last == '.' then ""
    else
      var init := filename[..|filename| - 1];
      assert '.' in init by {
        var i :| 0 <= i < |filename| && filename[i] == '.';
        assert init[i] == '.';
      }
      var ext := Extension(init) + [last];
      assert filename[|filename| - |ext|..] == init[|init| - |ext| + 1..] + [last];
      ext
  }

  /** The extension of `stem + "." + ext` is `ext` whenever `ext` has no '.' of its own. */
  lemma ExtensionOf(stem: string, ext: string)
    requires '.' !in ext
    ensures '.' in stem + "." + ext
    ensures Extension(stem + "." + ext) == ext
  {
    var name := stem + "." + ext;
    assert name[|stem|] == '.';
    assert name[|name| - |ext|..] == ext;
  }

  /** `allowed_file`: the name has a '.', and the text after the last one, lowercased, is an allowed extension. */
  predicate AllowedFile(filename: string, allowed: set<string>)
  {
    '.' in filename && Lower(Extension(filename)) in allowed
  }

  /**
   * A name made of a stem, a '.' and a dot-free extension is allowed exactly when the
   * lowercased extension is: only the last extension counts, and the stem may be empty.
   */
  lemma AllowedFileOf(stem: string, ext: string, allowed: set<string>)
    requires '.' !in ext
    ensures AllowedFile(stem + "." + ext, allowed) <==> Lower(ext) in allowed
  {
    ExtensionOf(stem, ext);
  }

  /** Lowercasing "xlsx" or "XLSX" gives "xlsx". */
  lemma LowerXlsx()
    ensures Lower("xlsx") == "xlsx" && Lower("XLSX") == "xlsx"
  {
    var lower, upper := Lower("xlsx"), Lower("XLSX");
    assert lower[0] == 'x' && lower[1] == 'l' && lower[2] == 's' && lower[3] == 'x';
    assert upper[0] == 'x' && upper[1] == 'l' && upper[2] == 's' && upper[3] == 'x';
  }

  /** Only the last extension counts: "a.txt.xlsx" is accepted with the configured extensions. */
  lemma LastExtensionAccepted()
    ensures AllowedFile("a.txt" + "." + "xlsx", AllowedExtensions)
  {
    LowerXlsx();
    AllowedFileOf("a.txt", "xlsx", AllowedExtensions);
  }

  /** Only the last extension counts: "a.xlsx.txt" is refused with the configured extensions. */
  lemma InnerExtensionRefused()
    ensures !AllowedFile("a.xlsx" + "." + "txt", AllowedExtensions)
  {
    AllowedFileOf("a.xlsx", "txt", AllowedExtensions);
    assert Lower("txt")[0] == 't';
  }

  /** The extension is lowercased before the test: "REPORT.XLSX" is accepted. */
  lemma UpperCaseAccepted()
    ensures AllowedFile("REPORT" + "." + "XLSX", AllowedExtensions)
  {
    LowerXlsx();
    AllowedFileOf("REPORT", "XLSX", AllowedExtensions);
  }

  /** A bare ".xlsx" is accepted: its stem is empty. */
  lemma EmptyStemAccepted()
    ensures AllowedFile("" + "." + "xlsx", AllowedExtensions)
  {
    LowerXlsx();
    AllowedFileOf("", "xlsx", AllowedExtensions);
  }

  /** `get_output_path`'s file name: `{file_id}_{suffix}.{extension}`. */
  function OutputFileName(fileId: string, suffix: string, extension: string): string
  {
    fileId + "_" + suffix + "." + extension
  }

  /**
   * An output name starts with the identifier and an underscore, and, for a dot-free
   * extension, ends with that extension, so it passes the upload check exactly when the
   * extension does.
   */
  lemma OutputFileNameShape(fileId: string, suffix: string, extension: string, allowed: set<string>)
    requires '.' !in extension
    ensures StartsWith(OutputFileName(fileId, suffix, extension), fileId + "_")
    ensures Extension(OutputFileName(fileId, suffix, extension)) == extension
    ensures AllowedFile(OutputFileName(fileId, suffix, extension), allowed) <==> Lower(extension) in allowed
  {
    var name := OutputFileName(fileId, suffix, extension);
    assert name == (fileId + "_" + suffix) + "." + extension;
    assert name[..|fileId + "_"|] == fileId + "_";
    ExtensionOf(fileId + "_" + suffix, extension);
  }

  /** `save_uploaded_file`'s stored name: `{file_id}_{filename}`. */
  function UploadName(fileId: string, filename: string): string
  {
    fileId + "_" + filename
  }

  /**
   * `save_uploaded_file` without the disk: refuses a name the extension check refuses, and
   * otherwise names the stored file after the identifier and the sanitised name.
   */
  function SaveUploadedFile(filename: string, fileId: string, secure: string -> string, allowed: set<string>): (stored: Option<string>)
    ensures stored.None? <==> !AllowedFile(filename, allowed)
    ensures stored.Some? ==> StartsWith(stored.value, fileId + "_") && EndsWith(stored.value, secure(filename))
  {
    if !AllowedFile(filename, allowed) then None
    else
      var name := UploadName(fileId, secure(filename));
      assert name[..|fileId + "_"|] == fileId + "_";
      assert name[|name| - |secure(filename)|..] == secure(filename);
      Some(name)
  }

  /** Prefixing the identifier keeps the extension, so a sanitised name that passes the check still passes it once stored. */
  lemma UploadNameKeepsExtension(fileId: string, filename: string, allowed: set<string>)
    requires '.' in filename
    ensures '.' in UploadName(fileId, filename)
    ensures Extension(UploadName(fileId, filename)) == Extension(filename)
    ensures AllowedFile(UploadName(fileId, filename), allowed) <==> AllowedFile(filename, allowed)
  {
    var ext := Extension(filename);
    var stem := filename[..|filename| - |ext| - 1];
    assert filename == stem + "." + ext;
    assert UploadName(fileId, filename) == (fileId + "_" + stem) + "." + ext;
    ExtensionOf(fileId + "_" + stem, ext);
  }
}
