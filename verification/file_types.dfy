/**
 * The four extension lists fixed in the plugin's constructor, the upload
 * allow-list made from them, and the display type the listing reports for a
 * file.
 */
module FileTypes {
  import opened TextOps

  const Editable: seq<string> := ["php", "html", "css", "js", "txt", "json", "xml", "md", "log", "ini", "htaccess", "svg", "csv", "yml"]
  const Images: seq<string> := ["jpg", "jpeg", "png", "gif", "webp", "ico", "bmp"]
  const Pdfs: seq<string> := ["pdf"]
  const Archives: seq<string> := ["zip", "tar", "gz", "rar"]

  /** `array_merge(editable, image, pdf, archive)`, in that order. */
  const AllowedUpload: seq<string> := Editable + Images + Pdfs + Archives

  /** The rejection message of the upload handler: the allow-list joined by ", ". */
  function NotAllowedMessage(): string
  {
    "File type not allowed. Allowed types: " + Join(AllowedUpload, ", ")
  }

  datatype DisplayType = Image | Pdf | Code | Archive | Other

  /** The lower-cased extension every extension test uses. */
  function LowerExtension(name: string): string
  {
    Lower(Extension(name))
  }

  /**
   * The if/elseif chain of `get_file_display_type`: image, pdf, editable,
   * archive, other. The lists are disjoint, so each type is exactly membership
   * in its own list, whatever the order of the tests.
   */
  function Classify(ext: string): (r: DisplayType)
    ensures r == Image <==> ext in Images
    ensures r == Pdf <==> ext in Pdfs
    ensures r == Code <==> ext in Editable
    ensures r == Archive <==> ext in Archives
    ensures r == Other <==> ext !in AllowedUpload
  {
    ListsDisjoint(ext);
    if ext in Images then Image
    else if ext in Pdfs then Pdf
    else if ext in Editable then Code
    else if ext in Archives then Archive
    else Other
  }

  /**
   * `get_file_display_type(filename)`: typed exactly when the lower-cased
   * extension is on the upload allow-list, code exactly when it is editable,
   * and "other" for a name without a dot.
   */
  function DisplayTypeOf(name: string): (r: DisplayType)
    ensures r != Other <==> LowerExtension(name) in AllowedUpload
    ensures r == Code <==> LowerExtension(name) in Editable
    ensures '.' !in name ==> r == Other
  {
    assert Lower("") == "";
    Classify(LowerExtension(name))
  }

  /**
   * `in_array(strtolower(ext), allowed_upload_extensions, true)`: exactly the
   * files the listing shows with a type other than "other", and never a name
   * without a dot.
   */
  predicate UploadAllowed(name: string)
    ensures UploadAllowed(name) <==> DisplayTypeOf(name) != Other
    ensures UploadAllowed(name) ==> '.' in name
  {
    LowerExtension(name) in AllowedUpload
  }

  /** No extension is in two of the four lists. */
  lemma ListsDisjoint(ext: string)
    ensures ext in Images ==> ext !in Pdfs && ext !in Editable && ext !in Archives
    ensures ext in Pdfs ==> ext !in Editable && ext !in Archives
    ensures ext in Editable ==> ext !in Archives
  {
  }

  /** The type depends on nothing but the text after the last dot, case-insensitively. */
  lemma DisplayTypeOfDotted(stem: string, ext: string)
    requires '.' !in ext
    ensures DisplayTypeOf(stem + "." + ext) == Classify(Lower(ext))
    ensures UploadAllowed(stem + "." + ext) <==> Lower(ext) in AllowedUpload
  {
    ExtensionOfDotted(stem, ext);
  }

  /** Upper case is folded before the lists are consulted. */
  lemma UpperCaseImage()
    ensures DisplayTypeOf("A.JPG") == Image
  {
    DisplayTypeOfDotted("A", "JPG");
    assert "A" + "." + "JPG" == "A.JPG";
    assert Lower("JPG") == "jpg";
  }

  /** A leading dot still starts an extension. */
  lemma DotFileIsCode()
    ensures DisplayTypeOf(".htaccess") == Code
  {
    assert "" + "." + "htaccess" == ".htaccess";
    DisplayTypeOfDotted("", "htaccess");
    HtaccessIsCode();
  }

  lemma HtaccessIsCode()
    ensures Classify(Lower("htaccess")) == Code
  {
    LowerUnchanged("htaccess");
    assert Editable[10] == "htaccess";
  }

  /** A trailing dot leaves an empty extension. */
  lemma TrailingDotIsOther()
    ensures DisplayTypeOf("x.") == Other
  {
    DisplayTypeOfDotted("x", "");
    assert "x" + "." + "" == "x.";
    assert Lower("") == "";
  }

  /** The extension gate accepts a text file. */
  lemma UploadAcceptsText()
    ensures UploadAllowed("note.txt")
  {
    DisplayTypeOfDotted("note", "txt");
    assert "note" + "." + "txt" == "note.txt";
    LowerUnchanged("txt");
    assert "txt" in Editable;
  }

  /** The extension gate refuses an executable. */
  lemma UploadRefusesExecutable()
    ensures !UploadAllowed("malware.exe")
  {
    DisplayTypeOfDotted("malware", "exe");
    assert "malware" + "." + "exe" == "malware.exe";
    LowerUnchanged("exe");
    assert "exe" !in Editable && "exe" !in Images && "exe" !in Pdfs && "exe" !in Archives;
    assert "exe" !in AllowedUpload;
  }
}
