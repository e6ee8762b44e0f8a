/**
 * Upload checks for document files: `DocumentFileSerializer.validate_file`
 * (extension whitelist, compared case-insensitively, then a 10 MiB size
 * bound) and the storage path builder `document_file_path`.
 */
module Uploads {
  import opened Wrappers

  /** Index of the last occurrence of c in s, or -1 (Python's `str.rfind`). */
  function LastIndexOf(s: string, c: char): (r: int)
    ensures -1 <= r < |s|
    ensures r >= 0 ==> s[r] == c
    ensures forall j :: r < j < |s| ==> s[j] != c
    decreases |s|
  {
    if |s| == 0 then -1
    else if s[|s| - 1] == c then |s| - 1
    else LastIndexOf(s[..|s| - 1], c)
  }

  /**
   * The final path component holds a '.' somewhere after a character that is
   * not a '.'.
   */
  ghost predicate HasExtension(p: string) {
    exists i, j :: 0 <= i < j < |p| && p[i] != '.' && p[j] == '.' && forall k :: i <= k < |p| ==> p[k] != '/'
  }

  /**
   * `os.path.splitext` on a POSIX path: the extension runs from the last '.'
   * of the final component, unless every character of that component before
   * the dot is itself a dot (".bashrc", "..pdf" have no extension).
   */
  function Splitext(p: string): (parts: (string, string))
    ensures parts.0 + parts.1 == p
    ensures parts.1 == [] || (parts.1[0] == '.' && forall i :: 1 <= i < |parts.1| ==> parts.1[i] != '.' && parts.1[i] != '/')
    ensures parts.1 != [] <==> HasExtension(p)
    ensures parts.1 != [] ==> |parts.0| == LastIndexOf(p, '.')
  {
    var sep := LastIndexOf(p, '/');
    var dot := LastIndexOf(p, '.');
    if dot > sep && exists i :: sep + 1 <= i < dot && p[i] != '.' then
      assert p[..dot] + p[dot..] == p;
      assert HasExtension(p) by {
        var i :| sep + 1 <= i < dot && p[i] != '.';
        assert forall k :: i <= k < |p| ==> p[k] != '/';
      }
      (p[..dot], p[dot..])
    else
      (p, [])
  }

  function LowerChar(c: char): (d: char)
    ensures ('A' <= c <= 'Z') ==> d == (c as int + 32) as char
    ensures !('A' <= c <= 'Z') ==> d == c
  {
    if 'A' <= c <= 'Z' then (c as int + 32) as char else c
  }

  /** `str.lower()` restricted to ASCII letters. */
  function Lower(s: string): (r: string)
    ensures |r| == |s|
    ensures forall i :: 0 <= i < |s| ==> r[i] == LowerChar(s[i])
  {
    seq(|s|, i requires 0 <= i < |s| => LowerChar(s[i]))
  }

  const AllowedExtensions: seq<string> := [".pdf", ".doc", ".docx", ".jpg", ".jpeg", ".png", ".xls", ".xlsx"]

  /** 10 * 1024 * 1024 bytes. */
  const MaxFileSize: nat := 10 * 1024 * 1024

  function Extension(name: string): string {
    Lower(Splitext(name).1)
  }

  datatype UploadError = BadExtension(ext: string) | TooLarge(size: nat)

  /** An uploaded file as the serializer sees it: client-side name, size in bytes, declared content type. */
  datatype Upload = Upload(name: string, size: nat, contentType: string)

  /**
   * The extension is checked first, so a file that fails both checks is
   * reported for its extension; an accepted file is returned as it came in.
   */
  function ValidateFile(f: Upload): (r: Result<Upload, UploadError>)
    ensures r.Ok? <==> Extension(f.name) in AllowedExtensions && f.size <= MaxFileSize
    ensures r.Ok? ==> r.value == f
    ensures Extension(f.name) !in AllowedExtensions ==> r == Err(BadExtension(Extension(f.name)))
    ensures Extension(f.name) in AllowedExtensions && f.size > MaxFileSize ==> r == Err(TooLarge(f.size))
  {
    var ext := Extension(f.name);
    if ext !in AllowedExtensions then Err(BadExtension(ext))
    else if f.size > MaxFileSize then Err(TooLarge(f.size))
    else Ok(f)
  }

  lemma SizeBoundary(name: string)
    requires Extension(name) in AllowedExtensions
    ensures ValidateFile(Upload(name, 10485760, "")).Ok?
    ensures ValidateFile(Upload(name, 10485761, "")) == Err(TooLarge(10485761))
  {
  }

  /** The declared content type plays no part: an ".xlsx" sent as "text/plain" is accepted. */
  lemma ContentTypeIgnored(f: Upload, contentType: string)
    ensures ValidateFile(f.(contentType := contentType)).Ok? == ValidateFile(f).Ok?
  {
  }

  /**
   * A file name with no directory part, a stem that is not all dots, and
   * one final dotted suffix splits into exactly that stem and suffix.
   */
  lemma SplitextOfName(stem: string, ext: string)
    requires |ext| >= 1 && ext[0] == '.'
    requires forall i :: 1 <= i < |ext| ==> ext[i] != '.' && ext[i] != '/'
    requires forall i :: 0 <= i < |stem| ==> stem[i] != '/'
    requires exists i :: 0 <= i < |stem| && stem[i] != '.'
    ensures Splitext(stem + ext) == (stem, ext)
  {
    var p := stem + ext;
    var dot := LastIndexOf(p, '.');
    var sep := LastIndexOf(p, '/');
    assert p[|stem|] == '.';
    assert dot == |stem|;
    assert sep == -1;
    var i :| 0 <= i < |stem| && stem[i] != '.';
    assert p[i] == stem[i];
    assert p[..dot] == stem;
    assert p[dot..] == ext;
  }

  /**
   * A name that is only dots and an extension, such as ".pdf" or "..pdf", has
   * no extension at all, so it is refused whatever its size.
   */
  lemma DotFileRejected(size: nat, contentType: string)
    ensures ValidateFile(Upload(".pdf", size, contentType)) == Err(BadExtension(""))
    ensures ValidateFile(Upload("..pdf", size, contentType)) == Err(BadExtension(""))
  {
    assert !HasExtension(".pdf");
    assert !HasExtension("..pdf");
  }

  lemma SpreadsheetAccepted()
    ensures ValidateFile(Upload("testfile.xlsx", 17, "text/plain")).Ok?
  {
    assert "testfile.xlsx" == "testfile" + ".xlsx";
    assert "testfile"[0] != '.';
    SplitextOfName("testfile", ".xlsx");
    assert Lower(".xlsx") == ".xlsx";
    assert AllowedExtensions[7] == ".xlsx";
  }

  /** Lowering leaves dots and slashes where they were. */
  lemma {:induction false} LastIndexOfLower(s: string, c: char)
    requires c == '.' || c == '/'
    ensures LastIndexOf(Lower(s), c) == LastIndexOf(s, c)
    decreases |s|
  {
    if |s| > 0 && s[|s| - 1] != c {
      assert Lower(s)[..|s| - 1] == Lower(s[..|s| - 1]);
      LastIndexOfLower(s[..|s| - 1], c);
    }
  }

  /** Lowering neither creates nor removes an extension. */
  lemma HasExtensionLower(p: string)
    ensures HasExtension(Lower(p)) <==> HasExtension(p)
  {
    var lp := Lower(p);
    if HasExtension(p) {
      var i, j :| 0 <= i < j < |p| && p[i] != '.' && p[j] == '.' && forall k :: i <= k < |p| ==> p[k] != '/';
      assert lp[i] != '.' && lp[j] == '.';
    }
    if HasExtension(lp) {
      var i, j :| 0 <= i < j < |lp| && lp[i] != '.' && lp[j] == '.' && forall k :: i <= k < |lp| ==> lp[k] != '/';
      assert p[i] != '.' && p[j] == '.';
    }
  }

  /** Splitting commutes with lowering. */
  lemma SplitextLower(p: string)
    ensures Splitext(Lower(p)).1 == Lower(Splitext(p).1)
  {
    var lp := Lower(p);
    HasExtensionLower(p);
    if HasExtension(p) {
      LastIndexOfLower(p, '.');
      var dot := LastIndexOf(p, '.');
      assert Splitext(lp).1 == lp[dot..];
      assert Splitext(p).1 == p[dot..];
      assert Lower(p[dot..]) == lp[dot..];
    }
  }

  /** The verdict does not depend on letter case. */
  lemma ValidateFileCaseInsensitive(a: Upload, b: Upload)
    requires Lower(a.name) == Lower(b.name) && a.size == b.size
    ensures ValidateFile(a).Ok? <==> ValidateFile(b).Ok?
    ensures Extension(a.name) == Extension(b.name)
  {
    SplitextLower(a.name);
    SplitextLower(b.name);
    LowerIdempotent(Splitext(a.name).1);
    LowerIdempotent(Splitext(b.name).1);
  }

  lemma LowerIdempotent(s: string)
    ensures Lower(Lower(s)) == Lower(s)
  {
  }

  /** Text of a UUID as `str(uuid)` renders it: 36 lower-case hex digits and hyphens. */
  predicate IsUuidText(s: string) {
    |s| == 36 && forall i :: 0 <= i < |s| ==> ('0' <= s[i] <= '9' || 'a' <= s[i] <= 'f' || s[i] == '-')
  }

  /** `document_file_path`: the file goes under its document's id, or under "temp" while it has none. */
  function DocumentFilePath(documentId: Option<string>, filename: string): (path: string)
    ensures "documents/" <= path
    ensures |filename| <= |path| && path[|path| - |filename|..] == filename
  {
    match documentId
    case Some(id) => "documents/" + id + "/" + filename
    case None => "documents/temp/" + filename
  }

  /** Index of the first occurrence of c in s, or |s|. */
  function IndexOf(s: string, c: char): (r: nat)
    ensures r <= |s|
    ensures r < |s| ==> s[r] == c
    ensures forall j :: 0 <= j < r ==> s[j] != c
  {
    if |s| == 0 then 0 else if s[0] == c then 0 else 1 + IndexOf(s[1..], c)
  }

  /** Reads a storage path back into the document it belongs to and the uploaded name. */
  function ParseFilePath(path: string): Option<(Option<string>, string)> {
    if |path| < 10 || path[..10] != "documents/" then None
    else
      var rest := path[10..];
      var k := IndexOf(rest, '/');
      if k == |rest| then None
      else if rest[..k] == "temp" then Some((None, rest[k + 1..]))
      else Some((Some(rest[..k]), rest[k + 1..]))
  }

  /** The path determines both the document and the file name. */
  lemma ParseDocumentFilePath(documentId: Option<string>, filename: string)
    requires documentId.Some? ==> IsUuidText(documentId.value)
    ensures ParseFilePath(DocumentFilePath(documentId, filename)) == Some((documentId, filename))
  {
    var path := DocumentFilePath(documentId, filename);
    var rest := path[10..];
    match documentId {
      case Some(id) =>
        assert rest == id + "/" + filename;
        assert forall j :: 0 <= j < |id| ==> rest[j] == id[j] && rest[j] != '/';
        assert rest[36] == '/';
        assert IndexOf(rest, '/') == 36;
        assert rest[..36] == id;
        assert rest[37..] == filename;
      case None =>
        assert rest == "temp/" + filename;
        assert rest[4] == '/';
        assert IndexOf(rest, '/') == 4;
        assert rest[5..] == filename;
    }
  }
}
