/**
 * Upload intake of app.py: the extension check `allowed_file`, the
 * validate-then-store decision of `upload_file` and the read-back of
 * `uploaded_file`, over an upload folder modelled as a map from file name
 * to file contents.
 */
module UploadIntake {
  import opened Wrappers
  import opened Text

  newtype byte = x: int | 0 <= x < 256

  /** The upload folder: file name to stored bytes. */
  type Folder = map<string, seq<byte>>

  /** ALLOWED_EXTENSIONS (app.py line 6). */
  const AllowedExtensions: set<string> := {"mp4", "mov", "avi", "mkv"}

  /**
   * allowed_file: the name holds a '.', and the text after its LAST '.',
   * lowercased, is an allowed extension.
   */
  predicate AllowedFile(filename: string)
    ensures AllowedFile(filename) ==> 4 <= |filename| && filename[|filename| - 4] == '.'
    ensures AllowedFile(filename) ==> Lower(filename[|filename| - 3..]) in AllowedExtensions
  {
    '.' in filename && Lower(RSplitDot(filename)[1]) in AllowedExtensions
  }

  /** A name without a '.', the empty name among them, is never allowed. */
  lemma NoDotRejected(filename: string)
    requires '.' !in filename
    ensures !AllowedFile(filename)
  {
  }

  /**
   * The extension checked is exactly the suffix after the last '.': for any
   * `before` (possibly empty, possibly holding dots) and any dot-free `after`,
   * `before + "." + after` is allowed exactly when `after` lowercased is in
   * the allow-list.
   */
  lemma AllowedFileBySuffix(before: string, after: string)
    requires '.' !in after
    ensures AllowedFile(before + "." + after) <==> Lower(after) in AllowedExtensions
  {
    RSplitDotUnique(before, after);
    assert (before + "." + after)[|before|] == '.';
  }

  /** Lowercasing the whole name never changes the verdict. */
  lemma AllowedFileOfLower(filename: string)
    ensures AllowedFile(Lower(filename)) == AllowedFile(filename)
  {
    LowerKeepsNonLetter(filename, '.');
    if '.' in filename {
      RSplitDotLower(filename);
      LowerIdempotent(RSplitDot(filename)[1]);
    }
  }

  /** Two names that agree up to ASCII case get the same verdict. */
  lemma AllowedFileIgnoresCase(f: string, g: string)
    requires Lower(f) == Lower(g)
    ensures AllowedFile(f) == AllowedFile(g)
  {
    AllowedFileOfLower(f);
    AllowedFileOfLower(g);
  }

  /** What upload_file answers. */
  datatype UploadResult =
    | Uploaded(filename: string)  // saved; the client may fetch it back under this name
    | InvalidFileType             // "Invalid file type. Please upload a video file."

  /**
   * The decision of upload_file: `filename == ''` or a disallowed name is
   * refused. The empty-name test adds nothing to allowed_file.
   */
  predicate Accepts(filename: string)
    ensures Accepts(filename) == AllowedFile(filename)
  {
    filename != [] && AllowedFile(filename)
  }

  /**
   * The upload folder after one upload: a refused name leaves it as it was;
   * an accepted name creates or overwrites exactly the entry under that
   * literal name.
   */
  function AfterUpload(files: Folder, filename: string, content: seq<byte>): (after: Folder)
    ensures !Accepts(filename) ==> after == files
    ensures Accepts(filename) ==> after.Keys == files.Keys + {filename} && after[filename] == content
    ensures forall name :: name in files && name != filename ==> name in after && after[name] == files[name]
  {
    if !Accepts(filename) then files else files[filename := content]
  }

  /** uploaded_file: the stored bytes, or None for "not found". */
  function Retrieve(files: Folder, filename: string): (r: Option<seq<byte>>)
    ensures r.Some? <==> filename in files
    ensures r.Some? ==> r.value == files[filename]
  {
    if filename in files then Some(files[filename]) else None
  }

  /** Every stored name passed the extension check. */
  ghost predicate OnlyAllowed(files: Folder) {
    forall name :: name in files ==> AllowedFile(name)
  }

  /** Uploads keep the folder free of disallowed names. */
  lemma AfterUploadOnlyAllowed(files: Folder, filename: string, content: seq<byte>)
    requires OnlyAllowed(files)
    ensures OnlyAllowed(AfterUpload(files, filename, content))
  {
  }

  /** Round trip: an accepted upload reads back byte for byte. */
  lemma RetrieveAfterUpload(files: Folder, filename: string, content: seq<byte>)
    requires AllowedFile(filename)
    ensures Retrieve(AfterUpload(files, filename, content), filename) == Some(content)
  {
  }

  /** A refused upload leaves every name's answer as it was. */
  lemma RetrieveAfterRefusedUpload(files: Folder, filename: string, content: seq<byte>, other: string)
    requires !AllowedFile(filename)
    ensures Retrieve(AfterUpload(files, filename, content), other) == Retrieve(files, other)
  {
  }

  /** An upload changes the answer for no other name. */
  lemma RetrieveOtherAfterUpload(files: Folder, filename: string, content: seq<byte>, other: string)
    requires other != filename
    ensures Retrieve(AfterUpload(files, filename, content), other) == Retrieve(files, other)
  {
  }

  /** A repeated name overwrites: the later upload alone decides the folder. */
  lemma UploadOverwrites(files: Folder, filename: string, first: seq<byte>, second: seq<byte>)
    ensures AfterUpload(AfterUpload(files, filename, first), filename, second)
         == AfterUpload(files, filename, second)
  {
  }

  /** The upload folder of the running app (UPLOAD_FOLDER), created empty. */
  class UploadFolder {
    var files: Folder

    ghost predicate Valid()
      reads this
    {
      OnlyAllowed(files)
    }

    constructor ()
      ensures Valid() && files == map[]
    {
      files := map[];
    }

    /** upload_file: validate the client's file name, then save under it. */
    method UploadFile(filename: string, content: seq<byte>) returns (r: UploadResult)
      modifies this
      ensures r == if Accepts(filename) then Uploaded(filename) else InvalidFileType
      ensures files == AfterUpload(old(files), filename, content)
      ensures old(Valid()) ==> Valid()
    {
      if filename == [] || !AllowedFile(filename) {
        return InvalidFileType;
      }
      files := files[filename := content];
      r := Uploaded(filename);
    }

    /** uploaded_file: send back the stored bytes, or report them not found. */
    method UploadedFile(filename: string) returns (r: Option<seq<byte>>)
      ensures r == Retrieve(files, filename)
    {
      if filename in files {
        r := Some(files[filename]);
      } else {
        r := None;
      }
    }
  }

  /**
   * A client of the folder: uploads a video, reads it back, has a document
   * refused, looks the document up, re-uploads the video with other bytes
   * and reads it back again.
   */
  method UploadAndPlay(video: string, document: string, content: seq<byte>, other: seq<byte>)
    returns (first: Option<seq<byte>>, missing: Option<seq<byte>>, last: Option<seq<byte>>)
    requires AllowedFile(video) && !AllowedFile(document)
    ensures first == Some(content)
    ensures missing == None
    ensures last == Some(other)
  {
    var folder := new UploadFolder();
    var r := folder.UploadFile(video, content);
    assert r == Uploaded(video);
    first := folder.UploadedFile(video);
    r := folder.UploadFile(document, other);
    assert r == InvalidFileType;
    missing := folder.UploadedFile(document);
    r := folder.UploadFile(video, other);
    last := folder.UploadedFile(video);
    assert folder.Valid();
  }
}
