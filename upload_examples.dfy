/** The edge cases of the extension rule of app.py, on concrete file names. */
module UploadExamples {
  import opened Text
  import opened UploadIntake

  lemma NoDotIn(s: string)
    requires forall i :: 0 <= i < |s| ==> s[i] != '.'
    ensures '.' !in s
  {
  }

  /** A name may be nothing but a dot and an allowed extension. */
  lemma DotOnlyNameAllowed()
    ensures AllowedFile(".mp4") && AllowedFile(".mkv")
  {
    NoDotIn("mp4");
    RSplitDotUnique("", "mp4");
    assert "" + "." + "mp4" == ".mp4";
    assert Lower("mp4") == "mp4";
    NoDotIn("mkv");
    RSplitDotUnique("", "mkv");
    assert "" + "." + "mkv" == ".mkv";
    assert Lower("mkv") == "mkv";
  }

  /** Only the text after the last dot is the extension, whatever its case. */
  lemma LastDotDecidesAllowed()
    ensures AllowedFile("a.tar.MP4")
  {
    NoDotIn("MP4");
    RSplitDotUnique("a.tar", "MP4");
    assert "a.tar" + "." + "MP4" == "a.tar.MP4";
    assert "a.tar.MP4"[1] == '.';
    assert Lower("MP4") == "mp4";
  }

  /** An allowed extension before the last dot does not help. */
  lemma LastDotDecidesRefused()
    ensures !AllowedFile("a.mp4.txt")
  {
    NoDotIn("txt");
    RSplitDotUnique("a.mp4", "txt");
    assert "a.mp4" + "." + "txt" == "a.mp4.txt";
    assert Lower("txt") == "txt";
  }

  /** An empty extension and a wrong extension are refused. */
  lemma BadExtensionsRefused()
    ensures !AllowedFile("video.") && !AllowedFile("clip.txt")
  {
    RSplitDotUnique("video", "");
    assert "video" + "." + "" == "video.";
    NoDotIn("txt");
    RSplitDotUnique("clip", "txt");
    assert "clip" + "." + "txt" == "clip.txt";
    assert Lower("txt") == "txt";
  }

  /** A name without a dot, the empty one included, is refused. */
  lemma DotlessNamesRefused()
    ensures !AllowedFile("noext") && !AllowedFile("")
  {
    NoDotIn("noext");
  }

  /** An extension in capitals is allowed. */
  lemma UpperCaseExtensionAllowed()
    ensures AllowedFile("clip.MP4")
  {
    NoDotIn("MP4");
    RSplitDotUnique("clip", "MP4");
    assert "clip" + "." + "MP4" == "clip.MP4";
    assert "clip.MP4"[4] == '.';
    assert Lower("MP4") == "mp4";
  }

  /** The same name with the extension in either case gets the same answer. */
  lemma BothCasesSameAnswer()
    ensures AllowedFile("clip.mp4") == AllowedFile("clip.MP4")
  {
    assert Lower("clip.mp4") == Lower("clip.MP4") by {
      assert Lower("clip.mp4") == "clip.mp4";
      assert Lower("clip.MP4") == "clip.mp4";
    }
    AllowedFileIgnoresCase("clip.mp4", "clip.MP4");
  }
}
