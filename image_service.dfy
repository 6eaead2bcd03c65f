/** ImageService.IsUnsupportedFileType: the one file type the pipelines
    skip before downloading. HEIC conversion, WebP conversion and EXIF
    reading are not part of this model. */
module ImageService {
  import opened Paths

  /** The lower-cased extension of the name is ".docx". */
  predicate IsUnsupportedFileType(fileName: string)
  {
    ToLower(GetExtension(fileName)) == ".docx"
  }

  /** A character whose lower-case form is a letter is neither '.' nor '/'. */
  lemma LowersToLetter(c: char)
    requires 'a' <= LowerChar(c) <= 'z'
    ensures c != '.' && c != '/'
  {
  }

  lemma UnsupportedHasDocxSuffix(fileName: string)
    requires IsUnsupportedFileType(fileName)
    ensures |fileName| >= 5 && ToLower(fileName[|fileName| - 5..]) == ".docx"
  {
    var ext := GetExtension(fileName);
    var name := GetFileName(fileName);
    assert |ext| == 5;
    assert ext == name[|name| - 5..];
    assert name == fileName[|fileName| - |name|..];
    assert ext == fileName[|fileName| - 5..];
  }

  lemma DocxSuffixIsUnsupported(fileName: string)
    requires |fileName| >= 5 && ToLower(fileName[|fileName| - 5..]) == ".docx"
    ensures IsUnsupportedFileType(fileName)
  {
    var stem, suffix := fileName[..|fileName| - 5], fileName[|fileName| - 5..];
    var lower := ToLower(suffix);
    assert lower[0] == '.' && suffix[0] == '.';
    forall j | 0 < j < 5
      ensures suffix[j] != '.' && suffix[j] != '/'
    {
      assert lower[j] == LowerChar(suffix[j]);
      LowersToLetter(suffix[j]);
    }
    assert fileName == stem + suffix;
    FinalExtension(stem, suffix);
  }

  /** Exactly the names that end in ".docx", in any mix of cases, are
      skipped. */
  lemma UnsupportedMeansDocxSuffix(fileName: string)
    ensures IsUnsupportedFileType(fileName) <==>
      |fileName| >= 5 && ToLower(fileName[|fileName| - 5..]) == ".docx"
  {
    if IsUnsupportedFileType(fileName) {
      UnsupportedHasDocxSuffix(fileName);
    }
    if |fileName| >= 5 && ToLower(fileName[|fileName| - 5..]) == ".docx" {
      DocxSuffixIsUnsupported(fileName);
    }
  }

  lemma LowerCasedDocx()
    ensures ToLower(".DOCX") == ".docx" && ToLower(".Docx") == ".docx" && ToLower(".docx") == ".docx"
  {
    assert ToLower(".DOCX") == ".docx";
    assert ToLower(".Docx") == ".docx";
    assert ToLower(".docx") == ".docx";
  }

  /** The test ignores case and looks only at the final extension, so
      "a.jpg.docx", "x.DOCX" and "x.Docx" are all skipped. */
  lemma DocxInAnyCaseIsUnsupported(stem: string)
    ensures IsUnsupportedFileType(stem + ".docx")
    ensures IsUnsupportedFileType(stem + ".DOCX")
    ensures IsUnsupportedFileType(stem + ".Docx")
  {
    LowerCasedDocx();
    UnsupportedMeansDocxSuffix(stem + ".docx");
    assert (stem + ".docx")[|stem + ".docx"| - 5..] == ".docx";
    UnsupportedMeansDocxSuffix(stem + ".DOCX");
    assert (stem + ".DOCX")[|stem + ".DOCX"| - 5..] == ".DOCX";
    UnsupportedMeansDocxSuffix(stem + ".Docx");
    assert (stem + ".Docx")[|stem + ".Docx"| - 5..] == ".Docx";
  }

  /** A name whose last character is not an 'x' is never skipped: not
      "a.docx.jpg", not "U.docx/p", not "r.docx.". */
  lemma OnlyNamesEndingInXAreUnsupported(fileName: string)
    requires fileName == [] || LowerChar(fileName[|fileName| - 1]) != 'x'
    ensures !IsUnsupportedFileType(fileName)
  {
    UnsupportedMeansDocxSuffix(fileName);
    if |fileName| >= 5 {
      var lower := ToLower(fileName[|fileName| - 5..]);
      assert lower[4] == LowerChar(fileName[|fileName| - 1]);
    }
  }

  /** A name without any '.' is never skipped. */
  lemma NoExtensionIsSupported(fileName: string)
    requires '.' !in fileName
    ensures !IsUnsupportedFileType(fileName)
  {
    NoDotNoExtension(fileName);
  }
}
