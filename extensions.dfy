/** Classification of a file by the extension taken from its name (photo_sorter.py:23-24, 97-100). */
module Extensions {
  import opened Text

  /** Camera raw formats, sorted under the raw base. */
  const RawExts: set<string> := {"cr2", "cr3", "nef", "arw", "dng", "raf", "rw2"}

  /** Ordinary image and video formats, sorted under the regular base. */
  const RegularExts: set<string> := {"jpg", "jpeg", "png", "heic", "mov", "mp4", "gif", "avi", "mpg", "mpeg"}

  /**
   * `file.lower().split('.')[-1]`: the lower-cased text after the last dot of the
   * name, or the whole lower-cased name when it has no dot.
   */
  function Extension(name: string): (ext: string)
    ensures '.' !in ext
    ensures var low := Lower(name); ext == low[LastIndex(low, '.') + 1..]
    ensures '.' !in name ==> ext == Lower(name)
  {
    var pieces := Split(Lower(name), '.');
    LastPieceOfSplit(Lower(name), '.');
    pieces[|pieces| - 1]
  }

  /**
   * Whether the script handles the file at all (`ext in RAW_EXTS | REGULAR_EXTS`). Every
   * handled extension is a non-empty lower-case word without a dot, so it is the extension
   * of some file name.
   */
  predicate IsMedia(ext: string)
    ensures IsMedia(ext) ==> ext != [] && '.' !in ext && Lower(ext) == ext
  {
    ext in RawExts + RegularExts
  }

  /** The two allow-sets share no extension, so a media file is either raw or regular. */
  lemma ExtensionSetsDisjoint(ext: string)
    ensures !(ext in RawExts && ext in RegularExts)
  {
  }

  /** The case of the name does not matter: a name and its lower-cased form have one extension. */
  lemma ExtensionOfLower(name: string)
    ensures Extension(Lower(name)) == Extension(name)
  {
    LowerIdempotent(name);
  }

  /** Whatever the stem holds, the extension of `stem.ext` is `ext` lower-cased when `ext` has no dot. */
  lemma ExtensionOfSuffix(stem: string, ext: string)
    requires '.' !in ext
    ensures Extension(stem + "." + ext) == Lower(ext)
  {
    LowerAppend(stem + ".", ext);
    LowerAppend(stem, ".");
    assert Lower(".") == ".";
    LowerKeepsAbsent(ext, '.');
    LastIndexBefore(Lower(stem), '.', Lower(ext));
  }

  /** The extension is found regardless of case: `IMG_0001.JPG` is a `jpg`. */
  lemma ExtensionIgnoresCase()
    ensures Extension("IMG_0001.JPG") == "jpg" && IsMedia("jpg")
  {
    ExtensionOfSuffix("IMG_0001", "JPG");
    assert "IMG_0001" + "." + "JPG" == "IMG_0001.JPG";
    LowerOfJPG();
  }

  lemma LowerOfJPG()
    ensures Lower("JPG") == "jpg"
  {
    var l := Lower("JPG");
    assert l[0] == 'j' && l[1] == 'p' && l[2] == 'g';
  }

  /** Only the last dot counts: `archive.tar.gz` has extension `gz`, which is not media. */
  lemma ExtensionAfterLastDot()
    ensures Extension("archive.tar.gz") == "gz" && !IsMedia("gz")
  {
    ExtensionOfSuffix("archive.tar", "gz");
    assert "archive.tar" + "." + "gz" == "archive.tar.gz";
    LowerOfLowerCase("gz");
  }

  /** A name that is only a dotted suffix, such as `.jpg`, is still classified by it. */
  lemma ExtensionOfDotName()
    ensures Extension(".jpg") == "jpg" && IsMedia("jpg")
  {
    ExtensionOfSuffix("", "jpg");
    assert "" + "." + "jpg" == ".jpg";
    LowerOfLowerCase("jpg");
  }
}
