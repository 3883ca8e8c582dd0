/**
  The two pure string functions of the web layer: the upload filter on file
  extensions, and the name under which an encrypted upload is stored.
*/
module App {
  import opened Wrappers
  import opened Ascii

  const AllowedExtensions: set<string> := {"png", "jpg", "jpeg", "gif", "bmp", "webp", "tiff"}

  /** The text after the last '.' of the name (splitting once, from the right);
      None when the name has no '.'. */
  function Extension(filename: string): (r: Option<string>)
    ensures r.None? <==> '.' !in filename
    ensures r.Some? ==>
      && |r.value| < |filename|
      && filename[|filename| - |r.value| - 1] == '.'
      && filename[|filename| - |r.value|..] == r.value
      && '.' !in r.value
    decreases |filename|
  {
    if |filename| == 0 then None
    else
      var last := filename[|filename| - 1];
      if last == '.' then Some("")
      else
        match Extension(filename[..|filename| - 1])
        case None => None
        case Some(ext) => Some(ext + [last])
  }

  /** Position `i` holds the last '.' of the name. */
  predicate LastDotAt(filename: string, i: int)
  {
    0 <= i < |filename| && filename[i] == '.' && '.' !in filename[i + 1..]
  }

  /** The extension is the text after the one position that holds the last '.';
      a name without an extension has no such position. */
  lemma ExtensionAfterLastDot(filename: string)
    ensures Extension(filename).None? ==> forall i :: !LastDotAt(filename, i)
    ensures Extension(filename).Some? ==>
      var i := |filename| - |Extension(filename).value| - 1;
      && LastDotAt(filename, i)
      && filename[i + 1..] == Extension(filename).value
      && forall j :: LastDotAt(filename, j) ==> j == i
  {
    match Extension(filename)
    case None =>
    case Some(ext) =>
      var i := |filename| - |ext| - 1;
      assert filename[i + 1..] == ext;
      assert LastDotAt(filename, i);
      forall j | LastDotAt(filename, j)
        ensures j == i
      {
      }
  }

  /** The upload filter: it accepts a name exactly when its last '.' is followed
      by text whose lower case is an allowed extension. */
  function AllowedFile(filename: string): (r: bool)
    ensures r <==> exists i :: LastDotAt(filename, i) && Lower(filename[i + 1..]) in AllowedExtensions
  {
    ExtensionAfterLastDot(filename);
    match Extension(filename)
    case None => false
    case Some(ext) => Lower(ext) in AllowedExtensions
  }

  /** Appending "." and a dot-free extension makes that extension the one examined,
      whatever the name before it holds. */
  lemma {:induction false} ExtensionAppend(stem: string, ext: string)
    requires '.' !in ext
    ensures Extension(stem + "." + ext) == Some(ext)
    decreases |ext|
  {
    var name := stem + "." + ext;
    if |ext| > 0 {
      var init := ext[..|ext| - 1];
      assert name[..|name| - 1] == stem + "." + init;
      assert ext == init + [ext[|ext| - 1]];
      ExtensionAppend(stem, init);
    }
  }

  /** Upper-casing a name upper-cases its extension and nothing else. */
  lemma {:induction false} ExtensionOfUpper(filename: string)
    ensures Extension(Upper(filename)) ==
      if Extension(filename).Some? then Some(Upper(Extension(filename).value)) else None
    decreases |filename|
  {
    if |filename| > 0 {
      var init, last := filename[..|filename| - 1], filename[|filename| - 1];
      assert filename == init + [last];
      UpperSnoc(init, last);
      var u := Upper(filename);
      assert u[..|u| - 1] == Upper(init) && u[|u| - 1] == UpperChar(last);
      ExtensionOfUpper(init);
      if last == '.' {
        assert Upper("") == "";
      } else if Extension(init).Some? {
        UpperSnoc(Extension(init).value, last);
      }
    }
  }

  /** Extension matching ignores case: a name is accepted exactly when its upper-cased form is. */
  lemma AllowedFileIgnoresCase(filename: string)
    ensures AllowedFile(Upper(filename)) == AllowedFile(filename)
  {
    ExtensionOfUpper(filename);
    if Extension(filename).Some? {
      LowerOfUpper(Extension(filename).value);
    }
  }

  /** Whatever precedes the last '.', the name is accepted exactly when the
      lower-cased extension is one of the seven image extensions. */
  lemma AcceptedExtensions(stem: string, ext: string)
    requires '.' !in ext
    ensures AllowedFile(stem + "." + ext) <==>
      Lower(ext) in {"png", "jpg", "jpeg", "gif", "bmp", "webp", "tiff"}
  {
    ExtensionAppend(stem, ext);
  }

  /** Only the text after the last '.' is examined. */
  lemma OnlyLastExtensionCounts()
    ensures !AllowedFile("photo.png.exe")
    ensures AllowedFile("a.tar.png")
  {
    assert "photo.png.exe" == "photo.png" + "." + "exe";
    assert Lower("exe") == "exe";
    AcceptedExtensions("photo.png", "exe");
    assert "a.tar.png" == "a.tar" + "." + "png";
    assert Lower("png") == "png";
    AcceptedExtensions("a.tar", "png");
  }

  /** An upper-case extension is accepted. */
  lemma UpperCaseExtensionAllowed()
    ensures AllowedFile("X.PNG")
  {
    ExtensionAppend("X", "PNG");
    assert "X.PNG" == "X" + "." + "PNG";
    assert Lower("PNG") == "png";
  }

  /** A name ending in '.' has an empty extension and is refused, and so is a
      name without any '.'. */
  lemma MissingExtensionRefused(name: string)
    requires '.' !in name
    ensures !AllowedFile(name + ".")
    ensures !AllowedFile(name)
  {
    ExtensionAppend(name, "");
    assert name + "." == name + "." + "";
  }

  const EncryptedPrefix: string := "encrypted_"
  const EncryptedSuffix: string := ".enc"

  /** The name an encrypted upload is stored under: the prefix "encrypted_",
      the upload's name as already sanitised for the file system, then the
      suffix ".enc". */
  function EncryptedFilename(filename: string): (r: string)
    ensures |r| == |filename| + 14
    ensures r[..10] == EncryptedPrefix && r[10..|r| - 4] == filename && r[|r| - 4..] == EncryptedSuffix
  {
    EncryptedPrefix + filename + EncryptedSuffix
  }

  /** Distinct sanitised upload names are stored under distinct encrypted names, and an
      encrypted name never passes the upload filter itself. */
  lemma EncryptedFilenameFacts(a: string, b: string)
    ensures EncryptedFilename(a) == EncryptedFilename(b) ==> a == b
    ensures !AllowedFile(EncryptedFilename(a))
  {
    var r := EncryptedFilename(a);
    if r == EncryptedFilename(b) {
      assert a == r[10..|r| - 4];
    }
    assert r == (EncryptedPrefix + a) + "." + "enc";
    assert Lower("enc") == "enc";
    AcceptedExtensions(EncryptedPrefix + a, "enc");
  }
}
