/** `getFileType` of the upload page (client/src/FileUpload.js): the kind of a
    file, read from the text after the last `.` of its name, lower-cased. */
module FileUpload {

  /** `["jpg", "jpeg", "png", "gif"].includes(ext)` */
  predicate IsImageExtension(ext: string)
    ensures IsImageExtension(ext) <==> ext in ["jpg", "jpeg", "png", "gif"]
  {
    ext == "jpg" || ext == "jpeg" || ext == "png" || ext == "gif"
  }

  /** `filename.split(".").pop()`: the text after the last `.`, or the whole
      name when it has none. */
  function LastSegment(name: string): (ext: string)
    ensures '.' !in ext
    ensures |ext| <= |name| && ext == name[|name| - |ext|..]
    ensures |ext| < |name| ==> name[|name| - |ext| - 1] == '.'
  {
    if name == [] then []
    else if name[|name| - 1] == '.' then []
    else LastSegment(name[..|name| - 1]) + [name[|name| - 1]]
  }

  /** Lower-casing of one character, on the ASCII letters. */
  function LowerChar(c: char): (r: char)
    ensures 'A' <= c <= 'Z' ==> 'a' <= r <= 'z' && r as int - 'a' as int == c as int - 'A' as int
    ensures !('A' <= c <= 'Z') ==> r == c
  {
    if 'A' <= c <= 'Z' then (c as int - 'A' as int + 'a' as int) as char else c
  }

  /** `toLowerCase()` */
  function Lower(s: string): (r: string)
    ensures |r| == |s| && forall i | 0 <= i < |s| :: r[i] == LowerChar(s[i])
  {
    if s == [] then [] else Lower(s[..|s| - 1]) + [LowerChar(s[|s| - 1])]
  }

  /** The kinds `getFileType` returns, with the strings it returns for them. */
  datatype FileKind = Image | Pdf | Text | Other {
    function Label(): string {
      match this
      case Image => "image"
      case Pdf => "pdf"
      case Text => "text"
      case Other => "other"
    }
  }

  /** The kind shown for a file name. */
  function GetFileType(filename: string): (kind: FileKind)
    ensures kind == Image <==> IsImageExtension(Lower(LastSegment(filename)))
    ensures kind == Pdf <==> Lower(LastSegment(filename)) == "pdf"
    ensures kind == Text <==> Lower(LastSegment(filename)) == "txt"
    ensures filename == [] || filename[|filename| - 1] == '.' ==> kind == Other
  {
    var ext := Lower(LastSegment(filename));
    if IsImageExtension(ext) then Image
    else if ext == "pdf" then Pdf
    else if ext == "txt" then Text
    else Other
  }

  /** Whatever precedes the last `.` is ignored. */
  lemma {:induction false} LastSegmentAfterDot(prefix: string, ext: string)
    requires '.' !in ext
    ensures LastSegment(prefix + "." + ext) == ext
  {
    var name := prefix + "." + ext;
    if ext == [] {
      assert name[|name| - 1] == '.';
    } else {
      var shorter := ext[..|ext| - 1];
      assert name[..|name| - 1] == prefix + "." + shorter;
      assert name[|name| - 1] == ext[|ext| - 1];
      LastSegmentAfterDot(prefix, shorter);
      assert shorter + [ext[|ext| - 1]] == ext;
    }
  }

  /** A name without `.` is classified by the whole name. */
  lemma LastSegmentNoDot(name: string)
    requires '.' !in name
    ensures LastSegment(name) == name
  {
    var ext := LastSegment(name);
    assert forall j | 0 <= j < |name| :: name[j] != '.';
    assert |ext| == |name|;
    assert name[|name| - |ext|..] == name;
  }

  lemma OnlyLastSegmentMatters(prefix: string, ext: string)
    requires '.' !in ext
    ensures GetFileType(prefix + "." + ext) == GetFileType(ext)
  {
    LastSegmentAfterDot(prefix, ext);
    LastSegmentNoDot(ext);
  }

  lemma LowerSnoc(s: string, c: char)
    ensures Lower(s + [c]) == Lower(s) + [LowerChar(c)]
  {
    assert forall i | 0 <= i < |s| :: (s + [c])[i] == s[i];
  }

  /** Lower-casing keeps the dots where they are, so it commutes with taking
      the last segment. */
  lemma {:induction false} LowerLastSegment(name: string)
    ensures Lower(LastSegment(name)) == LastSegment(Lower(name))
  {
    if name == [] {
      assert Lower(name) == [];
    } else {
      var init, last := name[..|name| - 1], name[|name| - 1];
      assert name == init + [last];
      LowerSnoc(init, last);
      var lowered := Lower(name);
      assert lowered[..|lowered| - 1] == Lower(init);
      assert lowered[|lowered| - 1] == LowerChar(last);
      assert LowerChar(last) == '.' <==> last == '.';
      if last == '.' {
        assert LastSegment(lowered) == [];
      } else {
        LowerLastSegment(init);
        LowerSnoc(LastSegment(init), last);
        assert LastSegment(lowered) == LastSegment(Lower(init)) + [LowerChar(last)];
      }
    }
  }

  /** Classification ignores the case of the name. */
  lemma CaseInsensitive(a: string, b: string)
    requires Lower(a) == Lower(b)
    ensures GetFileType(a) == GetFileType(b)
  {
    LowerLastSegment(a);
    LowerLastSegment(b);
  }

  /** Only the last segment decides: `a.txt.png` is an image. */
  lemma ExampleLastSegment(name: string)
    requires name == "a.txt.png"
    ensures GetFileType(name) == Image
  {
    var ext := "png";
    assert name == "a.txt" + "." + ext;
    LastSegmentAfterDot("a.txt", ext);
    assert LastSegment(name) == ext;
    var low := Lower(ext);
    assert low == "png" by {
      assert |low| == 3 && low[0] == 'p' && low[1] == 'n' && low[2] == 'g';
    }
    assert IsImageExtension(low);
  }

  /** Case does not matter: `PHOTO.JPG` is an image. */
  lemma ExampleUpperCase(name: string)
    requires name == "PHOTO.JPG"
    ensures GetFileType(name) == Image
  {
    var ext := "JPG";
    assert name == "PHOTO" + "." + ext;
    LastSegmentAfterDot("PHOTO", ext);
    assert LastSegment(name) == ext;
    var low := Lower(ext);
    assert low == "jpg" by {
      assert |low| == 3 && low[0] == 'j' && low[1] == 'p' && low[2] == 'g';
    }
    assert IsImageExtension(low);
  }

  /** A name without a dot, or ending in one, is `other`. */
  lemma ExampleNoExtension(name: string)
    requires name == "notes"
    ensures GetFileType(name) == Other
    ensures GetFileType(name + ".") == Other
  {
    LastSegmentNoDot(name);
    var low := Lower(name);
    assert low == name by {
      assert forall i | 0 <= i < |name| :: low[i] == name[i];
    }
    assert !IsImageExtension(low) && low != "pdf" && low != "txt";
  }
}
