/**
 * The extension whitelist applied to an uploaded file name (`allowed_file`):
 * the text after the last '.', lower-cased, must be one of the accepted
 * image extensions.
 */
module UploadCheck {
  import opened Wrappers

  /** The accepted extensions (ALLOWED_EXTENSIONS), all in lower case. */
  const ALLOWED_EXTENSIONS: set<string> := {"png", "jpg", "jpeg", "gif"}

  /**
   * Lower-casing of one character: an upper-case letter becomes the same
   * letter in lower case, any other character is left as it is.
   */
  function LowerChar(c: char): (r: char)
    ensures 'A' <= c <= 'Z' ==> 'a' <= r <= 'z'
    ensures !('A' <= c <= 'Z') ==> r == c
    ensures 'A' <= c <= 'Z' ==> r as int - 'a' as int == c as int - 'A' as int
  {
    if 'A' <= c <= 'Z' then (c as int - 'A' as int + 'a' as int) as char else c
  }

  /**
   * `str.lower()` restricted to ASCII letters: same length, no upper-case
   * letter left, every other character where it was.
   */
  function Lower(s: string): (r: string)
    ensures |r| == |s|
    ensures forall i :: 0 <= i < |r| ==> !('A' <= r[i] <= 'Z')
    ensures forall i :: 0 <= i < |s| && !('A' <= s[i] <= 'Z') ==> r[i] == s[i]
    ensures forall i :: 0 <= i < |s| ==> r[i] == LowerChar(s[i])
  {
    seq(|s|, i requires 0 <= i < |s| => LowerChar(s[i]))
  }

  /** Lower-casing twice is lower-casing once. */
  lemma LowerIdempotent(s: string)
    ensures Lower(Lower(s)) == Lower(s)
  {
  }

  /** The position of the last `c` in `s`, or -1 when `s` has none. */
  function LastIndexOf(s: string, c: char): (r: int)
    ensures -1 <= r < |s|
    ensures r == -1 <==> c !in s
    ensures r >= 0 ==> s[r] == c
    ensures forall j :: r < j < |s| ==> s[j] != c
  {
    if s == [] then -1
    else if s[|s| - 1] == c then |s| - 1
    else LastIndexOf(s[..|s| - 1], c)
  }

  /**
   * `filename.rsplit('.', 1)[1]`: the text after the last dot, or None
   * when there is no dot (where `rsplit` returns one piece only).
   */
  function Extension(filename: string): (ext: Option<string>)
    ensures ext.None? <==> '.' !in filename
    ensures ext.Some? ==> '.' !in ext.value
    ensures ext.Some? ==>
      |ext.value| < |filename| &&
      filename == filename[..|filename| - |ext.value| - 1] + "." + ext.value
  {
    var k := LastIndexOf(filename, '.');
    if k < 0 then None else Some(filename[k + 1..])
  }

  /** `allowed_file`: a dot is present and the lower-cased last extension is accepted. */
  function AllowedFile(filename: string): (ok: bool)
    ensures '.' !in filename ==> !ok
  {
    match Extension(filename)
    case None => false
    case Some(ext) => Lower(ext) in ALLOWED_EXTENSIONS
  }

  /** Whatever precedes the last dot, the extension is exactly the dot-free text after it. */
  lemma ExtensionOfJoin(stem: string, ext: string)
    requires '.' !in ext
    ensures Extension(stem + "." + ext) == Some(ext)
  {
    var f := stem + "." + ext;
    assert f[|stem|] == '.';
    assert forall j :: |stem| < j < |f| ==> f[j] == ext[j - |stem| - 1];
    var k := LastIndexOf(f, '.');
    assert k == |stem|;
    assert f[k + 1..] == ext;
  }

  /**
   * Every file name with a dot is `stem + "." + ext` with a dot-free `ext`
   * (see Extension); such a name is accepted exactly when the lower-cased
   * `ext` is an accepted extension, whatever the stem holds.
   */
  lemma AllowedFileIff(stem: string, ext: string)
    requires '.' !in ext
    ensures AllowedFile(stem + "." + ext) <==> Lower(ext) in ALLOWED_EXTENSIONS
  {
    ExtensionOfJoin(stem, ext);
  }

  /** Lower-casing never creates or removes a dot, so the last dot stays where it was. */
  lemma LastDotUnderLower(s: string)
    ensures LastIndexOf(Lower(s), '.') == LastIndexOf(s, '.')
  {
  }

  /** The check ignores case: a name and its lower-cased form are judged alike. */
  lemma AllowedFileIgnoresCase(filename: string)
    ensures AllowedFile(Lower(filename)) == AllowedFile(filename)
  {
    LastDotUnderLower(filename);
    var k := LastIndexOf(filename, '.');
    if k >= 0 {
      var ext := filename[k + 1..];
      assert Lower(filename)[k + 1..] == Lower(ext);
      LowerIdempotent(ext);
    }
  }

  /** A double extension is judged by its last part, whatever its case. */
  lemma AcceptsLastExtensionAnyCase()
    ensures AllowedFile("a.tar.JPG")
  {
    assert "a.tar" + "." + "JPG" == "a.tar.JPG";
    AllowedFileIff("a.tar", "JPG");
    assert Lower("JPG") == "jpg";
  }

  /** An accepted extension followed by another one does not make a name acceptable. */
  lemma RejectsInnerExtension()
    ensures !AllowedFile("x.jpg.txt")
  {
  }

  /** A trailing dot leaves an empty extension, which is refused. */
  lemma RejectsEmptyExtension()
    ensures !AllowedFile("photo.")
  {
  }
}
