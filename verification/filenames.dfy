/**
 * Filename handling of the image server: the extension whitelist check
 * (`allowed_file`) and the two string operations it and the upload path
 * rely on, Python's `str.rfind` / `str.rsplit(sep, 1)` and POSIX
 * `os.path.basename`.
 */
module FileNames {

  /** The fixed whitelist of image suffixes, compared after lowercasing. */
  const AllowedExtensions: set<string> := {"png", "jpg", "jpeg", "gif", "bmp"}

  /**
   * Python's `s.rfind(c)`: the index of the last occurrence of `c` in `s`,
   * or -1 when `c` does not occur.
   */
  function RFind(s: string, c: char): (r: int)
    ensures -1 <= r < |s|
    ensures r >= 0 ==> s[r] == c
    ensures forall j :: r < j < |s| ==> s[j] != c
    ensures r == -1 <==> c !in s
  {
    if s == [] then -1
    else if s[|s| - 1] == c then |s| - 1
    else RFind(s[..|s| - 1], c)
  }

  /** An occurrence of `c` with no later occurrence is the one `RFind` finds. */
  lemma RFindIsLast(s: string, c: char, i: int)
    requires 0 <= i < |s| && s[i] == c
    requires forall j :: i < j < |s| ==> s[j] != c
    ensures RFind(s, c) == i
  {
  }

  /**
   * POSIX `os.path.basename`: the text after the last '/', or the whole
   * path when it holds no '/'.
   */
  function Basename(p: string): (b: string)
    ensures '/' !in b
    ensures |b| <= |p| && p[|p| - |b|..] == b
    ensures b == p || p[|p| - |b| - 1] == '/'
  {
    p[RFind(p, '/') + 1..]
  }

  /** Python's `filename.rsplit('.', 1)[1]`: the text after the last '.'. */
  function Extension(f: string): (e: string)
    requires '.' in f
    ensures '.' !in e
    ensures |e| < |f| && f[|f| - |e| - 1] == '.' && f[|f| - |e|..] == e
  {
    f[RFind(f, '.') + 1..]
  }

  /** ASCII lowercasing of one character. */
  function LowerChar(c: char): (r: char)
    ensures !('A' <= r <= 'Z')
    ensures 'A' <= c <= 'Z' ==> 'a' <= r <= 'z' && r as int == c as int + 32
    ensures !('A' <= c <= 'Z') ==> r == c
  {
    if 'A' <= c <= 'Z' then (c as int + 32) as char else c
  }

  /** ASCII lowercasing of a string, character by character. */
  function Lower(s: string): (r: string)
    ensures |r| == |s|
    ensures forall i :: 0 <= i < |s| ==> r[i] == LowerChar(s[i])
    ensures forall i :: 0 <= i < |r| ==> !('A' <= r[i] <= 'Z')
  {
    seq(|s|, i requires 0 <= i < |s| => LowerChar(s[i]))
  }

  /** Lowercasing twice is lowercasing once. */
  lemma LowerIdempotent(s: string)
    ensures Lower(Lower(s)) == Lower(s)
  {
  }

  /** `allowed_file`: a '.' is present and the lowercased last suffix is whitelisted. */
  predicate AllowedFile(f: string): (ok: bool)
    ensures ok ==> '.' in f && 3 <= |Extension(f)| <= 4
  {
    '.' in f && IsAllowedExtension(Extension(f))
  }

  /** Case-insensitive membership of a suffix in the whitelist. */
  predicate IsAllowedExtension(e: string)
  {
    Lower(e) in AllowedExtensions
  }

  /**
   * Independent reading of the whitelist rule: some '.' is followed only by
   * dot-free text whose lowercase form is a whitelisted extension.
   */
  ghost predicate EndsWithAllowedSuffix(f: string)
  {
    exists i :: 0 <= i < |f| && f[i] == '.' && '.' !in f[i + 1..] && IsAllowedExtension(f[i + 1..])
  }

  /** `allowed_file` accepts exactly the names with a whitelisted final suffix. */
  lemma AllowedFileIff(f: string)
    ensures AllowedFile(f) <==> EndsWithAllowedSuffix(f)
  {
  }

  /** A '.' followed only by dot-free text is the one `Extension` splits at. */
  lemma SuffixIsExtension(f: string, i: int)
    requires 0 <= i < |f| && f[i] == '.' && '.' !in f[i + 1..]
    ensures '.' in f && Extension(f) == f[i + 1..]
  {
  }

  /** No whitelisted extension contains a '/' or is empty, even before lowercasing. */
  lemma AllowedSuffixShape(e: string)
    requires IsAllowedExtension(e)
    ensures |e| >= 3 && '/' !in e
  {
  }

  /**
   * A name that passes the whitelist still passes it, with the same
   * extension, once reduced to its basename; in particular the basename
   * is not empty. This is why every key the upload path stores is
   * servable.
   */
  lemma BasenameKeepsAllowed(f: string)
    requires AllowedFile(f)
    ensures Basename(f) != []
    ensures '.' in Basename(f) && Extension(Basename(f)) == Extension(f)
    ensures AllowedFile(Basename(f))
  {
    var d := RFind(f, '.');
    var k := RFind(f, '/');
    AllowedSuffixShape(Extension(f));
    assert f[d + 1..] == Extension(f);
    forall j | d < j < |f| ensures f[j] != '/' {
      assert f[j] == Extension(f)[j - d - 1];
    }
    assert k < d;
    var b := Basename(f);
    assert b == f[k + 1..];
    var i := d - k - 1;
    assert b[i] == '.';
    forall j | i < j < |b| ensures b[j] != '.' {
      assert b[j] == f[j + k + 1];
    }
    RFindIsLast(b, '.', i);
    assert b[i + 1..] == f[d + 1..];
  }

  /** Worked cases: only the final suffix counts, and case does not matter. */
  lemma AcceptedExamples()
    ensures AllowedFile("photo.JPG")
    ensures AllowedFile("a.exe.png")
  {
    SuffixIsExtension("photo.JPG", 5);
    assert Lower("JPG") == "jpg";
    SuffixIsExtension("a.exe.png", 5);
    assert Lower("png") == "png";
  }

  /** Worked cases: a whitelisted inner suffix or no '.' at all is refused. */
  lemma RejectedExamples()
    ensures !AllowedFile("a.png.exe")
    ensures !AllowedFile("notes.txt")
    ensures !AllowedFile("virus.exe")
    ensures !AllowedFile("png")
  {
  }
}
