/** The attachment check used before a PDF is stored with an offer or a
    student profile. */
module Upload {

  const AllowedExtensions: set<string> := {"pdf"}

  /** Lower-case for ASCII letters.  Python's `str.lower` also folds other
      letters, but none of them lower-cases to "p", "d" or "f", so the
      comparison with "pdf" comes out the same. */
  function LowerChar(c: char): char
  {
    if 'A' <= c <= 'Z' then (c as int + 32) as char else c
  }

  function Lower(s: string): (r: string)
    ensures |r| == |s| && forall i :: 0 <= i < |s| ==> r[i] == LowerChar(s[i])
  {
    seq(|s|, i requires 0 <= i < |s| => LowerChar(s[i]))
  }

  /** The position of the last "." of `s`. */
  function LastDot(s: string): (i: nat)
    requires '.' in s
    ensures i < |s| && s[i] == '.'
    ensures forall j :: i < j < |s| ==> s[j] != '.'
    decreases |s|
  {
    if s[|s| - 1] == '.' then |s| - 1
    else
      assert '.' in s[..|s| - 1] by {
        var k :| 0 <= k < |s| && s[k] == '.';
        assert s[..|s| - 1][k] == '.';
      }
      LastDot(s[..|s| - 1])
  }

  /** `filename.rsplit('.', 1)[1]`: the text after the last ".". */
  function Extension(filename: string): (ext: string)
    requires '.' in filename
    ensures '.' !in ext
    ensures |ext| < |filename| && filename[|filename| - |ext| - 1] == '.'
    ensures ext == filename[|filename| - |ext|..]
  {
    filename[LastDot(filename) + 1..]
  }

  /** `allowed_file`: the name has a "." and the text after the last one,
      lower-cased, is an allowed extension.  A name without a "." or ending
      in "." is refused. */
  function AllowedFile(filename: string): (ok: bool)
    ensures '.' !in filename ==> !ok
    ensures |filename| > 0 && filename[|filename| - 1] == '.' ==> !ok
  {
    '.' in filename && Lower(Extension(filename)) in AllowedExtensions
  }

  lemma LowerCharIs(c: char, lower: char, upper: char)
    requires 'a' <= lower <= 'z' && upper as int == lower as int - 32
    ensures LowerChar(c) == lower <==> c == lower || c == upper
  {
  }

  /** The check accepts exactly the names ending in "." followed by "pdf"
      in any mix of cases. */
  lemma AllowedFileIsPdfSuffix(filename: string)
    ensures AllowedFile(filename) <==> PdfSuffix(filename)
  {
    if AllowedFile(filename) {
      AllowedHasPdfSuffix(filename);
    }
    if PdfSuffix(filename) {
      PdfSuffixIsAllowed(filename);
    }
  }

  predicate PdfSuffix(filename: string)
  {
    var n := |filename|;
    n >= 4 && filename[n - 4] == '.' &&
    filename[n - 3] in "pP" && filename[n - 2] in "dD" && filename[n - 1] in "fF"
  }

  lemma AllowedHasPdfSuffix(filename: string)
    requires AllowedFile(filename)
    ensures PdfSuffix(filename)
  {
    var n := |filename|;
    var ext := Extension(filename);
    assert Lower(ext) == "pdf";
    assert |ext| == 3;
    assert ext[0] == filename[n - 3] && ext[1] == filename[n - 2] && ext[2] == filename[n - 1];
    LowerCharIs(ext[0], 'p', 'P');
    LowerCharIs(ext[1], 'd', 'D');
    LowerCharIs(ext[2], 'f', 'F');
  }

  lemma PdfSuffixIsAllowed(filename: string)
    requires PdfSuffix(filename)
    ensures AllowedFile(filename)
  {
    var n := |filename|;
    assert filename[n - 4] == '.';
    var d := LastDot(filename);
    assert d == n - 4;
    var ext := Extension(filename);
    assert ext == filename[n - 3..];
    LowerCharIs(ext[0], 'p', 'P');
    LowerCharIs(ext[1], 'd', 'D');
    LowerCharIs(ext[2], 'f', 'F');
    assert Lower(ext) == "pdf";
  }
}
