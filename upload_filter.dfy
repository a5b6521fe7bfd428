/**
  The upload type filter that multer runs on every incoming file before it is
  stored, and the per-request limits multer is configured with.
*/
module UploadFilter {
  import opened Wrappers
  import opened NodePath

  /** The alternatives of the pattern /jpeg|jpg|png|pdf|doc|docx/, in pattern order. */
  const Alternatives: seq<string> := ["jpeg", "jpg", "png", "pdf", "doc", "docx"]

  /** The message of the one error the filter reports. */
  const InvalidFileType: string := "Invalid file type!"

  /** multer's `limits`: at most 2 MB per file and 5 files per request. */
  const MaxFileSize: nat := 2 * 1024 * 1024
  const MaxFiles: nat := 5

  /** What the filter sees of an uploaded file. */
  datatype FileInfo = FileInfo(originalname: string, mimetype: string)

  /** The two outcomes of the filter's callback: `cb(null, true)` or `cb(new Error(message))`. */
  datatype Verdict = Accepted | Rejected(message: string)

  /** `p` occurs in `s` starting at index `k`. */
  predicate OccursAt(p: string, s: string, k: int) {
    0 <= k && k + |p| <= |s| && s[k..k + |p|] == p
  }

  /** `p` is a substring of `s`. */
  ghost predicate Contains(s: string, p: string) {
    exists k :: OccursAt(p, s, k)
  }

  /** Some alternative of the pattern is a substring of `s`. */
  ghost predicate ContainsAllowedType(s: string) {
    exists p :: p in Alternatives && Contains(s, p)
  }

  /**
    The regex engine's attempt at one start position: the alternatives are
    tried in order and the first that matches there is the match.
  */
  function MatchAt(s: string, k: int, alts: seq<string>): (m: Option<string>)
    ensures m.Some? ==> m.value in alts && OccursAt(m.value, s, k)
    ensures m.None? ==> forall p :: p in alts ==> !OccursAt(p, s, k)
  {
    if alts == [] then None
    else if OccursAt(alts[0], s, k) then Some(alts[0])
    else MatchAt(s, k, alts[1..])
  }

  /** The unanchored search: start positions `k`, `k + 1`, ..., `|s|` in turn. */
  function SearchFrom(s: string, k: nat): (found: bool)
    ensures found <==> exists p, j :: k <= j && p in Alternatives && OccursAt(p, s, j)
    decreases |s| - k
  {
    if k > |s| then false
    else MatchAt(s, k, Alternatives).Some? || SearchFrom(s, k + 1)
  }

  /** `allowedTypes.test(s)`: the pattern matches somewhere in `s`. */
  function Test(s: string): (found: bool)
    ensures found <==> ContainsAllowedType(s)
  {
    SearchFrom(s, 0)
  }

  /**
    `fileFilter`: the extension, lower-cased, and the mimetype, as given, must
    both match the pattern; otherwise the file is refused with one fixed error.
  */
  function FileFilter(file: FileInfo): (v: Verdict)
    ensures v.Accepted? <==>
      ContainsAllowedType(Lower(ExtName(file.originalname))) && ContainsAllowedType(file.mimetype)
    ensures v.Rejected? ==> v.message == InvalidFileType
  {
    var extname := Test(Lower(ExtName(file.originalname)));
    var mimetype := Test(file.mimetype);
    if extname && mimetype then Accepted else Rejected(InvalidFileType)
  }

  /** The name's case never matters: the extension is lower-cased before the test. */
  lemma FilterIgnoresNameCase(f: FileInfo, g: FileInfo)
    requires Lower(f.originalname) == Lower(g.originalname)
    requires f.mimetype == g.mimetype
    ensures FileFilter(f) == FileFilter(g)
  {
    ExtNameLower(f.originalname);
    ExtNameLower(g.originalname);
  }

  /** A pair of characters with which some alternative begins. */
  predicate BeginsAlternative(a: char, b: char) {
    (a == 'j' && b == 'p') || (a == 'p' && (b == 'n' || b == 'd')) || (a == 'd' && b == 'o')
  }

  /** A string in which no alternative can begin matches nothing. */
  lemma NoMatchWithoutBeginning(s: string)
    requires forall k :: 0 <= k < |s| - 1 ==> !BeginsAlternative(s[k], s[k + 1])
    ensures !ContainsAllowedType(s)
  {
    if ContainsAllowedType(s) {
      var p :| p in Alternatives && Contains(s, p);
      var k :| OccursAt(p, s, k);
      assert s[k..k + |p|][0] == s[k] && s[k..k + |p|][1] == s[k + 1];
      assert BeginsAlternative(s[k], s[k + 1]);
    }
  }

  /** An occurrence of an alternative is a match. */
  lemma MatchWitness(s: string, p: string, k: int)
    requires p in Alternatives && OccursAt(p, s, k)
    ensures ContainsAllowedType(s)
  {
  }

  /** A name without '/' is its own last component. */
  lemma BaseNameIsLastComponent(name: string)
    requires forall j :: 0 <= j < |name| ==> name[j] != '/'
    ensures LastComponent(name) == name
  {
    var t := TrimTrailingSlashes(name);
    assert |t| == |name|;
  }

  /** The extension of a name without '/' whose last '.' is at `d > 0`. */
  lemma ExtNameAt(name: string, d: int)
    requires forall j :: 0 <= j < |name| ==> name[j] != '/'
    requires 0 < d < |name| && name[d] == '.' && name != ".."
    requires forall j :: d < j < |name| ==> name[j] != '.'
    ensures ExtName(name) == name[d..]
  {
    BaseNameIsLastComponent(name);
    assert LastIndexOf(name, '.') == d;
  }

  /** A name without '/' that has no '.' after its first character has no extension. */
  lemma ExtNameNone(name: string)
    requires forall j :: 0 <= j < |name| ==> name[j] != '/'
    requires forall j :: 0 < j < |name| ==> name[j] != '.'
    ensures ExtName(name) == ""
  {
    BaseNameIsLastComponent(name);
    assert LastIndexOf(name, '.') <= 0;
  }

  /** The extension keeps the case the name was sent with. */
  lemma UpperCaseNameExtension()
    ensures ExtName("PHOTO.PNG") == ".PNG"
  {
    ExtNameAt("PHOTO.PNG", 5);
  }

  /** Only the last '.' counts: "scan.pdf.txt" has the extension ".txt". */
  lemma DoubleExtension()
    ensures ExtName("scan.pdf.txt") == ".txt"
  {
    ExtNameAt("scan.pdf.txt", 8);
  }

  /** A dot-file such as ".png" has no extension at all. */
  lemma DotFileHasNoExtension()
    ensures ExtName(".png") == ""
  {
    ExtNameNone(".png");
  }

  /** Upper case in the extension is normalised: ".PNG" with "image/png" is accepted. */
  lemma UpperCaseExtensionAccepted(f: FileInfo)
    requires ExtName(f.originalname) == ".PNG" && f.mimetype == "image/png"
    ensures FileFilter(f) == Accepted
  {
    assert Lower(".PNG")[1..4] == "png";
    MatchWitness(Lower(".PNG"), "png", 1);
    MatchWitness("image/png", "png", 6);
  }

  /** Upper case in the mimetype is not normalised: ".png" with "IMAGE/PNG" is refused. */
  lemma UpperCaseMimetypeRejected(f: FileInfo)
    requires ExtName(f.originalname) == ".png" && f.mimetype == "IMAGE/PNG"
    ensures FileFilter(f) == Rejected(InvalidFileType)
  {
    NoMatchWithoutBeginning("IMAGE/PNG");
  }

  /** A matching extension alone is not enough: ".png" declared as "text/plain" is refused. */
  lemma ExtensionAloneRejected(f: FileInfo)
    requires ExtName(f.originalname) == ".png" && f.mimetype == "text/plain"
    ensures FileFilter(f) == Rejected(InvalidFileType)
  {
    NoMatchWithoutBeginning("text/plain");
  }

  /** A matching mimetype alone is not enough: ".txt" declared as "image/png" is refused. */
  lemma MimetypeAloneRejected(f: FileInfo)
    requires ExtName(f.originalname) == ".txt" && f.mimetype == "image/png"
    ensures FileFilter(f) == Rejected(InvalidFileType)
  {
    assert Lower(".txt") == ".txt";
    NoMatchWithoutBeginning(".txt");
  }

  /** A file with no extension is refused whatever its mimetype, since "" contains no alternative. */
  lemma NoExtensionRejected(f: FileInfo)
    requires ExtName(f.originalname) == ""
    ensures FileFilter(f) == Rejected(InvalidFileType)
  {
    NoMatchWithoutBeginning(Lower(""));
  }

  /**
    The pattern is unanchored, so containment is what counts: the made-up
    extension ".docxyz" with the mimetype "text/x-doc" passes.
  */
  lemma ContainmentSuffices(f: FileInfo)
    requires ExtName(f.originalname) == ".docxyz" && f.mimetype == "text/x-doc"
    ensures FileFilter(f) == Accepted
  {
    assert Lower(".docxyz")[1..4] == "doc";
    MatchWitness(Lower(".docxyz"), "doc", 1);
    MatchWitness("text/x-doc", "doc", 7);
  }

  /**
    A Word 97 file declared with its registered mimetype "application/msword"
    is refused: that mimetype contains none of the alternatives.
  */
  lemma MsWordMimetypeRejected(f: FileInfo)
    requires f.mimetype == "application/msword"
    ensures FileFilter(f) == Rejected(InvalidFileType)
  {
    MsWordHasNoMatch();
  }

  lemma MsWordHasNoMatch()
    ensures !ContainsAllowedType("application/msword")
  {
    NoMatchWithoutBeginning("application/msword");
  }

  /** "docx" adds nothing to the pattern: every string containing it contains "doc". */
  lemma DocxIsRedundant(s: string)
    ensures ContainsAllowedType(s) <==> exists p :: p in Alternatives[..5] && Contains(s, p)
  {
    assert Alternatives == Alternatives[..5] + ["docx"];
    assert Alternatives[..5][4] == "doc";
    if Contains(s, "docx") {
      var k :| OccursAt("docx", s, k);
      assert s[k..k + 3] == s[k..k + 4][..3];
      assert OccursAt("doc", s, k);
      assert "doc" in Alternatives[..5] && Contains(s, "doc");
    }
  }
}
