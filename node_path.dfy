/**
  The two pieces of Node.js string handling that the upload filter relies on:
  `path.extname` (POSIX flavour) and `String.prototype.toLowerCase`.
  Neither is part of the repository; they are modelled from their documented
  behaviour so that the filter's extension test can be stated exactly.
*/
module NodePath {

  /** `toLowerCase` on one character, restricted to ASCII letters. */
  function LowerChar(c: char): char {
    if 'A' <= c <= 'Z' then (c as int + 32) as char else c
  }

  /** `toLowerCase` on a string: maps every character, keeps the length. */
  function Lower(s: string): string {
    seq(|s|, i requires 0 <= i < |s| => LowerChar(s[i]))
  }

  /** A character that is not an ASCII letter is its own lower case, and nothing else lowers to it. */
  predicate Caseless(c: char) {
    !('A' <= c <= 'Z') && !('a' <= c <= 'z')
  }

  /**
    What `Lower` means: the length is kept, A-Z become a-z, no upper-case
    ASCII letter is left, characters that are not letters are untouched, and
    lower-casing twice is lower-casing once.
  */
  lemma LowerSpec(s: string)
    ensures |Lower(s)| == |s|
    ensures forall i :: 0 <= i < |s| ==> !('A' <= Lower(s)[i] <= 'Z')
    ensures forall i :: 0 <= i < |s| && Caseless(s[i]) ==> Lower(s)[i] == s[i]
    ensures forall i :: 0 <= i < |s| && 'a' <= s[i] <= 'z' ==> Lower(s)[i] == s[i]
    ensures forall i :: 0 <= i < |s| && 'A' <= s[i] <= 'Z' ==> Lower(s)[i] == "abcdefghijklmnopqrstuvwxyz"[s[i] as int - 'A' as int]
    ensures Lower(Lower(s)) == Lower(s)
  {
  }

  /** Index of the last occurrence of `c` in `s`, or -1 when there is none. */
  function LastIndexOf(s: string, c: char): (k: int)
    ensures -1 <= k < |s|
    ensures k >= 0 ==> s[k] == c
    ensures forall j :: k < j < |s| ==> s[j] != c
  {
    if |s| == 0 then -1
    else if s[|s| - 1] == c then |s| - 1
    else LastIndexOf(s[..|s| - 1], c)
  }

  /** The path with every trailing '/' removed. */
  function TrimTrailingSlashes(p: string): (t: string)
    ensures |t| <= |p| && t == p[..|t|]
    ensures t == [] || t[|t| - 1] != '/'
    ensures forall j :: |t| <= j < |p| ==> p[j] == '/'
  {
    if |p| > 0 && p[|p| - 1] == '/' then TrimTrailingSlashes(p[..|p| - 1]) else p
  }

  /** The last path component: what follows the last '/' once trailing separators are gone. */
  function LastComponent(p: string): string {
    var t := TrimTrailingSlashes(p);
    t[LastIndexOf(t, '/') + 1..]
  }

  /**
    `path.extname`: from the last '.' of the last component to its end; the
    empty string when that component has no '.', when its only '.' is its
    first character (a dot-file such as ".png"), or when it is "..".
  */
  function ExtName(p: string): string {
    ComponentExt(LastComponent(p))
  }

  /** The extension of one path component. */
  function ComponentExt(base: string): string {
    var d := LastIndexOf(base, '.');
    if d <= 0 || base == ".." then "" else base[d..]
  }

  /** What `path.extname` returns, stated without reference to how it is found. */
  lemma ExtNameSpec(p: string)
    ensures var e, base := ExtName(p), LastComponent(p);
      && (e != [] ==> e[0] == '.')
      && (e != [] ==> forall j :: 0 < j < |e| ==> e[j] != '.' && e[j] != '/')
      && (e != [] ==> |e| <= |base| && e == base[|base| - |e|..])
      && (e == [] <==> base == ".." || forall j :: 0 < j < |base| ==> base[j] != '.')
  {
  }

  lemma LowerSlices(s: string, i: int, j: int)
    requires 0 <= i <= j <= |s|
    ensures Lower(s)[i..j] == Lower(s[i..j])
  {
  }

  lemma {:induction false} TrimTrailingSlashesLower(p: string)
    ensures TrimTrailingSlashes(Lower(p)) == Lower(TrimTrailingSlashes(p))
    decreases |p|
  {
    if |p| > 0 {
      LowerSlices(p, 0, |p| - 1);
      if p[|p| - 1] == '/' {
        TrimTrailingSlashesLower(p[..|p| - 1]);
      }
    }
  }

  lemma LastIndexOfLower(s: string, c: char)
    requires Caseless(c)
    ensures LastIndexOf(Lower(s), c) == LastIndexOf(s, c)
  {
    assert forall j :: 0 <= j < |s| ==> (Lower(s)[j] == c <==> s[j] == c);
  }

  lemma LastComponentLower(p: string)
    ensures LastComponent(Lower(p)) == Lower(LastComponent(p))
  {
    TrimTrailingSlashesLower(p);
    var t := TrimTrailingSlashes(p);
    LastIndexOfLower(t, '/');
    LowerSlices(t, LastIndexOf(t, '/') + 1, |t|);
  }

  lemma ComponentExtLower(base: string)
    ensures ComponentExt(Lower(base)) == Lower(ComponentExt(base))
  {
    LastIndexOfLower(base, '.');
    var d := LastIndexOf(base, '.');
    assert Lower(base) == ".." <==> base == "..";
    if d > 0 {
      LowerSlices(base, d, |base|);
    }
  }

  /** Lower-casing a path and then taking its extension is lower-casing the extension. */
  lemma ExtNameLower(p: string)
    ensures ExtName(Lower(p)) == Lower(ExtName(p))
  {
    LastComponentLower(p);
    ComponentExtLower(LastComponent(p));
  }
}
