/** The output-name rule of the cropper: Python's `os.path.splitext` (POSIX flavour) and the
    `_cropped` suffix inserted in front of the extension.
 */
module PathNames {

  /** Index of the last occurrence of `c` in `s`, or -1 when there is none (Python's `str.rfind`). */
  function LastIndex(s: string, c: char): (r: int)
    ensures -1 <= r < |s|
    ensures r == -1 ==> forall j :: 0 <= j < |s| ==> s[j] != c
    ensures r >= 0 ==> s[r] == c && forall j :: r < j < |s| ==> s[j] != c
  {
    if |s| == 0 then -1
    else if s[|s| - 1] == c then |s| - 1
    else LastIndex(s[..|s| - 1], c)
  }

  /** Some character strictly between positions `lo` and `hi` of `p` is not a dot. */
  predicate HasNonDotBetween(p: string, lo: int, hi: int) {
    exists i :: lo < i < hi && 0 <= i < |p| && p[i] != '.'
  }

  /** Reference definition of an extension: position `d` starts the extension of `p` when it holds
      a dot, no dot or separator follows it, and the final path component has a character other
      than a dot before it (so the leading dots of a name such as ".bashrc" are not an extension). */
  ghost predicate ExtensionAt(p: string, d: int) {
    && 0 <= d < |p|
    && p[d] == '.'
    && (forall j :: d < j < |p| ==> p[j] != '.' && p[j] != '/')
    && exists i :: 0 <= i < d && p[i] != '.' && p[i] != '/' && NoSeparator(p, i, d)
  }

  /** No separator in `p[lo+1..hi]`. */
  ghost predicate NoSeparator(p: string, lo: int, hi: int) {
    forall j :: lo < j < hi && 0 <= j < |p| ==> p[j] != '/'
  }

  /** `os.path.splitext(p)` as posixpath computes it: split before the last dot when that dot is in
      the final component and is preceded there by something other than dots; else no extension. */
  function SplitExt(p: string): (r: (string, string))
    ensures r.0 + r.1 == p
    ensures r.1 != [] <==> exists d :: ExtensionAt(p, d)
    ensures r.1 != [] ==> ExtensionAt(p, |r.0|)
  {
    var sep := LastIndex(p, '/');
    var dot := LastIndex(p, '.');
    LastDotIsExtension(p, sep, dot);
    if dot > sep && HasNonDotBetween(p, sep, dot) then (p[..dot], p[dot..]) else (p, "")
  }

  /** The test `splitext` performs on the last separator and the last dot decides exactly whether
      the path has an extension, and where it starts. */
  lemma LastDotIsExtension(p: string, sep: int, dot: int)
    requires sep == LastIndex(p, '/') && dot == LastIndex(p, '.')
    ensures (dot > sep && HasNonDotBetween(p, sep, dot)) <==> exists d :: ExtensionAt(p, d)
    ensures (dot > sep && HasNonDotBetween(p, sep, dot)) ==> ExtensionAt(p, dot)
  {
    if dot > sep && HasNonDotBetween(p, sep, dot) {
      var w :| sep < w < dot && 0 <= w < |p| && p[w] != '.';
      FoundExtension(p, sep, dot, w);
    } else {
      NoExtension(p, sep, dot);
    }
  }

  /** A non-dot character between the last separator and the last dot makes that dot an extension. */
  lemma FoundExtension(p: string, sep: int, dot: int, w: int)
    requires sep == LastIndex(p, '/') && dot == LastIndex(p, '.')
    requires sep < w < dot && p[w] != '.'
    ensures ExtensionAt(p, dot)
  {
    assert p[w] != '/';
    assert NoSeparator(p, w, dot);
  }

  /** When the test fails, no position starts an extension. */
  lemma NoExtension(p: string, sep: int, dot: int)
    requires sep == LastIndex(p, '/') && dot == LastIndex(p, '.')
    requires !(dot > sep && HasNonDotBetween(p, sep, dot))
    ensures forall d :: !ExtensionAt(p, d)
  {
    forall d | ExtensionAt(p, d) ensures false {
      ExtensionPassesTest(p, sep, dot, d);
    }
  }

  /** Any extension start is the last dot, with a non-dot character after the last separator before it. */
  lemma ExtensionPassesTest(p: string, sep: int, dot: int, d: int)
    requires sep == LastIndex(p, '/') && dot == LastIndex(p, '.')
    requires ExtensionAt(p, d)
    ensures dot > sep && HasNonDotBetween(p, sep, dot)
  {
    var i :| 0 <= i < d && p[i] != '.' && p[i] != '/' && NoSeparator(p, i, d);
    LastOccurrenceAt(p, '.', dot, d);
    SeparatorBefore(p, sep, i, d);
  }

  /** A `c` at `d` with no `c` after it is the last occurrence of `c`. */
  lemma LastOccurrenceAt(p: string, c: char, last: int, d: int)
    requires last == LastIndex(p, c)
    requires 0 <= d < |p| && p[d] == c && forall j :: d < j < |p| ==> p[j] != c
    ensures last == d
  {
  }

  /** The last separator comes before position `i` when no separator is found from `i` onwards. */
  lemma SeparatorBefore(p: string, sep: int, i: int, d: int)
    requires sep == LastIndex(p, '/')
    requires 0 <= i < d < |p| && p[i] != '/' && p[d] != '/' && NoSeparator(p, i, d)
    requires forall j :: d < j < |p| ==> p[j] != '/'
    ensures sep < i
  {
    forall j | i <= j < |p| ensures p[j] != '/' {
      if i < j < d {
        assert NoSeparator(p, i, d);
      }
    }
  }

  /** The marker the cropper puts between the stem and the extension. */
  const CroppedSuffix: string := "_cropped"

  /** `f"{filename}_cropped{ext}"` with `filename, ext = os.path.splitext(image_path)`. */
  function CroppedPath(imagePath: string): (r: string)
    ensures |r| == |imagePath| + |CroppedSuffix|
    ensures r[..|SplitExt(imagePath).0|] == SplitExt(imagePath).0
    ensures r[|r| - |SplitExt(imagePath).1|..] == SplitExt(imagePath).1
  {
    var (stem, ext) := SplitExt(imagePath);
    stem + CroppedSuffix + ext
  }

  /** At most one position can start an extension: it is always the last dot. */
  lemma ExtensionAtUnique(p: string, d1: int, d2: int)
    requires ExtensionAt(p, d1) && ExtensionAt(p, d2)
    ensures d1 == d2
  {
  }

  /** Splitting the derived name gives back the original extension and the stem with the suffix:
      the rule keeps the extension and inserts `_cropped` exactly in front of it. */
  lemma CroppedPathSplit(imagePath: string)
    ensures SplitExt(CroppedPath(imagePath)) == (SplitExt(imagePath).0 + CroppedSuffix, SplitExt(imagePath).1)
  {
    var (stem, ext) := SplitExt(imagePath);
    if ext != [] {
      SuffixKeepsExtension(stem, ext);
    } else {
      SuffixAddsNoExtension(imagePath);
    }
  }

  /** With an extension, the dot that starts it still starts the extension of the derived name. */
  lemma SuffixKeepsExtension(stem: string, ext: string)
    requires ExtensionAt(stem + ext, |stem|)
    ensures SplitExt(stem + CroppedSuffix + ext) == (stem + CroppedSuffix, ext)
  {
    var q := stem + CroppedSuffix + ext;
    var k := |stem| + |CroppedSuffix|;
    assert q[k..] == ext;
    assert forall j :: k <= j < |q| ==> q[j] == (stem + ext)[j - |CroppedSuffix|];
    assert ExtensionAt(q, k) by {
      assert q[k - 1] == 'd';
      assert NoSeparator(q, k - 1, k);
    }
    var r := SplitExt(q);
    ExtensionAtUnique(q, |r.0|, k);
    assert r.0 == q[..k];
  }

  /** Without an extension, appending the suffix (which holds no dot) creates none. */
  lemma SuffixAddsNoExtension(p: string)
    requires forall d :: !ExtensionAt(p, d)
    ensures SplitExt(p + CroppedSuffix) == (p + CroppedSuffix, "")
  {
    var q := p + CroppedSuffix;
    assert forall j :: 0 <= j < |p| ==> q[j] == p[j];
    forall d | ExtensionAt(q, d) ensures false {
      assert d < |p|;
      var i :| 0 <= i < d && q[i] != '.' && q[i] != '/' && NoSeparator(q, i, d);
      assert NoSeparator(p, i, d);
      assert ExtensionAt(p, d);
    }
  }
}
