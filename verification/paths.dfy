/**
 * The three path operations of Python's `os.path` the tool applies to file
 * names: `join`, `basename` and the root half of `splitext`, with the
 * POSIX separator `/`.
 */
module Paths {
  import opened Text

  const Sep: char := '/'

  /** `s.rfind(c)`: the last index holding `c`, or -1. */
  function LastIndexOf(s: string, c: char): (i: int)
    ensures -1 <= i < |s|
    ensures i >= 0 ==> s[i] == c
    ensures forall k :: i < k < |s| ==> s[k] != c
  {
    if |s| == 0 then -1
    else if s[|s| - 1] == c then |s| - 1
    else LastIndexOf(s[..|s| - 1], c)
  }

  /**
   * `os.path.basename(p)`: the longest suffix of `p` free of separators —
   * the whole of `p`, or the part after its last separator.
   */
  function Basename(p: string): (b: string)
    ensures Sep !in b
    ensures EndsWith(p, b)
    ensures |b| == |p| || p[|p| - |b| - 1] == Sep
  {
    p[LastIndexOf(p, Sep) + 1..]
  }

  /** No character of a suffix free of separators is a separator. */
  lemma SuffixFreeOfSep(p: string, b: string)
    requires Sep !in b
    requires EndsWith(p, b)
    ensures forall k :: |p| - |b| <= k < |p| ==> p[k] != Sep
  {
    forall k | |p| - |b| <= k < |p|
      ensures p[k] != Sep
    {
      assert p[k] == b[k - (|p| - |b|)];
    }
  }

  /** The three properties of `Basename` single out its result. */
  lemma BasenameUnique(p: string, b: string)
    requires Sep !in b
    requires EndsWith(p, b)
    requires |b| == |p| || p[|p| - |b| - 1] == Sep
    ensures Basename(p) == b
  {
    SuffixFreeOfSep(p, b);
    if |b| < |p| {
      LastIndexOfAt(p, Sep, |p| - |b| - 1);
    } else {
      LastIndexOfNone(p, Sep);
    }
  }

  /** The last occurrence is the one with no occurrence after it. */
  lemma {:induction false} LastIndexOfAt(s: string, c: char, j: int)
    requires 0 <= j < |s| && s[j] == c
    requires forall k :: j < k < |s| ==> s[k] != c
    ensures LastIndexOf(s, c) == j
  {
    if j < |s| - 1 {
      var t := s[..|s| - 1];
      assert t[j] == s[j];
      assert forall k :: j < k < |t| ==> t[k] == s[k];
      LastIndexOfAt(t, c, j);
    }
  }

  /** Text without `c` has no last index of `c`. */
  lemma {:induction false} LastIndexOfNone(s: string, c: char)
    requires forall k :: 0 <= k < |s| ==> s[k] != c
    ensures LastIndexOf(s, c) == -1
  {
    if |s| > 0 {
      var t := s[..|s| - 1];
      assert forall k :: 0 <= k < |t| ==> t[k] == s[k];
      LastIndexOfNone(t, c);
    }
  }

  /** The last `c` of `a + b` is the last one of `b` if it has one, else the last one of `a`. */
  lemma {:induction false} LastIndexOfConcat(a: string, b: string, c: char)
    ensures LastIndexOf(a + b, c) ==
            if LastIndexOf(b, c) >= 0 then |a| + LastIndexOf(b, c) else LastIndexOf(a, c)
  {
    if |b| == 0 {
      assert a + b == a;
    } else if b[|b| - 1] != c {
      assert (a + b)[..|a + b| - 1] == a + b[..|b| - 1];
      LastIndexOfConcat(a, b[..|b| - 1], c);
    }
  }

  /** Cutting text after its last `c` keeps that index. */
  lemma {:induction false} LastIndexOfPrefix(s: string, c: char, cut: int)
    requires LastIndexOf(s, c) < cut <= |s|
    ensures LastIndexOf(s[..cut], c) == LastIndexOf(s, c)
  {
    if cut < |s| {
      var t := s[..|s| - 1];
      assert t[..cut] == s[..cut];
      LastIndexOfPrefix(t, c, cut);
    } else {
      assert s[..cut] == s;
    }
  }

  /** Text after a separator (or with nothing before it) keeps its basename. */
  lemma BasenameAfterSeparator(pre: string, name: string)
    requires pre == "" || pre[|pre| - 1] == Sep
    ensures Basename(pre + name) == Basename(name)
  {
    var j := LastIndexOf(name, Sep);
    LastIndexOfConcat(pre, name, Sep);
    if j < 0 {
      assert LastIndexOf(pre, Sep) == |pre| - 1;
    }
    assert (pre + name)[|pre| + j + 1..] == name[j + 1..];
  }

  /** `os.path.join(folder, name)` for two components. */
  function Join(folder: string, name: string): (p: string)
    ensures EndsWith(p, name)
    ensures StartsWith(name, [Sep]) ==> p == name
    ensures !StartsWith(name, [Sep]) ==> StartsWith(p, folder)
  {
    if StartsWith(name, [Sep]) then name
    else if folder == "" || EndsWith(folder, [Sep]) then folder + name
    else folder + [Sep] + name
  }

  /** The folder a name is joined to never changes the name's basename. */
  lemma BasenameOfJoin(folder: string, name: string)
    ensures Basename(Join(folder, name)) == Basename(name)
  {
    if StartsWith(name, [Sep]) {
    } else if folder == "" || EndsWith(folder, [Sep]) {
      BasenameAfterSeparator(folder, name);
    } else {
      assert folder + [Sep] + name == (folder + [Sep]) + name;
      BasenameAfterSeparator(folder + [Sep], name);
    }
  }

  /** A suffix free of separators stays a suffix of the basename. */
  lemma BasenameKeepsSuffix(p: string, ext: string)
    requires EndsWith(p, ext)
    requires Sep !in ext
    ensures EndsWith(Basename(p), ext)
  {
  }

  /** Some character of `p[lo..hi]` is not a dot. */
  predicate HasNonDot(p: string, lo: int, hi: int)
  {
    exists k :: lo <= k < hi && 0 <= k < |p| && p[k] != '.'
  }

  /**
   * `os.path.splitext(p)[0]`: `p` without its extension, where the extension
   * starts at the last dot of the basename and a basename made only of
   * leading dots before that dot has no extension.
   */
  function StripExtension(p: string): (root: string)
    ensures StartsWith(p, root)
  {
    var sepIndex := LastIndexOf(p, Sep);
    var dotIndex := LastIndexOf(p, '.');
    if dotIndex > sepIndex && HasNonDot(p, sepIndex + 1, dotIndex) then p[..dotIndex] else p
  }

  /** `os.path.basename(os.path.splitext(p)[0])`: the file name without folder or extension. */
  function Stem(p: string): string
  {
    Basename(StripExtension(p))
  }

  /**
   * For a name ending in an extension `ext` (a dot then dot- and
   * separator-free text) whose basename holds a non-dot character before the
   * extension, the stem followed by `ext` is exactly the basename.
   */
  lemma StemOfExtension(p: string, ext: string)
    requires |ext| >= 1 && ext[0] == '.'
    requires '.' !in ext[1..] && Sep !in ext
    requires EndsWith(p, ext)
    requires HasNonDot(p, |p| - |Basename(p)|, |p| - |ext|)
    ensures Stem(p) + ext == Basename(p)
  {
    var sepIndex := LastIndexOf(p, Sep);
    assert |p| - |Basename(p)| == sepIndex + 1;
    StemIsSlice(p, ext, sepIndex);
    SplitAtSuffix(p, ext, sepIndex + 1);
  }

  /** Text from `lo` on is the text up to a suffix followed by that suffix. */
  lemma SplitAtSuffix(p: string, ext: string, lo: int)
    requires EndsWith(p, ext)
    requires 0 <= lo <= |p| - |ext|
    ensures p[lo..] == p[lo..|p| - |ext|] + ext
  {
    assert p[|p| - |ext|..] == ext;
  }

  /** Under the conditions of `StemOfExtension`, the stem is the text between the last separator and `ext`. */
  lemma StemIsSlice(p: string, ext: string, sepIndex: int)
    requires |ext| >= 1 && ext[0] == '.'
    requires '.' !in ext[1..] && Sep !in ext
    requires EndsWith(p, ext)
    requires sepIndex == LastIndexOf(p, Sep)
    requires HasNonDot(p, sepIndex + 1, |p| - |ext|)
    ensures sepIndex < |p| - |ext|
    ensures Stem(p) == p[sepIndex + 1..|p| - |ext|]
  {
    var dotIndex := |p| - |ext|;
    StripsExtension(p, ext);
    StemOfPrefix(p, sepIndex, dotIndex);
  }

  /** Under the conditions of `StemOfExtension`, `splitext` cuts exactly `ext` off. */
  lemma StripsExtension(p: string, ext: string)
    requires |ext| >= 1 && ext[0] == '.'
    requires '.' !in ext[1..] && Sep !in ext
    requires EndsWith(p, ext)
    requires HasNonDot(p, LastIndexOf(p, Sep) + 1, |p| - |ext|)
    ensures LastIndexOf(p, Sep) < |p| - |ext|
    ensures StripExtension(p) == p[..|p| - |ext|]
  {
    LastDotOfExtension(p, ext);
    SepBeforeExtension(p, ext);
  }

  /** The last separator of a name comes before an extension free of separators. */
  lemma SepBeforeExtension(p: string, ext: string)
    requires Sep !in ext
    requires EndsWith(p, ext)
    ensures LastIndexOf(p, Sep) < |p| - |ext|
  {
    LastIndexOfNone(ext, Sep);
    LastIndexOfConcat(p[..|p| - |ext|], ext, Sep);
    assert p[..|p| - |ext|] + ext == p;
  }

  /** The dot that starts an extension free of dots is the last dot. */
  lemma LastDotOfExtension(p: string, ext: string)
    requires |ext| >= 1 && ext[0] == '.'
    requires '.' !in ext[1..]
    requires EndsWith(p, ext)
    ensures LastIndexOf(p, '.') == |p| - |ext|
  {
    assert forall k :: 0 < k < |ext| ==> ext[k] == ext[1..][k - 1];
    LastIndexOfAt(ext, '.', 0);
    LastIndexOfConcat(p[..|p| - |ext|], ext, '.');
    assert p[..|p| - |ext|] + ext == p;
  }

  /** Cutting `p` after its last separator leaves the text in between as basename. */
  lemma StemOfPrefix(p: string, sepIndex: int, cut: int)
    requires sepIndex == LastIndexOf(p, Sep)
    requires sepIndex < cut <= |p|
    ensures Basename(p[..cut]) == p[sepIndex + 1..cut]
  {
    LastIndexOfPrefix(p, Sep, cut);
    assert p[..cut][sepIndex + 1..] == p[sepIndex + 1..cut];
  }
}
