/**
 * The index of outputs produced by earlier runs (`get_exists`): the basenames
 * of the `.mkv` files found under the output roots, looked up by basename
 * only.
 */
module ExistingIndex {
  import opened Text
  import Paths

  /** The basenames of the found files, in the order they were found. */
  function Index(found: seq<string>): (names: seq<string>)
    ensures |names| == |found|
    ensures forall i :: 0 <= i < |found| ==> names[i] == Paths.Basename(found[i])
  {
    seq(|found|, i requires 0 <= i < |found| => Paths.Basename(found[i]))
  }

  /** `exists(name)`: some indexed file has the basename of `name`. */
  predicate Exists(names: seq<string>, name: string)
  {
    Paths.Basename(name) in names
  }

  /**
   * A name is reported as existing exactly when some found file, in whatever
   * folder, shares its basename.
   */
  lemma ExistsIff(found: seq<string>, name: string)
    ensures Exists(Index(found), name) <==> exists g :: g in found && Paths.Basename(g) == Paths.Basename(name)
  {
    var names := Index(found);
    if Exists(names, name) {
      var i :| 0 <= i < |names| && names[i] == Paths.Basename(name);
      assert found[i] in found;
    }
    if g :| g in found && Paths.Basename(g) == Paths.Basename(name) {
      var i :| 0 <= i < |found| && found[i] == g;
      assert names[i] == Paths.Basename(name);
    }
  }

  /** A suffix of a basename is a suffix of the whole path. */
  lemma BasenameSuffix(p: string, ext: string)
    requires EndsWith(Paths.Basename(p), ext)
    ensures EndsWith(p, ext)
  {
    var b := Paths.Basename(p);
    assert p[|p| - |ext|..] == b[|b| - |ext|..];
  }

  /**
   * Only `.mkv` files are indexed, so a name with another extension is never
   * reported as existing; stated for any separator-free extension `ext`.
   */
  lemma OnlyExtensionIndexed(found: seq<string>, name: string, ext: string)
    requires Paths.Sep !in ext
    requires forall g :: g in found ==> EndsWith(g, ext)
    requires !EndsWith(name, ext)
    ensures !Exists(Index(found), name)
  {
    ExistsIff(found, name);
    if g :| g in found && Paths.Basename(g) == Paths.Basename(name) {
      Paths.BasenameKeepsSuffix(g, ext);
      BasenameSuffix(name, ext);
    }
  }
}
