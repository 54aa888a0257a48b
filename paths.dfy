/**
 * Node's `path.dirname`, on the relative, slash-separated file names the
 * GitHub API reports, and the walk up the parent directories of a file.
 */
module Paths {

  /** Index of the last '/' in `p`. */
  function LastSlash(p: string): (i: nat)
    requires '/' in p
    ensures i < |p| && p[i] == '/' && '/' !in p[i + 1..]
  {
    if p[|p| - 1] == '/' then |p| - 1
    else
      var init := p[..|p| - 1];
      assert p == init + [p[|p| - 1]];
      var i := LastSlash(init);
      assert p[i + 1..] == init[i + 1..] + [p[|p| - 1]];
      i
  }

  /** `path.dirname(p)`: everything before the last '/', or "/" when that
      slash is the leading one, or "." when there is no '/'. */
  function Dirname(p: string): (d: string)
    ensures '/' !in p ==> d == "."
    ensures '/' in p ==>
      (d == "/" && p[0] == '/' && '/' !in p[1..]) ||
      (0 < |d| < |p| && d == p[..|d|] && p[|d|] == '/' && '/' !in p[|d| + 1..])
  {
    if '/' !in p then "."
    else
      var i := LastSlash(p);
      if i == 0 then "/" else p[..i]
  }

  /** The directories the inner walk of getChangedDirectories visits for the
      file `p`: `dirname` applied again and again, nearest first, until it
      yields "." or "/". */
  function Ancestors(p: string): seq<string>
    decreases |p|
  {
    var d := Dirname(p);
    if d == "." || d == "/" then [] else [d] + Ancestors(d)
  }

  /** Every directory of the walk is a proper ancestor of `p`: a prefix of
      `p` followed there by '/', and never "." or "/". */
  lemma {:induction false} AncestorsArePrefixes(p: string)
    ensures forall a :: a in Ancestors(p) ==>
      a != "." && a != "/" && 0 < |a| < |p| && p[..|a|] == a && p[|a|] == '/'
    decreases |p|
  {
    var d := Dirname(p);
    if d != "." && d != "/" {
      AncestorsArePrefixes(d);
      assert forall a :: a in Ancestors(d) ==> p[..|a|] == d[..|a|];
    }
  }

  /** Conversely, the walk visits every proper ancestor of `p`: each prefix
      of `p` that a '/' follows, other than "." and "/". */
  lemma {:induction false} AncestorsComplete(p: string, i: nat)
    requires 0 < i < |p| && p[i] == '/' && p[..i] != "." && p[..i] != "/"
    ensures p[..i] in Ancestors(p)
    decreases |p|
  {
    var j := LastSlash(p);
    forall k | j < k < |p| ensures p[k] != '/' {
      assert p[k] == p[j + 1..][k - j - 1];
    }
    var d := p[..j];
    assert Dirname(p) == d;
    if i < j {
      assert d[..i] == p[..i];
      AncestorsComplete(d, i);
    }
  }

  /** Conversely, the part before the last '/' is the dirname. */
  lemma DirnameBeforeLastSlash(p: string, i: nat)
    requires 0 < i < |p| && p[i] == '/' && '/' !in p[i + 1..]
    ensures Dirname(p) == p[..i]
  {
  }

  /** A file directly inside the top-level directory `dir` has `dir` as its
      only ancestor. */
  lemma TopLevelAncestors(dir: string, name: string)
    requires dir != "" && dir != "." && '/' !in dir && '/' !in name
    ensures Ancestors(dir + "/" + name) == [dir]
  {
    var p := dir + "/" + name;
    assert p[|dir|] == '/' && p[|dir| + 1..] == name && p[..|dir|] == dir;
    DirnameBeforeLastSlash(p, |dir|);
  }
}
