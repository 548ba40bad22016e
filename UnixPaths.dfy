/**
 * The lexical part of java.nio.file's Unix path handling that the file service
 * relies on: `Path.getFileName`, `Path.resolve` and `Path.getParent`, on
 * strings whose only separator is '/'.  Paths are kept in the normal form a
 * Unix `Path` object holds: no trailing and no doubled separator.
 */
module UnixPaths {
  import opened Wrappers

  /** One name element of a path: non-empty, no separator, no NUL character. */
  predicate IsSegment(s: string) {
    s != [] && '/' !in s && '\0' !in s
  }

  predicate IsAbsolute(p: string) {
    p != [] && p[0] == '/'
  }

  /** An absolute, normalized directory such as `toAbsolutePath().normalize()` yields. */
  predicate IsNormalDirectory(p: string) {
    IsAbsolute(p) && (p == "/" || p[|p| - 1] != '/') && '\0' !in p
  }

  /** The input with its trailing separators removed (a Unix `Path` drops them). */
  function StripTrailingSeparators(p: string): (r: string)
    ensures r <= p
    ensures r == [] || r[|r| - 1] != '/'
    ensures forall i :: |r| <= i < |p| ==> p[i] == '/'
  {
    if p != [] && p[|p| - 1] == '/' then StripTrailingSeparators(p[..|p| - 1]) else p
  }

  /** The text after the last separator. */
  function LastName(p: string): (r: string)
    ensures '/' !in r
    ensures |r| <= |p| && r == p[|p| - |r|..]
    ensures |r| < |p| ==> p[|p| - |r| - 1] == '/'
    ensures p != [] && p[|p| - 1] != '/' ==> r != []
  {
    if p == [] || p[|p| - 1] == '/' then [] else LastName(p[..|p| - 1]) + [p[|p| - 1]]
  }

  /**
   * `Path.getFileName()`: the last name element, or null (None) for a path
   * made of separators only, which has no name element.
   */
  function FileName(p: string): (r: Option<string>)
    ensures r.None? <==> p != [] && forall i :: 0 <= i < |p| ==> p[i] == '/'
    ensures r.Some? ==> '/' !in r.value
    ensures r.Some? && p != [] ==> r.value != []
    ensures r.Some? && '\0' !in p ==> '\0' !in r.value
  {
    var t := StripTrailingSeparators(p);
    if t == [] then
      (if p == [] then Some([]) else None)
    else
      var name := LastName(t);
      assert name == p[|t| - |name|..|t|];
      Some(name)
  }

  /** `Path.resolve(other)`. */
  function Resolve(dir: string, other: string): (r: string)
    ensures IsAbsolute(other) ==> r == other
    ensures IsAbsolute(dir) ==> IsAbsolute(r)
  {
    if other == [] then dir
    else if dir == [] || other[0] == '/' then other
    else if dir == "/" then "/" + other
    else dir + "/" + other
  }

  /** `Path.getParent()` of a path in normal form: the text before the last separator, the root when that text is empty, and None when there is no separator. */
  function Parent(p: string): Option<string> {
    var name := LastName(p);
    if p == "/" || |name| == |p| then None
    else if |p| - |name| - 1 == 0 then Some("/")
    else Some(p[..|p| - |name| - 1])
  }

  lemma {:induction false} LastNameAfterSeparator(dir: string, name: string)
    requires '/' !in name
    ensures LastName(dir + "/" + name) == name
  {
    var p := dir + "/" + name;
    if name == [] {
      assert p[|p| - 1] == '/';
    } else {
      var init := name[..|name| - 1];
      assert p[..|p| - 1] == dir + "/" + init;
      LastNameAfterSeparator(dir, init);
      assert name == init + [name[|name| - 1]];
    }
  }

  lemma {:induction false} LastNameOfName(name: string)
    requires '/' !in name
    ensures LastName(name) == name
  {
    if name != [] {
      var init := name[..|name| - 1];
      assert name == init + [name[|name| - 1]];
      LastNameOfName(init);
    }
  }

  /** A name element is the file name of itself and of every path that ends in it. */
  lemma FileNameOfLastElement(dir: string, name: string)
    requires name != [] && '/' !in name
    ensures FileName(name) == Some(name)
    ensures FileName(dir + "/" + name) == Some(name)
  {
    LastNameOfName(name);
    assert StripTrailingSeparators(name) == name by { assert name[|name| - 1] != '/'; }
    var p := dir + "/" + name;
    LastNameAfterSeparator(dir, name);
    assert StripTrailingSeparators(p) == p by { assert p[|p| - 1] == name[|name| - 1]; }
  }

  /** `name` starts at index `j` of `p`, at the start or after a separator, and only separators follow it. */
  predicate EndsWithElementAt(p: string, name: string, j: int) {
    && 0 <= j && j + |name| <= |p| && p[j..j + |name|] == name
    && (j == 0 || p[j - 1] == '/')
    && forall i :: j + |name| <= i < |p| ==> p[i] == '/'
  }

  /**
   * Which name `getFileName()` returns: a run of the path that starts the path
   * or follows a separator, and after which only separators remain.  With the
   * name being non-empty and free of separators, this is the last name
   * element, whatever trailing separators follow it.
   */
  lemma FileNameIsLastElement(p: string)
    ensures FileName(p).Some? && p != [] ==> exists j :: EndsWithElementAt(p, FileName(p).value, j)
  {
    if FileName(p).Some? && p != [] {
      var t := StripTrailingSeparators(p);
      var name := LastName(t);
      assert FileName(p) == Some(name);
      var j := |t| - |name|;
      assert p[j..j + |name|] == name;
      assert j == 0 || p[j - 1] == '/' by {
        if j > 0 {
          assert t[j - 1] == '/';
        }
      }
      assert EndsWithElementAt(p, name, j);
    }
  }

  /**
   * Resolving a single name element against a normalized directory gives a
   * path whose file name is that element and whose parent is that directory.
   */
  lemma ResolveInDirectory(dir: string, name: string)
    requires IsNormalDirectory(dir) && IsSegment(name)
    ensures Resolve(dir, name) == (if dir == "/" then "/" else dir + "/") + name
    ensures FileName(Resolve(dir, name)) == Some(name)
    ensures Parent(Resolve(dir, name)) == Some(dir)
  {
    var p := Resolve(dir, name);
    var prefix := if dir == "/" then [] else dir;
    assert p == prefix + "/" + name;
    LastNameAfterSeparator(prefix, name);
    assert p[|p| - 1] == name[|name| - 1] != '/';
    assert StripTrailingSeparators(p) == p;
    assert p[..|p| - |name| - 1] == prefix;
  }
}
