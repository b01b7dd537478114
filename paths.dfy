/** The two POSIX path operations of Python's `os.path` that the folder script uses. */
module Paths {
  import opened Strings

  /** `os.path.join(a, b)` for two components. */
  function Join(a: string, b: string): string {
    if |b| > 0 && b[0] == '/' then b
    else if a == [] || a[|a| - 1] == '/' then a + b
    else a + "/" + b
  }

  /** An absolute `b` replaces `a`; otherwise `b` comes after `a`, with one `/` between
      them unless `a` is empty or already ends with `/`. */
  lemma JoinSpec(a: string, b: string)
    ensures |b| > 0 && b[0] == '/' ==> Join(a, b) == b
    ensures !(|b| > 0 && b[0] == '/') ==>
      && EndsWith(Join(a, b), b)
      && Join(a, b)[..|Join(a, b)| - |b|] == (if a == [] || a[|a| - 1] == '/' then a else a + "/")
  {
    if !(|b| > 0 && b[0] == '/') && !(a == [] || a[|a| - 1] == '/') {
      assert a + "/" + b == (a + "/") + b;
    }
  }

  /** The extension part has the shape `os.path.splitext` gives it: empty, or a dot
      followed by characters that are neither dots nor separators. */
  predicate IsExtension(e: string) {
    e == [] || (e[0] == '.' && forall i :: 0 < i < |e| ==> e[i] != '.' && e[i] != '/')
  }

  /** Some character of `s[lo..hi]` is not a dot. */
  predicate HasNonDot(s: string, lo: int, hi: int)
    requires 0 <= lo && hi <= |s|
  {
    exists k :: lo <= k < hi && s[k] != '.'
  }

  /** `os.path.splitext(p)`. */
  function SplitExt(p: string): (string, string) {
    var sep := RFind(p, '/');
    var dot := RFind(p, '.');
    if dot > sep && HasNonDot(p, sep + 1, dot) then (p[..dot], p[dot..]) else (p, "")
  }

  /** `splitext` cuts the path in two: the extension starts at the last dot of the last
      path component, unless every character of that component before the dot is a dot
      (`.bashrc`, `..png`), in which case there is no extension; there is an extension
      exactly when the last component has a dot with a non-dot before it. */
  lemma SplitExtSpec(p: string)
    ensures SplitExt(p).0 + SplitExt(p).1 == p
    ensures IsExtension(SplitExt(p).1)
    ensures SplitExt(p).1 != [] ==>
      RFind(p, '/') < |SplitExt(p).0| && HasNonDot(p, RFind(p, '/') + 1, |SplitExt(p).0|)
    ensures SplitExt(p).1 != [] ==> SplitExt(p).0 == p[..RFind(p, '.')]
    ensures SplitExt(p).1 != [] <==>
      RFind(p, '.') > RFind(p, '/') && HasNonDot(p, RFind(p, '/') + 1, RFind(p, '.'))
  {
    var dot := RFind(p, '.');
    if SplitExt(p).1 != [] {
      assert p[..dot] + p[dot..] == p;
    } else {
      assert p + "" == p;
    }
  }

  /** The `.txt` path the folder script derives from an image path:
      `os.path.splitext(p)[0] + ".txt"`. */
  function TxtPath(p: string): string {
    SplitExt(p).0 + ".txt"
  }

  /** The `.txt` path ends in `.txt`, and putting the extension back in place of `.txt`
      gives the image path again. */
  lemma TxtPathSpec(p: string)
    ensures EndsWith(TxtPath(p), ".txt")
    ensures TxtPath(p)[..|TxtPath(p)| - 4] + SplitExt(p).1 == p
  {
    SplitExtSpec(p);
    assert TxtPath(p)[..|TxtPath(p)| - 4] == SplitExt(p).0;
  }

  /** `splitext` looks at the last path component only: a directory prefix ending
      in `/` is carried over unchanged to the root part. */
  lemma SplitExtAfterDirectory(prefix: string, name: string)
    requires prefix == [] || prefix[|prefix| - 1] == '/'
    requires '/' !in name
    ensures SplitExt(prefix + name) == (prefix + SplitExt(name).0, SplitExt(name).1)
  {
    if prefix == [] {
      assert prefix + name == name;
      assert prefix + SplitExt(name).0 == SplitExt(name).0;
    } else {
      assert RFind(name, '/') == -1;
      RFindAppend(prefix, name, '/');
      RFindAppend(prefix, name, '.');
      if RFind(name, '.') >= 0 {
        SplitExtAfterDirectoryDot(prefix, name);
      } else {
        var p := prefix + name;
        assert RFind(p, '.') == RFind(prefix, '.') <= |prefix| - 1 == RFind(p, '/');
        assert SplitExt(name) == (name, "");
        assert SplitExt(p) == (p, "");
      }
    }
  }

  /** The case of `SplitExtAfterDirectory` where the name holds a dot. */
  lemma SplitExtAfterDirectoryDot(prefix: string, name: string)
    requires |prefix| > 0
    requires RFind(name, '/') == -1 && 0 <= RFind(name, '.')
    requires RFind(prefix + name, '/') == |prefix| - 1
    requires RFind(prefix + name, '.') == |prefix| + RFind(name, '.')
    ensures SplitExt(prefix + name) == (prefix + SplitExt(name).0, SplitExt(name).1)
  {
    var p := prefix + name;
    var off := |prefix|;
    var dotN := RFind(name, '.');
    assert HasNonDot(name, 0, dotN) <==> HasNonDot(p, off, off + dotN) by {
      if HasNonDot(name, 0, dotN) {
        var k :| 0 <= k < dotN && name[k] != '.';
        assert p[off + k] == name[k];
      }
      if HasNonDot(p, off, off + dotN) {
        var k :| off <= k < off + dotN && p[k] != '.';
        assert p[k] == name[k - off];
      }
    }
    if HasNonDot(name, 0, dotN) {
      assert SplitExt(name) == (name[..dotN], name[dotN..]);
      assert SplitExt(p) == (p[..off + dotN], p[off + dotN..]);
      assert p[..off + dotN] == prefix + name[..dotN];
      assert p[off + dotN..] == name[dotN..];
    } else {
      assert SplitExt(name) == (name, "");
      assert SplitExt(p) == (p, "");
    }
  }
}
