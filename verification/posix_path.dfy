/** The parts of Python's posixpath (os.path) and str that the solar
    scripts rely on: rfind, rstrip, join, split and splitext on POSIX
    paths, as in Python 2.7. */
module PosixPath {

  /** s.rfind(c): the last index of c in s, -1 when there is none. */
  function RFind(s: string, c: char): (i: int)
    ensures -1 <= i < |s|
    ensures i >= 0 ==> s[i] == c
    ensures forall j | i < j < |s| :: s[j] != c
  {
    if s == [] then -1
    else if s[|s| - 1] == c then |s| - 1
    else RFind(s[..|s| - 1], c)
  }

  /** s.rstrip(c): s without its trailing run of c. */
  function RStrip(s: string, c: char): (r: string)
    ensures |r| <= |s| && r == s[..|r|]
    ensures r == [] || r[|r| - 1] != c
    ensures forall j | |r| <= j < |s| :: s[j] == c
  {
    if s != [] && s[|s| - 1] == c then RStrip(s[..|s| - 1], c) else s
  }

  predicate AllSlashes(s: string) {
    forall j | 0 <= j < |s| :: s[j] == '/'
  }

  /** os.path.join(a, b): an absolute b replaces a; otherwise a slash is
      put between them unless a is empty or already ends with one. */
  function Join(a: string, b: string): (r: string)
    ensures |b| <= |r| && r[|r| - |b|..] == b
    ensures |b| > 0 && b[0] == '/' ==> r == b
    ensures (|b| == 0 || b[0] != '/') && a != [] && a[|a| - 1] != '/' ==> r == a + "/" + b
  {
    if |b| > 0 && b[0] == '/' then b
    else if a == [] || a[|a| - 1] == '/' then a + b
    else a + "/" + b
  }

  /** os.path.split(p): everything up to the last slash, with its
      trailing slashes removed unless it is made of slashes only, and
      the rest. */
  function SplitPath(p: string): (r: (string, string))
    ensures '/' !in r.1
    ensures |r.1| <= |p| && r.1 == p[|p| - |r.1|..]
    ensures |r.0| + |r.1| <= |p| && r.0 == p[..|r.0|]
  {
    var i := RFind(p, '/') + 1;
    var head, tail := p[..i], p[i..];
    assert forall c | c in tail :: c != '/' by {
      forall c | c in tail ensures c != '/' {
        var j :| 0 <= j < |tail| && tail[j] == c;
        assert p[i + j] == c;
      }
    }
    if head != [] && !AllSlashes(head) then (RStrip(head, '/'), tail) else (head, tail)
  }

  /** The dot of the extension, if any: the last dot after the last
      slash, provided a character other than a dot precedes it in the
      file name. */
  predicate HasExtension(p: string) {
    var sepIndex, dotIndex := RFind(p, '/'), RFind(p, '.');
    dotIndex > sepIndex && exists j | sepIndex + 1 <= j < dotIndex :: p[j] != '.'
  }

  /** os.path.splitext(p): the root and the extension, which is empty or
      a dot followed by neither a dot nor a slash. */
  function SplitExt(p: string): (r: (string, string))
    ensures r.0 + r.1 == p
    ensures r.1 == [] || (r.1[0] == '.' && '/' !in r.1 && '.' !in r.1[1..])
    ensures r.1 != [] <==> HasExtension(p)
  {
    if HasExtension(p) then
      var dotIndex := RFind(p, '.');
      var ext := p[dotIndex..];
      assert '/' !in ext by {
        forall j | 0 <= j < |ext| ensures ext[j] != '/' {
          assert ext[j] == p[dotIndex + j];
        }
      }
      assert '.' !in ext[1..] by {
        forall j | 0 <= j < |ext[1..]| ensures ext[1..][j] != '.' {
          assert ext[1..][j] == p[dotIndex + 1 + j];
        }
      }
      (p[..dotIndex], ext)
    else (p, "")
  }

  // ---------------------------------------------------------------------
  // Round trips

  /** A directory that split returns as it is: empty, made of slashes
      only, or not ending with a slash. */
  predicate CanonicalDirectory(d: string) {
    d == [] || d[|d| - 1] != '/' || AllSlashes(d)
  }

  /** Splitting the join of a directory and a plain file name gives them
      back. */
  lemma SplitOfJoin(dir: string, name: string)
    requires '/' !in name && CanonicalDirectory(dir)
    ensures SplitPath(Join(dir, name)) == (dir, name)
  {
    if dir == [] {
      SplitOfPlainName(name);
    } else if dir[|dir| - 1] == '/' {
      SplitAfterSlash(dir, name);
    } else {
      SplitAfterAddedSlash(dir, name);
    }
  }

  /** The last occurrence is found from its position and the absence of
      c after it. */
  lemma RFindAt(s: string, c: char, i: int)
    requires 0 <= i < |s| && s[i] == c
    requires forall j | i < j < |s| :: s[j] != c
    ensures RFind(s, c) == i
  {
  }

  /** A name without a slash splits into an empty directory and itself. */
  lemma SplitOfPlainName(name: string)
    requires '/' !in name
    ensures SplitPath(Join([], name)) == ([], name)
  {
    assert Join([], name) == name;
    forall j | 0 <= j < |name| ensures name[j] != '/' {
      assert name[j] in name;
    }
    assert RFind(name, '/') == -1;
    assert name[..0] == [] && name[0..] == name;
  }

  /** A directory ending with a slash is kept whole by the split. */
  lemma SplitAfterSlash(dir: string, name: string)
    requires '/' !in name && dir != [] && dir[|dir| - 1] == '/' && AllSlashes(dir)
    ensures SplitPath(Join(dir, name)) == (dir, name)
  {
    var p := dir + name;
    assert Join(dir, name) == p;
    assert p[|dir| - 1] == '/';
    forall j | |dir| <= j < |p| ensures p[j] != '/' {
      assert p[j] == name[j - |dir|];
      assert name[j - |dir|] in name;
    }
    RFindAt(p, '/', |dir| - 1);
    assert p[..|dir|] == dir && p[|dir|..] == name;
  }

  /** Between a directory not ending with a slash and the name, join puts
      the slash that split then removes. */
  lemma SplitAfterAddedSlash(dir: string, name: string)
    requires '/' !in name && dir != [] && dir[|dir| - 1] != '/'
    ensures SplitPath(Join(dir, name)) == (dir, name)
  {
    var p := dir + "/" + name;
    assert Join(dir, name) == p;
    assert p[|dir|] == '/';
    forall j | |dir| < j < |p| ensures p[j] != '/' {
      assert p[j] == name[j - |dir| - 1];
      assert name[j - |dir| - 1] in name;
    }
    RFindAt(p, '/', |dir|);
    var head := p[..|dir| + 1];
    assert head == dir + "/";
    assert head[|dir| - 1] != '/';
    assert !AllSlashes(head);
    assert p[|dir| + 1..] == name;
    RStripOne(dir);
  }

  lemma RStripOne(d: string)
    requires d != [] && d[|d| - 1] != '/'
    ensures RStrip(d + "/", '/') == d
  {
    assert (d + "/")[..|d|] == d;
  }

  /** No two consecutive slashes. */
  predicate NoDoubleSlash(p: string) {
    forall j | 0 <= j < |p| - 1 :: !(p[j] == '/' && p[j + 1] == '/')
  }

  /** Joining the two halves of a split gives the path back, when it
      holds no doubled slash. */
  lemma JoinOfSplit(p: string)
    requires NoDoubleSlash(p)
    ensures Join(SplitPath(p).0, SplitPath(p).1) == p
  {
    var i := RFind(p, '/') + 1;
    SplitHalves(p, i);
    SplitTail(p);
    if i == 0 {
      JoinOfSplitNoSlash(p);
    } else if AllSlashes(p[..i]) {
      JoinOfSplitRoot(p, i);
    } else {
      JoinOfSplitDirectory(p, i);
    }
  }

  /** The halves around the last slash: the tail holds no slash, so it
      does not start with one, and the two make up the path. */
  lemma SplitHalves(p: string, i: int)
    requires 0 <= i <= |p|
    requires forall j | i <= j < |p| :: p[j] != '/'
    ensures '/' !in p[i..] && (p[i..] == [] || p[i..][0] != '/')
    ensures p[..i] + p[i..] == p
  {
    var tail := p[i..];
    forall j | 0 <= j < |tail| ensures tail[j] != '/' {
      assert tail[j] == p[i + j];
    }
  }

  /** The tail of split is what follows the last slash. */
  lemma SplitTail(p: string)
    ensures SplitPath(p).1 == p[RFind(p, '/') + 1..]
  {
  }

  /** A path without a slash: split gives an empty head. */
  lemma JoinOfSplitNoSlash(p: string)
    requires RFind(p, '/') == -1
    ensures Join(SplitPath(p).0, SplitPath(p).1) == p
  {
    assert p[..0] == [] && p[0..] == p;
    assert SplitPath(p) == ([], p);
    if p != [] {
      assert p[0] != '/';
    }
    assert Join([], p) == p;
  }

  /** A head of slashes only is kept whole, and join puts no slash after
      it. */
  lemma JoinOfSplitRoot(p: string, i: int)
    requires i == RFind(p, '/') + 1 && i > 0 && AllSlashes(p[..i])
    requires '/' !in p[i..] && (p[i..] == [] || p[i..][0] != '/')
    requires p[..i] + p[i..] == p
    ensures Join(SplitPath(p).0, SplitPath(p).1) == p
  {
    var head, tail := p[..i], p[i..];
    assert SplitPath(p) == (head, tail);
    assert head[|head| - 1] == '/';
    assert Join(head, tail) == head + tail;
  }

  /** Otherwise the single slash before the tail is stripped by split and
      put back by join. */
  lemma JoinOfSplitDirectory(p: string, i: int)
    requires NoDoubleSlash(p)
    requires i == RFind(p, '/') + 1 && i > 0 && !AllSlashes(p[..i])
    requires '/' !in p[i..] && (p[i..] == [] || p[i..][0] != '/')
    requires p[..i] + p[i..] == p
    ensures Join(SplitPath(p).0, SplitPath(p).1) == p
  {
    SplitPathStrips(p, i);
    var d := p[..i - 1];
    DirectoryBeforeSlash(p, i, d);
    RStripOne(d);
    JoinPutsSlash(d, p[i..]);
  }

  /** When the head is not made of slashes only, split strips its
      trailing slashes. */
  lemma SplitPathStrips(p: string, i: int)
    requires i == RFind(p, '/') + 1 && i > 0 && !AllSlashes(p[..i])
    ensures SplitPath(p) == (RStrip(p[..i], '/'), p[i..])
  {
  }

  /** The head is a directory not ending with a slash, followed by the
      last slash. */
  lemma DirectoryBeforeSlash(p: string, i: int, d: string)
    requires NoDoubleSlash(p)
    requires 0 < i <= |p| && p[i - 1] == '/' && !AllSlashes(p[..i])
    requires d == p[..i - 1]
    ensures d != [] && d[|d| - 1] != '/'
    ensures p[..i] == d + "/"
  {
    assert i >= 2;
    assert p[i - 2] != '/';
  }

  /** join puts the slash back between a directory not ending with one
      and a name not starting with one. */
  lemma JoinPutsSlash(d: string, tail: string)
    requires d != [] && d[|d| - 1] != '/'
    requires tail == [] || tail[0] != '/'
    ensures Join(d, tail) == d + "/" + tail
  {
  }

  /** A root holding no slash and not only dots, followed by an
      extension, splits back into the two. */
  lemma SplitExtOf(root: string, ext: string)
    requires '/' !in root && exists j | 0 <= j < |root| :: root[j] != '.'
    requires ext != [] && ext[0] == '.' && '/' !in ext && '.' !in ext[1..]
    ensures SplitExt(root + ext) == (root, ext)
  {
    var p := root + ext;
    assert RFind(p, '/') == -1 by {
      forall j | 0 <= j < |p| ensures p[j] != '/' {
        if j < |root| {
          assert p[j] == root[j] && root[j] in root;
        } else {
          assert p[j] == ext[j - |root|] && ext[j - |root|] in ext;
        }
      }
    }
    assert RFind(p, '.') == |root| by {
      assert p[|root|] == '.';
      forall j | |root| < j < |p| ensures p[j] != '.' {
        assert p[j] == ext[1..][j - |root| - 1];
        assert ext[1..][j - |root| - 1] in ext[1..];
      }
    }
    var k :| 0 <= k < |root| && root[k] != '.';
    assert p[k] != '.';
    assert HasExtension(p);
    assert p[..|root|] == root && p[|root|..] == ext;
  }
}
