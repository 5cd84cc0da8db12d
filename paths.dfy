/**
 * The path handling the batch relies on: the case-insensitive extension test
 * that decides which files are images, and the output location
 * `folder/basename(path)` of a processed image (POSIX separator rules).
 */
module Paths {

  /** The extensions recognised as images, in lower case. */
  const ImageExtensions: seq<string> := [".png", ".jpg", ".jpeg"]

  /** ASCII lower-casing of one character. */
  function LowerChar(c: char): char {
    if 'A' <= c <= 'Z' then (c as int + 32) as char else c
  }

  function Lower(s: string): string {
    seq(|s|, i requires 0 <= i < |s| => LowerChar(s[i]))
  }

  predicate EndsWith(s: string, suffix: string) {
    |suffix| <= |s| && s[|s| - |suffix|..] == suffix
  }

  /** The extension test: the lower-cased path ends with one of the image extensions. */
  predicate IsImagePath(path: string) {
    EndsWith(Lower(path), ".png") || EndsWith(Lower(path), ".jpg") || EndsWith(Lower(path), ".jpeg")
  }

  /** `s` holds no path separator. */
  predicate NoSlash(s: string) {
    forall i :: 0 <= i < |s| ==> s[i] != '/'
  }

  /**
   * The last component of a path: everything after the last '/', the whole
   * path when there is none, the empty string when the path ends with '/'.
   */
  function Basename(path: string): string
  {
    if path == [] then []
    else if path[|path| - 1] == '/' then []
    else Basename(path[..|path| - 1]) + [path[|path| - 1]]
  }

  /**
   * The basename is the longest suffix of the path without '/': it is a
   * suffix, it holds no '/', and unless it is the whole path a '/' stands
   * right before it.
   */
  lemma {:induction false} BasenameIsLastComponent(path: string)
    ensures var name := Basename(path);
      && NoSlash(name)
      && |name| <= |path| && path[|path| - |name|..] == name
      && (|name| < |path| ==> path[|path| - |name| - 1] == '/')
    decreases |path|
  {
    if path != [] && path[|path| - 1] != '/' {
      var init := path[..|path| - 1];
      BasenameIsLastComponent(init);
      var n := Basename(init);
      assert Basename(path) == n + [path[|path| - 1]];
      assert init[|init| - |n|..] + [path[|path| - 1]] == path[|path| - |n| - 1..];
      if |n| < |init| {
        assert path[|path| - |n| - 2] == init[|init| - |n| - 1];
      }
    }
  }

  /**
   * Joins a folder and a name with one '/' between them: a name that starts
   * with '/' replaces the folder, and no '/' is added after an empty folder
   * or one that already ends with '/'.
   */
  function Join(folder: string, name: string): (path: string)
    ensures EndsWith(path, name)
    ensures |name| > 0 && name[0] == '/' ==> path == name
    ensures (|name| == 0 || name[0] != '/') ==> |folder| <= |path| && path[..|folder|] == folder
    ensures (|name| == 0 || name[0] != '/') ==>
      path[..|path| - |name|] == folder + (if folder != [] && folder[|folder| - 1] != '/' then "/" else "")
  {
    if |name| > 0 && name[0] == '/' then name
    else if folder == [] || folder[|folder| - 1] == '/' then folder + name
    else folder + "/" + name
  }

  /** The paths among `items` that pass the extension test, in their order. */
  function ImageFiles(items: seq<string>): (files: seq<string>)
    ensures |files| <= |items|
  {
    if items == [] then []
    else
      var last := items[|items| - 1];
      assert items == items[..|items| - 1] + [last];
      ImageFiles(items[..|items| - 1]) + (if IsImagePath(last) then [last] else [])
  }

  /** The kept files are exactly the items that pass the extension test. */
  lemma {:induction false} ImageFilesMembers(items: seq<string>)
    ensures forall f :: f in ImageFiles(items) <==> f in items && IsImagePath(f)
    decreases |items|
  {
    if items != [] {
      var init, last := items[..|items| - 1], items[|items| - 1];
      ImageFilesMembers(init);
      assert items == init + [last];
    }
  }

  /** Filtering a concatenation filters each part, keeping the parts in order. */
  lemma {:induction false} ImageFilesAppend(a: seq<string>, b: seq<string>)
    ensures ImageFiles(a + b) == ImageFiles(a) + ImageFiles(b)
    decreases |b|
  {
    if b == [] {
      assert a + b == a;
    } else {
      var init, last := b[..|b| - 1], b[|b| - 1];
      var ab := a + b;
      ImageFilesAppend(a, init);
      assert ab[..|ab| - 1] == a + init && ab[|ab| - 1] == last;
      var tail := if IsImagePath(last) then [last] else [];
      assert ImageFiles(ab) == ImageFiles(a + init) + tail;
      assert ImageFiles(b) == ImageFiles(init) + tail;
    }
  }

  /** A single item is kept exactly when it passes the extension test. */
  lemma ImageFilesSingleton(x: string)
    ensures ImageFiles([x]) == if IsImagePath(x) then [x] else []
  {
    assert [x][..0] == [];
  }

  /** The component after a final '/' (or of a whole path) that holds no '/' is the basename. */
  lemma {:induction false} BasenameAfterSlash(u: string, name: string)
    requires NoSlash(name)
    requires u == [] || u[|u| - 1] == '/'
    ensures Basename(u + name) == name
    decreases |name|
  {
    var x := u + name;
    if name == [] {
      assert x == u;
    } else {
      var init := name[..|name| - 1];
      var last := name[|name| - 1];
      assert x[..|x| - 1] == u + init;
      BasenameAfterSlash(u, init);
      assert init + [last] == name;
    }
  }

  /**
   * The output file of an image keeps its name: the last component of
   * `folder/basename(path)` is `basename(path)`, whatever the folder.
   */
  lemma OutputKeepsBasename(folder: string, path: string)
    ensures Basename(Join(folder, Basename(path))) == Basename(path)
  {
    var name := Basename(path);
    BasenameIsLastComponent(path);
    assert |name| == 0 || name[0] != '/';
    if folder == [] || folder[|folder| - 1] == '/' {
      BasenameAfterSlash(folder, name);
    } else {
      assert Join(folder, name) == (folder + "/") + name;
      BasenameAfterSlash(folder + "/", name);
    }
  }

  /** A tail of the path that holds no '/' lies inside the basename. */
  lemma BasenameCoversSlashFreeTail(path: string, m: nat)
    requires m <= |path|
    requires forall i :: |path| - m <= i < |path| ==> path[i] != '/'
    ensures m <= |Basename(path)|
  {
    BasenameIsLastComponent(path);
  }

  /** Lower-casing works character by character, so it commutes with taking a suffix. */
  lemma LowerSuffix(s: string, k: nat)
    requires k <= |s|
    ensures Lower(s[k..]) == Lower(s)[k..]
  {
  }

  /** A slash-free extension of a path lies inside its basename. */
  lemma ExtensionInsideBasename(path: string, e: string)
    requires NoSlash(e) && EndsWith(Lower(path), e)
    ensures |e| <= |Basename(path)|
  {
    var lp := Lower(path);
    forall i | |path| - |e| <= i < |path| ensures path[i] != '/' {
      assert lp[i] == e[i - (|path| - |e|)];
    }
    BasenameCoversSlashFreeTail(path, |e|);
  }

  /** A suffix short enough to fit in `x[k..]` ends `x` exactly when it ends `x[k..]`. */
  lemma EndsWithDrop(x: string, k: nat, e: string)
    requires k <= |x| && |e| <= |x| - k
    ensures EndsWith(x, e) <==> EndsWith(x[k..], e)
  {
    assert x[k..][|x| - k - |e|..] == x[|x| - |e|..];
  }

  /** The extension test at one extension depends only on the basename. */
  lemma ExtensionOfBasename(path: string, e: string)
    requires NoSlash(e)
    ensures EndsWith(Lower(path), e) <==> EndsWith(Lower(Basename(path)), e)
  {
    var name := Basename(path);
    BasenameIsLastComponent(path);
    var k := |path| - |name|;
    LowerSuffix(path, k);
    if EndsWith(Lower(path), e) {
      ExtensionInsideBasename(path, e);
    }
    if |e| <= |name| {
      EndsWithDrop(Lower(path), k, e);
    }
  }

  /**
   * A path is an image path exactly when its last component is: the folder
   * part never decides the extension test.
   */
  lemma ImagePathIffBasename(path: string)
    ensures IsImagePath(path) <==> IsImagePath(Basename(path))
  {
    ExtensionOfBasename(path, ".png");
    ExtensionOfBasename(path, ".jpg");
    ExtensionOfBasename(path, ".jpeg");
  }

  /**
   * Any path whose extension lower-cases to one of the image extensions
   * passes the extension test, whatever comes before it and whatever the
   * case of its letters.
   */
  lemma ImagePathByExtension(stem: string, ext: string)
    requires Lower(ext) in ImageExtensions
    ensures IsImagePath(stem + ext)
  {
    var p := stem + ext;
    assert p[|stem|..] == ext;
    LowerSuffix(p, |stem|);
  }

  /** A text file does not pass the extension test. */
  lemma ExampleTextFileRejected()
    ensures !IsImagePath("in/notes.txt")
  {
    var lower := Lower("in/notes.txt");
    assert lower[|lower| - 1] == 't';
  }
}
