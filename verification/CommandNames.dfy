/**
 The file name under which a behaviour's script is published, and the base name
 that the webhook reports for the same target path.
 */
module CommandNames {

  // Drops every trailing slash.
  function TrimSlashes(path: string): string {
    if path != "" && path[|path| - 1] == '/' then TrimSlashes(path[..|path| - 1]) else path
  }

  // What follows the last slash.
  function LastElement(path: string): string {
    if path == "" || path[|path| - 1] == '/' then ""
    else LastElement(path[..|path| - 1]) + [path[|path| - 1]]
  }

  // filepath.Base
  function Base(path: string): string {
    if path == "" then "."
    else
      var b := LastElement(TrimSlashes(path));
      if b == "" then "/" else b
  }

  // filepath.Ext: a backward scan for the last dot of the last element.
  function Ext(path: string): (e: string)
    ensures |e| <= |path|
  {
    if path == "" then ""
    else
      var init, last := path[..|path| - 1], path[|path| - 1];
      if last == '/' then ""
      else if last == '.' then "."
      else if Ext(init) == "" then "" else Ext(init) + [last]
  }

  function CommandName(targetPath: string): string {
    var b := Base(targetPath);
    b[..|b| - |Ext(b)|]
  }

  // Names that filepath.Join turns into the directory itself or its parent.
  predicate Proper(name: string) {
    name != "" && name != "." && name != ".." && name != "/"
  }

  predicate AllSlashes(s: string) {
    forall i | 0 <= i < |s| :: s[i] == '/'
  }

  lemma {:induction false} TrimSlashesShape(path: string)
    ensures
      var p := TrimSlashes(path);
      && p <= path && AllSlashes(path[|p|..])
      && (p != "" ==> p[|p| - 1] != '/')
    decreases |path|
  {
    if path != "" && path[|path| - 1] == '/' {
      var init := path[..|path| - 1];
      TrimSlashesShape(init);
      var p := TrimSlashes(init);
      assert path[|p|..] == init[|p|..] + "/";
    }
  }

  lemma {:induction false} LastElementShape(path: string)
    ensures
      var e := LastElement(path);
      && |e| <= |path| && e == path[|path| - |e|..] && '/' !in e
      && (|e| < |path| ==> path[|path| - |e| - 1] == '/')
    decreases |path|
  {
    if path != "" && path[|path| - 1] != '/' {
      LastElementShape(path[..|path| - 1]);
    }
  }

  // b stands at i in path: after a slash or at the start, with only slashes behind it.
  predicate ElementAt(path: string, b: string, i: nat) {
    && i + |b| <= |path| && path[i..i + |b|] == b
    && (i == 0 || path[i - 1] == '/')
    && AllSlashes(path[i + |b|..])
  }

  /**
   The base name of a path that is not all slashes: path is a directory part, empty or
   ending in a slash, then the base name, which has no slash, then slashes.
   */
  lemma BaseShape(path: string)
    ensures Base(path) != ""
    ensures path == "" ==> Base(path) == "."
    ensures path != "" && AllSlashes(path) ==> Base(path) == "/"
    ensures path != "" && !AllSlashes(path) ==>
      '/' !in Base(path) && exists i: nat :: ElementAt(path, Base(path), i)
  {
    if path != "" {
      var p := TrimSlashes(path);
      TrimSlashesShape(path);
      LastElementShape(p);
      if p == "" {
        assert path[0..] == path;
      } else {
        var e := LastElement(p);
        var i := |p| - |e|;
        assert path[i..i + |e|] == e;
        assert path[i + |e|..] == path[|p|..];
        assert ElementAt(path, e, i);
      }
    }
  }

  // The extension is the shortest suffix that starts with a dot.
  lemma {:induction false} ExtShape(name: string)
    requires '/' !in name
    ensures
      var e := Ext(name);
      && |e| <= |name| && name[|name| - |e|..] == e
      && (e == "" <==> '.' !in name)
      && (e != "" ==> e[0] == '.' && '.' !in e[1..])
    decreases |name|
  {
    if name != "" {
      var init := name[..|name| - 1];
      ExtShape(init);
      assert name == init + [name[|name| - 1]];
    }
  }

  /**
   Agreement: the sidecar's name for a target is the webhook's base name less its last
   extension; it is the whole base name exactly when that has no dot, and it has no
   slash unless the base name is the root.
   */
  lemma CommandNameAgrees(targetPath: string)
    ensures
      var name, base := CommandName(targetPath), Base(targetPath);
      && name <= base
      && (name == base <==> '.' !in base)
      && (name != base ==> base[|name|] == '.' && '.' !in base[|name| + 1..])
      && ('/' in name <==> base == "/")
  {
    BaseShape(targetPath);
    var b := Base(targetPath);
    if b != "/" {
      ExtShape(b);
      var e := Ext(b);
      if e != "" {
        assert b[|b| - |e|..][0] == '.';
        assert b[|b| - |e| + 1..] == e[1..];
      }
    }
  }

  // What a directory part and a file name come to.
  lemma {:induction false} LastElementOf(dir: string, name: string)
    requires '/' !in name && (dir == "" || dir[|dir| - 1] == '/')
    ensures LastElement(dir + name) == name
    decreases |name|
  {
    if name != "" {
      var init := name[..|name| - 1];
      LastElementOf(dir, init);
      assert (dir + name)[..|dir + name| - 1] == dir + init;
    } else {
      assert dir + name == dir;
    }
  }

  lemma BaseOf(dir: string, name: string)
    requires name != "" && '/' !in name && (dir == "" || dir[|dir| - 1] == '/')
    ensures Base(dir + name) == name
  {
    assert (dir + name)[|dir + name| - 1] == name[|name| - 1];
    LastElementOf(dir, name);
  }

  lemma {:induction false} ExtOf(stem: string, ext: string)
    requires '.' !in ext && '/' !in ext
    ensures Ext(stem + "." + ext) == "." + ext
    decreases |ext|
  {
    var name := stem + "." + ext;
    if ext != "" {
      var init := ext[..|ext| - 1];
      ExtOf(stem, init);
      assert name[..|name| - 1] == stem + "." + init;
      assert "." + ext == "." + init + [ext[|ext| - 1]];
    } else {
      assert name[..|name| - 1] == stem && name[|name| - 1] == '.';
    }
  }

  lemma CommandNameOf(dir: string, stem: string, ext: string)
    requires '/' !in stem && '.' !in ext && '/' !in ext && (dir == "" || dir[|dir| - 1] == '/')
    ensures CommandName(dir + (stem + "." + ext)) == stem
  {
    BaseOf(dir, stem + "." + ext);
    ExtOf(stem, ext);
  }

  lemma ProperHasNoSlash(targetPath: string)
    requires Proper(CommandName(targetPath))
    ensures '/' !in CommandName(targetPath)
  {
    CommandNameAgrees(targetPath);
    assert '.' !in "/";
  }
}
