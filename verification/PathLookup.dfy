/**
 Command lookup through PATH, as section 8.3 of POSIX.1-2017 Base Definitions
 describes it, and what prepending one directory does to it.
 */
module PathLookup {
  import opened Fs

  datatype Found = Missing | File(inode: Inode)

  // A file system: what stands behind each pathname.
  type Files = string -> Found

  // The prefixes of a PATH string, separated by colons. An empty string is read as
  // one zero-length prefix.
  function Prefixes(path: string): seq<string> {
    if path == "" then [""]
    else
      var rest := Prefixes(path[1..]);
      if path[0] == ':' then [""] + rest else [[path[0]] + rest[0]] + rest[1..]
  }

  // A zero-length prefix is the working directory; a slash is inserted unless the
  // prefix ends in one.
  function Pathname(prefix: string, cmd: string): string {
    if prefix == "" then "./" + cmd
    else if prefix[|prefix| - 1] == '/' then prefix + cmd
    else prefix + "/" + cmd
  }

  predicate Runs(f: Found) {
    f.File? && Executable(f.inode.mode)
  }

  // The first prefix with an executable file of that name wins.
  function Search(files: Files, prefixes: seq<string>, cmd: string): Found {
    if prefixes == [] then Missing
    else
      var f := files(Pathname(prefixes[0], cmd));
      if Runs(f) then f else Search(files, prefixes[1..], cmd)
  }

  // A command with a slash is a pathname and is not searched for.
  function Lookup(files: Files, path: string, cmd: string): Found {
    if '/' in cmd then files(cmd) else Search(files, Prefixes(path), cmd)
  }

  function Prepend(dir: string, path: string): string {
    dir + ":" + path
  }

  function PrependTimes(dir: string, path: string, times: nat): string {
    if times == 0 then path else Prepend(dir, PrependTimes(dir, path, times - 1))
  }

  lemma {:induction false} PrefixesOfPrepended(dir: string, path: string)
    requires ':' !in dir
    ensures Prefixes(Prepend(dir, path)) == [dir] + Prefixes(path)
    decreases |dir|
  {
    var whole := Prepend(dir, path);
    if dir == "" {
      assert whole[1..] == path;
    } else {
      PrefixesOfPrepended(dir[1..], path);
      assert whole[1..] == Prepend(dir[1..], path);
      assert [dir[0]] + dir[1..] == dir;
    }
  }

  lemma {:induction false} PrefixesOfOne(path: string)
    requires ':' !in path
    ensures Prefixes(path) == [path]
    decreases |path|
  {
    if path != "" {
      PrefixesOfOne(path[1..]);
      assert [path[0]] + path[1..] == path;
    }
  }

  /**
   Lookup walks the elements of PATH: the file of the first element runs if it is there
   with some execute bit, and otherwise the rest decides, or nothing is found. The empty
   element is the working directory. A command with a slash is a pathname.
   */
  lemma LookupWalks(files: Files, dir: string, rest: string, cmd: string)
    requires ':' !in dir
    ensures
      var here := files(if dir == "" then "./" + cmd else if dir[|dir| - 1] == '/' then dir + cmd else dir + "/" + cmd);
      var runs := here.File? &&
        (here.inode.mode % 2 == 1 || (here.inode.mode / 8) % 2 == 1 || (here.inode.mode / 64) % 2 == 1);
      && Lookup(files, dir + ":" + rest, cmd)
         == (if '/' in cmd then files(cmd) else if runs then here else Lookup(files, rest, cmd))
      && Lookup(files, dir, cmd) == (if '/' in cmd then files(cmd) else if runs then here else Missing)
  {
    PrefixesOfOne(dir);
    PrefixesOfPrepended(dir, rest);
    assert Prepend(dir, rest) == dir + ":" + rest;
    assert ([dir] + Prefixes(rest))[1..] == Prefixes(rest);
    assert Search(files, [dir][1..], cmd) == Missing;
  }

  /**
   Prepending keeps the meaning of PATH: for every PATH string, empty elements
   included, a command that has no slash runs the file in the new directory if one is
   there and is executable, and otherwise what it ran before; a command with a slash is
   not affected.
   */
  lemma PrependKeepsMeaning(files: Files, dir: string, path: string, cmd: string)
    requires ':' !in dir
    ensures
      var f := files(Pathname(dir, cmd));
      Lookup(files, Prepend(dir, path), cmd)
        == if '/' !in cmd && Runs(f) then f else Lookup(files, path, cmd)
  {
    PrefixesOfPrepended(dir, path);
    assert ([dir] + Prefixes(path))[1..] == Prefixes(path);
  }

  // Prepending again changes nothing.
  lemma {:induction false} PrependAgainIsIdle(files: Files, dir: string, path: string, cmd: string, times: nat)
    requires ':' !in dir && times > 0
    ensures Lookup(files, PrependTimes(dir, path, times), cmd) == Lookup(files, Prepend(dir, path), cmd)
    decreases times
  {
    PrependKeepsMeaning(files, dir, PrependTimes(dir, path, times - 1), cmd);
    PrependKeepsMeaning(files, dir, path, cmd);
    if times > 1 {
      PrependAgainIsIdle(files, dir, path, cmd, times - 1);
    } else {
      assert PrependTimes(dir, path, 0) == path;
    }
  }
}
