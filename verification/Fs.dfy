/**
 A small inode file system: one directory of names, each bound to an inode that
 holds bytes and a mode. The system calls used by the copier are functions on it.
 */
module Fs {

  type Name = string
  newtype Byte = b: int | 0 <= b < 256
  type Bytes = seq<Byte>

  // 0755, the mode given to every published script.
  const EXEC_MODE: nat := 493
  // 0666 less the umask 022: the mode of a file that os.Create makes.
  const CREATE_MODE: nat := 420

  datatype Inode = Inode(content: Bytes, mode: nat)

  // Inodes are numbered by their position and never reclaimed: a descriptor that
  // is still open keeps its inode after the last name is gone.
  datatype Dir = Dir(names: map<Name, nat>, inodes: seq<Inode>)

  type View = map<Name, Inode>

  // The temporary name that a copy to n writes first.
  function Tmp(n: Name): Name {
    n + ".tmp"
  }

  // Some execute bit is set.
  predicate Executable(mode: nat) {
    mode % 2 == 1 || (mode / 8) % 2 == 1 || (mode / 64) % 2 == 1
  }

  predicate InRange(d: Dir) {
    forall n | n in d.names :: d.names[n] < |d.inodes|
  }

  // No two names share an inode: there are no hard links.
  predicate Unlinked(d: Dir) {
    forall m, n | m in d.names && n in d.names && m != n :: d.names[m] != d.names[n]
  }

  function At(d: Dir, n: Name): Inode
    requires InRange(d) && n in d.names
  {
    d.inodes[d.names[n]]
  }

  // What a reader of the directory sees: the file behind each name.
  function ViewOf(d: Dir): View
    requires InRange(d)
  {
    map n | n in d.names :: At(d, n)
  }

  // open(O_CREAT|O_TRUNC): an existing file keeps its inode and its mode.
  function Create(d: Dir, n: Name): Dir
    requires InRange(d)
  {
    if n in d.names then
      var i := d.names[n];
      d.(inodes := d.inodes[i := d.inodes[i].(content := [])])
    else
      Dir(d.names[n := |d.inodes|], d.inodes + [Inode([], CREATE_MODE)])
  }

  // Write through a descriptor: the inode i now holds c.
  function Write(d: Dir, i: nat, c: Bytes): Dir
    requires i < |d.inodes|
  {
    d.(inodes := d.inodes[i := d.inodes[i].(content := c)])
  }

  function Chmod(d: Dir, n: Name, mode: nat): Dir
    requires InRange(d) && n in d.names
  {
    var i := d.names[n];
    d.(inodes := d.inodes[i := d.inodes[i].(mode := mode)])
  }

  // rename(2): target is rebound to the inode of source in one step.
  function Rename(d: Dir, source: Name, target: Name): Dir
    requires source in d.names && source != target
  {
    d.(names := d.names[target := d.names[source]] - {source})
  }

  function Remove(d: Dir, n: Name): Dir {
    d.(names := d.names - {n})
  }

  // The same calls as seen through the directory's names.

  lemma ViewWrite(d: Dir, n: Name, c: Bytes)
    requires InRange(d) && Unlinked(d) && n in d.names
    ensures InRange(Write(d, d.names[n], c)) && Unlinked(Write(d, d.names[n], c))
    ensures ViewOf(Write(d, d.names[n], c)) == ViewOf(d)[n := Inode(c, At(d, n).mode)]
  {
  }

  lemma ViewCreate(d: Dir, n: Name)
    requires InRange(d) && Unlinked(d)
    ensures InRange(Create(d, n)) && Unlinked(Create(d, n))
    ensures
      var mode := if n in d.names then At(d, n).mode else CREATE_MODE;
      ViewOf(Create(d, n)) == ViewOf(d)[n := Inode([], mode)]
  {
    if n in d.names {
      ViewWrite(d, n, []);
    } else {
      ViewCreateNew(d, n);
    }
  }

  lemma ViewCreateNew(d: Dir, n: Name)
    requires InRange(d) && Unlinked(d) && n !in d.names
    ensures InRange(Create(d, n)) && Unlinked(Create(d, n))
    ensures ViewOf(Create(d, n)) == ViewOf(d)[n := Inode([], CREATE_MODE)]
  {
  }

  lemma ViewChmod(d: Dir, n: Name, mode: nat)
    requires InRange(d) && Unlinked(d) && n in d.names
    ensures InRange(Chmod(d, n, mode)) && Unlinked(Chmod(d, n, mode))
    ensures ViewOf(Chmod(d, n, mode)) == ViewOf(d)[n := Inode(At(d, n).content, mode)]
  {
  }

  lemma ViewRename(d: Dir, source: Name, target: Name)
    requires InRange(d) && Unlinked(d) && source in d.names && source != target
    ensures InRange(Rename(d, source, target)) && Unlinked(Rename(d, source, target))
    ensures ViewOf(Rename(d, source, target)) == ViewOf(d)[target := At(d, source)] - {source}
  {
  }

  lemma ViewRemove(d: Dir, n: Name)
    requires InRange(d) && Unlinked(d)
    ensures InRange(Remove(d, n)) && Unlinked(Remove(d, n))
    ensures ViewOf(Remove(d, n)) == ViewOf(d) - {n}
  {
  }
}
