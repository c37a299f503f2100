/**
 The surroundings of the copier, as the machine has them: what readers get, what edits
 do to the source, when a version is torn, and what a crash leaves.
 */
module Environment {
  import opened Fs
  import opened Publish

  // A reader of a published name has all of its newest version after one large read.
  lemma ReaderFinishes(dsts: set<Name>, s: State, name: Name, size: nat)
    requires NoClash(dsts) && Inv(dsts, s) && name in dsts && name in s.dir.names
    requires |Versions(s, name)| > 0 && |Newest(s, name).bytes| <= size
    ensures
      var m := Step(s, OpenReader(name));
      var t := Step(m, Read(|s.readers|, size));
      && |m.readers| == |t.readers| == |s.readers| + 1 && t.readers[..|s.readers|] == s.readers
      && t.readers[|s.readers|].name == name && t.readers[|s.readers|].got == Newest(s, name).bytes
      && AtEof(t, t.readers[|s.readers|])
  {
  }

  // Each read returns the next bytes of the inode, up to its end.
  lemma ReadContinues(s: State, i: nat, size: nat)
    requires Valid(s) && i < |s.readers| && s.readers[i].got <= s.dir.inodes[s.readers[i].ino].content
    ensures
      var r, t := s.readers[i], Step(s, Read(i, size));
      var content := s.dir.inodes[r.ino].content;
      && t == s.(readers := s.readers[i := r.(got := content[..Min(|r.got| + size, |content|)])])
  {
    var r := s.readers[i];
    var content := s.dir.inodes[r.ino].content;
    assert content[..|r.got|] == r.got;
    assert r.got + content[|r.got|..Min(|r.got| + size, |content|)] == content[..Min(|r.got| + size, |content|)];
  }

  // An edit in place shows under the path and to whoever has the file open; one that
  // replaces the file shows under the path alone; a deletion takes the path away. Nothing
  // else of the source or the directory changes.
  lemma EditsTakeEffect(s: State, path: Name, content: Bytes, stamp: nat)
    requires Valid(s) && stamp !in s.stamps
    ensures path in s.src.names ==>
      var t, fd := Step(s, EditInPlace(path, content, stamp)), s.src.names[path];
      && t.src.names == s.src.names && t.src.files[fd] == SrcFile(content, stamp) && |t.src.files| == |s.src.files|
      && (forall i | 0 <= i < |s.src.files| && i != fd :: t.src.files[i] == s.src.files[i])
      && t.dir == s.dir && t.stamps == s.stamps + {stamp}
    ensures
      var t := Step(s, Replace(path, content, stamp));
      && path in t.src.names && t.src.files[t.src.names[path]] == SrcFile(content, stamp)
      && t.src.names - {path} == s.src.names - {path}
      && |t.src.files| == |s.src.files| + 1 && t.src.files[..|s.src.files|] == s.src.files
      && t.dir == s.dir && t.writer == s.writer && t.stamps == s.stamps + {stamp}
    ensures
      var t := Step(s, Delete(path));
      t.src.names == s.src.names - {path} && t.src.files == s.src.files && t.dir == s.dir && t.writer == s.writer
  {
  }

  // A crash loses the copy in progress and nothing else; a cleanup, which a process makes
  // between copies, takes away one name and nothing else.
  lemma OthersTakeEffect(s: State, name: Name)
    requires Valid(s)
    ensures Step(s, Crash) == s.(writer := Idle)
    ensures s.writer.Idle? ==> Step(s, Unlink(name)) == s.(dir := Dir(s.dir.names - {name}, s.dir.inodes))
  {
  }

  /******* Torn versions *******/

  // The step a edits in place the file that a copy to n has open and has not read to its end.
  predicate Tears(s: State, a: Action, n: Name)
    requires Valid(s)
  {
    && s.writer.Busy? && s.writer.job.dst == n && (s.writer.stage.Opened? || s.writer.stage.Copying?)
    && a.EditInPlace? && a.path in s.src.names && s.src.names[a.path] == s.writer.job.fd && a.stamp !in s.stamps
  }

  predicate TornDuring(s: State, acts: seq<Action>, n: Name)
    requires Valid(s)
    decreases |acts|
  {
    acts != [] &&
      var last := |acts| - 1;
      TornDuring(s, acts[..last], n) || Tears(Run(s, acts[..last]), acts[last], n)
  }

  // A copy is torn by such a step, and by no other.
  lemma StepTears(s: State, a: Action)
    requires Valid(s)
    ensures s.writer.Busy? && Tears(s, a, s.writer.job.dst) ==>
      Step(s, a).writer == s.writer.(job := s.writer.job.(torn := true))
    ensures
      var t := Step(s, a);
      t.writer.Busy? && t.writer.job.torn && !Tears(s, a, t.writer.job.dst) ==>
        s.writer.Busy? && s.writer.job.torn && s.writer.job.dst == t.writer.job.dst
  {
  }

  lemma {:induction false} TornJobWasEdited(s: State, acts: seq<Action>)
    requires Valid(s) && s.writer.Idle?
    ensures
      var t := Run(s, acts);
      t.writer.Busy? && t.writer.job.torn ==> TornDuring(s, acts, t.writer.job.dst)
    decreases |acts|
  {
    if acts != [] {
      var last := |acts| - 1;
      TornJobWasEdited(s, acts[..last]);
      StepTears(Run(s, acts[..last]), acts[last]);
    }
  }

  // Where a step takes the versions of its histories from.
  lemma VersionTorn(s: State, a: Action, n: Name, k: nat)
    requires Valid(s) && k < |Versions(Step(s, a), n)|
    ensures
      var v := Versions(Step(s, a), n)[k];
      if k < |Versions(s, n)| then v == Versions(s, n)[k]
      else s.writer.Busy? && n == s.writer.job.dst && v.torn == s.writer.job.torn
  {
    StepHistory(s, a);
  }

  /**
   A version that a run publishes is torn only if, in that run, a user edited in place the
   very file that a copy to its name was reading.
   */
  lemma {:induction false} TornVersionWasEdited(s: State, acts: seq<Action>, t: State, n: Name, k: nat)
    requires Valid(s) && s.writer.Idle? && t == Run(s, acts) && |Versions(s, n)| <= k < |Versions(t, n)|
    requires Versions(t, n)[k].torn
    ensures TornDuring(s, acts, n)
    decreases |acts|
  {
    if acts != [] {
      var last := |acts| - 1;
      var m := Run(s, acts[..last]);
      VersionTorn(m, acts[last], n, k);
      if k < |Versions(m, n)| {
        TornVersionWasEdited(s, acts[..last], m, n, k);
      } else {
        TornJobWasEdited(s, acts[..last]);
      }
    }
  }
}
