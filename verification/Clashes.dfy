/**
 Behaviour lists in which one command is another one's temporary name: exactly which
 scripts such a list leaves in the shared directory.
 */
module Clashes {
  import opened Fs
  import opened Publish
  import opened Attempts
  import opened Copier
  import opened CommandNames
  import opened Sidecar

  // The copy of behaviour b gets as far as making its temporary file.
  predicate Reaches(src: Source, b: Behavior, fate: Fate) {
    Proper(CommandName(b.targetPath)) && Opens(src, b.scriptPath, fate) && fate.create
  }

  // Behaviour j is listed after i and its temporary name is the command of i.
  predicate ClashesWith(behaviors: seq<Behavior>, i: nat, j: nat) {
    i < j < |behaviors| && Tmp(CommandName(behaviors[j].targetPath)) == CommandName(behaviors[i].targetPath)
  }

  // The command of behaviour i holds the script of i.
  predicate Holds(after: View, src: Source, b: Behavior)
    requires SourceOk(src)
  {
    var cmd := CommandName(b.targetPath);
    cmd in after && after[cmd] == Script(Contents(src, b.scriptPath))
  }

  lemma ReportReaches(src: Source, behaviors: seq<Behavior>, fates: nat -> Fate, attempts: seq<Attempt>, k: nat)
    requires SourceOk(src) && BehaviorReports(src, behaviors, fates, attempts) && k < |behaviors|
    ensures attempts[k].dst == CommandName(behaviors[k].targetPath)
    ensures attempts[k].data == Contents(src, behaviors[k].scriptPath)
    ensures attempts[k].outcome.Published? <==> BehaviorSucceeds(src, behaviors[k], fates(k))
    ensures attempts[k].outcome.Untouched? <==> !Reaches(src, behaviors[k], fates(k))
    ensures attempts[k].outcome.Littered? ==> !fates(k).remove
  {
    BehaviorReportsEach(src, behaviors, fates, attempts, k);
  }

  /**
   Clashes: when temporary files can be removed, a command holds the script of its last
   listed success exactly when no behaviour listed later, with that command as its
   temporary name, gets as far as making its temporary file.
   */
  lemma CommandSurvivesExactly(v: View, src: Source, behaviors: seq<Behavior>, fates: nat -> Fate,
                               attempts: seq<Attempt>, i: nat)
    requires SourceOk(src) && BehaviorReports(src, behaviors, fates, attempts) && LastListed(src, behaviors, fates, i)
    requires forall j: nat | ClashesWith(behaviors, i, j) ::
      fates(j).remove || !Reaches(src, behaviors[j], fates(j)) || BehaviorSucceeds(src, behaviors[j], fates(j))
    ensures Holds(Fold(v, attempts), src, behaviors[i])
       <==> forall j: nat | ClashesWith(behaviors, i, j) :: !Reaches(src, behaviors[j], fates(j))
  {
    var cmd := CommandName(behaviors[i].targetPath);
    forall k: nat | k < |attempts|
      ensures attempts[k].outcome.Published? <==> BehaviorSucceeds(src, behaviors[k], fates(k))
      ensures attempts[k].outcome.Untouched? <==> !Reaches(src, behaviors[k], fates(k))
      ensures attempts[k].outcome.Littered? ==> !fates(k).remove
      ensures attempts[k].dst == CommandName(behaviors[k].targetPath)
      ensures attempts[k].data == Contents(src, behaviors[k].scriptPath)
    {
      ReportReaches(src, behaviors, fates, attempts, k);
    }
    assert LastSuccess(attempts, cmd, i);
    assert forall j: nat | i < j < |attempts| :: Tmp(attempts[j].dst) == cmd <==> ClashesWith(behaviors, i, j);
    SuccessSurvivesExactly(v, attempts, cmd, i);
    UndisturbedExactly(attempts, cmd, i);
  }

  // Behaviour i is the last listed for its command, which is a file name.
  predicate LastOfCommand(behaviors: seq<Behavior>, i: nat) {
    && i < |behaviors| && Proper(CommandName(behaviors[i].targetPath))
    && forall j | i < j < |behaviors| ::
         CommandName(behaviors[j].targetPath) != CommandName(behaviors[i].targetPath)
  }

  // No call of a synchronisation fails.
  predicate FailureFree(src: Source, behaviors: seq<Behavior>, fates: nat -> Fate)
    requires SourceOk(src)
  {
    forall k | 0 <= k < |behaviors| && Proper(CommandName(behaviors[k].targetPath)) ::
      Succeeds(src, behaviors[k].scriptPath, fates(k))
  }

  lemma LastSucceeds(src: Source, behaviors: seq<Behavior>, fates: nat -> Fate, i: nat)
    requires SourceOk(src) && FailureFree(src, behaviors, fates) && LastOfCommand(behaviors, i)
    ensures LastListed(src, behaviors, fates, i)
    ensures forall j: nat | ClashesWith(behaviors, i, j) ::
      && (fates(j).remove || !Reaches(src, behaviors[j], fates(j)) || BehaviorSucceeds(src, behaviors[j], fates(j)))
      && (Reaches(src, behaviors[j], fates(j)) <==> Proper(CommandName(behaviors[j].targetPath)))
  {
  }

  /**
   A list whose copies all succeed leaves every command with its last listed script
   exactly when no later target's command, with .tmp added, is an earlier command that is
   not listed again.
   */
  lemma ListIsKeptExactly(v: View, src: Source, behaviors: seq<Behavior>, fates: nat -> Fate, attempts: seq<Attempt>)
    requires SourceOk(src) && BehaviorReports(src, behaviors, fates, attempts) && FailureFree(src, behaviors, fates)
    ensures (forall i: nat | LastOfCommand(behaviors, i) :: Holds(Fold(v, attempts), src, behaviors[i]))
       <==> forall i: nat, j: nat | LastOfCommand(behaviors, i) && ClashesWith(behaviors, i, j) ::
              !Proper(CommandName(behaviors[j].targetPath))
  {
    forall i: nat | LastOfCommand(behaviors, i)
      ensures Holds(Fold(v, attempts), src, behaviors[i])
         <==> forall j: nat | ClashesWith(behaviors, i, j) :: !Proper(CommandName(behaviors[j].targetPath))
    {
      LastSucceeds(src, behaviors, fates, i);
      CommandSurvivesExactly(v, src, behaviors, fates, attempts, i);
    }
  }

  // Two targets that clash: with /bin/ls.tmp.sh before /bin/ls no ls.tmp is left.
  lemma ClashLosesScript(v: View, src: Source, first: Behavior, second: Behavior, fates: nat -> Fate,
                         attempts: seq<Attempt>)
    requires SourceOk(src) && first.targetPath == "/bin/ls.tmp.sh" && second.targetPath == "/bin/ls"
    requires FailureFree(src, [first, second], fates) && BehaviorReports(src, [first, second], fates, attempts)
    ensures LastOfCommand([first, second], 0) && CommandName(first.targetPath) == "ls.tmp"
    ensures "ls.tmp" !in Fold(v, attempts)
  {
    var behaviors := [first, second];
    ClashingNames(first.targetPath, second.targetPath);
    ReportReaches(src, behaviors, fates, attempts, 0);
    ReportReaches(src, behaviors, fates, attempts, 1);
    SecondTakesFirst(v, attempts);
  }

  lemma ClashingNames(first: string, second: string)
    requires first == "/bin/ls.tmp.sh" && second == "/bin/ls"
    ensures CommandName(first) == "ls.tmp" && CommandName(second) == "ls"
  {
    CommandNameOf("/bin/", "ls.tmp", "sh");
    assert first == "/bin/" + ("ls.tmp" + "." + "sh");
    BaseOf("/bin/", "ls");
    assert second == "/bin/" + "ls";
    CommandNameAgrees(second);
  }

  lemma SecondTakesFirst(v: View, attempts: seq<Attempt>)
    requires |attempts| == 2 && attempts[1].dst == "ls" && attempts[1].outcome.Published?
    ensures "ls.tmp" !in Fold(v, attempts)
  {
    assert Tmp("ls") == "ls.tmp";
  }
}
