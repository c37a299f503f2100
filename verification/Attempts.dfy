/**
 What a sequence of copies does to a directory, as a fold over their outcomes,
 and the laws of that fold: the last success of each name wins.
 */
module Attempts {
  import opened Fs
  import opened Publish

  // How one copy ended: renamed into place; failed before the temporary file was
  // made; failed later and removed it; failed later and could not remove it.
  datatype Outcome = Published | Untouched | Cleaned | Littered(junk: Inode)

  datatype Attempt = Attempt(dst: Name, data: Bytes, outcome: Outcome)

  function Script(data: Bytes): Inode {
    Inode(data, EXEC_MODE)
  }

  function Apply(v: View, a: Attempt): View {
    match a.outcome
    case Published => v[a.dst := Script(a.data)] - {Tmp(a.dst)}
    case Untouched => v
    case Cleaned => v - {Tmp(a.dst)}
    case Littered(junk) => v[Tmp(a.dst) := junk]
  }

  function Fold(v: View, attempts: seq<Attempt>): View {
    if attempts == [] then v
    else Apply(Fold(v, attempts[..|attempts| - 1]), attempts[|attempts| - 1])
  }

  lemma FoldOne(v: View, attempts: seq<Attempt>, a: Attempt)
    ensures Fold(v, attempts + [a]) == Apply(Fold(v, attempts), a)
  {
    assert (attempts + [a])[..|attempts|] == attempts;
  }

  function Targets(attempts: seq<Attempt>): set<Name> {
    set a | a in attempts :: a.dst
  }

  function Temps(attempts: seq<Attempt>): set<Name> {
    set a | a in attempts :: Tmp(a.dst)
  }

  // Attempt i is the last one that published n.
  predicate LastSuccess(attempts: seq<Attempt>, n: Name, i: nat) {
    && i < |attempts| && attempts[i].dst == n && attempts[i].outcome.Published?
    && forall j | i < j < |attempts| && attempts[j].dst == n :: !attempts[j].outcome.Published?
  }

  predicate Succeeded(attempts: seq<Attempt>, n: Name) {
    exists i :: 0 <= i < |attempts| && attempts[i].dst == n && attempts[i].outcome.Published?
  }

  // Each name that some attempt published, with what its last success wrote.
  function Override(attempts: seq<Attempt>): View {
    if attempts == [] then map[]
    else
      var o, a := Override(attempts[..|attempts| - 1]), attempts[|attempts| - 1];
      if a.outcome.Published? then o[a.dst := Script(a.data)] else o
  }

  lemma {:induction false} OverrideHoldsLastSuccess(attempts: seq<Attempt>, n: Name, i: nat)
    requires LastSuccess(attempts, n, i)
    ensures n in Override(attempts) && Override(attempts)[n] == Script(attempts[i].data)
    decreases |attempts|
  {
    if i < |attempts| - 1 {
      OverrideHoldsLastSuccess(attempts[..|attempts| - 1], n, i);
    }
  }

  lemma {:induction false} OverrideNeedsSuccess(attempts: seq<Attempt>, n: Name)
    requires n in Override(attempts)
    ensures Succeeded(attempts, n)
    decreases |attempts|
  {
    var init, a := attempts[..|attempts| - 1], attempts[|attempts| - 1];
    if n in Override(init) {
      OverrideNeedsSuccess(init, n);
      var i :| 0 <= i < |init| && init[i].dst == n && init[i].outcome.Published?;
      assert attempts[i] == init[i];
    }
  }

  lemma {:induction false} LastSuccessExists(attempts: seq<Attempt>, n: Name)
    requires Succeeded(attempts, n)
    ensures exists i: nat :: LastSuccess(attempts, n, i)
    decreases |attempts|
  {
    var last := |attempts| - 1;
    if attempts[last].dst == n && attempts[last].outcome.Published? {
      assert LastSuccess(attempts, n, last);
    } else {
      var init := attempts[..last];
      var k :| 0 <= k < |attempts| && attempts[k].dst == n && attempts[k].outcome.Published?;
      assert init[k] == attempts[k];
      LastSuccessExists(init, n);
      var i: nat :| LastSuccess(init, n, i);
      assert LastSuccess(attempts, n, i);
    }
  }

  // Every attempt that touched the directory was for one of the destinations.
  predicate AttemptsTo(dsts: set<Name>, attempts: seq<Attempt>) {
    forall a | a in attempts && !a.outcome.Untouched? :: a.dst in dsts
  }

  function TempsOf(dsts: set<Name>): set<Name> {
    set d | d in dsts :: Tmp(d)
  }

  /**
   Last success wins: when no destination is another one's temporary name, the
   directory apart from temporary names is the old one overridden by the last success
   of each name; a name without a success keeps what it had.
   */
  lemma {:induction false} FoldIsOverride(dsts: set<Name>, v: View, attempts: seq<Attempt>)
    requires NoClash(dsts) && AttemptsTo(dsts, attempts)
    ensures Fold(v, attempts) - TempsOf(dsts) == (v - TempsOf(dsts)) + Override(attempts)
    decreases |attempts|
  {
    if attempts != [] {
      var init, a := attempts[..|attempts| - 1], attempts[|attempts| - 1];
      assert a in attempts && forall b | b in init :: b in attempts;
      var f, temps := Fold(v, init), TempsOf(dsts);
      assert a.dst in dsts ==> a.dst !in temps && Tmp(a.dst) in temps;
      FoldIsOverride(dsts, v, init);
      ApplyBeside(temps, f, a);
    }
  }

  // Temporary names aside, only a success changes the directory.
  lemma ApplyBeside(temps: set<Name>, v: View, a: Attempt)
    requires !a.outcome.Untouched? ==> a.dst !in temps && Tmp(a.dst) in temps
    ensures Apply(v, a) - temps == if a.outcome.Published? then (v - temps)[a.dst := Script(a.data)] else v - temps
  {
  }

  // Names that are neither a target nor a target's temporary name are untouched.
  lemma {:induction false} FoldFrame(v: View, attempts: seq<Attempt>, n: Name)
    requires n !in Targets(attempts) && n !in Temps(attempts)
    ensures n in Fold(v, attempts) <==> n in v
    ensures n in v ==> Fold(v, attempts)[n] == v[n]
    decreases |attempts|
  {
    if attempts != [] {
      var init, a := attempts[..|attempts| - 1], attempts[|attempts| - 1];
      assert a in attempts && forall b | b in init :: b in attempts;
      FoldFrame(v, init, n);
    }
  }

  // No attempt after the last success of n at i used n as its temporary name, or the
  // last one that did left exactly that script behind.
  predicate Undisturbed(attempts: seq<Attempt>, n: Name, i: nat)
    requires i < |attempts|
    decreases |attempts|
  {
    var last := |attempts| - 1;
    i == last
    || var a := attempts[last];
       if Tmp(a.dst) == n && !a.outcome.Untouched? then a.outcome == Littered(Script(attempts[i].data))
       else Undisturbed(attempts[..last], n, i)
  }

  /**
   Names that do clash: the last success of a name is still there at the end exactly when
   no later attempt disturbed it.
   */
  lemma {:induction false} SuccessSurvivesExactly(v: View, attempts: seq<Attempt>, n: Name, i: nat)
    requires LastSuccess(attempts, n, i)
    ensures n in Fold(v, attempts) && Fold(v, attempts)[n] == Script(attempts[i].data) <==> Undisturbed(attempts, n, i)
    decreases |attempts|
  {
    var last := |attempts| - 1;
    if i < last {
      SuccessSurvivesExactly(v, attempts[..last], n, i);
    }
  }

  // When no later attempt left a temporary file of that name behind, undisturbed means
  // that none of them got as far as making one.
  lemma {:induction false} UndisturbedExactly(attempts: seq<Attempt>, n: Name, i: nat)
    requires i < |attempts|
    requires forall j | i < j < |attempts| && Tmp(attempts[j].dst) == n :: !attempts[j].outcome.Littered?
    ensures Undisturbed(attempts, n, i)
       <==> forall j | i < j < |attempts| && Tmp(attempts[j].dst) == n :: attempts[j].outcome.Untouched?
    decreases |attempts|
  {
    var last := |attempts| - 1;
    if i < last {
      UndisturbedExactly(attempts[..last], n, i);
      assert forall j | i < j < last :: attempts[..last][j] == attempts[j];
    }
  }

  /******* Attempts in the order of a sorted directory listing *******/

  // Go's order on strings: bytewise, a proper prefix first.
  predicate Less(a: string, b: string) {
    b != "" && (a == "" || a[0] < b[0] || (a[0] == b[0] && Less(a[1..], b[1..])))
  }

  lemma {:induction false} LessAsymmetric(a: string, b: string)
    requires Less(a, b)
    ensures !Less(b, a)
  {
    if a != "" && a[0] == b[0] {
      LessAsymmetric(a[1..], b[1..]);
    }
  }

  // The order of Go: at the first difference the smaller byte, or the end of the string.
  lemma {:induction false} LessExactly(a: string, b: string)
    ensures
      Less(a, b) <==>
      exists k: nat ::
        && k <= |a| && k < |b| && a[..k] == b[..k]
        && (k == |a| || a[k] < b[k])
  {
    if a != "" && b != "" && a[0] == b[0] {
      var s, t := a[1..], b[1..];
      LessExactly(s, t);
      forall k: nat | k <= |s| && k < |t|
        ensures a[..k + 1] == b[..k + 1] <==> s[..k] == t[..k]
      {
        assert a[..k + 1] == [a[0]] + s[..k] && b[..k + 1] == [b[0]] + t[..k];
      }
      if Less(a, b) {
        var k: nat :| k <= |s| && k < |t| && s[..k] == t[..k] && (k == |s| || s[k] < t[k]);
        assert a[..k + 1] == b[..k + 1];
      }
      if k: nat :| k <= |a| && k < |b| && a[..k] == b[..k] && (k == |a| || a[k] < b[k]) {
        assert k > 0 && s[..k - 1] == t[..k - 1];
      }
    } else if Less(a, b) {
      assert a[..0] == b[..0];
    }
  }

  lemma {:induction false} PrefixIsLess(a: string, suffix: string)
    requires suffix != ""
    ensures Less(a, a + suffix)
  {
    if a != "" {
      PrefixIsLess(a[1..], suffix);
      assert (a + suffix)[1..] == a[1..] + suffix;
    }
  }

  predicate SortedTargets(attempts: seq<Attempt>) {
    forall i, j | 0 <= i < j < |attempts| :: Less(attempts[i].dst, attempts[j].dst)
  }

  // A later copy in sorted order never uses an earlier target as temporary name.
  lemma SortedNeverClobbers(attempts: seq<Attempt>, i: nat, j: nat)
    requires SortedTargets(attempts) && i < j < |attempts|
    ensures Tmp(attempts[j].dst) != attempts[i].dst && attempts[j].dst != attempts[i].dst
  {
    LessAsymmetric(attempts[i].dst, attempts[j].dst);
    PrefixIsLess(attempts[j].dst, ".tmp");
  }

  // In sorted order every success survives, even when one target is another
  // target's temporary name: copying n, which consumes n.tmp, comes first.
  lemma {:induction false} SortedSuccessSurvives(v: View, attempts: seq<Attempt>, i: nat)
    requires SortedTargets(attempts) && i < |attempts| && attempts[i].outcome.Published?
    ensures attempts[i].dst in Fold(v, attempts)
    ensures Fold(v, attempts)[attempts[i].dst] == Script(attempts[i].data)
    decreases |attempts|
  {
    var init, a := attempts[..|attempts| - 1], attempts[|attempts| - 1];
    if i < |init| {
      SortedSuccessSurvives(v, init, i);
      SortedNeverClobbers(attempts, i, |init|);
    }
  }
}
