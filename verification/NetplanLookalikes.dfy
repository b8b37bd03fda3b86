// netplan.go: Save where a tracked file may be named like a backup of another, and so be
// pruned in the other's turn before its own.
module NetplanLookalikes {
  import opened Text
  import opened NetplanLoader
  import opened NetplanDocument
  import opened NetplanLifecycle
  import opened NetplanSaving

  // All that the loader makes sure of.
  predicate DistinctYaml(configs: seq<Config>) {
    && (forall i: nat | i < |configs| :: IsYaml(configs[i].file))
    && forall i, j | 0 <= i < j < |configs| :: configs[i].file != configs[j].file
  }

  // One of the first n turns takes the file for an old backup.
  predicate PrunedBefore(s: State, envs: Envs, keep: int, n: nat, name: string)
    requires n <= |s.configs|
  {
    exists i: nat | i < n :: PrunedInTurn(s, envs, keep, i, name)
  }

  // A YAML file that is not there does not come back.
  lemma {:induction false} StaysGone(s: State, envs: Envs, keep: int, n: nat, m: nat, name: string)
    requires n <= m <= |s.configs| && IsYaml(name) && name !in DiskAfter(s, envs, keep, n)
    ensures name !in DiskAfter(s, envs, keep, m)
    decreases m - n
  {
    hide FileSave, Prunes, IsYaml, Touches;
    if n < m {
      StaysGone(s, envs, keep, n, m - 1, name);
      var disk, c := DiskAfter(s, envs, keep, m - 1), s.configs[m - 1];
      if c.dirty {
        OneFileSaved(disk, c, envs(c.file), keep);
        OwnFileWasThere(disk, c, envs(c.file), keep);
      }
    }
  }

  // Until its own turn a tracked file is there unless it was missing or has been pruned.
  lemma BeforeItsTurn(s: State, envs: Envs, keep: int, n: nat, j: nat)
    requires DistinctYaml(s.configs) && n <= j < |s.configs|
    ensures var f := s.configs[j].file;
            f in DiskAfter(s, envs, keep, n) <==> f in s.disk && !PrunedBefore(s, envs, keep, n, f)
  {
    var f := s.configs[j].file;
    assert forall i: nat | i < n :: s.configs[i].file != f;
    hide PrunedInTurn, IsYaml;
    if f in s.disk { GoneWhenPruned(s, envs, keep, n, f); } else { StaysGone(s, envs, keep, 0, n, f); }
  }

  // The save of a config in its turn, in terms of the disk before the whole save.
  predicate SavesInTurn(s: State, envs: Envs, keep: int, i: nat)
    requires i < |s.configs|
  {
    var c := s.configs[i];
    Saves(s.disk, c, envs(c.file)) && !PrunedBefore(s, envs, keep, i, c.file)
  }

  lemma StopsInTurn(s: State, envs: Envs, keep: int, i: nat)
    requires DistinctYaml(s.configs) && i < |s.configs|
    ensures StopsAt(s, envs, keep, i) <==> s.configs[i].dirty && !SavesInTurn(s, envs, keep, i)
  {
    BeforeItsTurn(s, envs, keep, i, i);
    hide DiskAfter, PrunedBefore, DistinctYaml;
  }

  // A save succeeds if and only if no dirty config's file is missing, strikes a fault, or is
  // taken for an old backup in an earlier turn.
  lemma SucceedsWithLookalikesIff(s: State, envs: Envs, keep: int)
    requires DistinctYaml(s.configs)
    ensures SaveAll(s, envs, keep).ok <==>
              forall i: nat | i < |s.configs| && s.configs[i].dirty :: SavesInTurn(s, envs, keep, i)
  {
    forall i: nat | i < |s.configs|
      ensures StopsAt(s, envs, keep, i) <==> s.configs[i].dirty && !SavesInTurn(s, envs, keep, i)
    {
      StopsInTurn(s, envs, keep, i);
    }
    hide DistinctYaml, StopsAt, SavesInTurn;
  }

  // What a failed save makes of a config: it waits for a file that is missing.
  predicate Left(s: State, envs: Envs, keep: int, j: nat)
    requires j < |s.configs|
  {
    var c, n := s.configs[j], Reached(s, envs, keep);
    if j < n then Removed(c)
    else
      && c.dirty
      && (c.file !in s.disk || PrunedBefore(s, envs, keep, n, c.file)
          || (j == n && LeavesHole(s.disk, c, envs(c.file))))
  }

  // The turns before the failing one.
  lemma LeftBefore(s: State, envs: Envs, keep: int, j: nat)
    requires DistinctYaml(s.configs) && j < Reached(s, envs, keep) < |s.configs|
    ensures Removed(s.configs[j]) ==> s.configs[j].file !in DiskAfter(s, envs, keep, Reached(s, envs, keep) + 1)
  {
    var c, n := s.configs[j], Reached(s, envs, keep);
    assert IsYaml(c.file) && !StopsAt(s, envs, keep, j);
    if Removed(c) {
      OneFileSaved(DiskAfter(s, envs, keep, j), c, envs(c.file), keep);
      hide FileSave, IsYaml, Touches, Prunes, FirstStop, DistinctYaml;
      assert c.file !in DiskAfter(s, envs, keep, j + 1);
      StaysGone(s, envs, keep, j + 1, n + 1, c.file);
    }
  }

  // The failing turn and those it keeps from happening.
  lemma LeftFrom(s: State, envs: Envs, keep: int, j: nat)
    requires DistinctYaml(s.configs) && Reached(s, envs, keep) <= j < |s.configs|
    ensures s.configs[j].dirty && s.configs[j].file !in DiskAfter(s, envs, keep, Reached(s, envs, keep) + 1)
            <==> Left(s, envs, keep, j)
  {
    if j == Reached(s, envs, keep) { LeftAt(s, envs, keep); } else { LeftLater(s, envs, keep, j); }
    hide *;
  }

  lemma LeftAt(s: State, envs: Envs, keep: int)
    requires DistinctYaml(s.configs) && Reached(s, envs, keep) < |s.configs|
    ensures var n := Reached(s, envs, keep); var c := s.configs[n];
            c.dirty && c.file !in DiskAfter(s, envs, keep, n + 1) <==> Left(s, envs, keep, n)
  {
    var n := Reached(s, envs, keep);
    var c := s.configs[n];
    assert StopsAt(s, envs, keep, n);
    BeforeItsTurn(s, envs, keep, n, n);
    OneFileSaved(DiskAfter(s, envs, keep, n), c, envs(c.file), keep);
    hide FileSave, IsYaml, Touches, Prunes, FirstStop, PrunedBefore, DistinctYaml, NewContent;
  }

  lemma LeftLater(s: State, envs: Envs, keep: int, j: nat)
    requires DistinctYaml(s.configs) && Reached(s, envs, keep) < j < |s.configs|
    ensures s.configs[j].dirty && s.configs[j].file !in DiskAfter(s, envs, keep, Reached(s, envs, keep) + 1)
            <==> Left(s, envs, keep, j)
  {
    var n := Reached(s, envs, keep);
    var f := s.configs[j].file;
    assert StopsAt(s, envs, keep, n);
    hide DiskAfter, PrunedInTurn, FirstStop, DistinctYaml, StopsAt, LeavesHole;
    BeforeItsTurn(s, envs, keep, n + 1, j);
    StoppedPrunesNothing(s, envs, keep, n, f);
    assert PrunedBefore(s, envs, keep, n + 1, f) <==> PrunedBefore(s, envs, keep, n, f);
  }

  lemma LeftAfter(s: State, envs: Envs, keep: int, j: nat)
    requires DistinctYaml(s.configs) && j < |s.configs| && !SaveAll(s, envs, keep).ok
    ensures var after := SaveAll(s, envs, keep).after;
            && |after.configs| == |s.configs|
            && (after.configs[j].dirty && after.configs[j].file !in after.disk <==> Left(s, envs, keep, j))
  {
    if j < Reached(s, envs, keep) { LeftBefore(s, envs, keep, j); } else { LeftFrom(s, envs, keep, j); }
    hide DiskAfter, FirstStop, DistinctYaml, PrunedBefore, LeavesHole;
  }

  // After a save some config waits for a missing file if and only if the save failed, and
  // one is left so: an emptied one that was removed, one whose file was missing or pruned,
  // or the one that lost its file.
  lemma StuckWithLookalikesIff(s: State, envs: Envs, keep: int)
    requires DistinctYaml(s.configs)
    ensures var r := SaveAll(s, envs, keep);
            Stuck(r.after) <==> !r.ok && exists j: nat | j < |s.configs| :: Left(s, envs, keep, j)
  {
    var r := SaveAll(s, envs, keep);
    if r.ok {
      CompactedFacts(CleanedAll(s.configs));
      hide DistinctYaml, FirstStop, DiskAfter, Compacted;
    } else {
      forall j: nat | j < |s.configs|
        ensures r.after.configs[j].dirty && r.after.configs[j].file !in r.after.disk <==> Left(s, envs, keep, j)
      {
        LeftAfter(s, envs, keep, j);
      }
      assert |r.after.configs| == |s.configs|;
      hide SaveAll, Left, DistinctYaml;
    }
  }
}
