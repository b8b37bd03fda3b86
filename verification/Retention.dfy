// utils.go: pruneBackups and the backup name matchers.
module Retention {
  import opened Text
  import opened Sorting

  datatype File = File(mtime: int, isDir: bool)

  type Directory = map<string, File>

  datatype Backup = Backup(name: string, mtime: int)

  // The order backups are sorted by: newest first, then greatest name first.
  predicate Newer(a: Backup, b: Backup) {
    if a.mtime != b.mtime then a.mtime > b.mtime else StringLess(b.name, a.name)
  }

  lemma NewerIsTotalOrder(a: Backup, b: Backup, c: Backup)
    ensures !Newer(a, a)
    ensures Newer(a, b) && Newer(b, c) ==> Newer(a, c)
    ensures a != b ==> Newer(a, b) || Newer(b, a)
  {
    StringLessLaws(a.name, b.name, c.name);
    StringLessLaws(c.name, b.name, a.name);
    StringLessLaws(b.name, a.name, a.name);
  }

  lemma NewerIsOrder()
    ensures StrictWeakOrder(Newer)
  {
    hide Newer;
    forall a, b, c
      ensures !Newer(a, a)
      ensures Newer(a, b) && Newer(b, c) ==> Newer(a, c)
      ensures Newer(a, c) ==> Newer(a, b) || Newer(b, c)
    {
      NewerIsTotalOrder(a, b, c);
      NewerIsTotalOrder(b, a, c);
      NewerIsTotalOrder(a, c, b);
      NewerIsTotalOrder(b, c, a);
    }
  }

  // The two naming schemes.
  datatype Matcher = SuffixMatcher(base: string) | PrefixMatcher(base: string) {
    predicate Matches(name: string) {
      match this
      case SuffixMatcher(base) => HasPrefix(name, base + ".bak.")
      case PrefixMatcher(base) => HasPrefix(name, ".bak.") && HasSuffix(name, "." + base)
    }
  }

  // A backup written by either scheme is matched by its own matcher.
  lemma OwnBackupMatches(base: string, ts: string)
    ensures SuffixMatcher(base).Matches(base + ".bak." + ts)
    ensures PrefixMatcher(base).Matches(".bak." + ts + "." + base)
  {
    var s, t := base + ".bak." + ts, ".bak." + ts + "." + base;
    assert s[..|base + ".bak."|] == base + ".bak.";
    assert t[..5] == ".bak.";
    assert t[|t| - |"." + base|..] == "." + base;
  }

  function Matching(dir: Directory, m: Matcher): set<Backup> {
    set n | n in dir && !dir[n].isDir && m.Matches(n) :: Backup(n, dir[n].mtime)
  }

  function NewerOnes(all: set<Backup>, b: Backup): set<Backup> { set x | x in all && Newer(x, b) }

  // A backup goes when at least "keep" matching ones are newer.
  predicate Goes(dir: Directory, m: Matcher, keep: nat, name: string) {
    && name in dir && !dir[name].isDir && m.Matches(name)
    && |NewerOnes(Matching(dir, m), Backup(name, dir[name].mtime))| >= keep
  }

  // The elements of a sequence without repetitions.
  ghost predicate Lists<T(!new)>(s: seq<T>, all: set<T>) { forall x :: multiset(s)[x] == if x in all then 1 else 0 }

  lemma ListedOnce<T(!new)>(s: seq<T>, all: set<T>)
    requires Lists(s, all)
    ensures forall i, j :: 0 <= i < j < |s| ==> s[i] != s[j]
    ensures forall x :: x in s <==> x in all
  {
    forall i, j | 0 <= i < j < |s| ensures s[i] != s[j] {
      if s[i] == s[j] { CountTwo(s, i, j); }
    }
    forall x ensures x in s <==> x in all { assert x in s <==> x in multiset(s); }
  }

  lemma {:induction false} DistinctSize<T>(s: seq<T>, all: set<T>)
    requires (forall i, j :: 0 <= i < j < |s| ==> s[i] != s[j]) && forall x :: x in s <==> x in all
    ensures |all| == |s|
  {
    if s == [] {
      assert all == {};
    } else {
      var last, front := s[|s| - 1], s[..|s| - 1];
      assert last in s;
      assert forall x :: x in front <==> x in all - {last};
      DistinctSize(front, all - {last});
    }
  }

  // In the sorted list, exactly the i before it are newer than the i-th.
  lemma RankIsPosition(s: seq<Backup>, all: set<Backup>, i: nat)
    requires Lists(s, all) && Sorted(s, Newer) && i < |s|
    ensures |NewerOnes(all, s[i])| == i
  {
    hide Newer;
    ListedOnce(s, all);
    var newer := NewerOnes(all, s[i]);
    forall x ensures x in s[..i] <==> x in newer {
      if x in newer {
        var j :| 0 <= j < |s| && s[j] == x;
        NewerIsTotalOrder(s[i], s[i], s[i]);
        assert j >= i ==> j > i;
      }
      if x in s[..i] {
        var j :| 0 <= j < i && s[j] == x;
        NewerIsTotalOrder(s[j], s[i], s[i]);
      }
    }
    DistinctSize(s[..i], newer);
  }

  method ListBackups(dir: Directory, m: Matcher) returns (backups: seq<Backup>)
    ensures Lists(backups, Matching(dir, m))
  {
    backups := [];
    var left := dir.Keys;
    ghost var seen: set<Backup> := {};
    while left != {}
      invariant left <= dir.Keys
      invariant seen == set n | n in dir && n !in left && !dir[n].isDir && m.Matches(n) :: Backup(n, dir[n].mtime)
      invariant Lists(backups, seen)
      decreases left
    {
      var name :| name in left;
      left := left - {name};
      if dir[name].isDir { continue; }
      if !m.Matches(name) { continue; }
      backups := backups + [Backup(name, dir[name].mtime)];
      seen := seen + {Backup(name, dir[name].mtime)};
    }
    assert seen == Matching(dir, m);
  }

  // Removing a file may fail, which is ignored: the stubborn files stay.
  method RemoveBackups(dir0: Directory, backups: seq<Backup>, stubborn: set<string>) returns (dir: Directory)
    ensures dir.Keys <= dir0.Keys && forall n :: n in dir ==> dir[n] == dir0[n]
    ensures forall n :: n in dir0 ==>
              (n !in dir <==> n !in stubborn && exists j :: 0 <= j < |backups| && backups[j].name == n)
  {
    dir := dir0;
    for i := 0 to |backups|
      invariant dir.Keys <= dir0.Keys && forall n :: n in dir ==> dir[n] == dir0[n]
      invariant forall n :: n in dir0 ==>
                  (n !in dir <==> n !in stubborn && exists j :: 0 <= j < i && backups[j].name == n)
    {
      if backups[i].name !in stubborn { dir := dir - {backups[i].name}; }
    }
  }

  // The files from position "keep" of the sorted list on are the ones that go.
  lemma TailGoes(dir: Directory, m: Matcher, keep: nat, s: seq<Backup>)
    requires Lists(s, Matching(dir, m)) && Sorted(s, Newer) && keep <= |s|
    ensures forall n :: Goes(dir, m, keep, n) <==> exists j :: 0 <= j < |s| - keep && s[keep..][j].name == n
  {
    hide Newer, NewerOnes;
    ListedOnce(s, Matching(dir, m));
    forall n ensures Goes(dir, m, keep, n) <==> exists j :: 0 <= j < |s| - keep && s[keep..][j].name == n {
      if Goes(dir, m, keep, n) {
        var b := Backup(n, dir[n].mtime);
        assert b in Matching(dir, m);
        var i :| 0 <= i < |s| && s[i] == b;
        RankIsPosition(s, Matching(dir, m), i);
        assert s[keep..][i - keep].name == n;
      }
      if j :| 0 <= j < |s| - keep && s[keep..][j].name == n {
        RankIsPosition(s, Matching(dir, m), keep + j);
        assert s[keep + j] in s && s[keep + j] in Matching(dir, m);
      }
    }
  }

  // What a pruning leaves when the stubborn files cannot be removed. A non-positive
  // keep keeps everything.
  function PrunedBut(dir: Directory, m: Matcher, keep: int, stubborn: set<string>): Directory {
    if keep <= 0 then dir else map n | n in dir && (n in stubborn || !Goes(dir, m, keep, n)) :: dir[n]
  }

  // Remove all but the "keep" newest matching files.
  method PruneBackups(dir0: Directory, m: Matcher, keep: int, stubborn: set<string>) returns (dir: Directory)
    ensures dir == PrunedBut(dir0, m, keep, stubborn)
  {
    hide Newer, NewerOnes, Matching;
    if keep <= 0 { return dir0; }
    var backups := ListBackups(dir0, m);
    if |backups| <= keep {
      FewStay(dir0, m, keep, backups);
      return dir0;
    }
    ghost var listed := backups;
    backups := StableSort(backups, Newer);
    NewerIsOrder();
    StableSortCorrect(listed, Newer);
    assert |backups| == |multiset(backups)| == |multiset(listed)|;
    TailGoes(dir0, m, keep, backups);
    hide Goes;
    dir := RemoveBackups(dir0, backups[keep..], stubborn);
  }

  // When nothing that should go is stubborn, the pruning removes all of it.
  lemma NothingStubborn(dir: Directory, m: Matcher, keep: nat, stubborn: set<string>)
    requires keep > 0 && forall n :: n in stubborn ==> !Goes(dir, m, keep, n)
    ensures Pruned(dir, PrunedBut(dir, m, keep, stubborn), m, keep)
  {
    hide Goes;
  }

  lemma FewStay(dir: Directory, m: Matcher, keep: nat, backups: seq<Backup>)
    requires Lists(backups, Matching(dir, m)) && |backups| <= keep
    ensures forall n :: n in dir ==> !Goes(dir, m, keep, n)
  {
    ListedOnce(backups, Matching(dir, m));
    DistinctSize(backups, Matching(dir, m));
    forall n | n in dir && Goes(dir, m, keep, n) ensures false {
      var b := Backup(n, dir[n].mtime);
      NewerIsTotalOrder(b, b, b);
      assert NewerOnes(Matching(dir, m), b) <= Matching(dir, m) - {b};
      SubsetSize(NewerOnes(Matching(dir, m), b), Matching(dir, m) - {b});
    }
  }

  lemma SubsetSize<T>(a: set<T>, b: set<T>)
    requires a <= b
    ensures |a| <= |b|
  {
    assert b == a + (b - a);
  }

  // The directory after a pruning that removed what it should.
  ghost predicate Pruned(dir0: Directory, dir: Directory, m: Matcher, keep: nat) {
    && dir.Keys <= dir0.Keys && (forall n :: n in dir ==> dir[n] == dir0[n])
    && forall n :: n in dir0 ==> (n in dir <==> !Goes(dir0, m, keep, n))
  }

  lemma StayingBackups(dir0: Directory, dir: Directory, m: Matcher, keep: nat)
    requires Pruned(dir0, dir, m, keep)
    ensures forall x :: x in Matching(dir, m) <==>
              x in Matching(dir0, m) && |NewerOnes(Matching(dir0, m), x)| < keep
  {
    hide Newer, NewerOnes;
  }

  // The files that stay are the "keep" newest, or all if there are fewer: their
  // number is the smaller of the two, and each is newer than every one that went.
  lemma PrunedKeepsNewest(dir0: Directory, dir: Directory, m: Matcher, keep: nat)
    requires Pruned(dir0, dir, m, keep)
    ensures |Matching(dir, m)| == if |Matching(dir0, m)| < keep then |Matching(dir0, m)| else keep
    ensures forall x, y :: x in Matching(dir, m) && y in Matching(dir0, m) - Matching(dir, m) ==> Newer(x, y)
    ensures forall n :: n in dir0 && !m.Matches(n) ==> n in dir
  {
    StayingBackups(dir0, dir, m, keep);
    var s := SortedBackups(Matching(dir0, m));
    hide Newer, NewerOnes, Matching;
    GreatestStay(s, Matching(dir0, m), Matching(dir, m), keep);
  }

  lemma GreatestStay(s: seq<Backup>, all: set<Backup>, left: set<Backup>, keep: nat)
    requires Lists(s, all) && Sorted(s, Newer)
    requires forall x :: x in left <==> x in all && |NewerOnes(all, x)| < keep
    ensures |left| == if |all| < keep then |all| else keep
    ensures forall x, y :: x in left && y in all - left ==> Newer(x, y)
  {
    hide Newer, NewerOnes;
    ListedOnce(s, all);
    DistinctSize(s, all);
    var k := if |s| < keep then |s| else keep;
    forall i | 0 <= i < |s| ensures s[i] in left <==> i < k {
      RankIsPosition(s, all, i);
      assert s[i] in s;
    }
    forall x ensures x in s[..k] <==> x in left {
      if x in left {
        var i :| 0 <= i < |s| && s[i] == x;
      }
    }
    DistinctSize(s[..k], left);
    forall x, y | x in left && y in all - left ensures Newer(x, y) {
      var i :| 0 <= i < |s| && s[i] == x;
      var j :| 0 <= j < |s| && s[j] == y;
      NewerIsTotalOrder(x, y, y);
    }
  }

  lemma SortedBackups(all: set<Backup>) returns (s: seq<Backup>)
    ensures Lists(s, all) && Sorted(s, Newer)
  {
    var t := SomeList(all);
    s := StableSort(t, Newer);
    NewerIsOrder();
    StableSortCorrect(t, Newer);
  }

  lemma {:induction false} SomeList<T(!new)>(all: set<T>) returns (s: seq<T>)
    ensures Lists(s, all)
    decreases all
  {
    if all == {} {
      s := [];
    } else {
      var x :| x in all;
      var rest := SomeList(all - {x});
      s := rest + [x];
    }
  }
}
