/** When an update of the rpmsg device list does what it is for: exactly when every entry is taken for what it is. */
module RpmsgExact {
  import opened RpmsgSpec

  // ---------------------------------------------------------------- what became of an entry

  lemma {:induction false} AppendedStays(devs: seq<Dev>, head: string, dir: seq<Found>, n: nat, i: nat)
    requires i < n <= |dir| && Appends(devs, head, dir, i)
    ensures Dev(dir[i].channel, dir[i].setup.ept, true) in Appended(devs, head, dir, n)
  {
    if i < n - 1 {
      AppendedStays(devs, head, dir, n - 1, i);
    }
  }

  lemma {:induction false} SweptIsMarked(devs: seq<Dev>, d: Dev)
    requires d in Sweep(devs)
    ensures d.active
    decreases |devs|
  {
    var n := |devs| - 1;
    assert Flags(devs)[..n] == Flags(devs[..n]);
    if d in Sweep(devs[..n]) {
      SweptIsMarked(devs[..n], d);
    }
  }

  lemma {:induction false} MarkedIsSwept(devs: seq<Dev>, k: nat)
    requires k < |devs| && devs[k].active
    ensures devs[k] in Sweep(devs)
    decreases |devs|
  {
    var n := |devs| - 1;
    assert Flags(devs)[..n] == Flags(devs[..n]);
    if k < n {
      MarkedIsSwept(devs[..n], k);
    }
  }

  // ---------------------------------------------------------------- what a right result says of the scan

  /** The update left what it ought to. */
  predicate LeavesItsDue(devs: seq<Dev>, head: string, dir: seq<Found>) {
    Updated(devs, head, dir) == Survivors(devs, head, dir, |dir|) + Newcomers(devs, head, dir, |dir|)
  }

  lemma SweptIsRecorded(devs: seq<Dev>, head: string, dir: seq<Found>, d: Dev)
    requires d in Sweep(Marked(devs, head, dir, |dir|))
    ensures Recorded(devs, head, head + d.channel)
  {
    var marked := Marked(devs, head, dir, |dir|);
    SweptAre(marked, d);
    var k :| 0 <= k < |marked| && marked[k] == d;
    assert devs[k].channel == d.channel;
  }

  /** Then every new device got its node. */
  lemma DueAppends(devs: seq<Dev>, head: string, dir: seq<Found>, i: nat)
    requires Orderly(devs, head, dir) && LeavesItsDue(devs, head, dir)
    requires i < |dir| && Brings(devs, head, dir[i])
    ensures Appends(devs, head, dir, i)
  {
    UpdatedShape(devs, head, dir);
    NewcomerIsThere(devs, head, dir, |dir|, i);
    var d := Dev(dir[i].channel, dir[i].setup.ept, true);
    assert d in Updated(devs, head, dir);
    if d in Sweep(Marked(devs, head, dir, |dir|)) {
      SweptIsRecorded(devs, head, dir, d);
    }
    AppendedAre(devs, head, dir, |dir|, d);
    var j :| 0 <= j < |dir| && Appends(devs, head, dir, j) && d == Dev(dir[j].channel, dir[j].setup.ept, true);
    assert dir[j].name == dir[i].name;
  }

  lemma SameTail<T>(a: seq<T>, b: seq<T>, tail: seq<T>)
    requires a + tail == b + tail
    ensures a == b
  {
    assert |a| == |b|;
    assert (a + tail)[..|a|] == a && (b + tail)[..|a|] == b;
  }

  /** And exactly the recorded devices that are there were hit. */
  lemma DueSweeps(devs: seq<Dev>, head: string, dir: seq<Found>)
    requires Orderly(devs, head, dir) && LeavesItsDue(devs, head, dir)
    ensures Sweep(Marked(devs, head, dir, |dir|)) == Survivors(devs, head, dir, |dir|)
  {
    UpdatedShape(devs, head, dir);
    forall i | 0 <= i < |dir| && Brings(devs, head, dir[i])
      ensures Appends(devs, head, dir, i)
    {
      DueAppends(devs, head, dir, i);
    }
    AppendedIsNewcomers(devs, head, dir, |dir|);
    SameTail(Sweep(Marked(devs, head, dir, |dir|)), Survivors(devs, head, dir, |dir|),
             Newcomers(devs, head, dir, |dir|));
  }

  lemma DueHits(devs: seq<Dev>, head: string, dir: seq<Found>, k: nat)
    requires Orderly(devs, head, dir) && LeavesItsDue(devs, head, dir) && k < |devs|
    ensures Hit(devs, head, dir, k, |dir|) <==> Seen(dir, head + devs[k].channel, |dir|)
  {
    DueSweeps(devs, head, dir);
    var marked := Marked(devs, head, dir, |dir|);
    if Hit(devs, head, dir, k, |dir|) {
      MarkedIsSwept(marked, k);
      SurvivorsAre(devs, head, dir, |dir|, marked[k]);
    }
    if Seen(dir, head + devs[k].channel, |dir|) {
      SurvivorIsThere(devs, head, dir, |dir|, k);
      var d := devs[k].(active := true);
      SweptAre(marked, d);
      SweptIsMarked(marked, d);
      var m :| 0 <= m < |marked| && marked[m] == d;
      assert devs[m].channel == devs[k].channel;
      assert m == k;
    }
  }

  // ---------------------------------------------------------------- exactly when

  /** The entry of a recorded device that is hit is what hits it: any other entry taken for it would, like it, have been
      taken for an earlier one. */
  lemma OwnIsFirst(devs: seq<Dev>, head: string, dir: seq<Found>, i: nat, own: nat)
    requires i < |dir| && dir[i].relevant && own < |devs| && head + devs[own].channel == dir[i].name
    requires Hit(devs, head, dir, own, |dir|)
    ensures FirstMatch(devs, head, dir[i].name, 0) == own
  {
    var k := FirstMatch(devs, head, dir[i].name, 0);
    assert Matches(devs[own], head, dir[i].name);
    var f :| 0 <= f < |dir| && dir[f].relevant && FirstMatch(devs, head, dir[f].name, 0) == own;
    assert dir[f].name <= dir[i].name;
    assert k < own ==> Matches(devs[k], head, dir[i].name) && Matches(devs[k], head, dir[f].name);
  }

  lemma DueIsRight(devs: seq<Dev>, head: string, dir: seq<Found>, i: nat)
    requires Orderly(devs, head, dir) && LeavesItsDue(devs, head, dir) && i < |dir|
    ensures RightlyTaken(devs, head, dir, i)
  {
    var name := dir[i].name;
    var k := FirstMatch(devs, head, name, 0);
    if !dir[i].relevant {
    } else if Recorded(devs, head, name) {
      var own :| 0 <= own < |devs| && head + devs[own].channel == name;
      DueHits(devs, head, dir, own);
      assert Seen(dir, name, |dir|);
      OwnIsFirst(devs, head, dir, i, own);
    } else if dir[i].setup.Made? {
      DueAppends(devs, head, dir, i);
      forall j | 0 <= j < i && Brings(devs, head, dir[j])
        ensures !(name <= dir[j].name)
      {
        DueAppends(devs, head, dir, j);
        AppendedStays(devs, head, dir, i, j);
        var d, added := Dev(dir[j].channel, dir[j].setup.ept, true), Appended(devs, head, dir, i);
        var m :| 0 <= m < |added| && added[m] == d;
        assert !Matches(added[m], head, name);
      }
    } else if k < |devs| {
      DueHits(devs, head, dir, k);
      assert Hit(devs, head, dir, k, |dir|);
    }
  }

  /** An update leaves what it ought to (the recorded devices that are still there, and then the new ones that could be set
      up) exactly if every entry is taken for what it is. */
  lemma UpdateExactlyWhen(devs: seq<Dev>, head: string, dir: seq<Found>)
    requires Orderly(devs, head, dir)
    ensures Updated(devs, head, dir) == Survivors(devs, head, dir, |dir|) + Newcomers(devs, head, dir, |dir|)
      <==> AllRight(devs, head, dir, |dir|)
  {
    if AllRight(devs, head, dir, |dir|) {
      UpdateIs(devs, head, dir);
    }
    if LeavesItsDue(devs, head, dir) {
      forall i | 0 <= i < |dir|
        ensures RightlyTaken(devs, head, dir, i)
      {
        DueIsRight(devs, head, dir, i);
      }
    }
  }

  /** So it does after any updates of a list that was empty. */
  lemma ReachedExactlyWhen(head: string, dirs: seq<seq<Found>>, dir: seq<Found>)
    requires NamesOk(head, dir) && forall i :: 0 <= i < |dirs| ==> NamesOk(head, dirs[i])
    ensures var devs := Updates([], head, dirs);
      Updated(devs, head, dir) == Survivors(devs, head, dir, |dir|) + Newcomers(devs, head, dir, |dir|)
      <==> AllRight(devs, head, dir, |dir|)
  {
    UpdatesDiffer(head, dirs);
    UpdateExactlyWhen(Updates([], head, dirs), head, dir);
  }
}
