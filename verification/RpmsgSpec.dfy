/** The rpmsg device list of an RPU slot, as a sequence: mark, scan, append and sweep.

    `head` is what the names of the slot's devices begin with: virtio<n>. for its number n. */
module RpmsgSpec {

  /** What a list node records: the channel behind the first dot of the device name, and its endpoint. */
  datatype Dev = Dev(channel: string, ept: string, active: bool)

  /** Whether the endpoint of a new device could be set up, and its name. */
  datatype Setup = Failed | Made(ept: string)

  /** An entry of the device directory: its name, the part behind the first dot, whether it is a device of this RPU,
      and what setting up its endpoint would come to. */
  datatype Found = Found(name: string, channel: string, relevant: bool, setup: Setup)

  // ---------------------------------------------------------------- one update

  function Reset(devs: seq<Dev>): (r: seq<Dev>)
    ensures |r| == |devs|
  {
    seq(|devs|, i requires 0 <= i < |devs| => devs[i].(active := false))
  }

  /** A directory entry is taken for a recorded device if its name is a prefix of the device's. */
  predicate Matches(d: Dev, head: string, name: string) {
    name <= head + d.channel
  }

  /** The first device from i on that the name is taken for, or the length of the list. */
  function FirstMatch(devs: seq<Dev>, head: string, name: string, i: nat): (k: nat)
    requires i <= |devs|
    ensures i <= k <= |devs| && (k < |devs| ==> Matches(devs[k], head, name))
    ensures forall m :: i <= m < k ==> !Matches(devs[m], head, name)
    decreases |devs| - i
  {
    if i == |devs| || Matches(devs[i], head, name) then i else FirstMatch(devs, head, name, i + 1)
  }

  function Mark(devs: seq<Dev>, k: nat): (r: seq<Dev>)
    requires k < |devs|
    ensures |r| == |devs|
  {
    devs[k := devs[k].(active := true)]
  }

  /** One directory entry: a recorded device is marked, a new one is appended if its endpoint could be set up. */
  function ScanOne(devs: seq<Dev>, head: string, found: Found): (r: seq<Dev>)
    ensures |devs| <= |r|
  {
    if !found.relevant then devs
    else
      var k := FirstMatch(devs, head, found.name, 0);
      if k < |devs| then Mark(devs, k)
      else if found.setup.Made? then devs + [Dev(found.channel, found.setup.ept, true)]
      else devs
  }

  /** The first n directory entries. */
  function Scan(devs: seq<Dev>, head: string, dir: seq<Found>, n: nat): (r: seq<Dev>)
    requires n <= |dir|
    ensures |devs| <= |r|
  {
    if n == 0 then devs else ScanOne(Scan(devs, head, dir, n - 1), head, dir[n - 1])
  }

  /** An entry that is to get a node has a dot in its name, behind which its channel is read. */
  predicate Dotted(devs: seq<Dev>, head: string, f: Found) {
    f.relevant && f.setup.Made? && FirstMatch(devs, head, f.name, 0) == |devs| ==> '.' in f.name
  }

  /** Every entry that is to get a node in a scan has. */
  predicate AllDotted(devs: seq<Dev>, head: string, dir: seq<Found>) {
    forall i :: 0 <= i < |dir| ==> Dotted(Scan(devs, head, dir, i), head, dir[i])
  }

  /** The lists that a scan goes through, from before the first entry to after the last. */
  function Scans(devs: seq<Dev>, head: string, dir: seq<Found>): (r: seq<seq<Dev>>)
    ensures |r| == |dir| + 1 && r[0] == devs && r[|dir|] == Scan(devs, head, dir, |dir|)
    ensures AllDotted(devs, head, dir) ==> forall i :: 0 <= i < |dir| ==> Stage(r, head, dir, i)
  {
    seq(|dir| + 1, i requires 0 <= i <= |dir| => Scan(devs, head, dir, i))
  }

  /** Each list follows from the one before. */
  predicate Stage(scans: seq<seq<Dev>>, head: string, dir: seq<Found>, i: nat)
    requires |scans| == |dir| + 1 && i < |dir|
  {
    scans[i + 1] == ScanOne(scans[i], head, dir[i]) && Dotted(scans[i], head, dir[i])
  }

  /** The elements whose flag is set. */
  function Keep<T>(xs: seq<T>, flags: seq<bool>): (r: seq<T>)
    requires |xs| == |flags|
    ensures |r| <= |xs|
    ensures forall x :: x in r ==> x in xs
  {
    if xs == [] then []
    else
      var n := |xs| - 1;
      Keep(xs[..n], flags[..n]) + if flags[n] then [xs[n]] else []
  }

  function Flags(devs: seq<Dev>): (r: seq<bool>)
    ensures |r| == |devs|
  {
    seq(|devs|, i requires 0 <= i < |devs| => devs[i].active)
  }

  function Sweep(devs: seq<Dev>): seq<Dev> {
    Keep(devs, Flags(devs))
  }

  function Scanned(devs: seq<Dev>, head: string, dir: seq<Found>): (r: seq<Dev>)
    ensures |devs| <= |r|
  {
    Scan(Reset(devs), head, dir, |dir|)
  }

  /** `update_rpmsg_dev_list` on a directory that could be opened. */
  function Updated(devs: seq<Dev>, head: string, dir: seq<Found>): seq<Dev> {
    Sweep(Scanned(devs, head, dir))
  }

  // ---------------------------------------------------------------- what an update comes to

  /** The name is among the first n entries, and concerns this RPU. */
  predicate Seen(dir: seq<Found>, name: string, n: nat)
    requires n <= |dir|
  {
    exists i :: 0 <= i < n && dir[i].name == name && dir[i].relevant
  }

  predicate Recorded(devs: seq<Dev>, head: string, name: string) {
    exists i :: 0 <= i < |devs| && head + devs[i].channel == name
  }

  /** The recorded devices that are still there, in order, with their endpoints. */
  function Survivors(devs: seq<Dev>, head: string, dir: seq<Found>, n: nat): seq<Dev>
    requires n <= |dir|
  {
    if devs == [] then []
    else
      var k := |devs| - 1;
      Survivors(devs[..k], head, dir, n)
      + if Seen(dir, head + devs[k].channel, n) then [devs[k].(active := true)] else []
  }

  /** The devices among the first n entries that were not recorded and whose endpoints could be set up, in order. */
  function Newcomers(devs: seq<Dev>, head: string, dir: seq<Found>, n: nat): seq<Dev>
    requires n <= |dir|
  {
    if n == 0 then []
    else
      var f := dir[n - 1];
      Newcomers(devs, head, dir, n - 1)
      + if Brings(devs, head, f) then [Dev(f.channel, f.setup.ept, true)] else []
  }

  /** Not a proper prefix. */
  predicate NotPrefix(a: string, b: string) {
    a <= b ==> a == b
  }

  predicate ChannelsDiffer(r: seq<Dev>) {
    forall i, j :: 0 <= i < j < |r| ==> r[i].channel != r[j].channel
  }

  /** Entries of one directory have different names, and those of this RPU begin with `head`. */
  predicate NamesOk(head: string, dir: seq<Found>) {
    && (forall i, j :: 0 <= i < j < |dir| ==> dir[i].name != dir[j].name)
    && (forall i :: 0 <= i < |dir| && dir[i].relevant ==> head + dir[i].channel == dir[i].name)
  }

  /** And recorded devices have different channels. */
  predicate Orderly(devs: seq<Dev>, head: string, dir: seq<Found>) {
    NamesOk(head, dir) && ChannelsDiffer(devs)
  }

  /** Entry i of this RPU is taken for what it is. If its device is recorded, that device is the first one that the name is
      a prefix of. If it is new and can be set up, the name is a prefix of no recorded one's and of none's that an earlier
      entry brings. And if it is new and cannot be set up, a recorded one that it is taken for is there all the same. */
  predicate RightlyTaken(devs: seq<Dev>, head: string, dir: seq<Found>, i: nat)
    requires i < |dir|
  {
    dir[i].relevant ==>
      var k := FirstMatch(devs, head, dir[i].name, 0);
      if Recorded(devs, head, dir[i].name) then k < |devs| && head + devs[k].channel == dir[i].name
      else if dir[i].setup.Made? then
        && k == |devs|
        && forall j :: 0 <= j < i && Brings(devs, head, dir[j]) ==> !(dir[i].name <= dir[j].name)
      else k < |devs| ==> Seen(dir, head + devs[k].channel, |dir|)
  }

  /** The entry is of a device that was not recorded and whose endpoint could be set up. */
  predicate Brings(devs: seq<Dev>, head: string, f: Found) {
    f.relevant && !Recorded(devs, head, f.name) && f.setup.Made?
  }

  ghost predicate AllRight(devs: seq<Dev>, head: string, dir: seq<Found>, n: nat)
    requires n <= |dir|
  {
    forall i :: 0 <= i < n ==> RightlyTaken(devs, head, dir, i)
  }

  /** No name of this RPU is a proper prefix of another's or of a recorded one. */
  predicate Plain(devs: seq<Dev>, head: string, dir: seq<Found>) {
    && Orderly(devs, head, dir)
    && (forall i, j :: 0 <= i < |dir| && 0 <= j < |dir| && dir[i].relevant && dir[j].relevant ==>
          (dir[i].name <= dir[j].name ==> i == j))
    && (forall i, k :: 0 <= i < |dir| && 0 <= k < |devs| && dir[i].relevant ==>
          NotPrefix(dir[i].name, head + devs[k].channel))
  }

  lemma MatchIsOwn(devs: seq<Dev>, head: string, name: string, k: nat)
    requires k < |devs| && Matches(devs[k], head, name) && NotPrefix(name, head + devs[k].channel)
    ensures head + devs[k].channel == name && Recorded(devs, head, name)
  {}

  lemma PlainIsRight(devs: seq<Dev>, head: string, dir: seq<Found>)
    requires Plain(devs, head, dir)
    ensures AllRight(devs, head, dir, |dir|)
  {
    forall i | 0 <= i < |dir|
      ensures RightlyTaken(devs, head, dir, i)
    {
      var name := dir[i].name;
      var k := FirstMatch(devs, head, name, 0);
      if dir[i].relevant && k < |devs| {
        MatchIsOwn(devs, head, name, k);
      }
      if dir[i].relevant && Recorded(devs, head, name) {
        var own :| 0 <= own < |devs| && head + devs[own].channel == name;
        assert Matches(devs[own], head, name);
      }
    }
  }

  lemma SameChannel(head: string, a: string, b: string)
    requires head + a == head + b
    ensures a == b
  {
    assert (head + a)[|head|..] == a && (head + b)[|head|..] == b;
  }

  /** A device that was not recorded and that this entry brought. */
  predicate ComesFrom(devs: seq<Dev>, head: string, f: Found, d: Dev) {
    && f.relevant && f.setup == Made(d.ept) && head + d.channel == f.name
    && !Recorded(devs, head, f.name)
  }

  lemma {:induction false} NewcomersAre(devs: seq<Dev>, head: string, dir: seq<Found>, n: nat, d: Dev)
    requires n <= |dir| && Orderly(devs, head, dir)
    requires d in Newcomers(devs, head, dir, n)
    ensures d.active
    ensures exists i :: 0 <= i < n && ComesFrom(devs, head, dir[i], d)
  {
    var f := dir[n - 1];
    if d in Newcomers(devs, head, dir, n - 1) {
      NewcomersAre(devs, head, dir, n - 1, d);
    } else {
      assert d == Dev(f.channel, f.setup.ept, true);
    }
  }

  /** Only the channels matter to a search. */
  lemma {:induction false} FirstMatchAgain(devs: seq<Dev>, again: seq<Dev>, more: seq<Dev>, head: string, name: string,
                                           i: nat)
    requires i <= |devs| == |again| && forall j :: 0 <= j < |devs| ==> again[j].channel == devs[j].channel
    ensures var k, all := FirstMatch(devs, head, name, i), again + more;
      FirstMatch(all, head, name, i) == if k < |devs| then k else FirstMatch(all, head, name, |devs|)
    decreases |devs| - i
  {
    if i < |devs| {
      assert (again + more)[i] == again[i];
      FirstMatchAgain(devs, again, more, head, name, i + 1);
    }
  }

  // ---------------------------------------------------------------- what a scan comes to, whatever it is taken for

  /** One of the first n entries is taken for recorded device k. */
  predicate Hit(devs: seq<Dev>, head: string, dir: seq<Found>, k: nat, n: nat)
    requires n <= |dir|
  {
    exists i :: 0 <= i < n && dir[i].relevant && FirstMatch(devs, head, dir[i].name, 0) == k
  }

  /** The recorded devices after n entries: those hit are marked. */
  function Marked(devs: seq<Dev>, head: string, dir: seq<Found>, n: nat): (r: seq<Dev>)
    requires n <= |dir|
    ensures |r| == |devs|
  {
    seq(|devs|, k requires 0 <= k < |devs| => devs[k].(active := Hit(devs, head, dir, k, n)))
  }

  /** Entry n gets a node. */
  predicate Appends(devs: seq<Dev>, head: string, dir: seq<Found>, n: nat)
    requires n < |dir|
    decreases n, 1
  {
    && dir[n].relevant && dir[n].setup.Made?
    && FirstMatch(devs, head, dir[n].name, 0) == |devs|
    && var added := Appended(devs, head, dir, n);
       FirstMatch(added, head, dir[n].name, 0) == |added|
  }

  /** The nodes of the first n entries. */
  function Appended(devs: seq<Dev>, head: string, dir: seq<Found>, n: nat): seq<Dev>
    requires n <= |dir|
    decreases n, 0
  {
    if n == 0 then []
    else
      Appended(devs, head, dir, n - 1)
      + if Appends(devs, head, dir, n - 1) then [Dev(dir[n - 1].channel, dir[n - 1].setup.ept, true)] else []
  }

  lemma HitOneMore(devs: seq<Dev>, head: string, dir: seq<Found>, k: nat, n: nat)
    requires n < |dir|
    ensures Hit(devs, head, dir, k, n + 1) <==>
      Hit(devs, head, dir, k, n) || (dir[n].relevant && FirstMatch(devs, head, dir[n].name, 0) == k)
  {
  }

  /** A search through two lists is a search through the first, and then one through the second. */
  lemma {:induction false} FirstMatchBehind(devs: seq<Dev>, more: seq<Dev>, head: string, name: string, i: nat)
    requires i <= |more|
    ensures FirstMatch(devs + more, head, name, |devs| + i) == |devs| + FirstMatch(more, head, name, i)
    decreases |more| - i
  {
    if i < |more| {
      assert (devs + more)[|devs| + i] == more[i];
      FirstMatchBehind(devs, more, head, name, i + 1);
    }
  }

  lemma {:induction false} AppendedAreMarked(devs: seq<Dev>, head: string, dir: seq<Found>, n: nat)
    requires n <= |dir|
    ensures forall d :: d in Appended(devs, head, dir, n) ==> d.active
  {
    if n > 0 {
      AppendedAreMarked(devs, head, dir, n - 1);
    }
  }

  lemma MarkedNext(devs: seq<Dev>, head: string, dir: seq<Found>, n: nat)
    requires n < |dir|
    ensures var now, k := Marked(devs, head, dir, n), FirstMatch(devs, head, dir[n].name, 0);
      Marked(devs, head, dir, n + 1) == if dir[n].relevant && k < |devs| then Mark(now, k) else now
  {
    var now, next := Marked(devs, head, dir, n), Marked(devs, head, dir, n + 1);
    var k := FirstMatch(devs, head, dir[n].name, 0);
    forall j | 0 <= j < |devs|
      ensures next[j] == if dir[n].relevant && j == k then now[j].(active := true) else now[j]
    {
      HitOneMore(devs, head, dir, j, n);
    }
  }

  /** One entry against a list in two parts, whose second has marked devices only. */
  lemma ScanOneInTwo(now: seq<Dev>, added: seq<Dev>, head: string, f: Found)
    requires f.relevant && forall d :: d in added ==> d.active
    ensures var k, m := FirstMatch(now, head, f.name, 0), FirstMatch(added, head, f.name, 0);
      ScanOne(now + added, head, f) ==
        if k < |now| then Mark(now, k) + added
        else if m == |added| && f.setup.Made? then now + (added + [Dev(f.channel, f.setup.ept, true)])
        else now + added
  {
    var k, m := FirstMatch(now, head, f.name, 0), FirstMatch(added, head, f.name, 0);
    FirstMatchAgain(now, now, added, head, f.name, 0);
    FirstMatchBehind(now, added, head, f.name, 0);
    if k < |now| {
      assert Mark(now + added, k) == Mark(now, k) + added;
    } else if m < |added| {
      assert added[m] in added;
      assert Mark(now + added, |now| + m) == now + added;
    }
  }

  lemma {:induction false} SameMatch(devs: seq<Dev>, again: seq<Dev>, head: string, name: string, i: nat)
    requires i <= |devs| == |again| && forall j :: 0 <= j < |devs| ==> again[j].channel == devs[j].channel
    ensures FirstMatch(again, head, name, i) == FirstMatch(devs, head, name, i)
    decreases |devs| - i
  {
    if i < |devs| {
      SameMatch(devs, again, head, name, i + 1);
    }
  }

  lemma ScanOneShape(devs: seq<Dev>, head: string, dir: seq<Found>, n: nat)
    requires n < |dir|
    ensures ScanOne(Marked(devs, head, dir, n) + Appended(devs, head, dir, n), head, dir[n])
         == Marked(devs, head, dir, n + 1) + Appended(devs, head, dir, n + 1)
  {
    var now, added := Marked(devs, head, dir, n), Appended(devs, head, dir, n);
    MarkedNext(devs, head, dir, n);
    if dir[n].relevant {
      AppendedAreMarked(devs, head, dir, n);
      ScanOneInTwo(now, added, head, dir[n]);
      SameMatch(devs, now, head, dir[n].name, 0);
    }
  }

  /** After n entries the devices hit so far are marked and the nodes made so far are appended. */
  lemma {:induction false} ScanShape(devs: seq<Dev>, head: string, dir: seq<Found>, start: seq<Dev>, n: nat)
    requires n <= |dir| && start == Reset(devs)
    ensures Scan(start, head, dir, n) == Marked(devs, head, dir, n) + Appended(devs, head, dir, n)
  {
    if n == 0 {
      assert Marked(devs, head, dir, 0) == start;
    } else {
      ScanShape(devs, head, dir, start, n - 1);
      ScanOneShape(devs, head, dir, n - 1);
    }
  }

  lemma {:induction false} KeepJoin<T>(a: seq<T>, b: seq<T>, fa: seq<bool>, fb: seq<bool>)
    requires |a| == |fa| && |b| == |fb|
    ensures Keep(a + b, fa + fb) == Keep(a, fa) + Keep(b, fb)
    decreases |b|
  {
    if b == [] {
      assert a + b == a && fa + fb == fa;
    } else {
      var n := |b| - 1;
      assert (a + b)[..|a| + n] == a + b[..n] && (fa + fb)[..|a| + n] == fa + fb[..n];
      KeepJoin(a, b[..n], fa, fb[..n]);
    }
  }

  lemma {:induction false} KeepAll<T>(xs: seq<T>, flags: seq<bool>)
    requires |xs| == |flags| && forall i :: 0 <= i < |xs| ==> flags[i]
    ensures Keep(xs, flags) == xs
    decreases |xs|
  {
    if xs != [] {
      var n := |xs| - 1;
      KeepAll(xs[..n], flags[..n]);
    }
  }

  /** What an update leaves, for any list and any directory. */
  lemma UpdatedShape(devs: seq<Dev>, head: string, dir: seq<Found>)
    ensures Updated(devs, head, dir) == Sweep(Marked(devs, head, dir, |dir|)) + Appended(devs, head, dir, |dir|)
  {
    ScanShape(devs, head, dir, Reset(devs), |dir|);
    var marked, added := Marked(devs, head, dir, |dir|), Appended(devs, head, dir, |dir|);
    assert Flags(marked + added) == Flags(marked) + Flags(added);
    KeepJoin(marked, added, Flags(marked), Flags(added));
    AppendedAreMarked(devs, head, dir, |dir|);
    forall k | 0 <= k < |added|
      ensures added[k].active
    {
      assert added[k] in added;
    }
    KeepAll(added, Flags(added));
  }

  // ---------------------------------------------------------------- entries that are taken for what they are

  lemma OwnMatch(devs: seq<Dev>, head: string, name: string)
    requires Recorded(devs, head, name)
    ensures FirstMatch(devs, head, name, 0) < |devs|
  {
    var own :| 0 <= own < |devs| && head + devs[own].channel == name;
    assert Matches(devs[own], head, name);
  }

  lemma AppendsBrings(devs: seq<Dev>, head: string, dir: seq<Found>, n: nat)
    requires n < |dir| && Appends(devs, head, dir, n)
    ensures Brings(devs, head, dir[n])
  {
    if Recorded(devs, head, dir[n].name) {
      OwnMatch(devs, head, dir[n].name);
    }
  }

  /** The nodes made are those that ought to be, if entries that bring a device get one. */
  lemma {:induction false} AppendedIsNewcomers(devs: seq<Dev>, head: string, dir: seq<Found>, n: nat)
    requires n <= |dir|
    requires forall i :: 0 <= i < n && Brings(devs, head, dir[i]) ==> Appends(devs, head, dir, i)
    ensures Appended(devs, head, dir, n) == Newcomers(devs, head, dir, n)
  {
    if n > 0 {
      AppendedIsNewcomers(devs, head, dir, n - 1);
      if Appends(devs, head, dir, n - 1) {
        AppendsBrings(devs, head, dir, n - 1);
      }
    }
  }

  lemma {:induction false} RightAppends(devs: seq<Dev>, head: string, dir: seq<Found>, n: nat)
    requires n <= |dir| && Orderly(devs, head, dir) && AllRight(devs, head, dir, n)
    ensures forall i :: 0 <= i < n && Brings(devs, head, dir[i]) ==> Appends(devs, head, dir, i)
  {
    if n > 0 {
      RightAppends(devs, head, dir, n - 1);
      AppendedIsNewcomers(devs, head, dir, n - 1);
      if Brings(devs, head, dir[n - 1]) {
        assert RightlyTaken(devs, head, dir, n - 1);
        MatchesNoNewcomer(devs, head, dir, n - 1);
      }
    }
  }

  lemma MatchesNoNewcomer(devs: seq<Dev>, head: string, dir: seq<Found>, n: nat)
    requires n < |dir| && Orderly(devs, head, dir)
    requires forall j :: 0 <= j < n && Brings(devs, head, dir[j]) ==> !(dir[n].name <= dir[j].name)
    ensures var added := Newcomers(devs, head, dir, n); FirstMatch(added, head, dir[n].name, 0) == |added|
  {
    var added := Newcomers(devs, head, dir, n);
    forall k | 0 <= k < |added|
      ensures !Matches(added[k], head, dir[n].name)
    {
      NewcomersAre(devs, head, dir, n, added[k]);
      var j :| 0 <= j < n && ComesFrom(devs, head, dir[j], added[k]);
      assert Brings(devs, head, dir[j]);
    }
  }

  /** The devices hit are those that are there. */
  lemma RightHits(devs: seq<Dev>, head: string, dir: seq<Found>, k: nat)
    requires k < |devs| && Orderly(devs, head, dir) && AllRight(devs, head, dir, |dir|)
    ensures Hit(devs, head, dir, k, |dir|) <==> Seen(dir, head + devs[k].channel, |dir|)
  {
    var name := head + devs[k].channel;
    if Hit(devs, head, dir, k, |dir|) {
      var i :| 0 <= i < |dir| && dir[i].relevant && FirstMatch(devs, head, dir[i].name, 0) == k;
      assert RightlyTaken(devs, head, dir, i);
    }
    if Seen(dir, name, |dir|) {
      var i :| 0 <= i < |dir| && dir[i].name == name && dir[i].relevant;
      assert RightlyTaken(devs, head, dir, i) && Recorded(devs, head, name);
      var own := FirstMatch(devs, head, name, 0);
      SameChannel(head, devs[own].channel, devs[k].channel);
    }
  }

  lemma {:induction false} SweptIsSurvivors(devs: seq<Dev>, marked: seq<Dev>, head: string, dir: seq<Found>)
    requires |marked| == |devs|
    requires forall k :: 0 <= k < |devs| ==> marked[k] == devs[k].(active := Seen(dir, head + devs[k].channel, |dir|))
    ensures Sweep(marked) == Survivors(devs, head, dir, |dir|)
    decreases |devs|
  {
    if devs != [] {
      var k := |devs| - 1;
      SweptIsSurvivors(devs[..k], marked[..k], head, dir);
      assert Flags(marked)[..k] == Flags(marked[..k]);
    }
  }

  /** An update whose entries are taken for what they are leaves the recorded devices that the directory still has, in
      order and with their endpoints, and then the devices that are new in it and could be set up, in directory order. */
  lemma UpdateIs(devs: seq<Dev>, head: string, dir: seq<Found>)
    requires Orderly(devs, head, dir) && AllRight(devs, head, dir, |dir|)
    ensures Updated(devs, head, dir) ==
      Survivors(devs, head, dir, |dir|) + Newcomers(devs, head, dir, |dir|)
  {
    UpdatedShape(devs, head, dir);
    RightAppends(devs, head, dir, |dir|);
    AppendedIsNewcomers(devs, head, dir, |dir|);
    forall k | 0 <= k < |devs|
      ensures Hit(devs, head, dir, k, |dir|) == Seen(dir, head + devs[k].channel, |dir|)
    {
      RightHits(devs, head, dir, k);
    }
    SweptIsSurvivors(devs, Marked(devs, head, dir, |dir|), head, dir);
  }

  // ---------------------------------------------------------------- updating twice

  lemma {:induction false} SurvivorsAre(devs: seq<Dev>, head: string, dir: seq<Found>, n: nat, d: Dev)
    requires n <= |dir| && d in Survivors(devs, head, dir, n)
    ensures d.active && Seen(dir, head + d.channel, n)
    ensures exists k :: 0 <= k < |devs| && devs[k].channel == d.channel && devs[k].ept == d.ept
    decreases |devs|
  {
    var k := |devs| - 1;
    if d in Survivors(devs[..k], head, dir, n) {
      SurvivorsAre(devs[..k], head, dir, n, d);
    }
  }

  lemma {:induction false} SurvivorIsThere(devs: seq<Dev>, head: string, dir: seq<Found>, n: nat, k: nat)
    requires n <= |dir| && k < |devs| && Seen(dir, head + devs[k].channel, n)
    ensures devs[k].(active := true) in Survivors(devs, head, dir, n)
    decreases |devs|
  {
    if k < |devs| - 1 {
      SurvivorIsThere(devs[..|devs| - 1], head, dir, n, k);
    }
  }

  lemma {:induction false} NewcomerIsThere(devs: seq<Dev>, head: string, dir: seq<Found>, n: nat, i: nat)
    requires i < n <= |dir| && dir[i].relevant && !Recorded(devs, head, dir[i].name)
    requires dir[i].setup.Made?
    ensures Dev(dir[i].channel, dir[i].setup.ept, true) in Newcomers(devs, head, dir, n)
  {
    if i < n - 1 {
      NewcomerIsThere(devs, head, dir, n - 1, i);
    }
  }

  lemma EntryIsRecorded(devs: seq<Dev>, head: string, dir: seq<Found>, i: nat)
    requires Orderly(devs, head, dir) && i < |dir| && dir[i].relevant
    ensures var now := Survivors(devs, head, dir, |dir|) + Newcomers(devs, head, dir, |dir|);
      Recorded(now, head, dir[i].name) <==> Recorded(devs, head, dir[i].name) || dir[i].setup.Made?
  {
    var kept, added := Survivors(devs, head, dir, |dir|), Newcomers(devs, head, dir, |dir|);
    var now := kept + added;
    if Recorded(devs, head, dir[i].name) {
      var k :| 0 <= k < |devs| && head + devs[k].channel == dir[i].name;
      SurvivorIsThere(devs, head, dir, |dir|, k);
      assert devs[k].(active := true) in now;
    } else if dir[i].setup.Made? {
      NewcomerIsThere(devs, head, dir, |dir|, i);
      assert Dev(dir[i].channel, dir[i].setup.ept, true) in now;
    } else if Recorded(now, head, dir[i].name) {
      var m :| 0 <= m < |now| && head + now[m].channel == dir[i].name;
      if m < |kept| {
        assert now[m] in kept;
        SurvivorsAre(devs, head, dir, |dir|, now[m]);
      } else {
        assert now[m] in added;
        NewcomersAre(devs, head, dir, |dir|, now[m]);
      }
    }
  }

  /** After an update an entry of this RPU is recorded exactly if it was before or its endpoint could be set up, and every
      recorded device is marked and in the directory. */
  lemma {:induction false} UpdatedIsCurrent(devs: seq<Dev>, head: string, dir: seq<Found>)
    requires Orderly(devs, head, dir) && AllRight(devs, head, dir, |dir|)
    ensures var now := Updated(devs, head, dir);
      && (forall i :: 0 <= i < |dir| && dir[i].relevant ==>
            (Recorded(now, head, dir[i].name) <==> Recorded(devs, head, dir[i].name) || dir[i].setup.Made?))
      && (forall k :: 0 <= k < |now| ==> now[k].active && Seen(dir, head + now[k].channel, |dir|))
  {
    UpdateIs(devs, head, dir);
    var now := Updated(devs, head, dir);
    var kept, added := Survivors(devs, head, dir, |dir|), Newcomers(devs, head, dir, |dir|);
    forall i | 0 <= i < |dir| && dir[i].relevant
      ensures Recorded(now, head, dir[i].name) <==> Recorded(devs, head, dir[i].name) || dir[i].setup.Made?
    {
      EntryIsRecorded(devs, head, dir, i);
    }
    forall k | 0 <= k < |now|
      ensures now[k].active && Seen(dir, head + now[k].channel, |dir|)
    {
      if k < |kept| {
        assert now[k] in kept;
        SurvivorsAre(devs, head, dir, |dir|, now[k]);
      } else {
        assert now[k] in added;
        NewcomersAre(devs, head, dir, |dir|, now[k]);
      }
    }
  }

  lemma {:induction false} NoNewcomers(devs: seq<Dev>, head: string, dir: seq<Found>, n: nat)
    requires n <= |dir|
    requires forall i :: 0 <= i < n ==> !Brings(devs, head, dir[i])
    ensures Newcomers(devs, head, dir, n) == []
  {
    if n > 0 {
      NoNewcomers(devs, head, dir, n - 1);
    }
  }

  // ---------------------------------------------------------------- no channel is recorded twice

  lemma {:induction false} AppendedAre(devs: seq<Dev>, head: string, dir: seq<Found>, n: nat, d: Dev)
    requires n <= |dir| && d in Appended(devs, head, dir, n)
    ensures exists i :: 0 <= i < n && Appends(devs, head, dir, i) && d == Dev(dir[i].channel, dir[i].setup.ept, true)
  {
    if d in Appended(devs, head, dir, n - 1) {
      AppendedAre(devs, head, dir, n - 1, d);
    }
  }

  lemma SweptAre(devs: seq<Dev>, d: Dev)
    requires d in Sweep(devs)
    ensures exists k :: 0 <= k < |devs| && devs[k] == d
  {
  }

  lemma {:induction false} SweptDiffer(devs: seq<Dev>)
    requires ChannelsDiffer(devs)
    ensures ChannelsDiffer(Sweep(devs))
    decreases |devs|
  {
    if devs != [] {
      var n := |devs| - 1;
      var r := Sweep(devs[..n]);
      SweptDiffer(devs[..n]);
      assert Flags(devs)[..n] == Flags(devs[..n]);
      forall i | 0 <= i < |r|
        ensures r[i].channel != devs[n].channel
      {
        assert r[i] in r;
        SweptAre(devs[..n], r[i]);
      }
    }
  }

  lemma {:induction false} AppendedDiffer(devs: seq<Dev>, head: string, dir: seq<Found>, n: nat)
    requires n <= |dir| && NamesOk(head, dir)
    ensures ChannelsDiffer(Appended(devs, head, dir, n))
  {
    if n > 0 {
      AppendedDiffer(devs, head, dir, n - 1);
      var r := Appended(devs, head, dir, n - 1);
      forall i | 0 <= i < |r| && Appends(devs, head, dir, n - 1)
        ensures r[i].channel != dir[n - 1].channel
      {
        assert r[i] in r;
        AppendedAre(devs, head, dir, n - 1, r[i]);
      }
    }
  }

  /** An entry that gets a node has a channel that no recorded device has. */
  lemma AppendsIsNew(devs: seq<Dev>, head: string, dir: seq<Found>, i: nat, k: nat)
    requires i < |dir| && k < |devs| && NamesOk(head, dir) && Appends(devs, head, dir, i)
    ensures devs[k].channel != dir[i].channel
  {
    assert !Matches(devs[k], head, dir[i].name);
  }

  /** An update never records a channel twice, whatever its entries are taken for. */
  lemma UpdatedDiffer(devs: seq<Dev>, head: string, dir: seq<Found>)
    requires NamesOk(head, dir) && ChannelsDiffer(devs)
    ensures ChannelsDiffer(Updated(devs, head, dir))
  {
    UpdatedShape(devs, head, dir);
    var marked := Marked(devs, head, dir, |dir|);
    var kept, added := Sweep(marked), Appended(devs, head, dir, |dir|);
    SweptDiffer(marked);
    AppendedDiffer(devs, head, dir, |dir|);
    forall i, j | 0 <= i < |kept| && 0 <= j < |added|
      ensures kept[i].channel != added[j].channel
    {
      assert kept[i] in kept && added[j] in added;
      SweptAre(marked, kept[i]);
      AppendedAre(devs, head, dir, |dir|, added[j]);
      var k :| 0 <= k < |marked| && marked[k] == kept[i];
      var m :| 0 <= m < |dir| && Appends(devs, head, dir, m) && added[j] == Dev(dir[m].channel, dir[m].setup.ept, true);
      AppendsIsNew(devs, head, dir, m, k);
    }
  }

  /** Updates one after the other, each on what its directory has then. */
  function Updates(devs: seq<Dev>, head: string, dirs: seq<seq<Found>>): seq<Dev> {
    if dirs == [] then devs else Updated(Updates(devs, head, dirs[..|dirs| - 1]), head, dirs[|dirs| - 1])
  }

  /** So no sequence of updates of a list that was empty records a channel twice. */
  lemma {:induction false} UpdatesDiffer(head: string, dirs: seq<seq<Found>>)
    requires forall i :: 0 <= i < |dirs| ==> NamesOk(head, dirs[i])
    ensures ChannelsDiffer(Updates([], head, dirs))
    decreases |dirs|
  {
    if dirs != [] {
      UpdatesDiffer(head, dirs[..|dirs| - 1]);
      UpdatedDiffer(Updates([], head, dirs[..|dirs| - 1]), head, dirs[|dirs| - 1]);
    }
  }

  /** Among the survivors the first match of a name is that of the recorded devices, if that one survives. */
  lemma {:induction false} MatchSurvives(devs: seq<Dev>, head: string, dir: seq<Found>, name: string)
    requires var o := FirstMatch(devs, head, name, 0); o < |devs| && Seen(dir, head + devs[o].channel, |dir|)
    ensures var kept := Survivors(devs, head, dir, |dir|);
      var p := FirstMatch(kept, head, name, 0);
      p < |kept| && kept[p].channel == devs[FirstMatch(devs, head, name, 0)].channel
    decreases |devs|
  {
    var k, o := |devs| - 1, FirstMatch(devs, head, name, 0);
    var front, last := devs[..k], devs[k].(active := true);
    var tail := if Seen(dir, head + devs[k].channel, |dir|) then [last] else [];
    assert devs == front + [devs[k]];
    FirstMatchAgain(front, front, [devs[k]], head, name, 0);
    var kept := Survivors(front, head, dir, |dir|);
    FirstMatchAgain(kept, kept, tail, head, name, 0);
    assert Survivors(devs, head, dir, |dir|) == kept + tail;
    if o < k {
      MatchSurvives(front, head, dir, name);
    } else {
      NoMatchSurvives(front, head, dir, name);
      assert Matches((kept + tail)[|kept|], head, name);
    }
  }

  lemma NoMatchSurvives(devs: seq<Dev>, head: string, dir: seq<Found>, name: string)
    requires FirstMatch(devs, head, name, 0) == |devs|
    ensures var kept := Survivors(devs, head, dir, |dir|); FirstMatch(kept, head, name, 0) == |kept|
  {
    var kept := Survivors(devs, head, dir, |dir|);
    forall p | 0 <= p < |kept|
      ensures !Matches(kept[p], head, name)
    {
      assert kept[p] in kept;
      SurvivorsAre(devs, head, dir, |dir|, kept[p]);
      var k :| 0 <= k < |devs| && devs[k].channel == kept[p].channel && devs[k].ept == kept[p].ept;
      assert !Matches(devs[k], head, name);
    }
  }

  lemma {:induction false} NewcomersGrow(devs: seq<Dev>, head: string, dir: seq<Found>, n: nat, m: nat)
    requires n <= m <= |dir|
    ensures Newcomers(devs, head, dir, n) <= Newcomers(devs, head, dir, m)
    decreases m
  {
    if n < m {
      NewcomersGrow(devs, head, dir, n, m - 1);
    }
  }

  /** Among the newcomers the first match of a name that none before it has is its own. */
  lemma NewcomerMatchesItself(devs: seq<Dev>, head: string, dir: seq<Found>, i: nat)
    requires Orderly(devs, head, dir) && i < |dir| && Brings(devs, head, dir[i]) && RightlyTaken(devs, head, dir, i)
    ensures var added := Newcomers(devs, head, dir, |dir|);
      var p := FirstMatch(added, head, dir[i].name, 0);
      p < |added| && added[p].channel == dir[i].channel
  {
    var name, own := dir[i].name, Dev(dir[i].channel, dir[i].setup.ept, true);
    var before, added := Newcomers(devs, head, dir, i), Newcomers(devs, head, dir, |dir|);
    MatchesNoNewcomer(devs, head, dir, i);
    NewcomersGrow(devs, head, dir, i + 1, |dir|);
    assert Newcomers(devs, head, dir, i + 1) == before + [own];
    var rest := added[|before|..];
    assert added == before + rest && rest[0] == own;
    FirstMatchAgain(before, before, rest, head, name, 0);
    assert Matches(added[|before|], head, name);
  }

  /** After an update entries are taken for what they are again. */
  lemma StaysRight(devs: seq<Dev>, head: string, dir: seq<Found>, i: nat)
    requires Orderly(devs, head, dir) && AllRight(devs, head, dir, |dir|) && i < |dir|
    ensures RightlyTaken(Updated(devs, head, dir), head, dir, i)
  {
    UpdateIs(devs, head, dir);
    UpdatedIsCurrent(devs, head, dir);
    assert RightlyTaken(devs, head, dir, i);
    var kept, added := Survivors(devs, head, dir, |dir|), Newcomers(devs, head, dir, |dir|);
    var name := dir[i].name;
    FirstMatchAgain(kept, kept, added, head, name, 0);
    if dir[i].relevant && Recorded(devs, head, name) {
      assert Seen(dir, name, |dir|);
      MatchSurvives(devs, head, dir, name);
    } else if dir[i].relevant && dir[i].setup.Made? {
      NoMatchSurvives(devs, head, dir, name);
      NewcomerMatchesItself(devs, head, dir, i);
      FirstMatchBehind(kept, added, head, name, 0);
    }
  }

  /** A scan of devices that are all marked and there, with nothing new, changes nothing. */
  lemma CurrentStays(now: seq<Dev>, head: string, dir: seq<Found>)
    requires Orderly(now, head, dir) && AllRight(now, head, dir, |dir|)
    requires forall k :: 0 <= k < |now| ==> now[k].active && Seen(dir, head + now[k].channel, |dir|)
    requires forall i :: 0 <= i < |dir| ==> !Brings(now, head, dir[i])
    ensures Scanned(now, head, dir) == now
  {
    ScanShape(now, head, dir, Reset(now), |dir|);
    RightAppends(now, head, dir, |dir|);
    AppendedIsNewcomers(now, head, dir, |dir|);
    NoNewcomers(now, head, dir, |dir|);
    forall k | 0 <= k < |now|
      ensures Marked(now, head, dir, |dir|)[k] == now[k]
    {
      RightHits(now, head, dir, k);
    }
    assert Marked(now, head, dir, |dir|) == now;
  }

  /** A second update on an unchanged directory, whose endpoints come to what they came to before, changes nothing. */
  lemma {:induction false} UpdateTwice(devs: seq<Dev>, head: string, dir: seq<Found>)
    requires Orderly(devs, head, dir) && AllRight(devs, head, dir, |dir|)
    ensures var now := Updated(devs, head, dir);
      Updated(now, head, dir) == now && Scanned(now, head, dir) == now
  {
    var now := Updated(devs, head, dir);
    UpdatedDiffer(devs, head, dir);
    UpdatedIsCurrent(devs, head, dir);
    forall i | 0 <= i < |dir|
      ensures RightlyTaken(now, head, dir, i)
    {
      StaysRight(devs, head, dir, i);
    }
    CurrentStays(now, head, dir);
    KeepAll(now, Flags(now));
  }
}
