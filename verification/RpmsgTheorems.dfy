/** What an update means for directories whose device names are printed in the plain way. */
module RpmsgTheorems {
  import opened RpmsgNames
  import opened RpmsgSpec
  import opened RpmsgList

  /** Entries have different names; those of this RPU are virtio<n>.<channel> with n as %d prints it, and none of their
      names is a proper prefix of another's or of a recorded one. */
  ghost predicate Canonical(devs: seq<Dev>, virtio: int, dir: seq<DirEntry>) {
    && (forall i, j :: 0 <= i < j < |dir| ==> dir[i].name != dir[j].name)
    && (forall i :: 0 <= i < |dir| && Relevant(dir[i].name, virtio) ==>
          exists channel: string :: dir[i].name == FullName(virtio, channel))
    && (forall i, j :: 0 <= i < |dir| && 0 <= j < |dir| && Relevant(dir[i].name, virtio) ==>
          NotPrefix(dir[i].name, dir[j].name))
    && (forall i, k :: 0 <= i < |dir| && 0 <= k < |devs| && Relevant(dir[i].name, virtio) ==>
          NotPrefix(dir[i].name, FullName(virtio, devs[k].channel)))
    && ChannelsDiffer(devs)
  }

  lemma {:induction false} CanonicalIsPlain(devs: seq<Dev>, virtio: nat, dir: seq<DirEntry>)
    requires Canonical(devs, virtio, dir) && virtio < 0x8000_0000
    ensures Plain(devs, Head(virtio), Classified(dir, virtio))
  {
    var found := Classified(dir, virtio);
    forall i | 0 <= i < |found| && found[i].relevant
      ensures Head(virtio) + found[i].channel == found[i].name
    {
      var channel: string :| dir[i].name == FullName(virtio, channel);
      NameRoundTrip(virtio, channel);
    }
    forall i, j | 0 <= i < |found| && 0 <= j < |found| && found[i].relevant && found[j].relevant
      ensures found[i].name <= found[j].name ==> i == j
    {
      assert NotPrefix(dir[i].name, dir[j].name);
      assert found[i].name == dir[i].name && found[j].name == dir[j].name;
      if i < j {
        assert dir[i].name != dir[j].name;
      } else if j < i {
        assert dir[j].name != dir[i].name;
      }
    }
    forall i, k | 0 <= i < |found| && 0 <= k < |devs| && found[i].relevant
      ensures NotPrefix(found[i].name, Head(virtio) + devs[k].channel)
    {
      assert NotPrefix(dir[i].name, FullName(virtio, devs[k].channel));
    }
  }

  /** An update of a canonical directory: what is still there stays, in order, with its endpoint; what is new and could
      be set up follows, in directory order. */
  lemma {:induction false} UpdateOfDirectory(devs: seq<Dev>, virtio: nat, dir: seq<DirEntry>)
    requires Canonical(devs, virtio, dir) && virtio < 0x8000_0000
    ensures var found := Classified(dir, virtio);
      Updated(devs, Head(virtio), found) ==
        Survivors(devs, Head(virtio), found, |found|) + Newcomers(devs, Head(virtio), found, |found|)
  {
    CanonicalIsPlain(devs, virtio, dir);
    PlainIsRight(devs, Head(virtio), Classified(dir, virtio));
    UpdateIs(devs, Head(virtio), Classified(dir, virtio));
  }

  /** A second update of an unchanged directory leaves every node where it is, with its record: `nodes` are the nodes
      of the list after the first update, whose records are `now`, and `added` what the second one would bring. */
  lemma {:induction false} SecondUpdate<T>(devs: seq<Dev>, virtio: nat, dir: seq<DirEntry>, nodes: seq<T>, added: seq<T>)
    requires Canonical(devs, virtio, dir) && virtio < 0x8000_0000
    requires var now := Updated(devs, Head(virtio), Classified(dir, virtio));
      |nodes| == |now| && |nodes + added| == |Scanned(now, Head(virtio), Classified(dir, virtio))|
    ensures var now := Updated(devs, Head(virtio), Classified(dir, virtio));
      var scanned := Scanned(now, Head(virtio), Classified(dir, virtio));
      && added == [] && Keep(nodes + added, Flags(scanned)) == nodes
      && Updated(now, Head(virtio), Classified(dir, virtio)) == now
  {
    CanonicalIsPlain(devs, virtio, dir);
    PlainIsRight(devs, Head(virtio), Classified(dir, virtio));
    UpdateTwice(devs, Head(virtio), Classified(dir, virtio));
    UpdatedIsCurrent(devs, Head(virtio), Classified(dir, virtio));
    var now := Updated(devs, Head(virtio), Classified(dir, virtio));
    assert nodes + added == nodes;
    KeepAll(nodes, Flags(now));
  }

  /** A name that is a proper prefix of a recorded one is taken for it: matching is by prefix, so the new device gets
      no node, and the old one stays although it is gone. */
  lemma PrefixIsMistaken(virtio: nat, channel: string, more: string, ept: string, setup: Setup, devs: seq<Dev>,
                         dir: seq<DirEntry>)
    requires virtio < 0x8000_0000 && more != ""
    requires !Contains(FullName(virtio, channel), "rpmsg_ns") && !Contains(FullName(virtio, channel), "rpmsg_ctrl")
    requires devs == [Dev(channel + more, ept, true)] && dir == [DirEntry(FullName(virtio, channel), setup)]
    ensures Orderly(devs, Head(virtio), Classified(dir, virtio)) && Classified(dir, virtio)[0].relevant
    ensures Updated(devs, Head(virtio), Classified(dir, virtio)) == devs
    ensures !Seen(Classified(dir, virtio), FullName(virtio, channel + more), 1)
    ensures !Recorded(devs, Head(virtio), FullName(virtio, channel))
  {
    NamesItsRpu(virtio, channel, setup);
    PrefixIsTaken(Head(virtio), channel, more, ept, devs, Classified(dir, virtio));
  }

  lemma NamesItsRpu(virtio: nat, channel: string, setup: Setup)
    requires virtio < 0x8000_0000
    requires !Contains(FullName(virtio, channel), "rpmsg_ns") && !Contains(FullName(virtio, channel), "rpmsg_ctrl")
    ensures Classify(DirEntry(FullName(virtio, channel), setup), virtio)
         == Found(Head(virtio) + channel, channel, true, setup)
  {
    NameRoundTrip(virtio, channel);
    assert FullName(virtio, channel)[0] == 'v';
  }

  lemma PrefixIsTaken(head: string, channel: string, more: string, ept: string, devs: seq<Dev>, found: seq<Found>)
    requires more != "" && devs == [Dev(channel + more, ept, true)]
    requires |found| == 1 && found[0] == Found(head + channel, channel, true, found[0].setup)
    ensures Updated(devs, head, found) == devs
    ensures !Seen(found, head + (channel + more), 1) && !Recorded(devs, head, head + channel)
  {
    var start := Reset(devs);
    assert head + (channel + more) == (head + channel) + more;
    assert Matches(start[0], head, found[0].name);
    assert FirstMatch(start, head, found[0].name, 0) == 0;
    ScanOfOne(start, head, found);
    assert Mark(start, 0) == devs;
    KeepAll(devs, Flags(devs));
    assert |head + (channel + more)| > |head + channel|;
  }

  lemma ScanOfOne(start: seq<Dev>, head: string, dir: seq<Found>)
    requires |dir| == 1
    ensures Scan(start, head, dir, |dir|) == ScanOne(start, head, dir[0])
  {
    assert Scan(start, head, dir, |dir| - 1) == start;
  }
}
