/** What one or two calls of `sync_folders` guarantee, stated on the
    functions that describe a call: the replica converges to the source, a
    second call is silent, a file is copied exactly when needed, exactly the
    names the source lacks are deleted, and inside one folder the creation
    comes first and the deletions last. */
module SyncProperties {
  import opened FileTree
  import opened Hashing
  import opened SyncSpec

  // ---------------------------------------------------------------------------
  // Convergence

  /** No two different byte strings share a digest. */
  ghost predicate Injective(md5: seq<Byte> -> Digest)
  {
    forall a, b :: md5(a) == md5(b) ==> a == b
  }

  /** `x` has the names of `s` in every folder, and every file of `x` has the
      digest of the source file at the same place. */
  ghost predicate SameDigests(md5: seq<Byte> -> Digest, s: Node, x: Node)
    decreases s
  {
    match s
    case File(c) => x.File? && md5(x.content) == md5(c)
    case Dir(sc) =>
      && x.Dir? && x.children.Keys == sc.Keys
      && forall n :: n in sc ==> SameDigests(md5, sc[n], x.children[n])
  }

  /** Whatever the replica held before, the synced entry has the source's
      folders and names, and each of its files hashes like the source file. */
  lemma {:induction false} SyncedDigests(md5: seq<Byte> -> Digest, s: Node, r: Option<Node>)
    ensures SameDigests(md5, s, Synced(md5, s, r))
    decreases s
  {
    match s
    case File(c) =>
    case Dir(sc) =>
      forall n | n in sc ensures SameDigests(md5, sc[n], Synced(md5, s, r).children[n]) {
        SyncedDigests(md5, sc[n], Child(r, n));
      }
  }

  /** With a collision-free digest, the synced entry is the source entry. */
  lemma {:induction false} SyncedIsSource(md5: seq<Byte> -> Digest, s: Node, r: Option<Node>)
    requires Injective(md5)
    ensures Synced(md5, s, r) == s
    decreases s
  {
    match s
    case File(c) =>
      if !NeedsCopy(md5, c, r) {
        assert md5(r.value.content) == md5(c);
      }
    case Dir(sc) =>
      var m := Synced(md5, s, r).children;
      forall n | n in sc ensures m[n] == sc[n] {
        SyncedIsSource(md5, sc[n], Child(r, n));
      }
      assert m == sc;
  }

  /** A successful call leaves the source at the replica path, when the
      digest is collision-free. */
  lemma Convergence(md5: seq<Byte> -> Digest, before: Node, after: Node, src: Path, rep: Path)
    requires Injective(md5) && SyncSucceeds(before, src, rep)
    requires Lookup(after, rep) == Some(Synced(md5, Lookup(before, src).value, Lookup(before, rep)))
    ensures Lookup(after, rep) == Lookup(before, src)
  {
    SyncedIsSource(md5, Lookup(before, src).value, Lookup(before, rep));
  }

  /** Every replica name the source lacks is gone after a successful call,
      together with everything below it. */
  lemma ExtraEntriesGone(md5: seq<Byte> -> Digest, t: Node, rep: Path, s: Node, r: Option<Node>, n: Name, q: Path)
    requires s.Dir? && n !in s.children
    requires Lookup(t, rep) == Some(Synced(md5, s, r))
    ensures Lookup(t, rep + [n] + q).None?
  {
    LookupSnoc(t, rep, n);
    GoneWithSubtree(t, rep + [n], q);
  }

  // ---------------------------------------------------------------------------
  // A second call

  /** The synced entry never clashes with the source. */
  lemma {:induction false} SyncedCompatible(md5: seq<Byte> -> Digest, s: Node, r: Option<Node>)
    ensures Compatible(s, Some(Synced(md5, s, r)))
    decreases s
  {
    match s
    case File(c) =>
    case Dir(sc) =>
      forall n | n in sc ensures Compatible(sc[n], Child(Some(Synced(md5, s, r)), n)) {
        SyncedCompatible(md5, sc[n], Child(r, n));
      }
  }

  /** Syncing an already synced entry leaves it as it is. */
  lemma {:induction false} SyncedStable(md5: seq<Byte> -> Digest, s: Node, r: Option<Node>)
    ensures Synced(md5, s, Some(Synced(md5, s, r))) == Synced(md5, s, r)
    decreases s
  {
    match s
    case File(c) =>
    case Dir(sc) =>
      var x := Synced(md5, s, r);
      var y := Synced(md5, s, Some(x));
      forall n | n in sc ensures y.children[n] == x.children[n] {
        SyncedStable(md5, sc[n], Child(r, n));
      }
      assert y.children == x.children;
  }

  /** A call on an already synced folder logs nothing, whatever the listing order. */
  lemma {:induction false} TraceQuiet(md5: seq<Byte> -> Digest, src: Path, rep: Path, s: Node, r: Option<Node>, L: Listing)
    requires s.Dir?
    ensures Trace(md5, src, rep, s, Some(Synced(md5, s, r)), L) == []
    decreases s, 1
  {
    CopyPassQuiet(md5, src, rep, s, r, L.subListings, L.sourceOrder);
    DeletePassQuiet(rep, s, Some(Synced(md5, s, r)), L.replicaOrder);
  }

  lemma {:induction false} CopyPassQuiet(md5: seq<Byte> -> Digest, src: Path, rep: Path, s: Node, r: Option<Node>,
                                         subs: seq<Listing>, order: seq<Name>)
    requires s.Dir?
    ensures CopyPass(md5, src, rep, s, Some(Synced(md5, s, r)), subs, order) == []
    decreases s, 0, |order|
  {
    if order != [] {
      var k := |order| - 1;
      var n := order[k];
      CopyPassQuiet(md5, src, rep, s, r, subs, order[..k]);
      if n in s.children {
        EntryTraceQuiet(md5, src + [n], rep + [n], s.children[n], Child(r, n), SubListing(subs, k));
      }
    }
  }

  lemma {:induction false} EntryTraceQuiet(md5: seq<Byte> -> Digest, sp: Path, rp: Path, s: Node, r: Option<Node>, L: Listing)
    ensures EntryTrace(md5, sp, rp, s, Some(Synced(md5, s, r)), L) == []
    decreases s, 2
  {
    if s.Dir? {
      TraceQuiet(md5, sp, rp, s, r, L);
    }
  }

  /** The deletion pass removes nothing from a folder that holds no name the
      source lacks. */
  lemma {:induction false} DeletePassQuiet(rep: Path, s: Node, r: Option<Node>, order: seq<Name>)
    requires s.Dir? && ChildNames(r) <= s.children.Keys
    ensures DeletePass(rep, s, r, order) == []
    decreases |order|
  {
    if order != [] {
      DeletePassQuiet(rep, s, r, order[..|order| - 1]);
    }
  }

  /** After a successful call, a second call with the same source succeeds,
      leaves the replica as it is and writes no log line. */
  lemma SecondRunQuiet(md5: seq<Byte> -> Digest, before: Node, after: Node, src: Path, rep: Path)
    requires SyncSucceeds(before, src, rep)
    requires Lookup(after, src) == Lookup(before, src)
    requires Lookup(after, rep) == Some(Synced(md5, Lookup(before, src).value, Lookup(before, rep)))
    ensures SyncSucceeds(after, src, rep)
    ensures Synced(md5, Lookup(after, src).value, Lookup(after, rep)) == Lookup(after, rep).value
    ensures forall L :: Trace(md5, src, rep, Lookup(after, src).value, Lookup(after, rep), L) == []
  {
    var s, r := Lookup(before, src).value, Lookup(before, rep);
    SyncedCompatible(md5, s, r);
    SyncedStable(md5, s, r);
    forall L ensures Trace(md5, src, rep, s, Some(Synced(md5, s, r)), L) == [] {
      TraceQuiet(md5, src, rep, s, r, L);
    }
  }

  /** A second call, after a successful one and with the source unchanged,
      leaves the whole filesystem as it found it: the replica entry is
      already synced, and the call changes nothing outside the replica. */
  lemma SecondRunUnchanged(md5: seq<Byte> -> Digest, before: Node, mid: Node, after: Node, src: Path, rep: Path)
    requires SyncSucceeds(before, src, rep)
    requires Lookup(mid, src) == Lookup(before, src)
    requires Lookup(mid, rep) == Some(Synced(md5, Lookup(before, src).value, Lookup(before, rep)))
    requires Lookup(after, rep) == Some(Synced(md5, Lookup(mid, src).value, Lookup(mid, rep)))
    requires UnchangedOutside(mid, after, rep)
    ensures after == mid
  {
    SecondRunQuiet(md5, before, mid, src, rep);
    AgreeEverywhere(mid, after, rep);
  }

  // ---------------------------------------------------------------------------
  // Where the events of a call point

  predicate IsDeletion(e: Event)
  {
    e.DeletedFolder? || e.DeletedFile?
  }

  /** Every event of a call stays below its two folders, and every deletion
      is of an entry strictly inside the replica folder. */
  lemma {:induction false} TraceEvents(md5: seq<Byte> -> Digest, sp: Path, rp: Path, s: Node, r: Option<Node>, L: Listing)
    requires s.Dir?
    ensures forall e :: e in Trace(md5, sp, rp, s, r, L) ==>
      Within(e, sp, rp) && (IsDeletion(e) ==> |e.path| > |rp|)
    decreases s, 1
  {
    PrefixOfSelfExtension(rp, []);
    assert rp + [] == rp;
    CopyPassEvents(md5, sp, rp, s, r, L.subListings, L.sourceOrder);
    DeletePassDirect(rp, s, r, L.replicaOrder);
  }

  /** The events of the source pass lie strictly below the replica folder,
      and its deletions at least two levels down. */
  lemma {:induction false} CopyPassEvents(md5: seq<Byte> -> Digest, src: Path, rep: Path, s: Node, r: Option<Node>,
                                          subs: seq<Listing>, order: seq<Name>)
    requires s.Dir?
    ensures forall e :: e in CopyPass(md5, src, rep, s, r, subs, order) ==>
      Within(e, src, rep) && |e.Target()| > |rep| && (IsDeletion(e) ==> |e.path| > |rep| + 1)
    decreases s, 0, |order|
  {
    if order != [] {
      var k := |order| - 1;
      var n := order[k];
      CopyPassEvents(md5, src, rep, s, r, subs, order[..k]);
      if n in s.children {
        EntryEvents(md5, src + [n], rep + [n], s.children[n], Child(r, n), SubListing(subs, k));
        PrefixOfSelfExtension(src, [n]);
        PrefixOfSelfExtension(rep, [n]);
        forall e | e in EntryTrace(md5, src + [n], rep + [n], s.children[n], Child(r, n), SubListing(subs, k))
          ensures Within(e, src, rep) && |e.Target()| > |rep|
        {
          PrefixTrans(rep, rep + [n], e.Target());
          if e.CopiedUpdated? {
            PrefixTrans(src, src + [n], e.source);
          }
        }
      }
    }
  }

  lemma {:induction false} EntryEvents(md5: seq<Byte> -> Digest, sp: Path, rp: Path, s: Node, r: Option<Node>, L: Listing)
    ensures forall e :: e in EntryTrace(md5, sp, rp, s, r, L) ==>
      Within(e, sp, rp) && (IsDeletion(e) ==> |e.path| > |rp|)
    decreases s, 2
  {
    if s.Dir? {
      TraceEvents(md5, sp, rp, s, r, L);
    } else {
      PrefixOfSelfExtension(rp, []);
      PrefixOfSelfExtension(sp, []);
      assert rp + [] == rp && sp + [] == sp;
    }
  }

  // ---------------------------------------------------------------------------
  // Order inside one folder

  /** Inside one call, the folder creation is the first event if there is
      one and occurs nowhere else, and the deletions of the folder's own
      entries are exactly the last events, after every copy and every nested
      call. */
  lemma TraceOrder(md5: seq<Byte> -> Digest, src: Path, rep: Path, s: Node, r: Option<Node>, L: Listing)
    requires s.Dir?
    ensures var T := Trace(md5, src, rep, s, r, L);
      forall i :: 0 <= i < |T| ==> (T[i] == CreatedReplicaFolder(rep) <==> i == 0 && r.None?)
    ensures var T, D := Trace(md5, src, rep, s, r, L), DeletePass(rep, s, r, L.replicaOrder);
      forall i :: 0 <= i < |T| ==> (IsDirectDeletion(T[i], rep) <==> |T| - |D| <= i)
  {
    var pre := CreationEvents(rep, r);
    var copies := CopyPass(md5, src, rep, s, r, L.subListings, L.sourceOrder);
    var D := DeletePass(rep, s, r, L.replicaOrder);
    var T := Trace(md5, src, rep, s, r, L);
    CopyPassEvents(md5, src, rep, s, r, L.subListings, L.sourceOrder);
    DeletePassDirect(rep, s, r, L.replicaOrder);
    forall i | 0 <= i < |T|
      ensures (T[i] == CreatedReplicaFolder(rep) <==> i == 0 && r.None?)
      ensures (IsDirectDeletion(T[i], rep) <==> |T| - |D| <= i)
    {
      if i < |pre| {
        assert T[i] == pre[i];
      } else if i < |pre| + |copies| {
        assert T[i] == copies[i - |pre|];
        assert T[i] in copies;
      } else {
        assert T[i] == D[i - |pre| - |copies|];
        assert T[i] in D;
      }
    }
  }

  // ---------------------------------------------------------------------------
  // Which copies and deletions happen

  /** The source pass has the events of every source entry it visits. */
  lemma {:induction false} CopyPassHas(md5: seq<Byte> -> Digest, src: Path, rep: Path, s: Node, r: Option<Node>,
                                       subs: seq<Listing>, order: seq<Name>, k: nat)
    requires s.Dir? && k < |order| && order[k] in s.children
    ensures forall e :: e in EntryTrace(md5, src + [order[k]], rep + [order[k]], s.children[order[k]],
                                       Child(r, order[k]), SubListing(subs, k)) ==>
      e in CopyPass(md5, src, rep, s, r, subs, order)
    decreases |order|
  {
    var j := |order| - 1;
    if k < j {
      CopyPassHas(md5, src, rep, s, r, subs, order[..j], k);
    }
  }

  /** Every event of the source pass comes from one source entry it visits. */
  lemma {:induction false} CopyPassFrom(md5: seq<Byte> -> Digest, src: Path, rep: Path, s: Node, r: Option<Node>,
                                        subs: seq<Listing>, order: seq<Name>, e: Event)
    requires s.Dir? && e in CopyPass(md5, src, rep, s, r, subs, order)
    ensures exists k :: (0 <= k < |order| && order[k] in s.children &&
      e in EntryTrace(md5, src + [order[k]], rep + [order[k]], s.children[order[k]], Child(r, order[k]), SubListing(subs, k)))
    decreases |order|
  {
    var j := |order| - 1;
    var n := order[j];
    if e in CopyPass(md5, src, rep, s, r, subs, order[..j]) {
      CopyPassFrom(md5, src, rep, s, r, subs, order[..j], e);
      var k :| 0 <= k < j && order[..j][k] in s.children &&
        e in EntryTrace(md5, src + [order[..j][k]], rep + [order[..j][k]], s.children[order[..j][k]],
                        Child(r, order[..j][k]), SubListing(subs, k));
      assert order[..j][k] == order[k];
    }
  }

  /** A source file is copied, with one log line, exactly when the replica
      has no entry of its name or that entry does not hash like it. */
  lemma CopyEventIff(md5: seq<Byte> -> Digest, src: Path, rep: Path, s: Node, r: Option<Node>, L: Listing, n: Name)
    requires s.Dir? && WellFormed(L, s, r) && n in s.children && s.children[n].File?
    ensures CopiedUpdated(src + [n], rep + [n]) in Trace(md5, src, rep, s, r, L)
        <==> NeedsCopy(md5, s.children[n].content, Child(r, n))
  {
    var e := CopiedUpdated(src + [n], rep + [n]);
    var order, subs := L.sourceOrder, L.subListings;
    var copies := CopyPass(md5, src, rep, s, r, subs, order);
    DeletePassDirect(rep, s, r, L.replicaOrder);
    assert e in Trace(md5, src, rep, s, r, L) <==> e in copies;
    assert n in order;
    var k0 :| 0 <= k0 < |order| && order[k0] == n;
    CopyPassHas(md5, src, rep, s, r, subs, order, k0);
    if e in copies {
      CopyPassFrom(md5, src, rep, s, r, subs, order, e);
      var k :| 0 <= k < |order| && order[k] in s.children &&
        e in EntryTrace(md5, src + [order[k]], rep + [order[k]], s.children[order[k]], Child(r, order[k]), SubListing(subs, k));
      var m := order[k];
      EntryEvents(md5, src + [m], rep + [m], s.children[m], Child(r, m), SubListing(subs, k));
      SnocSame(src, m, n);
    }
  }

  /** The deletion pass has the deletion of every replica name it visits. */
  lemma {:induction false} DeletePassHas(rep: Path, s: Node, r: Option<Node>, order: seq<Name>, k: nat)
    requires s.Dir? && k < |order|
    ensures forall e :: e in DeleteEvents(rep, s, r, order[k]) ==> e in DeletePass(rep, s, r, order)
    decreases |order|
  {
    var j := |order| - 1;
    if k < j {
      DeletePassHas(rep, s, r, order[..j], k);
    }
  }

  /** Every deletion of the pass is the deletion of a replica name it visits. */
  lemma {:induction false} DeletePassFrom(rep: Path, s: Node, r: Option<Node>, order: seq<Name>, e: Event)
    requires s.Dir? && e in DeletePass(rep, s, r, order)
    ensures exists k :: 0 <= k < |order| && e in DeleteEvents(rep, s, r, order[k])
    decreases |order|
  {
    var j := |order| - 1;
    if e in DeletePass(rep, s, r, order[..j]) {
      DeletePassFrom(rep, s, r, order[..j], e);
      var k :| 0 <= k < j && e in DeleteEvents(rep, s, r, order[..j][k]);
      assert order[..j][k] == order[k];
    }
  }

  /** A deletion one level below the replica folder can only come from the
      call's own deletion pass. */
  lemma DirectDeletionInTrace(md5: seq<Byte> -> Digest, src: Path, rep: Path, s: Node, r: Option<Node>, L: Listing, e: Event)
    requires s.Dir? && IsDeletion(e) && |e.path| == |rep| + 1
    ensures e in Trace(md5, src, rep, s, r, L) <==> e in DeletePass(rep, s, r, L.replicaOrder)
  {
    CopyPassEvents(md5, src, rep, s, r, L.subListings, L.sourceOrder);
  }

  /** A replica entry is deleted, as a folder or as a file by its kind,
      exactly when the source has no entry of that name; entries the source
      has are never deleted. */
  lemma DeletionEventIff(md5: seq<Byte> -> Digest, src: Path, rep: Path, s: Node, r: Option<Node>, L: Listing, n: Name)
    requires s.Dir? && WellFormed(L, s, r)
    ensures DeletedFolder(rep + [n]) in Trace(md5, src, rep, s, r, L)
        <==> n !in s.children && Child(r, n).Some? && Child(r, n).value.Dir?
    ensures DeletedFile(rep + [n]) in Trace(md5, src, rep, s, r, L)
        <==> n !in s.children && Child(r, n).Some? && Child(r, n).value.File?
  {
    var order := L.replicaOrder;
    var D := DeletePass(rep, s, r, order);
    DirectDeletionInTrace(md5, src, rep, s, r, L, DeletedFolder(rep + [n]));
    DirectDeletionInTrace(md5, src, rep, s, r, L, DeletedFile(rep + [n]));
    forall e | e in D && IsDeletion(e) && e.path == rep + [n]
      ensures n !in s.children && Child(r, n).Some? && (e.DeletedFolder? <==> Child(r, n).value.Dir?)
    {
      DeletePassFrom(rep, s, r, order, e);
      var k :| 0 <= k < |order| && e in DeleteEvents(rep, s, r, order[k]);
      SnocSame(rep, order[k], n);
    }
    if n !in s.children && Child(r, n).Some? {
      assert n in order;
      var k :| 0 <= k < |order| && order[k] == n;
      DeletePassHas(rep, s, r, order, k);
    }
  }
}
