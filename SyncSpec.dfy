/** What one call of `sync_folders(source, replica)` does, as functions of the
    filesystem before the call: the replica tree it leaves, whether it runs to
    the end, and the log lines it writes. */
module SyncSpec {
  import opened FileTree
  import opened Hashing

  /** One log line, by the kind of mutation it reports. */
  datatype Event =
    | CreatedReplicaFolder(path: Path)
    | CopiedUpdated(source: Path, replica: Path)
    | DeletedFolder(path: Path)
    | DeletedFile(path: Path)
  {
    /** The path the mutation changed. */
    function Target(): Path
    {
      if CopiedUpdated? then replica else path
    }
  }

  /** The event reads only below `src` and changes only below `rep`. */
  predicate Within(e: Event, src: Path, rep: Path)
  {
    IsPrefix(rep, e.Target()) && (e.CopiedUpdated? ==> IsPrefix(src, e.source))
  }

  /** A deletion of an entry directly inside `rep`. */
  predicate IsDirectDeletion(e: Event, rep: Path)
  {
    (e.DeletedFolder? || e.DeletedFile?) && |e.path| == |rep| + 1 && IsPrefix(rep, e.path)
  }

  /** The orders in which `os.listdir` returned the entries during one call:
      the source directory, the listing of each source subdirectory's own call
      (aligned with `sourceOrder`), and the replica directory before the
      deletion pass. */
  datatype Listing = Listing(sourceOrder: seq<Name>, subListings: seq<Listing>, replicaOrder: seq<Name>)

  function SubListing(subs: seq<Listing>, i: nat): Listing
  {
    if i < |subs| then subs[i] else Listing([], [], [])
  }

  /** No name occurs twice in `s`. */
  predicate NoDuplicates(s: seq<Name>)
    decreases |s|
  {
    s != [] ==> s[|s| - 1] !in s[..|s| - 1] && NoDuplicates(s[..|s| - 1])
  }

  /** `order` lists every name of `names` exactly once. */
  ghost predicate Enumerates(order: seq<Name>, names: set<Name>)
  {
    NoDuplicates(order) && forall x :: x in order <==> x in names
  }

  /** In a list without duplicates, no entry occurs before its own position. */
  lemma {:induction false} NotEarlier(s: seq<Name>, i: nat)
    requires NoDuplicates(s) && i < |s|
    ensures s[i] !in s[..i]
    decreases |s|
  {
    var k := |s| - 1;
    if i < k {
      NotEarlier(s[..k], i);
      assert s[..k][..i] == s[..i];
    }
  }

  /** A file is copied when the replica has no entry of that name, or when the
      digests of the two files differ. */
  predicate NeedsCopy(md5: seq<Byte> -> Digest, content: seq<Byte>, r: Option<Node>)
  {
    r.None? || !(r.value.File? && md5(r.value.content) == md5(content))
  }

  /** The replica entry left for source entry `s`, whose replica counterpart
      was `r`: a file is kept when its digest matches and replaced by the
      source bytes otherwise; a directory keeps exactly the source's names. */
  function Synced(md5: seq<Byte> -> Digest, s: Node, r: Option<Node>): Node
  {
    match s
    case File(c) => if NeedsCopy(md5, c, r) then s else r.value
    case Dir(sc) => Dir(map n | n in sc :: Synced(md5, sc[n], Child(r, n)))
  }

  /** No name is a file on one side and a directory on the other, wherever the
      walk compares them; the Python code raises at the first such name. */
  predicate Compatible(s: Node, r: Option<Node>)
  {
    match s
    case File(_) => !(r.Some? && r.value.Dir?)
    case Dir(sc) => !(r.Some? && r.value.File?) && forall n :: n in sc ==> Compatible(sc[n], Child(r, n))
  }

  /** The call on filesystem `t` returns normally: `makedirs` can create the
      replica if it is missing, the source is a directory, and there is no
      kind mismatch. */
  predicate SyncSucceeds(t: Node, src: Path, rep: Path)
  {
    && (Lookup(t, rep).Some? || !Blocked(t, rep))
    && IsDirAt(t, src)
    && Compatible(Lookup(t, src).value, Lookup(t, rep))
  }

  /** The events of one call with source directory `s`, replica entry `r`
      and listing `L`: folder creation, the pass over the source names, then
      the pass over the replica names. */
  function Trace(md5: seq<Byte> -> Digest, src: Path, rep: Path, s: Node, r: Option<Node>, L: Listing): seq<Event>
    requires s.Dir?
    decreases s, 1
  {
    CreationEvents(rep, r)
    + CopyPass(md5, src, rep, s, r, L.subListings, L.sourceOrder)
    + DeletePass(rep, s, r, L.replicaOrder)
  }

  /** The folder creation logged when the replica entry `r` is missing. */
  function CreationEvents(rep: Path, r: Option<Node>): seq<Event>
  {
    if r.None? then [CreatedReplicaFolder(rep)] else []
  }

  /** The events for the source names in `order`, each in turn; `subs[i]` is
      the listing seen by the nested call for `order[i]`. */
  function CopyPass(md5: seq<Byte> -> Digest, src: Path, rep: Path, s: Node, r: Option<Node>, subs: seq<Listing>, order: seq<Name>): seq<Event>
    requires s.Dir?
    decreases s, 0, |order|
  {
    if order == [] then []
    else
      var k := |order| - 1;
      var n := order[k];
      CopyPass(md5, src, rep, s, r, subs, order[..k])
      + (if n in s.children then EntryTrace(md5, src + [n], rep + [n], s.children[n], Child(r, n), SubListing(subs, k)) else [])
  }

  /** The events for one source entry `s` at `sp` whose replica path is `rp`:
      a copy when needed for a file, the events of the nested call for a
      directory. */
  function EntryTrace(md5: seq<Byte> -> Digest, sp: Path, rp: Path, s: Node, r: Option<Node>, L: Listing): seq<Event>
    decreases s, 2
  {
    match s
    case File(c) => if NeedsCopy(md5, c, r) then [CopiedUpdated(sp, rp)] else []
    case Dir(_) => Trace(md5, sp, rp, s, r, L)
  }

  /** The deletions for the replica names in `order`: every name the source
      does not have goes, as a folder or as a file. */
  function DeletePass(rep: Path, s: Node, r: Option<Node>, order: seq<Name>): seq<Event>
    requires s.Dir?
    decreases |order|
  {
    if order == [] then []
    else
      var k := |order| - 1;
      var n := order[k];
      DeletePass(rep, s, r, order[..k]) + DeleteEvents(rep, s, r, n)
  }

  /** The deletion, if any, for the replica name `n`. */
  function DeleteEvents(rep: Path, s: Node, r: Option<Node>, n: Name): seq<Event>
    requires s.Dir?
  {
    if n in s.children then []
    else match Child(r, n)
      case Some(Dir(_)) => [DeletedFolder(rep + [n])]
      case Some(File(_)) => [DeletedFile(rep + [n])]
      case None => []
  }

  /** `L` is a listing the call can have seen: every listing enumerates its
      directory, the replica listing being taken after the source pass. */
  ghost predicate WellFormed(L: Listing, s: Node, r: Option<Node>)
    requires s.Dir?
    decreases s
  {
    && Enumerates(L.sourceOrder, s.children.Keys)
    && |L.subListings| == |L.sourceOrder|
    && Enumerates(L.replicaOrder, s.children.Keys + ChildNames(r))
    && forall i :: 0 <= i < |L.sourceOrder| && s.children[L.sourceOrder[i]].Dir? ==>
         WellFormed(L.subListings[i], s.children[L.sourceOrder[i]], Child(r, L.sourceOrder[i]))
  }

  /** The deletion pass only removes entries directly inside the replica
      folder, and only names the source lacks. */
  lemma {:induction false} DeletePassDirect(rep: Path, s: Node, r: Option<Node>, order: seq<Name>)
    requires s.Dir?
    ensures forall e :: e in DeletePass(rep, s, r, order) ==>
      IsDirectDeletion(e, rep) && e.path[|rep|] !in s.children
    decreases |order|
  {
    if order != [] {
      var k := |order| - 1;
      var n := order[k];
      DeletePassDirect(rep, s, r, order[..k]);
      PrefixOfSelfExtension(rep, [n]);
      assert (rep + [n])[|rep|] == n;
    }
  }
}
