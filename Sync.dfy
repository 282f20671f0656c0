/** `sync_folders` and the filesystem calls it makes, as methods of a class
    whose state is the whole filesystem tree and the log file. */
module Sync {
  import opened FileTree
  import opened Hashing
  import opened SyncSpec

  /** The OSError subclasses the calls below can raise. */
  datatype OsError = FileNotFound(path: Path) | NotADirectory(path: Path) | IsADirectory(path: Path)

  datatype Result<T> = Ok(value: T) | Err(error: OsError)

  /** How a call ends: normally, or by an exception that aborts the caller too. */
  datatype Outcome = Pass | Fail(error: OsError)

  /** The entry a source path names, used as the measure of the recursion. */
  function SourceNode(t: Node, p: Path): Node
  {
    if Lookup(t, p).Some? then Lookup(t, p).value else File([])
  }

  ghost function Elems(s: seq<Name>): set<Name>
  {
    set x | x in s
  }

  /** Taking one more name of a listing. */
  lemma ElemsTakeSnoc(s: seq<Name>, i: nat)
    requires i < |s|
    ensures s[..i + 1] == s[..i] + [s[i]]
    ensures Elems(s[..i + 1]) == Elems(s[..i]) + {s[i]}
  {
    assert s[..i + 1] == s[..i] + [s[i]];
  }

  /** The replica directory's entries once the source pass has handled the
      names in `done`. */
  ghost function AfterSourcePass(md5: seq<Byte> -> Digest, s: Node, r: Option<Node>, done: set<Name>): map<Name, Node>
    requires s.Dir? && done <= s.children.Keys
  {
    map k | k in ChildNames(r) + done ::
      if k in done then Synced(md5, s.children[k], Child(r, k)) else Child(r, k).value
  }

  /** The replica directory's entries once the deletion pass has handled the
      names in `done`. */
  ghost function AfterDeletePass(s: Node, m: map<Name, Node>, done: set<Name>): map<Name, Node>
    requires s.Dir?
  {
    map k | k in m && (k in s.children || k !in done) :: m[k]
  }

  class FileSystem {
    /** The whole filesystem, rooted at "/". */
    var root: Node
    /** The lines appended to the log file. */
    var log: seq<Event>
    /** `hashlib.md5` on a whole byte string. */
    const md5: seq<Byte> -> Digest

    constructor (root: Node, md5: seq<Byte> -> Digest)
      ensures this.root == root && this.log == [] && this.md5 == md5
    {
      this.root := root;
      this.log := [];
      this.md5 := md5;
    }

    /** `os.path.exists`: the path names a file or a folder, and every step
        on the way to it is a folder. */
    predicate Exists(p: Path)
      reads this
      ensures Exists(p) <==> IsFileAt(root, p) || IsDirAt(root, p)
      ensures Exists(p) ==> forall i | 0 <= i < |p| :: IsDirAt(root, p[..i])
    {
      if Lookup(root, p).Some? then LookupThroughFolders(root, p); true else false
    }

    /** `os.path.isfile`: an entry that exists and is not a folder. */
    predicate IsFile(p: Path)
      reads this
      ensures IsFile(p) <==> Lookup(root, p).Some? && !IsDirAt(root, p)
    {
      IsFileAt(root, p)
    }

    /** `os.path.isdir`: an entry that exists and is not a file. */
    predicate IsDir(p: Path)
      reads this
      ensures IsDir(p) <==> Lookup(root, p).Some? && !IsFileAt(root, p)
    {
      IsDirAt(root, p)
    }

    /** `os.listdir`: every entry of the directory once, in an order the
        caller cannot rely on. */
    method ListDir(p: Path) returns (r: Result<seq<Name>>)
      ensures r.Ok? <==> IsDirAt(root, p)
      ensures r.Ok? ==> Enumerates(r.value, Lookup(root, p).value.children.Keys)
    {
      var node := Lookup(root, p);
      if node.None? {
        return Err(FileNotFound(p));
      }
      if node.value.File? {
        return Err(NotADirectory(p));
      }
      var keys := node.value.children.Keys;
      var rest := keys;
      var names := [];
      while rest != {}
        invariant rest <= keys
        invariant forall x :: x in names <==> x in keys && x !in rest
        invariant NoDuplicates(names)
        decreases |rest|
      {
        var x :| x in rest;
        assert (names + [x])[..|names|] == names;
        names := names + [x];
        rest := rest - {x};
      }
      return Ok(names);
    }

    /** `os.makedirs`, called on a path that does not exist: creates the
        missing directories along it, or fails on meeting a file. */
    method MakeDirs(p: Path) returns (res: Outcome)
      requires Lookup(root, p).None?
      modifies this`root
      ensures res.Pass? <==> !Blocked(old(root), p)
      ensures res.Pass? ==> Lookup(root, p) == Some(Dir(map[])) && UnchangedOutside(old(root), root, p)
      ensures res.Fail? ==> root == old(root)
    {
      if Blocked(root, p) {
        return Fail(NotADirectory(p));
      }
      MakeDirsAt(root, p);
      MakeDirsFrame(root, p);
      root := FileTree.MakeDirs(root, p);
      res := Pass;
    }

    /** `shutil.copy2` of a file onto a path that is not a directory: the
        destination then holds the source's bytes; it fails when the
        destination's parent is not a directory. */
    method Copy2(src: Path, dst: Path) returns (res: Outcome)
      requires IsFileAt(root, src) && dst != [] && !IsDirAt(root, dst)
      modifies this`root
      ensures res.Pass? <==> IsDirAt(old(root), dst[..|dst| - 1])
      ensures res.Pass? ==> Lookup(root, dst) == old(Lookup(root, src)) && UnchangedOutside(old(root), root, dst)
      ensures res.Fail? ==> root == old(root)
    {
      var parent := dst[..|dst| - 1];
      assert dst == parent + [dst[|dst| - 1]];
      if !IsDirAt(root, parent) {
        return Fail(if Lookup(root, parent).None? then FileNotFound(parent) else NotADirectory(parent));
      }
      var x := Lookup(root, src);
      UpdateAt(root, parent, dst[|dst| - 1], x);
      LookupSnoc(Update(root, dst, x), parent, dst[|dst| - 1]);
      UpdateFrame(root, dst, x);
      root := Update(root, dst, x);
      res := Pass;
    }

    /** `shutil.rmtree`: the directory and everything below it are gone,
        nothing else changes. */
    method RmTree(p: Path)
      requires p != [] && IsDirAt(root, p)
      modifies this`root
      ensures Lookup(root, p).None? && IsDirAt(root, p[..|p| - 1])
      ensures UnchangedOutside(old(root), root, p)
    {
      Delete(p);
    }

    /** `os.remove`: the file is gone, nothing else changes. */
    method Remove(p: Path)
      requires p != [] && IsFileAt(root, p)
      modifies this`root
      ensures Lookup(root, p).None? && IsDirAt(root, p[..|p| - 1])
      ensures UnchangedOutside(old(root), root, p)
    {
      Delete(p);
    }

    method Delete(p: Path)
      requires p != [] && Lookup(root, p).Some?
      modifies this`root
      ensures Lookup(root, p).None? && IsDirAt(root, p[..|p| - 1])
      ensures UnchangedOutside(old(root), root, p)
    {
      var parent, n := p[..|p| - 1], p[|p| - 1];
      assert p == parent + [n];
      LookupSnoc(root, parent, n);
      UpdateAt(root, parent, n, None);
      LookupSnoc(Update(root, p, None), parent, n);
      UpdateFrame(root, p, None);
      root := Update(root, p, None);
    }

    /** One turn of the loop over the replica listing: the entry `n` goes,
        with `rmtree` for a folder and `remove` for a file, when the source
        has no entry of that name. */
    method RemoveIfExtra(src: Path, rep: Path, n: Name)
      requires Disjoint(src, rep) && IsDirAt(root, src) && IsDirAt(root, rep)
      requires n in Lookup(root, rep).value.children
      modifies this`root, this`log
      ensures UnchangedOutside(old(root), root, rep + [n])
      ensures Lookup(root, src) == old(Lookup(root, src))
      ensures
        var s, r := old(Lookup(root, src)).value, old(Lookup(root, rep));
        && Lookup(root, rep) == Some(Dir(if n in s.children then r.value.children else r.value.children - {n}))
        && log == old(log) + DeleteEvents(rep, s, r, n)
    {
      ghost var t := root;
      LookupSnoc(root, src, n);
      LookupSnoc(root, rep, n);
      DisjointNarrow(src, rep, n);
      var rp := rep + [n];
      assert rp[..|rp| - 1] == rep;
      var inSource := Exists(src + [n]);
      if !inSource {
        var isDir := IsDir(rp);
        if isDir {
          RmTree(rp);
          WriteLog(DeletedFolder(rp));
        } else {
          Remove(rp);
          WriteLog(DeletedFile(rp));
        }
        ChildChanged(t, root, rep, n, None);
      }
    }

    /** `write_log`: appends one line. */
    method WriteLog(e: Event)
      modifies this`log
      ensures log == old(log) + [e]
    {
      log := log + [e];
    }

    /** `get_file_hash`: MD5 of the file's bytes, read in chunks of
        `ChunkSize`; opening a directory or a missing path fails. */
    method GetFileHash(p: Path) returns (r: Result<Digest>)
      ensures IsFileAt(root, p) ==>
        var content := Lookup(root, p).value.content;
        && r == Ok(AbsorbAll(NewMd5(), Chunks(content, 0, ChunkSize)).HexDigest(md5))
        && r == Ok(md5(content))
      ensures !IsFileAt(root, p) ==> r.Err?
    {
      var node := Lookup(root, p);
      if node.None? {
        return Err(FileNotFound(p));
      }
      if node.value.Dir? {
        return Err(IsADirectory(p));
      }
      var content := node.value.content;
      var hash := NewMd5();
      var pos := 0;
      var chunk := Read(content, pos, ChunkSize);
      while chunk != []
        invariant pos <= |content|
        invariant chunk == Read(content, pos, ChunkSize)
        invariant AbsorbAll(hash, Chunks(content, pos, ChunkSize)) == AbsorbAll(NewMd5(), Chunks(content, 0, ChunkSize))
        decreases |content| - pos
      {
        AbsorbFirst(hash, content, pos, ChunkSize);
        hash := hash.Update(chunk);
        pos := pos + |chunk|;
        chunk := Read(content, pos, ChunkSize);
      }
      ChunkedDigest(md5, content, ChunkSize);
      r := Ok(hash.HexDigest(md5));
    }

    /** One turn of the loop over the source listing: copy the file `n` when
        the replica lacks it or holds different bytes, or sync the
        subdirectory `n` recursively. */
    method SyncEntry(src: Path, rep: Path, n: Name) returns (res: Outcome, ghost sub: Listing)
      requires Disjoint(src, rep)
      requires Lookup(root, src + [n]).Some? && Lookup(root, rep).Some?
      modifies this`root, this`log
      decreases SourceNode(root, src + [n]), 2
      ensures UnchangedOutside(old(root), root, rep + [n])
      ensures Appends(old(log), log, src + [n], rep + [n])
      ensures res.Pass? <==>
        old(IsDirAt(root, rep)) && Compatible(old(Lookup(root, src + [n])).value, old(Lookup(root, rep + [n])))
      ensures res.Pass? ==>
        var s, r := old(Lookup(root, src + [n])).value, old(Lookup(root, rep + [n]));
        && Lookup(root, rep + [n]) == Some(Synced(md5, s, r))
        && log == old(log) + EntryTrace(md5, src + [n], rep + [n], s, r, sub)
        && (s.Dir? ==> WellFormed(sub, s, r))
    {
      var sp, rp := src + [n], rep + [n];
      ghost var log0 := log;
      sub := Listing([], [], []);
      DisjointExtend(src, rep, n);
      LookupSnoc(root, rep, n);
      AppendsNothing(log, sp, rp);
      var isFile := IsFile(sp);
      if isFile {
        var present := Exists(rp);
        var copy := !present;
        if present {
          var sourceHash := GetFileHash(sp);
          var replicaHash := GetFileHash(rp);
          // The source entry is a file, so only the replica side can fail.
          if replicaHash.Err? {
            res := Fail(replicaHash.error);
            return;
          }
          copy := sourceHash.value != replicaHash.value;
        }
        res := Pass;
        if copy {
          assert rp[..|rp| - 1] == rep;
          res := Copy2(sp, rp);
          if res.Fail? {
            return;
          }
          WriteLog(CopiedUpdated(sp, rp));
          PrefixOfSelfExtension(sp, []);
          PrefixOfSelfExtension(rp, []);
          assert sp + [] == sp && rp + [] == rp;
          AppendsEvents(log0, [CopiedUpdated(sp, rp)], sp, rp);
        }
      } else {
        var isDir := IsDir(sp);
        if isDir {
          BlockedBelow(root, rep, n);
          res, sub := SyncFolders(sp, rp);
        } else {
          res := Pass;
        }
      }
    }

    /** The first step of `sync_folders`: when the replica folder does not
        exist, `os.makedirs` creates it and the creation is logged. */
    method EnsureReplica(src: Path, rep: Path) returns (res: Outcome)
      requires Disjoint(src, rep)
      modifies this`root, this`log
      ensures UnchangedOutside(old(root), root, rep)
      ensures Lookup(root, src) == old(Lookup(root, src))
      ensures res.Pass? <==> old(Lookup(root, rep)).Some? || !Blocked(old(root), rep)
      ensures res.Pass? ==> Lookup(root, rep) == ReplicaAfterCreation(old(Lookup(root, rep)))
      ensures log == old(log) + (if res.Pass? then CreationEvents(rep, old(Lookup(root, rep))) else [])
    {
      res := Pass;
      var present := Exists(rep);
      if !present {
        res := MakeDirs(rep);
        if res.Pass? {
          WriteLog(CreatedReplicaFolder(rep));
        }
      }
    }

    /** `sync_folders(source, replica)`: create the replica if it is missing,
        copy or recurse for every source entry, then delete every replica
        entry the source does not have. */
    method SyncFolders(src: Path, rep: Path) returns (res: Outcome, ghost listing: Listing)
      requires Disjoint(src, rep)
      modifies this`root, this`log
      decreases SourceNode(root, src), 1
      ensures UnchangedOutside(old(root), root, rep)
      ensures Lookup(root, src) == old(Lookup(root, src))
      ensures Appends(old(log), log, src, rep)
      ensures res.Pass? <==> SyncSucceeds(old(root), src, rep)
      ensures res.Pass? ==>
        var s, r := old(Lookup(root, src)).value, old(Lookup(root, rep));
        && s.Dir?
        && Lookup(root, rep) == Some(Synced(md5, s, r))
        && WellFormed(listing, s, r)
        && log == old(log) + Trace(md5, src, rep, s, r, listing)
    {
      ghost var t0, log0 := root, log;
      ghost var R := Lookup(root, rep);
      listing := Listing([], [], []);

      // create the replica when it is missing
      res := EnsureReplica(src, rep);
      CreationWithin(log0, src, rep, R);
      if res.Fail? {
        return;
      }
      ghost var t1, log1 := root, log;

      // the pass over the source listing
      var sourceItems := ListDir(src);
      if sourceItems.Err? {
        res := Fail(sourceItems.error);
        return;
      }
      var items := sourceItems.value;
      ghost var s := Lookup(root, src).value;
      ghost var subs;
      res, subs := SyncSourceEntries(src, rep, items, R);
      UnchangedOutsideTrans(t0, t1, root, rep);
      AppendsTrans(log0, log1, log, src, rep);
      if res.Fail? {
        return;
      }
      ghost var t2, log2 := root, log;

      // the pass over the replica listing
      var replicaItems := ListDir(rep);
      if replicaItems.Err? {
        res := Fail(replicaItems.error);
        return;
      }
      var ritems := replicaItems.value;
      listing := Listing(items, subs, ritems);
      AfterSourcePassRest(md5, s, R);
      RemoveExtraEntries(src, rep, ritems, R);
      UnchangedOutsideTrans(t0, t2, root, rep);
      AppendsTrans(log0, log2, log, src, rep);
      FinishSync(md5, src, rep, s, R, listing, log0, log1, log2, log);
      res := Pass;
    }

    /** The loop of `sync_folders` over the source listing `items`. `R` is the
        replica entry before the call; the empty folder `makedirs` created
        stands for a missing one. */
    method SyncSourceEntries(src: Path, rep: Path, items: seq<Name>, ghost R: Option<Node>)
      returns (res: Outcome, ghost subs: seq<Listing>)
      requires Disjoint(src, rep)
      requires IsDirAt(root, src) && Enumerates(items, Lookup(root, src).value.children.Keys)
      requires Lookup(root, rep) == ReplicaAfterCreation(R)
      modifies this`root, this`log
      decreases SourceNode(root, src), 0
      ensures UnchangedOutside(old(root), root, rep)
      ensures Lookup(root, src) == old(Lookup(root, src))
      ensures Appends(old(log), log, src, rep)
      ensures old(IsDirAt(root, rep)) && Compatible(old(Lookup(root, src)).value, R) ==> res.Pass?
      ensures res.Pass? && !old(IsDirAt(root, rep)) ==> root == old(root) && items == []
      ensures res.Pass? && old(IsDirAt(root, rep)) ==>
        var s := old(Lookup(root, src)).value;
        && Lookup(root, rep) == Some(Dir(AfterSourcePass(md5, s, R, s.children.Keys)))
        && (forall n :: n in s.children ==> Compatible(s.children[n], Child(R, n)))
        && |subs| == |items|
        && (forall k :: 0 <= k < |items| && s.children[items[k]].Dir? ==>
              WellFormed(subs[k], s.children[items[k]], Child(R, items[k])))
        && log == old(log) + CopyPass(md5, src, rep, s, R, subs, items)
    {
      ghost var t1, log1 := root, log;
      ghost var s := Lookup(root, src).value;
      subs := [];
      res := Pass;
      AppendsNothing(log, src, rep);
      if IsDirAt(t1, rep) {
        SourceLoopStart(md5, src, rep, s, R, items, log);
      }
      var i := 0;
      while i < |items|
        invariant 0 <= i <= |items| && |subs| == i && res.Pass?
        invariant UnchangedOutside(t1, root, rep)
        invariant Lookup(root, src) == Some(s)
        invariant !IsDirAt(t1, rep) ==> i == 0 && root == t1 && log == log1
        invariant IsDirAt(t1, rep) ==> SourceLoop(md5, src, rep, s, R, items, i, subs, Lookup(root, rep), log1, log)
        invariant Appends(log1, log, src, rep)
      {
        var n := items[i];
        ghost var ti, logi := root, log;
        SourcePending(md5, src, rep, root, s, R, items, i);
        assert n in s.children && SourceNode(root, src + [n]) == s.children[n];
        ghost var sub;
        res, sub := SyncEntry(src, rep, n);
        UnchangedOutsideStep(t1, ti, root, rep, n);
        AppendsNarrow(logi, log, src, rep, n);
        AppendsTrans(log1, logi, log, src, rep);
        if res.Fail? {
          return;
        }
        EntryReplaced(ti, root, rep, n, Synced(md5, s.children[n], Child(R, n)));
        SourceStep(md5, src, rep, s, R, items, i, subs, sub, Lookup(ti, rep), Lookup(root, rep), log1, logi, log);
        subs := subs + [sub];
        i := i + 1;
      }
      if IsDirAt(t1, rep) {
        SourceLoopDone(md5, src, rep, s, R, items, subs, Lookup(root, rep), log1, log);
      }
    }

    /** The loop of `sync_folders` over the replica listing `ritems`: every
        name the source lacks is removed, with `rmtree` for a folder and
        `remove` for a file. `R` agrees with the replica on those names. */
    method RemoveExtraEntries(src: Path, rep: Path, ritems: seq<Name>, ghost R: Option<Node>)
      requires Disjoint(src, rep)
      requires IsDirAt(root, src) && IsDirAt(root, rep)
      requires Enumerates(ritems, Lookup(root, rep).value.children.Keys)
      requires forall n :: n !in Lookup(root, src).value.children ==> Child(Lookup(root, rep), n) == Child(R, n)
      modifies this`root, this`log
      ensures UnchangedOutside(old(root), root, rep)
      ensures Lookup(root, src) == old(Lookup(root, src))
      ensures Appends(old(log), log, src, rep)
      ensures
        var s := old(Lookup(root, src)).value;
        && Lookup(root, rep) == Some(Dir(AfterDeletePass(s, old(Lookup(root, rep)).value.children, Elems(ritems))))
        && log == old(log) + DeletePass(rep, s, R, ritems)
    {
      ghost var t2, log2 := root, log;
      ghost var s, m := Lookup(root, src).value, Lookup(root, rep).value.children;
      var j := 0;
      assert Elems(ritems[..0]) == {};
      assert AfterDeletePass(s, m, {}) == m;
      while j < |ritems|
        invariant 0 <= j <= |ritems|
        invariant UnchangedOutside(t2, root, rep)
        invariant Lookup(root, src) == Some(s)
        invariant Lookup(root, rep) == Some(Dir(AfterDeletePass(s, m, Elems(ritems[..j]))))
        invariant Enumerates(ritems, m.Keys)
        invariant forall n :: n !in s.children ==> Child(Some(Dir(m)), n) == Child(R, n)
        invariant log == log2 + DeletePass(rep, s, R, ritems[..j])
      {
        var n := ritems[j];
        ghost var tj, logj := root, log;
        DeletePending(s, m, R, ritems, j);
        RemoveIfExtra(src, rep, n);
        UnchangedOutsideStep(t2, tj, root, rep, n);
        DeleteStep(rep, s, m, R, ritems, j, Lookup(tj, rep), Lookup(root, rep), log2, logj, log);
        j := j + 1;
      }
      assert ritems[..j] == ritems;
      DeletePassDirect(rep, s, R, ritems);
      AppendsEvents(log2, DeletePass(rep, s, R, ritems), src, rep);
    }
  }

  // ---------------------------------------------------------------------------
  // Logs

  /** `after` is `before` followed by events that read only below `src` and
      change only below `rep`. */
  ghost predicate Appends(before: seq<Event>, after: seq<Event>, src: Path, rep: Path)
  {
    && |before| <= |after| && after[..|before|] == before
    && forall i :: |before| <= i < |after| ==> Within(after[i], src, rep)
  }

  lemma AppendsNothing(log: seq<Event>, src: Path, rep: Path)
    ensures Appends(log, log, src, rep)
  {
    assert log[..|log|] == log;
  }

  lemma AppendsEvents(base: seq<Event>, extra: seq<Event>, src: Path, rep: Path)
    requires forall e :: e in extra ==> Within(e, src, rep)
    ensures Appends(base, base + extra, src, rep)
  {
    assert (base + extra)[..|base|] == base;
    forall i | |base| <= i < |base + extra| ensures Within((base + extra)[i], src, rep) {
      assert (base + extra)[i] == extra[i - |base|];
    }
  }

  lemma AppendsTrans(a: seq<Event>, b: seq<Event>, c: seq<Event>, src: Path, rep: Path)
    requires Appends(a, b, src, rep) && Appends(b, c, src, rep)
    ensures Appends(a, c, src, rep)
  {
    assert c[..|a|] == c[..|b|][..|a|];
  }

  /** What stays below `src + [n]` and `rep + [n]` stays below `src` and `rep`. */
  lemma AppendsNarrow(a: seq<Event>, b: seq<Event>, src: Path, rep: Path, n: Name)
    requires Appends(a, b, src + [n], rep + [n])
    ensures Appends(a, b, src, rep)
  {
    PrefixOfSelfExtension(rep, [n]);
    PrefixOfSelfExtension(src, [n]);
    forall i | |a| <= i < |b| ensures Within(b[i], src, rep) {
      PrefixTrans(rep, rep + [n], b[i].Target());
      if b[i].CopiedUpdated? {
        PrefixTrans(src, src + [n], b[i].source);
      }
    }
  }

  lemma AppendAssoc<T>(a: seq<T>, b: seq<T>, c: seq<T>)
    ensures (a + b) + c == a + (b + c)
  {
  }

  // ---------------------------------------------------------------------------
  // Loop steps

  lemma AfterSourcePassStep(md5: seq<Byte> -> Digest, s: Node, r: Option<Node>, done: set<Name>, n: Name)
    requires s.Dir? && done <= s.children.Keys && n in s.children && n !in done
    ensures AfterSourcePass(md5, s, r, done + {n}) ==
      AfterSourcePass(md5, s, r, done)[n := Synced(md5, s.children[n], Child(r, n))]
  {
  }

  /** The replica entry once `EnsureReplica` has run: an empty folder in
      place of a missing one. */
  function ReplicaAfterCreation(r: Option<Node>): Option<Node>
  {
    if r.None? then Some(Dir(map[])) else r
  }

  lemma CreationWithin(log: seq<Event>, src: Path, rep: Path, r: Option<Node>)
    ensures Appends(log, log + CreationEvents(rep, r), src, rep)
    ensures Appends(log, log + [], src, rep)
  {
    PrefixOfSelfExtension(rep, []);
    assert rep + [] == rep;
    assert log + [] == log;
    AppendsNothing(log, src, rep);
    AppendsEvents(log, CreationEvents(rep, r), src, rep);
  }

  /** After the source pass the replica folder holds the source names and
      the names it already had, the latter untouched when the source lacks them. */
  lemma AfterSourcePassRest(md5: seq<Byte> -> Digest, s: Node, r: Option<Node>)
    requires s.Dir?
    ensures ChildNames(Some(Dir(AfterSourcePass(md5, s, r, s.children.Keys)))) == ChildNames(r) + s.children.Keys
    ensures forall n :: n !in s.children ==>
      Child(Some(Dir(AfterSourcePass(md5, s, r, s.children.Keys))), n) == Child(r, n)
  {
  }

  /** The end of `sync_folders`: the replica is the synced tree, the listing
      is one the call can have seen, the source is compatible with the
      replica, and the log holds the call's trace. */
  lemma {:induction false} FinishSync(md5: seq<Byte> -> Digest, src: Path, rep: Path, s: Node, R: Option<Node>, L: Listing,
                                      log0: seq<Event>, log1: seq<Event>, log2: seq<Event>, log: seq<Event>)
    requires s.Dir? && !(R.Some? && R.value.File?)
    requires forall n :: n in s.children ==> Compatible(s.children[n], Child(R, n))
    requires Enumerates(L.sourceOrder, s.children.Keys) && |L.subListings| == |L.sourceOrder|
    requires forall k :: 0 <= k < |L.sourceOrder| && s.children[L.sourceOrder[k]].Dir? ==>
      WellFormed(L.subListings[k], s.children[L.sourceOrder[k]], Child(R, L.sourceOrder[k]))
    requires Enumerates(L.replicaOrder, ChildNames(Some(Dir(AfterSourcePass(md5, s, R, s.children.Keys)))))
    requires log1 == log0 + CreationEvents(rep, R)
    requires log2 == log1 + CopyPass(md5, src, rep, s, R, L.subListings, L.sourceOrder)
    requires log == log2 + DeletePass(rep, s, R, L.replicaOrder)
    ensures Compatible(s, R)
    ensures WellFormed(L, s, R)
    ensures log == log0 + Trace(md5, src, rep, s, R, L)
    ensures Dir(AfterDeletePass(s, AfterSourcePass(md5, s, R, s.children.Keys), Elems(L.replicaOrder))) == Synced(md5, s, R)
  {
    AfterSourcePassRest(md5, s, R);
    assert Elems(L.replicaOrder) == ChildNames(R) + s.children.Keys;
    AfterBothPasses(md5, s, R, Elems(L.replicaOrder));
    var pre, copies := CreationEvents(rep, R), CopyPass(md5, src, rep, s, R, L.subListings, L.sourceOrder);
    AppendAssoc(log0, pre, copies);
    AppendAssoc(log0, pre + copies, DeletePass(rep, s, R, L.replicaOrder));
  }

  /** The invariant of the loop over the source listing `items`, once the
      first `i` names are handled: `cur` is the replica folder with those
      names synced, each of them was compatible, the nested calls saw
      well-formed listings, and the log grew by their events. */
  ghost predicate SourceLoop(md5: seq<Byte> -> Digest, src: Path, rep: Path, s: Node, R: Option<Node>,
                             items: seq<Name>, i: nat, subs: seq<Listing>, cur: Option<Node>,
                             log1: seq<Event>, log: seq<Event>)
  {
    && s.Dir? && Enumerates(items, s.children.Keys) && i <= |items| && |subs| == i
    && cur == Some(Dir(AfterSourcePass(md5, s, R, Elems(items[..i]))))
    && (forall k :: 0 <= k < i ==> Compatible(s.children[items[k]], Child(R, items[k])))
    && (forall k :: 0 <= k < i && s.children[items[k]].Dir? ==>
          WellFormed(subs[k], s.children[items[k]], Child(R, items[k])))
    && log == log1 + CopyPass(md5, src, rep, s, R, subs, items[..i])
  }

  lemma SourceLoopStart(md5: seq<Byte> -> Digest, src: Path, rep: Path, s: Node, R: Option<Node>,
                        items: seq<Name>, log: seq<Event>)
    requires s.Dir? && Enumerates(items, s.children.Keys) && !(R.Some? && R.value.File?)
    ensures SourceLoop(md5, src, rep, s, R, items, 0, [], ReplicaAfterCreation(R), log, log)
  {
    assert Elems(items[..0]) == {};
    assert items[..0] == [];
    assert ReplicaAfterCreation(R).value == Dir(AfterSourcePass(md5, s, R, {}));
  }

  /** Before the turn for `items[i]`, the source entry is in place and the
      replica entry is still the one the call started with. */
  lemma SourcePending(md5: seq<Byte> -> Digest, src: Path, rep: Path, t: Node, s: Node, R: Option<Node>,
                      items: seq<Name>, i: nat)
    requires s.Dir? && Enumerates(items, s.children.Keys) && i < |items|
    requires Lookup(t, src) == Some(s)
    requires IsDirAt(t, rep) ==> Lookup(t, rep) == Some(Dir(AfterSourcePass(md5, s, R, Elems(items[..i]))))
    ensures Lookup(t, src + [items[i]]) == Some(s.children[items[i]])
    ensures IsDirAt(t, rep) ==> Lookup(t, rep + [items[i]]) == Child(R, items[i])
  {
    var n := items[i];
    LookupSnoc(t, src, n);
    LookupSnoc(t, rep, n);
    NotEarlier(items, i);
    assert n !in Elems(items[..i]);
    if IsDirAt(t, rep) {
      AfterSourcePassPending(md5, s, R, Elems(items[..i]), n);
    }
  }

  /** One turn of the loop over the source listing keeps its invariant: the
      replica folder goes from `before` to `after` by syncing `items[i]`. */
  lemma {:induction false} SourceStep(md5: seq<Byte> -> Digest, src: Path, rep: Path, s: Node, R: Option<Node>,
                   items: seq<Name>, i: nat, subs: seq<Listing>, sub: Listing,
                   before: Option<Node>, after: Option<Node>, log1: seq<Event>, logi: seq<Event>, log: seq<Event>)
    requires SourceLoop(md5, src, rep, s, R, items, i, subs, before, log1, logi) && i < |items|
    requires
      var n := items[i];
      var sn, rn := s.children[n], Child(R, n);
      && after == Some(Dir(before.value.children[n := Synced(md5, sn, rn)]))
      && Compatible(sn, rn)
      && (sn.Dir? ==> WellFormed(sub, sn, rn))
      && log == logi + EntryTrace(md5, src + [n], rep + [n], sn, rn, sub)
    ensures SourceLoop(md5, src, rep, s, R, items, i + 1, subs + [sub], after, log1, log)
  {
    var n := items[i];
    var sn, rn := s.children[n], Child(R, n);
    NotEarlier(items, i);
    assert n !in Elems(items[..i]);
    ElemsTakeSnoc(items, i);
    AfterSourcePassStep(md5, s, R, Elems(items[..i]), n);
    CopyPassSnoc(md5, src, rep, s, R, subs, sub, items[..i], n);
    AppendAssoc(log1, CopyPass(md5, src, rep, s, R, subs, items[..i]),
                EntryTrace(md5, src + [n], rep + [n], sn, rn, sub));
    forall k | 0 <= k < i + 1 && s.children[items[k]].Dir?
      ensures WellFormed((subs + [sub])[k], s.children[items[k]], Child(R, items[k]))
    {
      if k == i {
        assert (subs + [sub])[k] == sub;
      } else {
        assert (subs + [sub])[k] == subs[k];
      }
    }
  }

  /** Once every source name is handled, the replica folder holds the source
      pass's result and every source entry was compatible. */
  lemma SourceLoopDone(md5: seq<Byte> -> Digest, src: Path, rep: Path, s: Node, R: Option<Node>,
                       items: seq<Name>, subs: seq<Listing>, cur: Option<Node>, log1: seq<Event>, log: seq<Event>)
    requires SourceLoop(md5, src, rep, s, R, items, |items|, subs, cur, log1, log)
    ensures cur == Some(Dir(AfterSourcePass(md5, s, R, s.children.Keys)))
    ensures forall n :: n in s.children ==> Compatible(s.children[n], Child(R, n))
    ensures log == log1 + CopyPass(md5, src, rep, s, R, subs, items)
  {
    assert items[..|items|] == items;
    assert Elems(items) == s.children.Keys;
    forall n | n in s.children ensures Compatible(s.children[n], Child(R, n)) {
      var k :| 0 <= k < |items| && items[k] == n;
    }
  }

  lemma AfterSourcePassPending(md5: seq<Byte> -> Digest, s: Node, r: Option<Node>, done: set<Name>, n: Name)
    requires s.Dir? && done <= s.children.Keys && n !in done
    ensures Child(Some(Dir(AfterSourcePass(md5, s, r, done))), n) == Child(r, n)
  {
  }

  /** The replica name the deletion pass is about to handle is still there,
      and is the replica's original entry when the source lacks it. */
  lemma DeletePending(s: Node, m: map<Name, Node>, R: Option<Node>, ritems: seq<Name>, j: nat)
    requires s.Dir? && Enumerates(ritems, m.Keys) && j < |ritems|
    requires forall n :: n !in s.children ==> Child(Some(Dir(m)), n) == Child(R, n)
    ensures var cur := Some(Dir(AfterDeletePass(s, m, Elems(ritems[..j]))));
      && ritems[j] in cur.value.children
      && (ritems[j] !in s.children ==> Child(cur, ritems[j]) == Child(R, ritems[j]))
  {
    NotEarlier(ritems, j);
    assert ritems[j] !in Elems(ritems[..j]);
  }

  /** One turn of the loop over the replica listing keeps its invariant: the
      replica folder and the log once `ritems[j]` has been handled. */
  lemma {:induction false} DeleteStep(rep: Path, s: Node, m: map<Name, Node>, R: Option<Node>, ritems: seq<Name>, j: nat,
                                      before: Option<Node>, after: Option<Node>,
                                      log2: seq<Event>, logj: seq<Event>, log: seq<Event>)
    requires s.Dir? && Enumerates(ritems, m.Keys) && j < |ritems|
    requires forall n :: n !in s.children ==> Child(Some(Dir(m)), n) == Child(R, n)
    requires before == Some(Dir(AfterDeletePass(s, m, Elems(ritems[..j]))))
    requires logj == log2 + DeletePass(rep, s, R, ritems[..j])
    requires
      var n := ritems[j];
      && after == Some(Dir(if n in s.children then before.value.children else before.value.children - {n}))
      && log == logj + DeleteEvents(rep, s, before, n)
    ensures after == Some(Dir(AfterDeletePass(s, m, Elems(ritems[..j + 1]))))
    ensures log == log2 + DeletePass(rep, s, R, ritems[..j + 1])
  {
    var n := ritems[j];
    DeletePending(s, m, R, ritems, j);
    ElemsTakeSnoc(ritems, j);
    AfterDeletePassStep(s, m, Elems(ritems[..j]), n);
    DeleteLogStep(rep, s, R, before, ritems[..j], n);
    AppendAssoc(log2, DeletePass(rep, s, R, ritems[..j]), DeleteEvents(rep, s, before, n));
  }

  lemma AfterDeletePassStep(s: Node, m: map<Name, Node>, done: set<Name>, n: Name)
    requires s.Dir?
    ensures AfterDeletePass(s, m, done + {n}) ==
      if n in s.children then AfterDeletePass(s, m, done) else AfterDeletePass(s, m, done) - {n}
  {
  }

  lemma {:induction false} AfterBothPasses(md5: seq<Byte> -> Digest, s: Node, r: Option<Node>, all: set<Name>)
    requires s.Dir? && all == ChildNames(r) + s.children.Keys
    ensures Dir(AfterDeletePass(s, AfterSourcePass(md5, s, r, s.children.Keys), all)) == Synced(md5, s, r)
  {
    var m := AfterDeletePass(s, AfterSourcePass(md5, s, r, s.children.Keys), all);
    var want := Synced(md5, s, r).children;
    assert m.Keys == want.Keys;
    forall k | k in m ensures m[k] == want[k] {
    }
  }

  lemma DeleteLogStep(rep: Path, s: Node, r: Option<Node>, cur: Option<Node>, order: seq<Name>, n: Name)
    requires s.Dir? && (n !in s.children ==> Child(cur, n) == Child(r, n))
    ensures DeletePass(rep, s, r, order + [n]) == DeletePass(rep, s, r, order) + DeleteEvents(rep, s, cur, n)
  {
    assert (order + [n])[..|order|] == order;
  }

  lemma {:induction false} CopyPassSnoc(md5: seq<Byte> -> Digest, src: Path, rep: Path, s: Node, r: Option<Node>,
                     subs: seq<Listing>, sub: Listing, order: seq<Name>, n: Name)
    requires s.Dir? && |subs| == |order| && n in s.children
    ensures CopyPass(md5, src, rep, s, r, subs + [sub], order + [n])
         == CopyPass(md5, src, rep, s, r, subs, order)
            + EntryTrace(md5, src + [n], rep + [n], s.children[n], Child(r, n), sub)
  {
    CopyPassFrame(md5, src, rep, s, r, subs, subs + [sub], order);
    assert (order + [n])[..|order|] == order;
    assert SubListing(subs + [sub], |order|) == sub;
  }

  /** The copy pass over `order` only looks at the sub-listings of its own positions. */
  lemma {:induction false} CopyPassFrame(md5: seq<Byte> -> Digest, src: Path, rep: Path, s: Node, r: Option<Node>,
                                         subs1: seq<Listing>, subs2: seq<Listing>, order: seq<Name>)
    requires s.Dir?
    requires forall k :: 0 <= k < |order| ==> SubListing(subs1, k) == SubListing(subs2, k)
    ensures CopyPass(md5, src, rep, s, r, subs1, order) == CopyPass(md5, src, rep, s, r, subs2, order)
    decreases |order|
  {
    if order != [] {
      CopyPassFrame(md5, src, rep, s, r, subs1, subs2, order[..|order| - 1]);
    }
  }
}
