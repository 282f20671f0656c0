/** A filesystem as an immutable tree of files and directories, addressed by
    paths of names relative to the filesystem root. */
module FileTree {

  type Name = string
  type Path = seq<Name>
  type Byte = bv8

  datatype Option<T> = None | Some(value: T)

  datatype Node = File(content: seq<Byte>) | Dir(children: map<Name, Node>)

  /** The entry `n` of a (possibly missing) directory. */
  function Child(o: Option<Node>, n: Name): Option<Node>
  {
    if o.Some? && o.value.Dir? && n in o.value.children then Some(o.value.children[n]) else None
  }

  /** The names listed by a (possibly missing) directory; a file lists nothing. */
  function ChildNames(o: Option<Node>): set<Name>
  {
    if o.Some? && o.value.Dir? then o.value.children.Keys else {}
  }

  /** The entry at path `p`, or None when some step of the walk is missing or is a file. */
  function Lookup(t: Node, p: Path): Option<Node>
    decreases |p|
  {
    if p == [] then Some(t)
    else match t
      case File(_) => None
      case Dir(c) => if p[0] in c then Lookup(c[p[0]], p[1..]) else None
  }

  predicate IsDirAt(t: Node, p: Path)
  {
    Lookup(t, p).Some? && Lookup(t, p).value.Dir?
  }

  predicate IsFileAt(t: Node, p: Path)
  {
    Lookup(t, p).Some? && Lookup(t, p).value.File?
  }

  /** An entry is reached only through folders: a path that runs through a
      file names nothing. */
  lemma {:induction false} LookupThroughFolders(t: Node, p: Path)
    requires Lookup(t, p).Some?
    ensures forall i | 0 <= i < |p| :: IsDirAt(t, p[..i])
    decreases |p|
  {
    if p != [] {
      var c := t.children;
      LookupThroughFolders(c[p[0]], p[1..]);
      forall i | 0 <= i < |p| ensures IsDirAt(t, p[..i]) {
        if i > 0 {
          assert p[..i][0] == p[0] && p[..i][1..] == p[1..][..i - 1];
        }
      }
    }
  }

  predicate IsPrefix(p: Path, q: Path)
  {
    |p| <= |q| && q[..|p|] == p
  }

  /** Neither path lies inside the other. */
  predicate Disjoint(p: Path, q: Path)
  {
    !IsPrefix(p, q) && !IsPrefix(q, p)
  }

  /** Sets (Some) or removes (None) the entry at a non-empty path `p`. When the
      parent of `p` is not a directory nothing changes. */
  function Update(t: Node, p: Path, x: Option<Node>): Node
    requires p != []
    decreases |p|
  {
    match t
    case File(_) => t
    case Dir(c) =>
      if |p| == 1 then Dir(if x.Some? then c[p[0] := x.value] else c - {p[0]})
      else if p[0] in c then Dir(c[p[0] := Update(c[p[0]], p[1..], x)])
      else t
  }

  /** Creating the directories along `p` would meet a file. */
  predicate Blocked(t: Node, p: Path)
    decreases |p|
  {
    p != [] &&
    match t
    case File(_) => true
    case Dir(c) => p[0] in c && Blocked(c[p[0]], p[1..])
  }

  /** Creates every missing directory along `p`. */
  function MakeDirs(t: Node, p: Path): Node
    decreases |p|
  {
    if p == [] then t
    else match t
      case File(_) => t
      case Dir(c) => Dir(c[p[0] := MakeDirs(if p[0] in c then c[p[0]] else Dir(map[]), p[1..])])
  }

  /** Every path that is neither above nor below `p` shows the same entry in `a` and `b`. */
  ghost predicate UnchangedOutside(a: Node, b: Node, p: Path)
  {
    forall q {:trigger Disjoint(q, p)} :: Disjoint(q, p) ==> Lookup(b, q) == Lookup(a, q)
  }

  // ---------------------------------------------------------------------------
  // Paths

  lemma PrefixOfExtension(p: Path, n: Name, q: Path)
    ensures IsPrefix(p + [n], q) ==> IsPrefix(p, q)
  {
    if IsPrefix(p + [n], q) {
      assert q[..|p|] == (p + [n])[..|p|];
    }
  }

  /** The prefixes of `q + [n]` are the prefixes of `q` and `q + [n]` itself. */
  lemma PrefixSnoc(p: Path, q: Path, n: Name)
    ensures IsPrefix(p, q + [n]) <==> IsPrefix(p, q) || p == q + [n]
  {
    if |p| <= |q| {
      assert (q + [n])[..|p|] == q[..|p|];
    } else if |p| == |q| + 1 {
      assert (q + [n])[..|p|] == q + [n];
    }
  }

  lemma PrefixCons(a: Path, b: Path)
    requires a != [] && b != []
    ensures IsPrefix(a, b) <==> a[0] == b[0] && IsPrefix(a[1..], b[1..])
  {
    if |a| <= |b| {
      assert b[..|a|] == [b[0]] + b[1..][..|a| - 1];
      assert a == [a[0]] + a[1..];
    }
  }

  lemma SnocInjective(p: Path, q: Path, n: Name)
    ensures p + [n] == q + [n] ==> p == q
  {
    if p + [n] == q + [n] {
      assert p == (p + [n])[..|p|];
      assert q == (q + [n])[..|q|];
    }
  }

  /** Two one-step extensions of the same path are related only when equal. */
  lemma SnocSame(p: Path, m: Name, n: Name)
    ensures IsPrefix(p + [m], p + [n]) ==> m == n
  {
    if IsPrefix(p + [m], p + [n]) {
      assert (p + [n])[..|p| + 1] == p + [n];
      assert (p + [m])[|p|] == m && (p + [n])[|p|] == n;
    }
  }

  lemma DisjointExtend(p: Path, q: Path, n: Name)
    requires Disjoint(p, q)
    ensures Disjoint(p + [n], q + [n])
  {
    PrefixSnoc(p + [n], q, n);
    PrefixSnoc(q + [n], p, n);
    PrefixOfExtension(p, n, q);
    PrefixOfExtension(q, n, p);
    SnocInjective(p, q, n);
  }

  lemma DisjointNarrow(q: Path, p: Path, n: Name)
    requires Disjoint(q, p)
    ensures Disjoint(q, p + [n])
  {
    PrefixSnoc(q, p, n);
    PrefixOfSelfExtension(p, [n]);
    PrefixOfExtension(p, n, q);
  }

  lemma SiblingsDisjoint(p: Path, n: Name, k: Name)
    requires n != k
    ensures Disjoint(p + [k], p + [n])
  {
    PrefixSnoc(p + [k], p, n);
    PrefixSnoc(p + [n], p, k);
    assert (p + [k])[|p|] == k && (p + [n])[|p|] == n;
  }

  lemma PrefixTrans(p: Path, q: Path, r: Path)
    requires IsPrefix(p, q) && IsPrefix(q, r)
    ensures IsPrefix(p, r)
  {
    assert r[..|p|] == r[..|q|][..|p|];
  }

  lemma PrefixOfSelfExtension(p: Path, q: Path)
    ensures IsPrefix(p, p + q)
  {
    assert (p + q)[..|p|] == p;
  }

  // ---------------------------------------------------------------------------
  // Lookup

  /** Walking one more step. */
  lemma {:induction false} LookupSnoc(t: Node, p: Path, n: Name)
    ensures Lookup(t, p + [n]) == Child(Lookup(t, p), n)
    decreases |p|
  {
    if p == [] {
      assert [n][1..] == [];
    } else {
      assert (p + [n])[0] == p[0];
      assert (p + [n])[1..] == p[1..] + [n];
      match t
      case File(_) =>
      case Dir(c) =>
        if p[0] in c {
          LookupSnoc(c[p[0]], p[1..], n);
        }
    }
  }

  /** Walking a path in two legs. */
  lemma {:induction false} LookupAppend(t: Node, p: Path, q: Path)
    ensures Lookup(t, p + q) == if Lookup(t, p).Some? then Lookup(Lookup(t, p).value, q) else None
    decreases |p|
  {
    if p == [] {
      assert p + q == q;
    } else {
      assert (p + q)[0] == p[0];
      assert (p + q)[1..] == p[1..] + q;
      match t
      case File(_) =>
        if q == [] {
          assert p + q == p;
        }
      case Dir(c) =>
        if p[0] in c {
          LookupAppend(c[p[0]], p[1..], q);
        } else if q == [] {
          assert p + q == p;
        }
    }
  }

  /** A missing entry has no descendants. */
  lemma GoneWithSubtree(t: Node, p: Path, q: Path)
    requires Lookup(t, p).None?
    ensures Lookup(t, p + q).None?
  {
    LookupAppend(t, p, q);
  }

  // ---------------------------------------------------------------------------
  // Update

  lemma {:induction false} UpdateAt(t: Node, p: Path, n: Name, x: Option<Node>)
    requires IsDirAt(t, p)
    ensures Lookup(Update(t, p + [n], x), p) ==
      Some(Dir(if x.Some? then Lookup(t, p).value.children[n := x.value]
               else Lookup(t, p).value.children - {n}))
    decreases |p|
  {
    if p == [] {
    } else {
      assert (p + [n])[0] == p[0];
      assert (p + [n])[1..] == p[1..] + [n];
      UpdateAt(t.children[p[0]], p[1..], n, x);
    }
  }

  lemma {:induction false} UpdateElsewhere(t: Node, p: Path, x: Option<Node>, q: Path)
    requires p != [] && Disjoint(q, p)
    ensures Lookup(Update(t, p, x), q) == Lookup(t, q)
    decreases |p|
  {
    assert IsPrefix([], p);
    PrefixCons(q, p);
    PrefixCons(p, q);
    assert IsPrefix([], q[1..]);
    match t
    case File(_) =>
    case Dir(c) =>
      if q[0] == p[0] && |p| > 1 && p[0] in c {
        UpdateElsewhere(c[p[0]], p[1..], x, q[1..]);
      }
  }

  lemma UpdateFrame(t: Node, p: Path, x: Option<Node>)
    requires p != []
    ensures UnchangedOutside(t, Update(t, p, x), p)
  {
    forall q | Disjoint(q, p) ensures Lookup(Update(t, p, x), q) == Lookup(t, q) {
      UpdateElsewhere(t, p, x, q);
    }
  }

  // ---------------------------------------------------------------------------
  // MakeDirs

  lemma {:induction false} MakeDirsAt(t: Node, p: Path)
    requires Lookup(t, p).None? && !Blocked(t, p)
    ensures Lookup(MakeDirs(t, p), p) == Some(Dir(map[]))
    decreases |p|
  {
    match t
    case Dir(c) =>
      if p[0] in c {
        MakeDirsAt(c[p[0]], p[1..]);
      } else {
        MakeDirsFresh(p[1..]);
      }
  }

  /** Creating a path below a fresh empty directory. */
  lemma {:induction false} MakeDirsFresh(p: Path)
    ensures Lookup(MakeDirs(Dir(map[]), p), p) == Some(Dir(map[]))
    decreases |p|
  {
    if p != [] {
      MakeDirsFresh(p[1..]);
    }
  }

  lemma {:induction false} MakeDirsElsewhere(t: Node, p: Path, q: Path)
    requires Disjoint(q, p)
    ensures Lookup(MakeDirs(t, p), q) == Lookup(t, q)
    decreases |p|
  {
    assert IsPrefix([], p) && IsPrefix([], q);
    PrefixCons(q, p);
    PrefixCons(p, q);
    assert IsPrefix([], q[1..]);
    match t
    case File(_) =>
    case Dir(c) =>
      if q[0] == p[0] {
        var sub := if p[0] in c then c[p[0]] else Dir(map[]);
        MakeDirsElsewhere(sub, p[1..], q[1..]);
      }
  }

  lemma MakeDirsFrame(t: Node, p: Path)
    ensures UnchangedOutside(t, MakeDirs(t, p), p)
  {
    forall q | Disjoint(q, p) ensures Lookup(MakeDirs(t, p), q) == Lookup(t, q) {
      MakeDirsElsewhere(t, p, q);
    }
  }

  /** makedirs below an existing directory never meets a file, and it does meet
      one below a file. */
  lemma {:induction false} BlockedBelow(t: Node, p: Path, n: Name)
    requires Lookup(t, p).Some?
    ensures Blocked(t, p + [n]) <==> Lookup(t, p).value.File?
    decreases |p|
  {
    if p == [] {
      assert [n][1..] == [];
    } else {
      assert (p + [n])[0] == p[0];
      assert (p + [n])[1..] == p[1..] + [n];
      BlockedBelow(t.children[p[0]], p[1..], n);
    }
  }

  // ---------------------------------------------------------------------------
  // Frames

  lemma UnchangedOutsideTrans(a: Node, b: Node, c: Node, p: Path)
    requires UnchangedOutside(a, b, p) && UnchangedOutside(b, c, p)
    ensures UnchangedOutside(a, c, p)
  {
  }

  /** A change confined below `p + [n]` is confined below `p`. */
  lemma UnchangedOutsideWiden(a: Node, b: Node, p: Path, n: Name)
    requires UnchangedOutside(a, b, p + [n])
    ensures UnchangedOutside(a, b, p)
  {
    forall q | Disjoint(q, p) ensures Lookup(b, q) == Lookup(a, q) {
      DisjointNarrow(q, p, n);
    }
  }

  /** A change confined below `p` followed by one confined below `p + [n]`
      is confined below `p`. */
  lemma UnchangedOutsideStep(a: Node, b: Node, c: Node, p: Path, n: Name)
    requires UnchangedOutside(a, b, p) && UnchangedOutside(b, c, p + [n])
    ensures UnchangedOutside(a, c, p)
  {
    UnchangedOutsideWiden(b, c, p, n);
  }

  /** After a change confined to the entry `p + [n]`, the directory `p` lists
      the same entries except `n`, which now holds `x`. */
  lemma ChildChanged(a: Node, b: Node, p: Path, n: Name, x: Option<Node>)
    requires IsDirAt(a, p) && IsDirAt(b, p)
    requires UnchangedOutside(a, b, p + [n]) && Lookup(b, p + [n]) == x
    ensures Lookup(b, p) ==
      Some(Dir(if x.Some? then Lookup(a, p).value.children[n := x.value]
               else Lookup(a, p).value.children - {n}))
  {
    var m := Lookup(a, p).value.children;
    var m' := Lookup(b, p).value.children;
    var want := if x.Some? then m[n := x.value] else m - {n};
    LookupSnoc(b, p, n);
    forall k | k != n ensures (k in m' <==> k in m) && (k in m ==> m'[k] == m[k]) {
      SiblingsDisjoint(p, n, k);
      LookupSnoc(a, p, k);
      LookupSnoc(b, p, k);
    }
    assert m'.Keys == want.Keys;
    assert m' == want;
  }

  /** After a change confined to the entry `p + [n]` that leaves `x` there,
      the directory `p` holds `x` under `n` and nothing else new. */
  lemma EntryReplaced(a: Node, b: Node, p: Path, n: Name, x: Node)
    requires IsDirAt(a, p) && UnchangedOutside(a, b, p + [n]) && Lookup(b, p + [n]) == Some(x)
    ensures Lookup(b, p) == Some(Dir(Lookup(a, p).value.children[n := x]))
  {
    LookupSnoc(b, p, n);
    ChildChanged(a, b, p, n, Some(x));
  }

  /** Two trees that agree below `p`, where `p` exists, and everywhere beside
      it, are equal. */
  lemma {:induction false} AgreeEverywhere(a: Node, b: Node, p: Path)
    requires Lookup(a, p).Some? && Lookup(a, p) == Lookup(b, p)
    requires UnchangedOutside(a, b, p)
    ensures a == b
    decreases |p|
  {
    if p != [] {
      var ca, cb := a.children, b.children;
      var k := p[0];
      assert Lookup(b, p).Some?;
      assert k in ca && k in cb;
      assert UnchangedOutside(ca[k], cb[k], p[1..]) by {
        forall q | Disjoint(q, p[1..]) ensures Lookup(cb[k], q) == Lookup(ca[k], q) {
          assert Disjoint([k] + q, p) by {
            if IsPrefix([k] + q, p) { assert p == [k] + p[1..]; assert IsPrefix(q, p[1..]); }
            if IsPrefix(p, [k] + q) { assert p == [k] + p[1..]; assert IsPrefix(p[1..], q); }
          }
          assert ([k] + q)[0] == k && ([k] + q)[1..] == q;
        }
      }
      AgreeEverywhere(ca[k], cb[k], p[1..]);
      forall j | j != k ensures (j in ca <==> j in cb) && (j in ca ==> ca[j] == cb[j]) {
        PrefixCons([j], p);
        PrefixCons(p, [j]);
        assert Disjoint([j], p);
        assert [j][1..] == [];
        assert Lookup(a, [j]) == if j in ca then Some(ca[j]) else None;
        assert Lookup(b, [j]) == if j in cb then Some(cb[j]) else None;
      }
      assert ca == cb;
    }
  }
}
