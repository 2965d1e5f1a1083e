/** The fusetrace inode cache on the heap: `Inode` objects that point at each other through two
    indexes, `dentries` downwards and `parents` upwards, and the table `inode_map`. */
module InodeCache {
  import opened Options
  import opened InodeGraph
  import opened InodeSession
  import opened Sequences

  class Inode {
    var ino: Ino  // stbuf.st_ino
    var ref: int
    var parents: map<Slot, Inode>
    var dentries: map<string, Inode>

    constructor (ino: Ino)
      ensures this.ino == ino && ref == 0 && parents == map[] && dentries == map[]
    {
      this.ino, ref, parents, dentries := ino, 0, map[], map[];
    }
  }

  type Table = map<Ino, Inode?>

  /** d is what the links say about the entries inside directory i. */
  ghost predicate DownIndex(i: Ino, d: map<string, Inode>, t: Table, l: Links) {
    && (forall n :: n in d <==> Slot(i, n) in l)
    && (forall n | n in d :: l[Slot(i, n)] in t && d[n] == t[l[Slot(i, n)]])
  }

  /** u is what the links say about the entries that lead to inode i. */
  ghost predicate UpIndex(i: Ino, u: map<Slot, Inode>, t: Table, l: Links) {
    && (forall k :: k in u <==> k in l && l[k] == i)
    && (forall k | k in u :: k.parent in t && u[k] == t[k.parent])
  }

  lemma IndexesAfterRemove(i: Ino, d: map<string, Inode>, u: map<Slot, Inode>, t: Table, l: Links, s: Slot)
    requires DownIndex(i, d, t, l) && UpIndex(i, u, t, l) && s in l
    ensures DownIndex(i, if i == s.parent then d - {s.name} else d, t, l - {s})
    ensures UpIndex(i, if i == l[s] then u - {s} else u, t, l - {s})
  {
    assert i == s.parent ==> s == Slot(i, s.name);
  }

  lemma IndexesAfterAdd(i: Ino, d: map<string, Inode>, u: map<Slot, Inode>, t: Table, l: Links,
                        s: Slot, c: Ino, parent: Inode, child: Inode)
    requires DownIndex(i, d, t, l) && UpIndex(i, u, t, l) && s !in l
    requires s.parent in t && t[s.parent] == parent && c in t && t[c] == child
    ensures DownIndex(i, if i == s.parent then d[s.name := child] else d, t, l[s := c])
    ensures UpIndex(i, if i == c then u[s := parent] else u, t, l[s := c])
  {
    assert i == s.parent ==> s == Slot(i, s.name);
  }

  /** The string `make_inode_path` builds for a list of names. */
  function Render(basedir: string, names: seq<string>): string {
    if names == [] then basedir + "/"
    else Render(basedir, names[..|names| - 1]) + "/" + names[|names| - 1]
  }

  /** The names in what follows the base directory: each is preceded by a slash. */
  function Parts(s: string): seq<string>
    decreases |s|
  {
    if s == "" then [] else [UpToSlash(s[1..])] + Parts(FromSlash(s[1..]))
  }

  function UpToSlash(s: string): (r: string)
    ensures |r| <= |s|
  {
    if s == "" || s[0] == '/' then "" else [s[0]] + UpToSlash(s[1..])
  }

  function FromSlash(s: string): (r: string)
    ensures |r| <= |s|
  {
    if s == "" || s[0] == '/' then s else FromSlash(s[1..])
  }

  predicate SlashFree(names: seq<string>) {
    forall i | 0 <= i < |names| :: '/' !in names[i]
  }

  lemma {:induction false} NameThenSlash(n: string, rest: string)
    requires '/' !in n && (rest == "" || rest[0] == '/')
    ensures UpToSlash(n + rest) == n && FromSlash(n + rest) == rest
  {
    if n == "" {
      assert n + rest == rest;
    } else {
      assert (n + rest)[1..] == n[1..] + rest;
      NameThenSlash(n[1..], rest);
    }
  }

  lemma {:induction false} SplitAtSlash(s: string)
    ensures s == UpToSlash(s) + FromSlash(s) && '/' !in UpToSlash(s)
    ensures FromSlash(s) == "" || FromSlash(s)[0] == '/'
  {
    if s != "" && s[0] != '/' {
      SplitAtSlash(s[1..]);
    }
  }

  lemma PartsFront(head: string, rest: string)
    requires '/' !in head && (rest == "" || rest[0] == '/')
    ensures Parts(['/'] + (head + rest)) == [head] + Parts(rest)
  {
    NameThenSlash(head, rest);
    assert (['/'] + (head + rest))[1..] == head + rest;
  }

  lemma {:induction false} PartsAppend(s: string, n: string)
    requires (s == "" || s[0] == '/') && '/' !in n
    ensures Parts(s + (['/'] + n)) == Parts(s) + [n]
    decreases |s|
  {
    if s == "" {
      PartsFront(n, "");
      assert s + (['/'] + n) == ['/'] + (n + "");
    } else {
      var head, tail := UpToSlash(s[1..]), FromSlash(s[1..]);
      var rest := tail + (['/'] + n);
      SplitAtSlash(s[1..]);
      assert s == ['/'] + (head + tail);
      assert s + (['/'] + n) == ['/'] + (head + rest) by {
        AppendAssociative(['/'], head + tail, ['/'] + n);
        AppendAssociative(head, tail, ['/'] + n);
      }
      PartsFront(head, tail);
      PartsFront(head, rest);
      PartsAppend(tail, n);
      AppendAssociative([head], Parts(tail), [n]);
    }
  }

  /** A path is the base directory, a slash, and the names, from which they can be read back. */
  lemma {:induction false} RenderReadsBack(basedir: string, names: seq<string>)
    requires SlashFree(names)
    ensures var s := Render(basedir, names); var tail := |basedir| + 1;
            && tail <= |s| && s[..tail] == basedir + "/" && (s[tail..] == "" || s[tail] == '/')
            && Parts(s[tail..]) == names
  {
    var tail := |basedir| + 1;
    if names != [] {
      var front, n := names[..|names| - 1], names[|names| - 1];
      RenderReadsBack(basedir, front);
      var s, t := Render(basedir, front), Render(basedir, names);
      assert t[..tail] == s[..tail] && t[tail..] == s[tail..] + (['/'] + n);
      PartsAppend(s[tail..], n);
      assert names == front + [n];
    }
  }

  lemma DownIndexShrinks(i: Ino, d: map<string, Inode>, d': map<string, Inode>, t: Table, l: Links, n: string)
    requires DownIndex(i, d, t, l) && DownIndex(i, d', t, l - {Slot(i, n)}) && n in d
    ensures |d'| < |d|
  {
    assert d'.Keys == d.Keys - {n};
  }

  lemma UpIndexShrinks(i: Ino, u: map<Slot, Inode>, u': map<Slot, Inode>, t: Table, l: Links, k: Slot)
    requires UpIndex(i, u, t, l) && UpIndex(i, u', t, l - {k}) && k in u
    ensures |u'| < |u|
  {
    assert u'.Keys == u.Keys - {k};
  }

  lemma NoEntriesInside(i: Ino, d: map<string, Inode>, t: Table, l: Links)
    requires DownIndex(i, d, t, l) && d == map[]
    ensures forall k | k in l :: k.parent != i
  {
    forall k | k in l
      ensures k.parent != i
    {
      assert k == Slot(k.parent, k.name);
    }
  }

  class Cache {
    const basedir: string
    const root: Inode
    var inodeMap: Table

    /** The edge set that both indexes represent. */
    ghost var links: Links
    ghost var repr: set<Inode>

    /** The table entry for i, if any, is the inode of that number, and its two maps are
        exactly the two views of `links` at i. */
    ghost predicate NodeOk(i: Ino)
      reads this, repr
    {
      i in inodeMap ==>
        && inodeMap[i] != null && inodeMap[i] in repr && inodeMap[i].ino == i
        && DownIndex(i, inodeMap[i].dentries, inodeMap, links)
        && UpIndex(i, inodeMap[i].parents, inodeMap, links)
    }

    /** The indexes agree, the table is closed under links and the root is in place. */
    ghost predicate Coherent()
      reads this, repr
    {
      && ROOT_INO in inodeMap && inodeMap[ROOT_INO] == root
      && (forall k | k in links :: k.parent in inodeMap && links[k] in inodeMap)
      && (forall i :: NodeOk(i))
    }

    /** The cache as a session state. */
    ghost function Abs(): State
      requires Coherent()
      reads this, repr
    {
      State(map i | i in inodeMap :: (assert NodeOk(i); inodeMap[i].ref), links)
    }

    ghost predicate Valid()
      reads this, repr
    {
      Coherent() && Good(Abs())
    }

    ghost predicate Has(x: Inode)
      reads this, x
    {
      x.ino in inodeMap && inodeMap[x.ino] == x
    }

    /** The two indexes are exact inverses of each other. */
    lemma IndexesAreInverse(p: Inode, n: string, c: Inode)
      requires Coherent() && Has(p) && Has(c)
      ensures n in p.dentries && p.dentries[n] == c <==>
              Slot(p.ino, n) in c.parents && c.parents[Slot(p.ino, n)] == p
    {
      assert NodeOk(p.ino) && NodeOk(c.ino);
      if n in p.dentries {
        assert NodeOk(links[Slot(p.ino, n)]);
      }
    }

    constructor (basedir: string)
      ensures Coherent() && this.basedir == basedir
      ensures repr == {root} && fresh(root) && inodeMap == map[ROOT_INO := root] && links == map[] && root.ref == 1
    {
      var r := new Inode(ROOT_INO);
      r.ref := r.ref + 1;
      this.basedir, root := basedir, r;
      inodeMap, links, repr := map[ROOT_INO := r], map[], {r};
    }

    twostate lemma SameCounts()
      requires old(Coherent()) && Coherent() && inodeMap == old(inodeMap)
      requires forall x: Inode | x in old(repr) :: x.ref == old(x.ref)
      ensures Abs().refs == old(Abs().refs)
    {
      forall i | i in inodeMap
        ensures Abs().refs[i] == old(Abs().refs[i])
      {
        assert old(NodeOk(i));
      }
    }

    method RemoveDentry(pin: Inode, dname: string)
      requires Coherent() && Has(pin) && dname in pin.dentries
      modifies this`links, repr`dentries, repr`parents
      ensures Coherent()
      ensures Abs() == old(Abs().(links := Abs().links - {Slot(pin.ino, dname)}))
    {
      var s := Slot(pin.ino, dname);
      var in_ := pin.dentries[dname];
      assert NodeOk(pin.ino) && NodeOk(links[s]);
      pin.dentries := pin.dentries - {dname};
      in_.parents := in_.parents - {s};
      links := links - {s};
      forall i
        ensures NodeOk(i)
      {
        assert old(NodeOk(i));
        if i in inodeMap {
          IndexesAfterRemove(i, old(inodeMap[i].dentries), old(inodeMap[i].parents), inodeMap, old(links), s);
        }
      }
      SameCounts();
    }

    /** The second half of `add_dentry`, once the slot is free. */
    method InsertDentry(parent: Inode, dname: string, in_: Inode)
      requires parent in repr && in_ in repr && dname !in parent.dentries
      modifies this`links, repr`dentries, repr`parents
      ensures links == old(links)[Slot(parent.ino, dname) := in_.ino]
      ensures old(Coherent() && Has(parent) && Has(in_)) ==>
                && Coherent()
                && Abs() == old(Abs().(links := Abs().links[Slot(parent.ino, dname) := in_.ino]))
    {
      var s := Slot(parent.ino, dname);
      parent.dentries := parent.dentries[dname := in_];
      in_.parents := in_.parents[s := parent];
      links := links[s := in_.ino];
      if old(Coherent() && Has(parent) && Has(in_)) {
        assert old(NodeOk(parent.ino));
        forall i
          ensures NodeOk(i)
        {
          assert old(NodeOk(i));
          if i in inodeMap {
            IndexesAfterAdd(i, old(inodeMap[i].dentries), old(inodeMap[i].parents), inodeMap,
                            old(links), s, in_.ino, parent, in_);
          }
        }
        SameCounts();
      }
    }

    method AddDentry(parent: Inode, dname: string, in_: Inode)
      requires parent in repr && in_ in repr
      requires dname in parent.dentries ==> Coherent() && Has(parent)
      modifies this`links, repr`dentries, repr`parents
      ensures links == old(links)[Slot(parent.ino, dname) := in_.ino]
      ensures old(Coherent() && Has(parent) && Has(in_)) ==>
                && Coherent()
                && Abs() == old(Abs().(links := Abs().links[Slot(parent.ino, dname) := in_.ino]))
    {
      if dname in parent.dentries {
        RemoveDentry(parent, dname);
        assert NodeOk(parent.ino);
      }
      InsertDentry(parent, dname, in_);
    }

    /** Each removal shrinks the inode's own map of parents, because removing an entry through
        one index also removes it from the other. */
    method UnlinkParents(in_: Inode)
      requires Coherent() && Has(in_)
      modifies this`links, repr`dentries, repr`parents
      ensures Coherent()
      ensures Abs() == old(Abs().(links := map k | k in links && links[k] != in_.ino :: links[k]))
    {
      while in_.parents != map[]
        invariant Coherent()
        invariant forall k :: k in links ==> k in old(links) && links[k] == old(links)[k]
        invariant forall k :: k in old(links) && old(links)[k] != in_.ino ==> k in links
        invariant Abs().refs == old(Abs().refs)
        decreases |in_.parents|
      {
        var k := First(in_.parents.Keys);
        assert NodeOk(in_.ino) && NodeOk(k.parent);
        ghost var u, l := in_.parents, links;
        RemoveDentry(in_.parents[k], k.name);
        assert NodeOk(in_.ino);
        UpIndexShrinks(in_.ino, u, in_.parents, inodeMap, l, k);
      }
      assert NodeOk(in_.ino);
    }

    method UnlinkChildren(in_: Inode)
      requires Coherent() && Has(in_)
      modifies this`links, repr`dentries, repr`parents
      ensures Coherent()
      ensures Abs() == old(Abs().(links := map k | k in links && k.parent != in_.ino :: links[k]))
    {
      while in_.dentries != map[]
        invariant Coherent()
        invariant forall k :: k in links ==> k in old(links) && links[k] == old(links)[k]
        invariant forall k :: k in old(links) && k.parent != in_.ino ==> k in links
        invariant Abs().refs == old(Abs().refs)
        decreases |in_.dentries|
      {
        var n :| n in in_.dentries;
        ghost var d, l := in_.dentries, links;
        assert NodeOk(in_.ino);
        RemoveDentry(in_, n);
        assert NodeOk(in_.ino);
        DownIndexShrinks(in_.ino, d, in_.dentries, inodeMap, l, n);
      }
      assert NodeOk(in_.ino);
      NoEntriesInside(in_.ino, in_.dentries, inodeMap, links);
    }

    method UnlinkInode(in_: Inode)
      requires Coherent() && Has(in_)
      modifies this`links, repr`dentries, repr`parents
      ensures Coherent()
      ensures Abs() == old(Abs().(links := Detached(links, in_.ino)))
    {
      UnlinkParents(in_);
      UnlinkChildren(in_);
    }

    /** No inode in the table refers to x. */
    ghost predicate Unreferenced(x: Inode)
      reads this, repr
    {
      forall y: Inode | y in repr && Has(y) ::
        && (forall n | n in y.dentries :: y.dentries[n] != x)
        && (forall k | k in y.parents :: y.parents[k] != x)
    }

    method RemoveInode(in_: Inode)
      requires Coherent() && Has(in_) && in_ != root
      modifies this`links, this`inodeMap, repr`dentries, repr`parents
      ensures Coherent() && Unreferenced(in_)
      ensures Abs() == old(State(Abs().refs - {in_.ino}, Detached(links, in_.ino)))
    {
      UnlinkInode(in_);
      label unlinked:
      inodeMap := inodeMap - {in_.ino};
      forall i
        ensures NodeOk(i)
      {
        assert old@unlinked(NodeOk(i));
      }
      assert Unreferenced(in_) by {
        assert forall i | i in inodeMap :: NodeOk(i) && inodeMap[i] != in_;
      }
    }

    /** A fresh inode is entered in the table, over whatever its number held. */
    method InsertInode(x: Inode)
      requires x !in repr && x.parents == map[] && x.dentries == map[]
      modifies this`inodeMap, this`repr
      ensures inodeMap == old(inodeMap)[x.ino := x] && repr == old(repr) + {x}
      ensures old(Coherent() && x.ino !in inodeMap) ==>
                Coherent() && Abs() == old(Abs().(refs := Abs().refs[x.ino := x.ref]))
    {
      inodeMap := inodeMap[x.ino := x];
      repr := repr + {x};
      if old(Coherent() && x.ino !in inodeMap) {
        assert forall k | k in links :: k.parent != x.ino && links[k] != x.ino;
        forall i
          ensures NodeOk(i)
        {
          assert old(NodeOk(i));
        }
        forall i | i in inodeMap
          ensures Abs().refs[i] == if i == x.ino then x.ref else old(Abs().refs[i])
        {
          assert old(NodeOk(i));
        }
      }
    }

    method AddInode(parent: Inode, name: string, ino: Ino) returns (in_: Inode)
      requires Coherent() && Has(parent)
      modifies this`links, this`inodeMap, this`repr, repr`dentries, repr`parents
      ensures Coherent() && Has(in_) && in_.ino == ino
      ensures in_ in repr && (in_ in old(repr) || fresh(in_))
      ensures Abs() == old(State(Abs().refs[ino := RefOf(Abs(), ino)],
                                 Detached(links, ino)[Slot(parent.ino, name) := ino]))
      ensures old(repr) <= repr && fresh(repr - old(repr))
    {
      assert NodeOk(ino) && NodeOk(parent.ino);
      if ino in inodeMap {
        in_ := inodeMap[ino];
        UnlinkInode(in_);
      } else {
        in_ := new Inode(ino);
        InsertInode(in_);
        assert Detached(links, ino) == links;
      }
      assert NodeOk(ino) && NodeOk(parent.ino);
      AddDentry(parent, name, in_);
    }

    /** `make_inode_path`: succeeds exactly when the first-parent chain reaches the root. */
    method MakePath(in_: Inode) returns (ok: bool, buf: string)
      requires Coherent() && Has(in_) && Acyclic(links)
      ensures ok == PathNames(links, in_.ino).Some?
      ensures ok ==> buf == Render(basedir, PathNames(links, in_.ino).value)
      decreases Ancestors(links, in_.ino)
    {
      assert NodeOk(in_.ino) && NodeOk(ROOT_INO);
      assert in_.parents.Keys == ParentSlots(links, in_.ino);
      if in_.parents != map[] {
        var k := First(in_.parents.Keys);
        AncestorsShrink(links, k);
        assert NodeOk(k.parent);
        ok, buf := MakePath(in_.parents[k]);
        if ok {
          buf := buf + "/" + k.name;
        }
      } else if in_ != root {
        ok, buf := false, "";
      } else {
        ok, buf := true, basedir + "/";
      }
    }

    // ---------- Request handlers ----------

    /** Count entries replied to the kernel, or given back. */
    method AdjustRef(in_: Inode, delta: int)
      requires in_ in repr
      modifies in_`ref
      ensures in_.ref == old(in_.ref) + delta
      ensures old(Coherent() && Has(in_)) ==>
                && Coherent()
                && Abs() == old(Abs().(refs := Abs().refs[in_.ino := RefOf(Abs(), in_.ino) + delta]))
    {
      in_.ref := in_.ref + delta;
      if old(Coherent() && Has(in_)) {
        assert old(NodeOk(in_.ino));
        forall i
          ensures NodeOk(i)
          ensures i in inodeMap && i != in_.ino ==> inodeMap[i] != in_
        {
          assert old(NodeOk(i));
        }
      }
    }

    /** A cached entry is stat'ed again and its attributes, inode number included, replaced. */
    method LookupHit(in_: Inode, ino: Ino)
      requires Coherent() && Has(in_)
      modifies repr`ino, repr`ref
      ensures in_.ino == ino
      ensures Coherent() <==> ino == old(in_.ino)
      ensures Coherent() ==> Abs() == old(Abs().(refs := Abs().refs[ino := RefOf(Abs(), ino) + 1]))
    {
      assert NodeOk(in_.ino);
      in_.ino := ino;
      AdjustRef(in_, 1);
      assert NodeOk(old(in_.ino)) ==> in_.ino == old(in_.ino);
    }

    /** A name that is not cached gets a new inode, which displaces any cached inode of the same
        number from the table together with its count. */
    method LookupMiss(parent: Inode, name: string, ino: Ino) returns (in_: Inode)
      requires Valid() && Has(parent) && name !in parent.dentries
      modifies this`links, this`inodeMap, this`repr, repr`dentries, repr`parents
      ensures in_.ino == ino && fresh(in_) && repr == old(repr) + {in_}
      ensures inodeMap == old(inodeMap)[ino := in_] && in_.ref == 1
      ensures ino !in old(inodeMap) <==>
              Coherent() && Abs() == old(State(Abs().refs[ino := RefOf(Abs(), ino) + 1],
                                               Abs().links[Slot(parent.ino, name) := ino]))
    {
      assert NodeOk(parent.ino) && NodeOk(ino);
      ghost var s := Abs();
      in_ := new Inode(ino);
      InsertInode(in_);
      AddDentry(parent, name, in_);
      if ino !in s.refs {
        assert Abs().refs == s.refs[ino := 0];
      }
      AdjustRef(in_, 1);
      if ino in s.refs && Coherent() {
        assert Abs().refs[ino] == 1 < s.refs[ino] + 1;
      }
    }

    /** The cache follows the session model exactly when the host's answer can be trusted: an
        uncached name of a cached inode, or a cached name with a new inode number, breaks it. */
    method Lookup(pino: Ino, name: string, permitted: bool, stat: Option<Ino>) returns (reply: Option<Ino>)
      requires Valid() && pino in inodeMap
      modifies this, repr
      ensures old(repr) <= repr && fresh(repr - old(repr))
      ensures var r := Request.Lookup(pino, name, permitted, stat);
              old(Trusted(Abs(), r)) <==> Coherent() && Abs() == old(Step(Abs(), r))
      ensures reply.Some? <==> old(Effective(Abs(), Request.Lookup(pino, name, permitted, stat)))
      ensures reply.Some? ==> reply == stat
    {
      assert NodeOk(pino);
      var parent := inodeMap[pino];
      reply := None;
      if !permitted {
        return;
      }
      var ok, path := MakePath(parent);
      if !ok || stat.None? {
        return;
      }
      var in_: Inode;
      if name in parent.dentries {
        in_ := parent.dentries[name];
        assert NodeOk(links[Slot(pino, name)]);
        LookupHit(in_, stat.value);
      } else {
        in_ := LookupMiss(parent, name, stat.value);
      }
      reply := Some(in_.ino);
    }

    /** Forgetting an inode that is not cached leaves a null entry in the table, and only that
        breaks the cache. */
    method Forget(ino: Ino, nlookup: nat)
      requires Valid()
      modifies this, repr
      ensures repr == old(repr)
      ensures var r := Request.Forget(ino, nlookup);
              old(Trusted(Abs(), r)) <==> Coherent() && Abs() == old(Step(Abs(), r))
    {
      if ino == ROOT_INO {
        return;
      }
      assert NodeOk(ino) && NodeOk(ROOT_INO);
      if ino !in inodeMap {
        inodeMap := inodeMap[ino := null];  // operator[] inserts on a miss
      }
      var in_ := inodeMap[ino];
      if in_ != null {
        ghost var s := Abs();
        AdjustRef(in_, -(nlookup as int));
        if in_.ref <= 0 {
          assert NodeOk(ROOT_INO);
          RemoveInode(in_);
          assert Abs().refs == s.refs - {ino};
        }
      } else {
        assert !NodeOk(ino);
      }
    }

    /** The cache's part of creating an entry. */
    method MakeInode(pin: Inode, name: string, ino: Ino)
      requires Coherent() && Has(pin)
      modifies this`links, this`inodeMap, this`repr, repr`dentries, repr`parents, repr`ref
      ensures Coherent()
      ensures Abs() == old(State(Abs().refs[ino := RefOf(Abs(), ino) + 1],
                                 Detached(links, ino)[Slot(pin.ino, name) := ino]))
      ensures old(repr) <= repr && fresh(repr - old(repr))
    {
      var in_ := AddInode(pin, name, ino);
      AdjustRef(in_, 1);
    }

    /** mknod, mkdir, symlink and create; `made` is the inode number found after success. */
    method Make(pino: Ino, name: string, made: Option<Ino>) returns (reply: Option<Ino>)
      requires Valid() && pino in inodeMap
      modifies this, repr
      ensures old(repr) <= repr && fresh(repr - old(repr))
      ensures Coherent() && Abs() == old(Step(Abs(), Request.Make(pino, name, made)))
      ensures reply == if old(HasPath(Abs(), pino)) then made else None
    {
      assert NodeOk(pino);
      var pin := inodeMap[pino];
      reply := None;
      var ok, path := MakePath(pin);
      if ok && made.Some? {
        MakeInode(pin, name, made.value);
        reply := made;
      }
    }

    /** unlink and rmdir. */
    method Unlink(pino: Ino, name: string, done: bool)
      requires Valid() && pino in inodeMap
      modifies this, repr
      ensures repr == old(repr)
      ensures Coherent() && Abs() == old(Step(Abs(), Request.Unlink(pino, name, done)))
    {
      assert NodeOk(pino);
      var pin := inodeMap[pino];
      var ok, path := MakePath(pin);
      if ok && done && name in pin.dentries {
        RemoveDentry(pin, name);
      }
    }

    /** The cache's part of a rename: the new entry first, then the old one goes. */
    method MoveDentry(pin: Inode, dname: string, newpin: Inode, newdname: string)
      requires Coherent() && Has(pin) && Has(newpin) && dname in pin.dentries
      modifies this`links, repr`dentries, repr`parents
      ensures old(Slot(pin.ino, dname) in links)
      ensures Coherent()
      ensures Abs() == old(Abs().(links := Moved(links, Slot(pin.ino, dname), Slot(newpin.ino, newdname))))
    {
      assert NodeOk(pin.ino) && NodeOk(newpin.ino) && NodeOk(links[Slot(pin.ino, dname)]);
      AddDentry(newpin, newdname, pin.dentries[dname]);
      assert NodeOk(pin.ino);
      RemoveDentry(pin, dname);
    }

    method Rename(pino: Ino, name: string, newpino: Ino, newname: string, done: bool)
      requires Valid() && pino in inodeMap && newpino in inodeMap
      modifies this, repr
      ensures repr == old(repr)
      ensures Coherent() && Abs() == old(Step(Abs(), Request.Rename(pino, name, newpino, newname, done)))
    {
      assert NodeOk(pino) && NodeOk(newpino);
      var pin, newpin := inodeMap[pino], inodeMap[newpino];
      var ok, path := MakePath(pin);
      var newok, newpath := MakePath(newpin);
      if ok && newok && done && name in pin.dentries {
        MoveDentry(pin, name, newpin, newname);
      }
    }

    /** The cache's part of a hard link: the attributes read under the new name are copied. */
    method LinkInode(in_: Inode, newpin: Inode, newdname: string, ino: Ino)
      requires Coherent() && Has(in_) && Has(newpin)
      modifies this`links, repr`dentries, repr`parents, repr`ref, repr`ino
      ensures Coherent() <==> ino == old(in_.ino)
      ensures Coherent() ==> Abs() == old(State(Abs().refs[ino := RefOf(Abs(), ino) + 1],
                                                links[Slot(newpin.ino, newdname) := ino]))
    {
      assert NodeOk(in_.ino) && NodeOk(newpin.ino);
      AddDentry(newpin, newdname, in_);
      AdjustRef(in_, 1);
      in_.ino := ino;
      assert NodeOk(old(in_.ino)) ==> in_.ino == old(in_.ino);
    }

    method Link(ino: Ino, newpino: Ino, newname: string, linked: Option<Ino>) returns (reply: Option<Ino>)
      requires Valid() && ino in inodeMap && newpino in inodeMap
      modifies this, repr
      ensures repr == old(repr)
      ensures var r := Request.Link(ino, newpino, newname, linked);
              old(Trusted(Abs(), r)) <==> Coherent() && Abs() == old(Step(Abs(), r))
      ensures reply == if old(HasPath(Abs(), ino) && HasPath(Abs(), newpino)) then linked else None
    {
      assert NodeOk(ino) && NodeOk(newpino);
      var in_, newpin := inodeMap[ino], inodeMap[newpino];
      reply := None;
      var ok, path := MakePath(in_);
      var newok, newpath := MakePath(newpin);
      if ok && newok && linked.Some? {
        assert Trusted(Abs(), Request.Link(ino, newpino, newname, linked)) <==> linked.value == ino;
        LinkInode(in_, newpin, newname, linked.value);
        reply := linked;
      }
    }

    /** getattr and setattr copy the attributes found, with the root's number put back. */
    method Restat(ino: Ino, stat: Option<Ino>)
      requires Valid() && ino in inodeMap
      modifies this, repr
      ensures repr == old(repr)
      ensures var r := Request.Restat(ino, stat);
              old(Trusted(Abs(), r)) <==> Coherent() && Abs() == old(Step(Abs(), r))
    {
      assert NodeOk(ino);
      if stat.Some? {
        inodeMap[ino].ino := if ino == ROOT_INO then ROOT_INO else stat.value;
        if ino != ROOT_INO && stat.value != ino {
          assert !NodeOk(ino);
        }
      }
    }

    /** One request, and the traffic it makes: the entry in the reply, or the forget itself. */
    method Serve(r: Request) returns (log: seq<Event>)
      requires Valid() && Legal(Abs(), r)
      modifies this, repr
      ensures old(repr) <= repr && fresh(repr - old(repr))
      ensures Valid() && Abs() == old(Step(Abs(), r))
      ensures log == old(Traffic(Abs(), r))
    {
      StepKeepsGood(Abs(), r);
      var reply: Option<Ino> := None;
      log := [];
      match r {
        case Lookup(p, n, permitted, stat) => reply := Lookup(p, n, permitted, stat);
        case Forget(i, count) =>
          Forget(i, count);
          log := if i == ROOT_INO then [] else [Forgot(i, count)];
        case Make(p, n, made) => reply := Make(p, n, made);
        case Unlink(p, n, done) => Unlink(p, n, done);
        case Rename(p, n, q, m, done) => Rename(p, n, q, m, done);
        case Link(i, q, m, linked) => reply := Link(i, q, m, linked);
        case Restat(i, stat) => Restat(i, stat);
      }
      if reply.Some? {
        log := [Entry(reply.value)];
      }
    }

    /** The session loop: the heap follows the state machine through every legal session, and so
        does the traffic. */
    method Session(rs: seq<Request>) returns (log: seq<Event>)
      requires Valid() && LegalSession(Abs(), rs)
      modifies this, repr
      ensures old(repr) <= repr && fresh(repr - old(repr))
      ensures Valid() && Abs() == old(Run(Abs(), rs)) && log == old(History(Abs(), rs, []))
    {
      log := [];
      var i := 0;
      while i < |rs|
        invariant 0 <= i <= |rs| && old(repr) <= repr && fresh(repr - old(repr))
        invariant Valid() && LegalSession(Abs(), rs[i..])
        invariant Run(Abs(), rs[i..]) == old(Run(Abs(), rs))
        invariant History(Abs(), rs[i..], log) == old(History(Abs(), rs, []))
      {
        assert rs[i..][0] == rs[i] && rs[i..][1..] == rs[i + 1..];
        var more := Serve(rs[i]);
        log := log + more;
        i := i + 1;
      }
    }
  }

  /** A mounted cache after any legal session: an inode object is in the table exactly while the
      kernel holds entries for it, its `ref` is the entries the handlers replied minus those
      forgotten, and its two indexes, its names and its paths are right. */
  method MountAndServe(basedir: string, rs: seq<Request>) returns (c: Cache, log: seq<Event>)
    requires LegalSession(Mounted(), rs)
    ensures c.Valid() && log == History(Mounted(), rs, [])
    ensures forall i: Ino :: i in c.inodeMap <==> Outstanding(log, i) > 0
    ensures forall i | i in c.inodeMap ::
              c.NodeOk(i) && c.inodeMap[i] != null && c.inodeMap[i].ref == Outstanding(log, i)
    ensures Acyclic(c.links)
    ensures forall i: Ino | PathNames(c.links, i).Some? ::
              Walk(c.links, ROOT_INO, PathNames(c.links, i).value) == Some(i)
  {
    c := new Cache(basedir);
    assert c.Abs() == Mounted() by {
      assert c.NodeOk(ROOT_INO);
    }
    log := c.Session(rs);
    SessionSafety(rs);
    forall i | i in c.inodeMap
      ensures c.NodeOk(i) && c.inodeMap[i] != null && c.inodeMap[i].ref == Outstanding(log, i)
    {
      assert c.NodeOk(i) && c.Abs().refs[i] == c.inodeMap[i].ref;
    }
    assert forall i :: i in c.inodeMap <==> i in c.Abs().refs;
  }
}
