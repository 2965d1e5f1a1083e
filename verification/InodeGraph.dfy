/** The name space that the fusetrace inode cache holds, as a pure value: which inode every
    (directory, name) slot leads to. Reachability, acyclicity and the exact effect of each kind
    of edge change on them are proved here, away from the heap. */
module InodeGraph {
  import opened Options

  type Ino = nat

  const ROOT_INO: Ino := 1

  /** One directory entry position: a name inside a parent directory. The cache keys
      `Inode::parents` by the same two values. */
  datatype Slot = Slot(parent: Ino, name: string)

  type Links = map<Slot, Ino>

  // ---------- Order of the keys of Inode::parents ----------

  /** Lexicographic order of names, as `std::string::operator<`. */
  predicate NameLess(a: string, b: string) {
    && b != ""
    && (a == "" || a[0] < b[0] || (a[0] == b[0] && NameLess(a[1..], b[1..])))
  }

  /** Order of `pair<string, ino_t>`: by name, then by inode number. */
  predicate Before(a: Slot, b: Slot) {
    NameLess(a.name, b.name) || (a.name == b.name && a.parent < b.parent)
  }

  lemma {:induction false} NameLessTotal(a: string, b: string)
    ensures NameLess(a, b) || NameLess(b, a) || a == b
    ensures !(NameLess(a, b) && NameLess(b, a))
    ensures !NameLess(a, a)
  {
    if a != "" && b != "" && a[0] == b[0] {
      NameLessTotal(a[1..], b[1..]);
      assert a == [a[0]] + a[1..] && b == [b[0]] + b[1..];
    }
    if a != "" {
      NameLessTotal(a[1..], a[1..]);
    }
  }

  lemma {:induction false} NameLessTransitive(a: string, b: string, c: string)
    requires NameLess(a, b) && NameLess(b, c)
    ensures NameLess(a, c)
  {
    if a != "" && a[0] == b[0] && b[0] == c[0] {
      NameLessTransitive(a[1..], b[1..], c[1..]);
    }
  }

  /** a comes before b exactly when they agree up to some place where a ends first or has the lesser
      character. */
  lemma {:induction false} NameLessExactly(a: string, b: string)
    ensures NameLess(a, b) <==>
            exists k: nat ::
              k <= |a| && k < |b| && a[..k] == b[..k] && (k == |a| || a[k] < b[k])
  {
    if b != "" && (a == "" || a[0] < b[0]) {
      assert a[..0] == b[..0];
    } else if a != "" && b != "" && a[0] == b[0] {
      var c, d := a[1..], b[1..];
      NameLessExactly(c, d);
      if NameLess(c, d) {
        var k: nat :| k <= |c| && k < |d| && c[..k] == d[..k] && (k == |c| || c[k] < d[k]);
        assert a[..k + 1] == [a[0]] + c[..k] && b[..k + 1] == [b[0]] + d[..k];
      }
      forall k: nat | k <= |a| && k < |b| && a[..k] == b[..k] && (k == |a| || a[k] < b[k])
        ensures NameLess(c, d)
      {
        assert k > 0;
        assert c[..k - 1] == a[..k][1..] && d[..k - 1] == b[..k][1..];
      }
    }
  }

  lemma BeforeTotal(a: Slot, b: Slot)
    ensures Before(a, b) || Before(b, a) || a == b
    ensures !(Before(a, b) && Before(b, a))
  {
    NameLessTotal(a.name, b.name);
  }

  lemma BeforeTransitive(a: Slot, b: Slot, c: Slot)
    requires Before(a, b) && Before(b, c)
    ensures Before(a, c)
  {
    if NameLess(a.name, b.name) && NameLess(b.name, c.name) {
      NameLessTransitive(a.name, b.name, c.name);
    }
  }

  lemma FirstExists(ks: set<Slot>) returns (f: Slot)
    requires ks != {}
    ensures f in ks && forall k | k in ks && k != f :: Before(f, k)
  {
    f :| f in ks;
    if ks != {f} {
      var g := FirstExists(ks - {f});
      BeforeTotal(f, g);
      if Before(g, f) {
        f := g;
      } else {
        forall k | k in ks && k != f
          ensures Before(f, k)
        {
          if k != g {
            BeforeTransitive(f, g, k);
          }
        }
      }
    }
  }

  /** `parents.begin()->first`: the least key. */
  function First(ks: set<Slot>): (f: Slot)
    requires ks != {}
    ensures f in ks
    ensures forall k | k in ks && k != f :: Before(f, k)
  {
    assert exists g :: g in ks && forall k | k in ks && k != g :: Before(g, k) by {
      var g := FirstExists(ks);
    }
    assert forall g, h | g in ks && h in ks :: !(Before(g, h) && Before(h, g)) by {
      forall g, h | g in ks && h in ks
        ensures !(Before(g, h) && Before(h, g))
      {
        BeforeTotal(g, h);
      }
    }
    var f :| f in ks && forall k | k in ks && k != f :: Before(f, k);
    f
  }

  // ---------- Reachability ----------

  ghost predicate Edge(l: Links, a: Ino, b: Ino) {
    exists n: string :: Slot(a, n) in l && l[Slot(a, n)] == b
  }

  ghost predicate ReachIn(l: Links, a: Ino, b: Ino, k: nat)
    decreases k
  {
    if k == 0 then a == b else exists m: Ino :: Edge(l, a, m) && ReachIn(l, m, b, k - 1)
  }

  /** b is a, or lies below a. */
  ghost predicate Reach(l: Links, a: Ino, b: Ino) {
    exists k: nat :: ReachIn(l, a, b, k)
  }

  ghost predicate Acyclic(l: Links) {
    forall a: Ino, k: nat | k > 0 :: !ReachIn(l, a, a, k)
  }

  lemma {:induction false} ReachInTransitive(l: Links, a: Ino, b: Ino, c: Ino, j: nat, k: nat)
    requires ReachIn(l, a, b, j) && ReachIn(l, b, c, k)
    ensures ReachIn(l, a, c, j + k)
    decreases j
  {
    if j > 0 {
      var m :| Edge(l, a, m) && ReachIn(l, m, b, j - 1);
      ReachInTransitive(l, m, b, c, j - 1, k);
    }
  }

  lemma ReachTransitive(l: Links, a: Ino, b: Ino, c: Ino)
    requires Reach(l, a, b) && Reach(l, b, c)
    ensures Reach(l, a, c)
  {
    var j: nat :| ReachIn(l, a, b, j);
    var k: nat :| ReachIn(l, b, c, k);
    ReachInTransitive(l, a, b, c, j, k);
  }

  lemma EdgeReach(l: Links, a: Ino, b: Ino)
    requires Edge(l, a, b)
    ensures ReachIn(l, a, b, 1) && Reach(l, a, b)
  {
    assert ReachIn(l, b, b, 0);
  }

  /** An edge that closes a path makes a cycle. */
  lemma EdgeBackIsCycle(l: Links, p: Ino, c: Ino)
    requires Edge(l, p, c) && Reach(l, c, p)
    ensures !Acyclic(l)
  {
    EdgeReach(l, p, c);
    var k: nat :| ReachIn(l, c, p, k);
    ReachInTransitive(l, p, c, p, 1, k);
  }

  /** With at most the edge p -> c added, every path is an old path or runs through p -> c. */
  lemma {:induction false} SplitAtNewEdge(l: Links, l': Links, p: Ino, c: Ino, a: Ino, b: Ino, k: nat)
    requires forall x, y | Edge(l', x, y) :: Edge(l, x, y) || (x == p && y == c)
    requires ReachIn(l', a, b, k)
    ensures ReachIn(l, a, b, k) || (Reach(l, a, p) && Reach(l, c, b))
    decreases k
  {
    if k > 0 {
      var m :| Edge(l', a, m) && ReachIn(l', m, b, k - 1);
      SplitAtNewEdge(l, l', p, c, m, b, k - 1);
      assert ReachIn(l, a, a, 0);
      if Edge(l, a, m) {
        EdgeReach(l, a, m);
        if !ReachIn(l, a, b, k) {
          ReachTransitive(l, a, m, p);
        }
      }
    }
  }

  lemma AcyclicWithNewEdge(l: Links, l': Links, p: Ino, c: Ino)
    requires Acyclic(l)
    requires forall x, y | Edge(l', x, y) :: Edge(l, x, y) || (x == p && y == c)
    requires !Reach(l, c, p)
    ensures Acyclic(l')
  {
    forall a: Ino, k: nat | k > 0
      ensures !ReachIn(l', a, a, k)
    {
      if ReachIn(l', a, a, k) {
        SplitAtNewEdge(l, l', p, c, a, a, k);
        if Reach(l, a, p) && Reach(l, c, a) {
          ReachTransitive(l, c, a, p);
        }
      }
    }
  }

  /** Dropping entries never makes a cycle. */
  lemma AcyclicSubset(l: Links, l': Links)
    requires Acyclic(l)
    requires forall k | k in l' :: k in l && l[k] == l'[k]
    ensures Acyclic(l')
  {
    forall a: Ino, k: nat | k > 0
      ensures !ReachIn(l', a, a, k)
    {
      if ReachIn(l', a, a, k) {
        ReachInSuperset(l, l', a, a, k);
      }
    }
  }

  lemma {:induction false} ReachInSuperset(l: Links, l': Links, a: Ino, b: Ino, k: nat)
    requires forall s | s in l' :: s in l && l[s] == l'[s]
    requires ReachIn(l', a, b, k)
    ensures ReachIn(l, a, b, k)
    decreases k
  {
    if k > 0 {
      var m :| Edge(l', a, m) && ReachIn(l', m, b, k - 1);
      ReachInSuperset(l, l', m, b, k - 1);
      assert Edge(l, a, m);
    }
  }

  /** In an acyclic graph a path from c down to q never re-enters c and never leaves q, so it
      survives when only entries into c or inside q are dropped or replaced. */
  lemma {:induction false} PathSurvives(l: Links, l': Links, c: Ino, q: Ino, x: Ino, k: nat)
    requires Acyclic(l)
    requires forall s | s in l && l[s] != c && s.parent != q :: s in l' && l'[s] == l[s]
    requires Reach(l, c, x) && ReachIn(l, x, q, k)
    ensures ReachIn(l', x, q, k)
    decreases k
  {
    if k > 0 {
      var m :| Edge(l, x, m) && ReachIn(l, m, q, k - 1);
      EdgeReach(l, x, m);
      assert x != q by {
        assert !ReachIn(l, x, x, k);
      }
      assert m != c by {
        var j: nat :| ReachIn(l, c, x, j);
        ReachInTransitive(l, c, x, m, j, 1);
      }
      ReachTransitive(l, c, x, m);
      PathSurvives(l, l', c, q, m, k - 1);
      assert Edge(l', x, m);
    }
  }

  // ---------- The edge changes the cache makes ----------

  /** `add_dentry`: point a slot at an inode, displacing what it held. Exactly the additions
      below the inode's own subtree make a cycle. */
  lemma AddKeepsAcyclic(l: Links, s: Slot, c: Ino)
    requires Acyclic(l)
    ensures Acyclic(l[s := c]) <==> !Reach(l, c, s.parent)
  {
    var l' := l[s := c];
    if Reach(l, c, s.parent) {
      var k: nat :| ReachIn(l, c, s.parent, k);
      assert ReachIn(l, c, c, 0);
      PathSurvives(l, l', c, s.parent, c, k);
      assert l'[Slot(s.parent, s.name)] == c;
      EdgeBackIsCycle(l', s.parent, c);
    } else {
      forall x, y | Edge(l', x, y)
        ensures Edge(l, x, y) || (x == s.parent && y == c)
      {
        var n :| Slot(x, n) in l' && l'[Slot(x, n)] == y;
        if Slot(x, n) != s {
          assert Slot(x, n) in l && l[Slot(x, n)] == y;
        }
      }
      AcyclicWithNewEdge(l, l', s.parent, c);
    }
  }

  /** `rename`: add the new slot, then drop the old one. Renaming a slot onto itself drops it. */
  function Moved(l: Links, from: Slot, to: Slot): Links
    requires from in l
  {
    l[to := l[from]] - {from}
  }

  /** l' is l but for what happened at one slot. */
  ghost predicate SameBut(l: Links, l': Links, s: Slot) {
    forall k | k != s :: (k in l' <==> k in l) && (k in l ==> l'[k] == l[k])
  }

  /** After a rename the old slot is empty, a different new slot leads to what the old one led to,
      and every other slot is as before. */
  lemma MovedExactly(l: Links, from: Slot, to: Slot)
    requires from in l
    ensures var l' := Moved(l, from, to);
            && from !in l'
            && (to != from ==> to in l' && l'[to] == l[from])
            && forall k | k != from && k != to :: (k in l' <==> k in l) && (k in l ==> l'[k] == l[k])
  {
  }

  /** A rename keeps the graph acyclic exactly when it does not move an inode below itself. */
  lemma MoveKeepsAcyclic(l: Links, from: Slot, to: Slot)
    requires Acyclic(l) && from in l
    ensures Acyclic(Moved(l, from, to)) <==> from == to || !Reach(l, l[from], to.parent)
  {
    var c := l[from];
    var l' := Moved(l, from, to);
    if from == to {
      AcyclicSubset(l, l');
    } else if Reach(l, c, to.parent) {
      var k: nat :| ReachIn(l, c, to.parent, k);
      assert ReachIn(l, c, c, 0);
      PathSurvives(l, l', c, to.parent, c, k);
      assert l'[Slot(to.parent, to.name)] == c;
      EdgeBackIsCycle(l', to.parent, c);
    } else {
      AddKeepsAcyclic(l, to, c);
      AcyclicSubset(l[to := c], l');
    }
  }

  /** `unlink_inode`: every slot that leads to i, and every slot inside i, is gone. */
  function Detached(l: Links, i: Ino): (d: Links)
    ensures forall s :: s in d <==> s in l && s.parent != i && l[s] != i
    ensures forall s | s in d :: d[s] == l[s]
  {
    map s | s in l && s.parent != i && l[s] != i :: l[s]
  }

  lemma ReachFromLeaf(l: Links, c: Ino, b: Ino)
    requires forall s | s in l :: s.parent != c
    ensures Reach(l, c, b) <==> c == b
  {
    assert ReachIn(l, c, c, 0);
    assert forall m :: !Edge(l, c, m);
  }

  /** `add_inode`: whatever the inode's number was used for before, detaching it first leaves
      only one way to a cycle, the inode being its own new parent. */
  lemma ReuseKeepsAcyclic(l: Links, s: Slot, c: Ino)
    requires Acyclic(l)
    ensures Acyclic(Detached(l, c)[s := c]) <==> c != s.parent
  {
    var d := Detached(l, c);
    AcyclicSubset(l, d);
    AddKeepsAcyclic(d, s, c);
    ReachFromLeaf(d, c, s.parent);
  }

  // ---------- Paths ----------

  function ParentSlots(l: Links, c: Ino): set<Slot> {
    set s | s in l && l[s] == c
  }

  /** a lies strictly above c. */
  ghost predicate Above(l: Links, a: Ino, c: Ino) {
    exists k: nat :: k > 0 && ReachIn(l, a, c, k)
  }

  ghost function Ancestors(l: Links, c: Ino): set<Ino> {
    set a | a in (set s | s in l :: s.parent) && Above(l, a, c)
  }

  /** Going up one entry strictly shrinks the set of ancestors: this is why the recursion of
      `make_inode_path` ends. */
  lemma AncestorsShrink(l: Links, s: Slot)
    requires Acyclic(l) && s in l
    ensures Ancestors(l, s.parent) < Ancestors(l, l[s])
  {
    var p, c := s.parent, l[s];
    assert Edge(l, p, c) by {
      assert Slot(p, s.name) in l;
    }
    EdgeReach(l, p, c);
    assert p in Ancestors(l, c) && p !in Ancestors(l, p);
    forall a | a in Ancestors(l, p)
      ensures a in Ancestors(l, c)
    {
      var k: nat :| k > 0 && ReachIn(l, a, p, k);
      ReachInTransitive(l, a, p, c, k, 1);
    }
  }

  /** The names `make_inode_path` strings together: the least parent key at each level, up to
      an inode without parents, which must be the root. */
  ghost function PathNames(l: Links, c: Ino): (r: Option<seq<string>>)
    requires Acyclic(l)
    decreases Ancestors(l, c)
  {
    var up := ParentSlots(l, c);
    if up == {} then
      if c == ROOT_INO then Some([]) else None
    else
      var s := First(up);
      AncestorsShrink(l, s);
      match PathNames(l, s.parent)
      case None => None
      case Some(names) => Some(names + [s.name])
  }

  /** The last name of a path is that of the entry with the least key, and the rest is the path of
      its directory. */
  lemma PathEndsInLeastEntry(l: Links, c: Ino) returns (s: Slot)
    requires Acyclic(l) && PathNames(l, c).Some? && ParentSlots(l, c) != {}
    ensures s in l && l[s] == c && forall k | k in l && l[k] == c && k != s :: Before(s, k)
    ensures PathNames(l, s.parent).Some? && PathNames(l, c).value == PathNames(l, s.parent).value + [s.name]
  {
    s := First(ParentSlots(l, c));
  }

  /** Resolve names downwards from a directory. */
  function Walk(l: Links, from: Ino, names: seq<string>): (r: Option<Ino>)
    decreases names
  {
    if names == [] then Some(from)
    else if Slot(from, names[0]) !in l then None
    else Walk(l, l[Slot(from, names[0])], names[1..])
  }

  lemma {:induction false} WalkAppend(l: Links, from: Ino, names: seq<string>, n: string)
    ensures Walk(l, from, names + [n]) ==
            match Walk(l, from, names)
            case None => None
            case Some(d) => if Slot(d, n) in l then Some(l[Slot(d, n)]) else None
    decreases names
  {
    if names == [] {
      assert names + [n] == [n] && [n][1..] == [];
    } else {
      assert (names + [n])[1..] == names[1..] + [n];
      if Slot(from, names[0]) in l {
        WalkAppend(l, l[Slot(from, names[0])], names[1..], n);
      }
    }
  }

  /** A path that is produced is right: resolving it from the root arrives at the inode. */
  lemma {:induction false} PathLeadsBack(l: Links, c: Ino)
    requires Acyclic(l) && PathNames(l, c).Some?
    ensures Walk(l, ROOT_INO, PathNames(l, c).value) == Some(c)
    decreases Ancestors(l, c)
  {
    var up := ParentSlots(l, c);
    if up != {} {
      var s := First(up);
      AncestorsShrink(l, s);
      PathLeadsBack(l, s.parent);
      WalkAppend(l, ROOT_INO, PathNames(l, s.parent).value, s.name);
    }
  }

  /** A chain of inodes from the top down to c, each the least-keyed parent of the next. */
  ghost predicate FirstParentChain(l: Links, chain: seq<Ino>, c: Ino) {
    && chain != [] && chain[|chain| - 1] == c
    && ParentSlots(l, chain[0]) == {}
    && forall i | 0 < i < |chain| ::
         ParentSlots(l, chain[i]) != {} && First(ParentSlots(l, chain[i])).parent == chain[i - 1]
  }

  /** No path is produced exactly when the first-parent chain tops out at an inode other than
      the root. */
  lemma {:induction false} PathFailsAtOrphan(l: Links, c: Ino)
    requires Acyclic(l)
    ensures PathNames(l, c).None? <==>
            exists chain :: FirstParentChain(l, chain, c) && chain[0] != ROOT_INO
    decreases Ancestors(l, c)
  {
    var up := ParentSlots(l, c);
    if up == {} {
      assert FirstParentChain(l, [c], c);
      forall chain | FirstParentChain(l, chain, c)
        ensures chain[0] == c
      {
        assert |chain| == 1;
      }
    } else {
      var s := First(up);
      AncestorsShrink(l, s);
      PathFailsAtOrphan(l, s.parent);
      if PathNames(l, c).None? {
        var chain :| FirstParentChain(l, chain, s.parent) && chain[0] != ROOT_INO;
        assert FirstParentChain(l, chain + [c], c);
      }
      forall chain | FirstParentChain(l, chain, c) && chain[0] != ROOT_INO
        ensures PathNames(l, c).None?
      {
        assert |chain| > 1;
        assert FirstParentChain(l, chain[..|chain| - 1], s.parent);
      }
    }
  }
}
