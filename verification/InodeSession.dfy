/** One fusetrace session as a state machine: requests from the kernel, each with the answer the
    host file system gave, act on the cached reference counts and links. */
module InodeSession {
  import opened Options
  import opened InodeGraph

  /** The inodes in `inode_map` with their reference counts, and the cached name space. */
  datatype State = State(refs: map<Ino, int>, links: Links)

  /** A request and the host's answer to the system calls its handler makes. `None` and `false`
      stand for a failed call; an `Ino` is the `st_ino` that lstat reported. */
  datatype Request =
    | Lookup(parent: Ino, name: string, permitted: bool, stat: Option<Ino>)
    | Forget(ino: Ino, count: nat)
      // mknod, mkdir, symlink and create have one effect on the cache
    | Make(parent: Ino, name: string, made: Option<Ino>)
      // unlink and rmdir
    | Unlink(parent: Ino, name: string, done: bool)
    | Rename(parent: Ino, name: string, newParent: Ino, newName: string, done: bool)
    | Link(ino: Ino, newParent: Ino, newName: string, linked: Option<Ino>)
      // getattr and setattr: the attributes, inode number included, are copied into the cache
    | Restat(ino: Ino, stat: Option<Ino>)

  ghost predicate Good(s: State) {
    && ROOT_INO in s.refs
    && (forall i | i in s.refs :: s.refs[i] > 0)
    && (forall k | k in s.links :: k.parent in s.refs && s.links[k] in s.refs)
    && Acyclic(s.links)
  }

  ghost predicate HasPath(s: State, i: Ino)
    requires Acyclic(s.links)
  {
    PathNames(s.links, i).Some?
  }

  /** The inodes the kernel names are cached; the handlers dereference them unchecked. Forget
      alone checks. */
  predicate Named(s: State, r: Request) {
    match r
    case Lookup(p, _, _, _) => p in s.refs
    case Forget(_, _) => true
    case Make(p, _, _) => p in s.refs
    case Unlink(p, _, _) => p in s.refs
    case Rename(p, _, q, _, _) => p in s.refs && q in s.refs
    case Link(i, q, _, _) => i in s.refs && q in s.refs
    case Restat(i, _) => i in s.refs
  }

  /** The handler gets as far as changing the cache. */
  ghost predicate Effective(s: State, r: Request)
    requires Acyclic(s.links)
  {
    match r
    case Lookup(p, _, permitted, stat) => permitted && HasPath(s, p) && stat.Some?
    case Forget(i, _) => i != ROOT_INO
    case Make(p, _, made) => HasPath(s, p) && made.Some?
    case Unlink(p, n, done) => HasPath(s, p) && done && Slot(p, n) in s.links
    case Rename(p, n, q, _, done) =>
      HasPath(s, p) && HasPath(s, q) && done && Slot(p, n) in s.links
    case Link(i, q, _, linked) => HasPath(s, i) && HasPath(s, q) && linked.Some?
    case Restat(_, stat) => stat.Some?
  }

  /** What the cache takes on trust from the host and the kernel, checkable before the call: a
      cached entry still has its inode number, an entry that is not cached is not a second name
      of a cached inode, and only known inodes are forgotten. */
  ghost predicate Trusted(s: State, r: Request)
    requires Acyclic(s.links)
  {
    Effective(s, r) ==>
      match r
      case Lookup(p, n, _, stat) =>
        if Slot(p, n) in s.links then stat.value == s.links[Slot(p, n)] else stat.value !in s.refs
      case Forget(i, _) => i in s.refs
      case Link(i, _, _, linked) => linked.value == i
      case Restat(i, stat) => i == ROOT_INO || stat.value == i
      case _ => true
  }

  /** No request puts an inode below itself. */
  ghost predicate NoLoop(s: State, r: Request)
    requires Acyclic(s.links)
  {
    Effective(s, r) ==>
      match r
      case Lookup(p, n, _, stat) => Slot(p, n) in s.links || !Reach(s.links, stat.value, p)
      case Make(p, _, made) => made.value != p
      case Rename(p, n, q, m, _) =>
        Slot(p, n) == Slot(q, m) || !Reach(s.links, s.links[Slot(p, n)], q)
      case Link(i, q, _, _) => !Reach(s.links, i, q)
      case _ => true
  }

  function RefOf(s: State, i: Ino): int {
    if i in s.refs then s.refs[i] else 0
  }

  /** What each request is meant to do to the cache: every entry replied counts one reference,
      a forgotten inode leaves with all its links. */
  ghost function Step(s: State, r: Request): State
    requires Acyclic(s.links) && Named(s, r)
  {
    if !Effective(s, r) then s else
    match r
    case Lookup(p, n, _, stat) =>
      if Slot(p, n) in s.links then
        var i := s.links[Slot(p, n)];
        s.(refs := s.refs[i := RefOf(s, i) + 1])
      else
        State(s.refs[stat.value := RefOf(s, stat.value) + 1], s.links[Slot(p, n) := stat.value])
    case Forget(i, count) =>
      if i !in s.refs then s
      else if s.refs[i] - count <= 0 then State(s.refs - {i}, Detached(s.links, i))
      else s.(refs := s.refs[i := s.refs[i] - count])
    case Make(p, n, made) =>
      var i := made.value;
      State(s.refs[i := RefOf(s, i) + 1], Detached(s.links, i)[Slot(p, n) := i])
    case Unlink(p, n, _) => s.(links := s.links - {Slot(p, n)})
    case Rename(p, n, q, m, _) => s.(links := Moved(s.links, Slot(p, n), Slot(q, m)))
    case Link(i, q, m, _) => State(s.refs[i := RefOf(s, i) + 1], s.links[Slot(q, m) := i])
    case Restat(_, _) => s
  }

  // ---------- What each request does, entry by entry ----------

  /** One more entry for i, nothing else counted. */
  ghost predicate OneMore(s: State, s': State, i: Ino) {
    && i in s'.refs && s'.refs[i] == RefOf(s, i) + 1
    && forall j | j != i :: (j in s'.refs <==> j in s.refs) && (j in s.refs ==> s'.refs[j] == s.refs[j])
  }

  /** A lookup that is permitted and finds something counts an entry for it, and caches a name that
      was not; any other does nothing. */
  lemma LookupEffect(s: State, r: Request)
    requires Good(s) && r.Lookup? && Named(s, r)
    ensures var s', k := Step(s, r), Slot(r.parent, r.name);
            if r.permitted && HasPath(s, r.parent) && r.stat.Some? then
              if k in s.links then s'.links == s.links && OneMore(s, s', s.links[k])
              else
                && k in s'.links && s'.links[k] == r.stat.value && SameBut(s.links, s'.links, k)
                && OneMore(s, s', r.stat.value)
            else s' == s
  {
  }

  /** Forgetting takes the entries off the count; an inode with none left goes, with the entries
      that lead to it and those inside it. The root is never forgotten. */
  lemma ForgetEffect(s: State, r: Request)
    requires Good(s) && r.Forget? && Named(s, r)
    ensures var s', i := Step(s, r), r.ino;
            && (i == ROOT_INO || i !in s.refs ==> s' == s)
            && (forall j | j != i :: (j in s'.refs <==> j in s.refs) && (j in s.refs ==> s'.refs[j] == s.refs[j]))
            && (i != ROOT_INO && i in s.refs && s.refs[i] > r.count ==>
                  i in s'.refs && s'.refs[i] == s.refs[i] - r.count && s'.links == s.links)
            && (i != ROOT_INO && i in s.refs && s.refs[i] <= r.count ==>
                  && i !in s'.refs
                  && forall k :: (k in s'.links <==> k in s.links && k.parent != i && s.links[k] != i) &&
                                 (k in s'.links ==> s'.links[k] == s.links[k]))
  {
  }

  /** An inode that is made has the new name and no other, nothing inside it, and one more entry. */
  lemma MakeEffect(s: State, r: Request)
    requires Good(s) && r.Make? && Named(s, r)
    ensures var s', slot := Step(s, r), Slot(r.parent, r.name);
            if HasPath(s, r.parent) && r.made.Some? then
              var i := r.made.value;
              && slot in s'.links && s'.links[slot] == i && OneMore(s, s', i)
              && forall k | k != slot ::
                   (k in s'.links <==> k in s.links && k.parent != i && s.links[k] != i) &&
                   (k in s'.links ==> s'.links[k] == s.links[k])
            else s' == s
  {
  }

  /** Unlinking drops the one entry, if the host did. */
  lemma UnlinkEffect(s: State, r: Request)
    requires Good(s) && r.Unlink? && Named(s, r)
    ensures var s', k := Step(s, r), Slot(r.parent, r.name);
            if HasPath(s, r.parent) && r.done then
              k !in s'.links && SameBut(s.links, s'.links, k) && s'.refs == s.refs
            else s' == s
  {
  }

  /** A rename that the host has done moves the entry, if it is cached, and nothing else. */
  lemma RenameEffect(s: State, r: Request)
    requires Good(s) && r.Rename? && Named(s, r)
    ensures var s', from, to := Step(s, r), Slot(r.parent, r.name), Slot(r.newParent, r.newName);
            if HasPath(s, r.parent) && HasPath(s, r.newParent) && r.done && from in s.links then
              && s'.refs == s.refs && from !in s'.links
              && (to != from ==> to in s'.links && s'.links[to] == s.links[from])
              && forall k | k != from && k != to ::
                   (k in s'.links <==> k in s.links) && (k in s.links ==> s'.links[k] == s.links[k])
            else s' == s
  {
    var from, to := Slot(r.parent, r.name), Slot(r.newParent, r.newName);
    if from in s.links {
      MovedExactly(s.links, from, to);
    }
  }

  /** A hard link adds the name to the inode and counts an entry for it. */
  lemma LinkEffect(s: State, r: Request)
    requires Good(s) && r.Link? && Named(s, r)
    ensures var s', k := Step(s, r), Slot(r.newParent, r.newName);
            if HasPath(s, r.ino) && HasPath(s, r.newParent) && r.linked.Some? then
              && k in s'.links && s'.links[k] == r.ino && SameBut(s.links, s'.links, k)
              && OneMore(s, s', r.ino)
            else s' == s
  {
  }

  /** Each request keeps the name space acyclic exactly when it puts no inode below itself. */
  lemma StepKeepsAcyclic(s: State, r: Request)
    requires Good(s) && Named(s, r)
    ensures Acyclic(Step(s, r).links) <==> NoLoop(s, r)
  {
    if Effective(s, r) {
      match r
      case Lookup(p, n, _, stat) =>
        if Slot(p, n) !in s.links {
          AddKeepsAcyclic(s.links, Slot(p, n), stat.value);
        }
      case Forget(i, _) => AcyclicSubset(s.links, Detached(s.links, i));
      case Make(p, n, made) => ReuseKeepsAcyclic(s.links, Slot(p, n), made.value);
      case Unlink(p, n, _) => AcyclicSubset(s.links, s.links - {Slot(p, n)});
      case Rename(p, n, q, m, _) => MoveKeepsAcyclic(s.links, Slot(p, n), Slot(q, m));
      case Link(i, q, m, _) => AddKeepsAcyclic(s.links, Slot(q, m), i);
      case Restat(_, _) =>
    }
  }

  /** A trusted lookup cannot make a loop: the inode it adds is new. */
  lemma TrustedLookupHasNoLoop(s: State, r: Request)
    requires Good(s) && Named(s, r) && r.Lookup? && Trusted(s, r)
    ensures NoLoop(s, r)
  {
    if Effective(s, r) && Slot(r.parent, r.name) !in s.links {
      ReachFromLeaf(s.links, r.stat.value, r.parent);
    }
  }

  /** A second name of a cached file is all it takes: everything else about the lookup is in
      order, yet the host's answer cannot be trusted. */
  lemma SecondNameIsNotTrusted(s: State)
    requires s == State(map[ROOT_INO := 1, 2 := 1], map[Slot(ROOT_INO, "a") := 2])
    ensures Good(s)
    ensures var r := Lookup(ROOT_INO, "b", true, Some(2)); Named(s, r) && NoLoop(s, r) && !Trusted(s, r)
  {
    var none: Links := map[];
    assert Acyclic(none) by {
      forall a: Ino, k: nat | k > 0
        ensures !ReachIn(none, a, a, k)
      {
        assert forall m :: !Edge(none, a, m);
      }
    }
    assert s.links == none[Slot(ROOT_INO, "a") := 2];
    ReachFromLeaf(none, 2, ROOT_INO);
    AddKeepsAcyclic(none, Slot(ROOT_INO, "a"), 2);
    ReachFromLeaf(s.links, 2, ROOT_INO);
    assert ParentSlots(s.links, ROOT_INO) == {};
  }

  ghost predicate Legal(s: State, r: Request)
    requires Acyclic(s.links)
  {
    Named(s, r) && Trusted(s, r) && NoLoop(s, r)
  }

  lemma StepKeepsGood(s: State, r: Request)
    requires Good(s) && Legal(s, r)
    ensures Good(Step(s, r))
  {
    StepKeepsAcyclic(s, r);
  }

  // ---------- Reference counts against the traffic with the kernel ----------

  datatype Event = Entry(ino: Ino) | Forgot(ino: Ino, count: nat)

  /** The traffic a request adds: an entry in the reply, or the forget itself. */
  ghost function Traffic(s: State, r: Request): seq<Event>
    requires Acyclic(s.links)
  {
    if !Effective(s, r) then [] else
    match r
    case Lookup(p, n, _, stat) => [Entry(stat.value)]
    case Forget(i, count) => [Forgot(i, count)]
    case Make(_, _, made) => [Entry(made.value)]
    case Link(i, _, _, linked) => [Entry(linked.value)]
    case _ => []
  }

  /** Entries replied for i minus entries forgotten, starting again whenever the kernel has
      given everything back. The root is mounted with one entry. */
  function Outstanding(h: seq<Event>, i: Ino): nat {
    if h == [] then
      if i == ROOT_INO then 1 else 0
    else
      var before := Outstanding(h[..|h| - 1], i);
      match h[|h| - 1]
      case Entry(j) => if i == j then before + 1 else before
      case Forgot(j, count) =>
        if i != j then before else if before <= count then 0 else before - count
  }

  /** Entries replied minus entries forgotten. */
  function Balance(h: seq<Event>, i: Ino): int {
    if h == [] then
      if i == ROOT_INO then 1 else 0
    else
      Balance(h[..|h| - 1], i) +
      match h[|h| - 1]
      case Entry(j) => if i == j then 1 else 0
      case Forgot(j, count) => if i == j then -(count as int) else 0
  }

  /** While the kernel never gives back more than it got, what is outstanding is the plain
      difference. */
  lemma {:induction false} OutstandingIsBalance(h: seq<Event>, i: Ino)
    requires forall k | 0 <= k <= |h| :: Balance(h[..k], i) >= 0
    ensures Outstanding(h, i) == Balance(h, i)
  {
    if h != [] {
      var g := h[..|h| - 1];
      forall k | 0 <= k <= |g|
        ensures Balance(g[..k], i) >= 0
      {
        assert g[..k] == h[..k];
      }
      OutstandingIsBalance(g, i);
      assert h[..|h|] == h;
    }
  }

  ghost predicate Accounted(s: State, h: seq<Event>) {
    forall i: Ino ::
      && (i in s.refs <==> Outstanding(h, i) > 0)
      && (i in s.refs ==> s.refs[i] == Outstanding(h, i))
  }

  lemma OutstandingAfter(h: seq<Event>, e: Event, i: Ino)
    ensures Outstanding(h + [e], i) ==
            match e
            case Entry(j) => if i == j then Outstanding(h, i) + 1 else Outstanding(h, i)
            case Forgot(j, count) =>
              if i != j then Outstanding(h, i)
              else if Outstanding(h, i) <= count then 0 else Outstanding(h, i) - count
  {
    assert (h + [e])[..|h|] == h;
  }

  lemma EntryAccounted(s: State, s': State, h: seq<Event>, j: Ino)
    requires Accounted(s, h) && s'.refs == s.refs[j := RefOf(s, j) + 1]
    ensures Accounted(s', h + [Entry(j)])
  {
    forall i: Ino
      ensures i in s'.refs <==> Outstanding(h + [Entry(j)], i) > 0
      ensures i in s'.refs ==> s'.refs[i] == Outstanding(h + [Entry(j)], i)
    {
      OutstandingAfter(h, Entry(j), i);
      assert i in s.refs <==> Outstanding(h, i) > 0;
    }
  }

  lemma ForgetAccounted(s: State, s': State, h: seq<Event>, j: Ino, count: nat)
    requires Accounted(s, h) && j in s.refs
    requires s'.refs == if s.refs[j] - count <= 0 then s.refs - {j} else s.refs[j := s.refs[j] - count]
    ensures Accounted(s', h + [Forgot(j, count)])
  {
    forall i: Ino
      ensures i in s'.refs <==> Outstanding(h + [Forgot(j, count)], i) > 0
      ensures i in s'.refs ==> s'.refs[i] == Outstanding(h + [Forgot(j, count)], i)
    {
      OutstandingAfter(h, Forgot(j, count), i);
      assert i in s.refs <==> Outstanding(h, i) > 0;
    }
  }

  /** The entry that a request replies with, and what that does to the counts. */
  lemma EntryCounts(s: State, r: Request, j: Ino)
    requires Good(s) && Legal(s, r) && Traffic(s, r) == [Entry(j)]
    ensures Step(s, r).refs == s.refs[j := RefOf(s, j) + 1]
  {
  }

  lemma ForgetCounts(s: State, r: Request, j: Ino, count: nat)
    requires Good(s) && Legal(s, r) && Traffic(s, r) == [Forgot(j, count)]
    ensures j in s.refs
    ensures Step(s, r).refs == if s.refs[j] - count <= 0 then s.refs - {j} else s.refs[j := s.refs[j] - count]
  {
  }

  lemma SilentCounts(s: State, r: Request)
    requires Good(s) && Legal(s, r) && Traffic(s, r) == []
    ensures Step(s, r).refs == s.refs
  {
  }

  lemma StepAccounted(s: State, r: Request, h: seq<Event>)
    requires Good(s) && Legal(s, r) && Accounted(s, h)
    ensures Accounted(Step(s, r), h + Traffic(s, r))
  {
    var t, s' := Traffic(s, r), Step(s, r);
    if t == [] {
      SilentCounts(s, r);
      assert h + t == h;
    } else if t[0].Entry? {
      EntryCounts(s, r, t[0].ino);
      EntryAccounted(s, s', h, t[0].ino);
    } else {
      ForgetCounts(s, r, t[0].ino, t[0].count);
      ForgetAccounted(s, s', h, t[0].ino, t[0].count);
    }
  }

  // ---------- Whole sessions ----------

  ghost predicate LegalSession(s: State, rs: seq<Request>)
    requires Good(s)
    decreases rs
  {
    rs == [] || (Legal(s, rs[0]) && (StepKeepsGood(s, rs[0]); LegalSession(Step(s, rs[0]), rs[1..])))
  }

  ghost function Run(s: State, rs: seq<Request>): (s': State)
    requires Good(s) && LegalSession(s, rs)
    ensures Good(s')
    decreases rs
  {
    if rs == [] then s else
    StepKeepsGood(s, rs[0]);
    Run(Step(s, rs[0]), rs[1..])
  }

  /** The traffic of a session, after traffic h. */
  ghost function History(s: State, rs: seq<Request>, h: seq<Event>): seq<Event>
    requires Good(s) && LegalSession(s, rs)
    decreases rs
  {
    if rs == [] then h else
    StepKeepsGood(s, rs[0]);
    History(Step(s, rs[0]), rs[1..], h + Traffic(s, rs[0]))
  }

  lemma {:induction false} RunAccounted(s: State, rs: seq<Request>, h: seq<Event>)
    requires Good(s) && LegalSession(s, rs) && Accounted(s, h)
    ensures Accounted(Run(s, rs), History(s, rs, h))
    decreases rs
  {
    if rs != [] {
      StepKeepsGood(s, rs[0]);
      StepAccounted(s, rs[0], h);
      RunAccounted(Step(s, rs[0]), rs[1..], h + Traffic(s, rs[0]));
    }
  }

  /** The state `main` sets up before the first request. */
  ghost function Mounted(): (s: State)
    ensures Good(s)
    ensures Accounted(s, [])
  {
    var l: Links := map[];
    assert Acyclic(l) by {
      forall a: Ino, k: nat | k > 0
        ensures !ReachIn(l, a, a, k)
      {
        assert forall m :: !Edge(l, a, m);
      }
    }
    State(map[ROOT_INO := 1], l)
  }

  /** Over every session from mount: an inode is cached exactly while the kernel holds entries
      for it, its count is the number of those entries, no link dangles, the name space has no
      cycle, and every path that can be built resolves to its inode. */
  lemma SessionSafety(rs: seq<Request>)
    requires LegalSession(Mounted(), rs)
    ensures var s := Run(Mounted(), rs); var h := History(Mounted(), rs, []);
            && (forall i: Ino :: i in s.refs <==> Outstanding(h, i) > 0)
            && (forall i | i in s.refs :: s.refs[i] == Outstanding(h, i))
            && (forall k | k in s.links :: k.parent in s.refs && s.links[k] in s.refs)
            && Acyclic(s.links)
            && (forall i: Ino | PathNames(s.links, i).Some? ::
                  Walk(s.links, ROOT_INO, PathNames(s.links, i).value) == Some(i))
  {
    var s, h := Run(Mounted(), rs), History(Mounted(), rs, []);
    RunAccounted(Mounted(), rs, []);
    forall i: Ino | PathNames(s.links, i).Some?
      ensures Walk(s.links, ROOT_INO, PathNames(s.links, i).value) == Some(i)
    {
      PathLeadsBack(s.links, i);
    }
  }
}
