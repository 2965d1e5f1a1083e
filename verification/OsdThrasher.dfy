/** The OSD thrasher: lists of OSDs that are in, out, live and dead, changed by randomly chosen
    actions. Every random draw is a parameter, so what is proved holds for all of them. */
module OsdThrasher {
  import opened Options

  type Osd = nat

  // ---------- Weighted choice ----------

  ghost predicate NonNegative(ws: seq<real>) {
    forall i | 0 <= i < |ws| :: ws[i] >= 0.0
  }

  /** The sum of the first n weights. */
  function Prefix(ws: seq<real>, n: nat): real
    requires n <= |ws|
  {
    if n == 0 then 0.0 else Prefix(ws, n - 1) + ws[n - 1]
  }

  lemma {:induction false} PrefixGrows(ws: seq<real>, m: nat, n: nat)
    requires NonNegative(ws) && m <= n <= |ws|
    ensures Prefix(ws, m) <= Prefix(ws, n)
  {
    if m < n {
      PrefixGrows(ws, m, n - 1);
    }
  }

  /** The draw lies in the interval of action i. */
  ghost predicate InInterval(ws: seq<real>, draw: real, i: nat)
    requires i < |ws|
  {
    Prefix(ws, i) <= draw < Prefix(ws, i + 1)
  }

  /** The intervals do not overlap. */
  lemma OnlyInterval(ws: seq<real>, draw: real, i: nat)
    requires NonNegative(ws) && i < |ws| && InInterval(ws, draw, i)
    ensures forall j: nat | j < |ws| && InInterval(ws, draw, j) :: j == i
  {
    forall j: nat | j < |ws| && InInterval(ws, draw, j)
      ensures j == i
    {
      if j < i {
        PrefixGrows(ws, j + 1, i);
      } else if i < j {
        PrefixGrows(ws, i + 1, j);
      }
    }
  }

  /** The action whose half-open interval of prefix sums holds the draw. */
  ghost function Picked(ws: seq<real>, draw: real): (pick: Option<nat>)
    ensures pick.Some? ==> pick.value < |ws| && InInterval(ws, draw, pick.value)
  {
    if exists i: nat :: i < |ws| && InInterval(ws, draw, i) then
      var i: nat :| i < |ws| && InInterval(ws, draw, i);
      Some(i)
    else None
  }

  /** The loop of `choose_action`: the action whose half-open interval of prefix sums holds the
      draw, or nothing when the draw is not below the total. */
  method PickWeighted(ws: seq<real>, draw: real) returns (pick: Option<nat>)
    requires NonNegative(ws) && draw >= 0.0
    ensures pick.Some? <==> draw < Prefix(ws, |ws|)
    ensures forall i: nat | i < |ws| :: pick == Some(i) <==> InInterval(ws, draw, i)
    ensures pick.Some? ==> pick.value < |ws| && ws[pick.value] > 0.0
    ensures pick == Picked(ws, draw)
  {
    var val := draw;
    var i := 0;
    while i < |ws|
      invariant 0 <= i <= |ws| && val == draw - Prefix(ws, i) >= 0.0
    {
      if val < ws[i] {
        OnlyInterval(ws, draw, i);
        PrefixGrows(ws, i + 1, |ws|);
        assert InInterval(ws, draw, i);
        return Some(i);
      }
      val := val - ws[i];
      i := i + 1;
    }
    forall j: nat | j < |ws|
      ensures !InInterval(ws, draw, j)
    {
      PrefixGrows(ws, j + 1, |ws|);
    }
    pick := None;
  }

  // ---------- Lists ----------

  /** `list.remove`: drop the first occurrence. */
  function Without(s: seq<Osd>, x: Osd): seq<Osd> {
    if s == [] then [] else if s[0] == x then s[1..] else [s[0]] + Without(s[1..], x)
  }

  lemma {:induction false} WithoutOne(s: seq<Osd>, x: Osd)
    requires x in s
    ensures |Without(s, x)| == |s| - 1
    ensures multiset(Without(s, x)) + multiset{x} == multiset(s)
  {
    assert s == [s[0]] + s[1..];
    if s[0] != x {
      WithoutOne(s[1..], x);
    }
  }

  /** Just the first occurrence goes, and the others stay in order. */
  lemma {:induction false} WithoutFirst(s: seq<Osd>, x: Osd, k: nat)
    requires k < |s| && s[k] == x && x !in s[..k]
    ensures Without(s, x) == s[..k] + s[k + 1..]
  {
    if k > 0 {
      assert s[0] == s[..k][0] != x && x !in s[1..][..k - 1] by {
        assert s[1..][..k - 1] == s[..k][1..];
      }
      WithoutFirst(s[1..], x, k - 1);
      assert s[..k] == [s[0]] + s[1..][..k - 1] && s[1..][k..] == s[k + 1..];
    }
  }

  function Min(a: nat, b: nat): nat {
    if a < b then a else b
  }

  // ---------- What the actions do to the lists ----------

  /** The four lists, and the fewest OSDs that were in, and live, at any moment so far. */
  datatype Cluster = Cluster(ins: seq<Osd>, outs: seq<Osd>, live: seq<Osd>, dead: seq<Osd>,
                             lowIn: nat, lowLive: nat) {
    predicate Valid() {
      lowIn <= |ins| && lowLive <= |live|
    }

    /** No OSD is lost or invented on the way to d: each only moves between in and out, live and
        dead. */
    ghost predicate Conserved(d: Cluster) {
      && multiset(ins) + multiset(outs) == multiset(d.ins) + multiset(d.outs)
      && multiset(live) + multiset(dead) == multiset(d.live) + multiset(d.dead)
      && |ins| + |outs| == |d.ins| + |d.outs| && |live| + |dead| == |d.live| + |d.dead|
    }
  }

  /** The random draws of a loop; past the end they are zero. */
  type Draws = seq<nat>

  function Draw(draws: Draws, n: nat): nat {
    if n < |draws| then draws[n] else 0
  }

  /** The OSD that a draw falls on; draws past the end stand for the last one. */
  function Pick(list: seq<Osd>, draw: nat): (x: Osd)
    requires list != []
    ensures x in list && (draw < |list| ==> x == list[draw])
  {
    if draw < |list| then list[draw] else list[|list| - 1]
  }

  ghost function Outed(c: Cluster, x: Osd): (d: Cluster)
    requires c.Valid() && x in c.ins
    ensures d.Valid() && c.Conserved(d) && |d.ins| == |c.ins| - 1
    ensures d.ins == Without(c.ins, x) && d.outs == c.outs + [x] && d.live == c.live && d.dead == c.dead
    ensures d.lowIn == Min(c.lowIn, |d.ins|) && d.lowLive == c.lowLive
  {
    WithoutOne(c.ins, x);
    c.(ins := Without(c.ins, x), outs := c.outs + [x], lowIn := Min(c.lowIn, |c.ins| - 1))
  }

  ghost function Killed(c: Cluster, x: Osd, markOut: bool): (d: Cluster)
    requires c.Valid() && x in c.live
    ensures d.Valid() && c.Conserved(d) && |d.live| == |c.live| - 1
    ensures d.live == Without(c.live, x) && d.dead == c.dead + [x] && d.lowLive == Min(c.lowLive, |d.live|)
    ensures if markOut && x in c.ins then d.ins == Without(c.ins, x) && d.outs == c.outs + [x]
            else d.ins == c.ins && d.outs == c.outs
    ensures d.lowIn == Min(c.lowIn, |d.ins|)
  {
    WithoutOne(c.live, x);
    var d := c.(live := Without(c.live, x), dead := c.dead + [x], lowLive := Min(c.lowLive, |c.live| - 1));
    if markOut && x in c.ins then Outed(d, x) else d
  }

  ghost function Revived(c: Cluster, x: Osd): (d: Cluster)
    requires c.Valid() && x in c.dead
    ensures d.Valid() && c.Conserved(d) && |d.dead| == |c.dead| - 1
    ensures d.dead == Without(c.dead, x) && d.live == c.live + [x] && d.ins == c.ins && d.outs == c.outs
    ensures d.lowIn == c.lowIn && d.lowLive == c.lowLive
  {
    WithoutOne(c.dead, x);
    c.(dead := Without(c.dead, x), live := c.live + [x])
  }

  /** A dead OSD is revived instead, and stays out. */
  ghost function BroughtIn(c: Cluster, x: Osd): (d: Cluster)
    requires c.Valid() && x in c.outs
    ensures d.Valid() && c.Conserved(d) && |d.dead| + |d.outs| == |c.dead| + |c.outs| - 1
    ensures d.lowIn == c.lowIn && d.lowLive == c.lowLive && |d.live| >= |c.live| && |d.ins| >= |c.ins|
    ensures if x in c.dead then
              d.dead == Without(c.dead, x) && d.live == c.live + [x] && d.ins == c.ins && d.outs == c.outs
            else
              d.outs == Without(c.outs, x) && d.ins == c.ins + [x] && d.live == c.live && d.dead == c.dead
  {
    if x in c.dead then Revived(c, x) else
    WithoutOne(c.outs, x);
    c.(outs := Without(c.outs, x), ins := c.ins + [x])
  }

  /** Reviving until no more than most are dead. */
  ghost function RevivedDown(c: Cluster, most: nat, draws: Draws, n: nat): (d: Cluster)
    requires c.Valid()
    decreases |c.dead|
  {
    if |c.dead| <= most then c
    else RevivedDown(Revived(c, Pick(c.dead, Draw(draws, n))), most, draws, n + 1)
  }

  lemma {:induction false} RevivedDownEnds(c: Cluster, most: nat, draws: Draws, n: nat)
    requires c.Valid()
    ensures var d := RevivedDown(c, most, draws, n);
            && d.Valid() && c.Conserved(d) && |d.dead| == Min(|c.dead|, most)
            && d.ins == c.ins && d.outs == c.outs && d.lowIn == c.lowIn && d.lowLive == c.lowLive
            && c.live <= d.live
    decreases |c.dead|
  {
    if |c.dead| > most {
      RevivedDownEnds(Revived(c, Pick(c.dead, Draw(draws, n))), most, draws, n + 1);
    }
  }

  ghost function AllIn(c: Cluster, draws: Draws, n: nat): (d: Cluster)
    requires c.Valid()
    decreases |c.dead| + |c.outs|
  {
    if |c.outs| == 0 then c else AllIn(BroughtIn(c, Pick(c.outs, Draw(draws, n))), draws, n + 1)
  }

  lemma {:induction false} AllInEnds(c: Cluster, draws: Draws, n: nat)
    requires c.Valid()
    ensures var d := AllIn(c, draws, n);
            && d.Valid() && c.Conserved(d) && d.outs == [] && (c.dead == [] ==> d.dead == [])
            && d.lowIn == c.lowIn && d.lowLive == c.lowLive && c.ins <= d.ins && c.live <= d.live
    decreases |c.dead| + |c.outs|
  {
    if c.outs != [] {
      AllInEnds(BroughtIn(c, Pick(c.outs, Draw(draws, n))), draws, n + 1);
    }
  }

  /** Everything up: the draws for the second loop come after one for each dead OSD. */
  ghost function AllUp(c: Cluster, draws: Draws): (d: Cluster)
    requires c.Valid()
    ensures d.Valid() && c.Conserved(d) && d.dead == [] && d.outs == []
    ensures d.lowIn == c.lowIn && d.lowLive == c.lowLive
  {
    RevivedDownEnds(c, 0, draws, 0);
    AllInEnds(RevivedDown(c, 0, draws, 0), draws, |c.dead|);
    AllIn(RevivedDown(c, 0, draws, 0), draws, |c.dead|)
  }

  /** The lists when an operation ends, or raises an exception. */
  datatype Result = Result(raised: bool, c: Cluster)

  /** The filling loop of `test_map_discontinuity`: it ends for every draw, and fails exactly when
      there are too few OSDs to fill with. */
  ghost function Filled(c: Cluster, minIn: nat, draws: Draws, n: nat): (r: Result)
    requires c.Valid()
    ensures r.c.Valid() && c.Conserved(r.c) && r.c.lowIn == c.lowIn && r.c.lowLive == c.lowLive
    ensures r.raised <==> |c.ins| + |c.outs| < minIn + 1
    ensures !r.raised ==> |r.c.ins| >= minIn + 1
    ensures |r.c.live| >= |c.live| && c.ins <= r.c.ins && c.live <= r.c.live
    ensures |c.ins| > minIn ==> r.c == c
    decreases |c.dead| + |c.outs|
  {
    if |c.ins| >= minIn + 1 then Result(false, c)
    else if c.outs == [] then Result(true, c)
    else Filled(BroughtIn(c, Pick(c.outs, Draw(draws, n))), minIn, draws, n + 1)
  }

  /** One OSD is killed and marked out, then one of the dead, perhaps the same, is revived. */
  ghost function Swapped(c: Cluster, killDraw: nat, reviveDraw: nat): (d: Cluster)
    requires c.Valid() && c.live != []
    ensures d.Valid() && c.Conserved(d) && |d.live| == |c.live|
    ensures d.lowLive == Min(c.lowLive, |c.live| - 1)
    ensures |d.ins| >= |c.ins| - 1 && d.lowIn == Min(c.lowIn, |d.ins|)
    ensures var x := Pick(c.live, killDraw); var y := Pick(c.dead + [x], reviveDraw);
            && d.live == Without(c.live, x) + [y] && d.dead == Without(c.dead + [x], y)
            && if x in c.ins then d.ins == Without(c.ins, x) && d.outs == c.outs + [x]
               else d.ins == c.ins && d.outs == c.outs
  {
    var killed := Killed(c, Pick(c.live, killDraw), true);
    Revived(killed, Pick(killed.dead, reviveDraw))
  }

  // ---------- Rounds and runs ----------

  /** The limits of the lists, the weight of killing an OSD, and the weights of the actions that
      leave the lists alone. */
  datatype Config = Config(minIn: nat, minOut: nat, minLive: nat, minDead: nat, maxDead: nat,
                           chanceDown: real, others: seq<real>)

  datatype Action = Out | Kill | In | Revive | Other(k: nat)

  /** The random draws of one round of `do_thrash`: whether it cleans up, whether that includes a
      map discontinuity test, and what each choice falls on. */
  datatype Round = Round(clean: bool, discontinuity: bool, revives: Draws, fills: Draws,
                         killDraw: nat, reviveDraw: nat, actionDraw: real, osdDraw: nat)

  ghost function Discontinuity(cfg: Config, c: Cluster, r: Round): (res: Result)
    requires c.Valid()
    ensures res.c.Valid() && c.Conserved(res.c)
    ensures c.live != [] ==> (res.raised <==> |c.ins| + |c.outs| < cfg.minIn + 1)
    ensures |res.c.dead| <= |c.dead|
    ensures |c.live| > 0 ==> res.c.lowLive >= Min(c.lowLive, |c.live| - 1)
    ensures res.c.lowIn >= Min(c.lowIn, cfg.minIn)
  {
    var full := Filled(c, cfg.minIn, r.fills, 0);
    if full.raised || full.c.live == [] then full.(raised := true)
    else Result(false, Swapped(full.c, r.killDraw, r.reviveDraw))
  }

  ghost function CleanedUp(cfg: Config, c: Cluster, r: Round): (res: Result)
    requires c.Valid()
    ensures res.c.Valid() && c.Conserved(res.c) && |res.c.dead| <= cfg.maxDead
    ensures res.raised <==>
            && r.discontinuity && |c.ins| + |c.outs| < cfg.minIn + 1
            && |c.live| + |c.dead| - Min(|c.dead|, cfg.maxDead) > 5
    ensures res.c.lowIn >= Min(c.lowIn, cfg.minIn)
  {
    RevivedDownEnds(c, cfg.maxDead, r.revives, 0);
    var revived := RevivedDown(c, cfg.maxDead, r.revives, 0);
    if r.discontinuity && |revived.live| > 5 then Discontinuity(cfg, revived, r) else Result(false, revived)
  }

  /** The actions on offer with their weights, in the order they are tried. */
  function Offered(cfg: Config, ins: nat, outs: nat, live: nat, dead: nat): seq<(Action, real)> {
    When(ins > cfg.minIn, Out, 1.0) +
    When(live > cfg.minLive && cfg.chanceDown > 0.0, Kill, cfg.chanceDown) +
    When(outs > cfg.minOut, In, 1.7) +
    When(dead > cfg.minDead, Revive, 1.0) +
    Others(cfg.others)
  }

  function When(offered: bool, a: Action, weight: real): seq<(Action, real)> {
    if offered then [(a, weight)] else []
  }

  function Others(weights: seq<real>): seq<(Action, real)> {
    seq(|weights|, i requires 0 <= i < |weights| => (Other(i), weights[i]))
  }

  function Weights(acts: seq<(Action, real)>): (ws: seq<real>)
    ensures |ws| == |acts|
  {
    seq(|acts|, i requires 0 <= i < |acts| => acts[i].1)
  }

  /** The guard under which an action is on offer. */
  predicate Guard(cfg: Config, ins: nat, outs: nat, live: nat, dead: nat, a: Action) {
    match a
    case Out => ins > cfg.minIn
    case Kill => live > cfg.minLive && cfg.chanceDown > 0.0
    case In => outs > cfg.minOut
    case Revive => dead > cfg.minDead
    case Other(k) => k < |cfg.others|
  }

  lemma OfferedIsGuarded(cfg: Config, ins: nat, outs: nat, live: nat, dead: nat)
    requires NonNegative(cfg.others)
    ensures var acts := Offered(cfg, ins, outs, live, dead);
            && NonNegative(Weights(acts))
            && (forall i | 0 <= i < |acts| :: Guard(cfg, ins, outs, live, dead, acts[i].0))
            && (forall i | 0 <= i < |acts| && acts[i].0.Other? :: acts[i].1 == cfg.others[acts[i].0.k])
  {
  }

  function Rank(a: Action): int {
    match a
    case Out => 0
    case Kill => 1
    case In => 2
    case Revive => 3
    case Other(k) => 4 + k
  }

  /** The actions come in order, and between two ranks. */
  ghost predicate Ranked(acts: seq<(Action, real)>, lo: int, hi: int) {
    && (forall i | 0 <= i < |acts| :: lo <= Rank(acts[i].0) < hi)
    && (forall i, j | 0 <= i < j < |acts| :: Rank(acts[i].0) < Rank(acts[j].0))
  }

  lemma Joined(s: seq<(Action, real)>, t: seq<(Action, real)>, lo: int, mid: int, hi: int)
    requires Ranked(s, lo, mid) && Ranked(t, mid, hi) && lo <= mid <= hi
    ensures Ranked(s + t, lo, hi)
  {
  }

  lemma MemberOfFive<T>(a: seq<T>, b: seq<T>, c: seq<T>, d: seq<T>, e: seq<T>, x: T)
    ensures x in a + b + c + d + e <==> x in a || x in b || x in c || x in d || x in e
  {
  }

  lemma OthersMember(weights: seq<real>, k: nat)
    requires k < |weights|
    ensures (Other(k), weights[k]) in Others(weights)
  {
    assert Others(weights)[k] == (Other(k), weights[k]);
  }

  /** What is on offer, with what weight. */
  lemma OfferedExactly(cfg: Config, ins: nat, outs: nat, live: nat, dead: nat, x: (Action, real))
    ensures x in Offered(cfg, ins, outs, live, dead) <==>
            || (ins > cfg.minIn && x == (Out, 1.0))
            || (live > cfg.minLive && cfg.chanceDown > 0.0 && x == (Kill, cfg.chanceDown))
            || (outs > cfg.minOut && x == (In, 1.7))
            || (dead > cfg.minDead && x == (Revive, 1.0))
            || (x.0.Other? && x.0.k < |cfg.others| && x.1 == cfg.others[x.0.k])
  {
    MemberOfFive(When(ins > cfg.minIn, Out, 1.0),
                 When(live > cfg.minLive && cfg.chanceDown > 0.0, Kill, cfg.chanceDown),
                 When(outs > cfg.minOut, In, 1.7), When(dead > cfg.minDead, Revive, 1.0), Others(cfg.others), x);
    if x.0.Other? && x.0.k < |cfg.others| {
      OthersMember(cfg.others, x.0.k);
    }
  }

  lemma WhenRanked(offered: bool, a: Action, weight: real)
    ensures Ranked(When(offered, a, weight), Rank(a), Rank(a) + 1)
  {
  }

  lemma OthersRanked(weights: seq<real>)
    ensures Ranked(Others(weights), 4, 4 + |weights|)
  {
  }

  lemma FiveJoined(a: seq<(Action, real)>, b: seq<(Action, real)>, c: seq<(Action, real)>,
                   d: seq<(Action, real)>, e: seq<(Action, real)>, n: nat)
    requires Ranked(a, 0, 1) && Ranked(b, 1, 2) && Ranked(c, 2, 3) && Ranked(d, 3, 4) && Ranked(e, 4, 4 + n)
    ensures Ranked(a + b + c + d + e, 0, 4 + n)
  {
    Joined(a, b, 0, 1, 2);
    Joined(a + b, c, 0, 2, 3);
    Joined(a + b + c, d, 0, 3, 4);
    Joined(a + b + c + d, e, 0, 4, 4 + n);
  }

  /** Outing is tried first, then killing, bringing in, reviving and the rest. */
  lemma OfferedInOrder(cfg: Config, ins: nat, outs: nat, live: nat, dead: nat)
    ensures Ranked(Offered(cfg, ins, outs, live, dead), 0, 4 + |cfg.others|)
  {
    var kills := live > cfg.minLive && cfg.chanceDown > 0.0;
    WhenRanked(ins > cfg.minIn, Out, 1.0);
    WhenRanked(kills, Kill, cfg.chanceDown);
    WhenRanked(outs > cfg.minOut, In, 1.7);
    WhenRanked(dead > cfg.minDead, Revive, 1.0);
    OthersRanked(cfg.others);
    FiveJoined(When(ins > cfg.minIn, Out, 1.0), When(kills, Kill, cfg.chanceDown), When(outs > cfg.minOut, In, 1.7),
               When(dead > cfg.minDead, Revive, 1.0), Others(cfg.others), |cfg.others|);
  }

  ghost predicate Allowed(cfg: Config, c: Cluster, a: Action) {
    Guard(cfg, |c.ins|, |c.outs|, |c.live|, |c.dead|, a)
  }

  /** The action that a draw falls on. */
  ghost function ActionFor(cfg: Config, c: Cluster, draw: real): (action: Option<Action>)
    requires NonNegative(cfg.others)
    ensures action.Some? ==> Allowed(cfg, c, action.value)
  {
    OfferedIsGuarded(cfg, |c.ins|, |c.outs|, |c.live|, |c.dead|);
    var acts := Offered(cfg, |c.ins|, |c.outs|, |c.live|, |c.dead|);
    var pick := Picked(Weights(acts), draw);
    if pick.Some? then Some(acts[pick.value].0) else None
  }

  ghost function Acted(cfg: Config, c: Cluster, a: Action, draw: nat): (d: Cluster)
    requires c.Valid() && Allowed(cfg, c, a)
    ensures d.Valid() && c.Conserved(d)
    ensures d.lowIn >= Min(c.lowIn, cfg.minIn) && Min(c.lowLive, cfg.minLive) <= d.lowLive <= c.lowLive
    ensures a != Kill ==> |d.live| >= |c.live|
  {
    match a
    case Out => Outed(c, Pick(c.ins, draw))
    case Kill => Killed(c, Pick(c.live, draw), false)
    case In => BroughtIn(c, Pick(c.outs, draw))
    case Revive => Revived(c, Pick(c.dead, draw))
    case Other(_) => c
  }

  /** Each action moves the OSD that its draw falls on, and nothing else. */
  lemma ActedExactly(cfg: Config, c: Cluster, a: Action, draw: nat)
    requires c.Valid() && Allowed(cfg, c, a)
    ensures var d := Acted(cfg, c, a, draw);
            match a
            case Out =>
              var x := Pick(c.ins, draw);
              d.ins == Without(c.ins, x) && d.outs == c.outs + [x] && d.live == c.live && d.dead == c.dead
            case Kill =>
              var x := Pick(c.live, draw);
              d.live == Without(c.live, x) && d.dead == c.dead + [x] && d.ins == c.ins && d.outs == c.outs
            case In =>
              var x := Pick(c.outs, draw);
              if x in c.dead then
                d.dead == Without(c.dead, x) && d.live == c.live + [x] && d.ins == c.ins && d.outs == c.outs
              else
                d.outs == Without(c.outs, x) && d.ins == c.ins + [x] && d.live == c.live && d.dead == c.dead
            case Revive =>
              var x := Pick(c.dead, draw);
              d.dead == Without(c.dead, x) && d.live == c.live + [x] && d.ins == c.ins && d.outs == c.outs
            case Other(_) => d == c
  {
  }

  /** Choosing and doing an action; an action that is not there cannot be called. */
  ghost function ActedOn(cfg: Config, c: Cluster, r: Round): (res: Result)
    requires c.Valid() && NonNegative(cfg.others)
    ensures res.c.Valid() && c.Conserved(res.c)
    ensures res.c.lowIn >= Min(c.lowIn, cfg.minIn)
    ensures Min(c.lowLive, cfg.minLive) <= res.c.lowLive <= c.lowLive
    ensures cfg.chanceDown <= 0.0 ==> |res.c.live| >= |c.live|
  {
    var action := ActionFor(cfg, c, r.actionDraw);
    if action.None? then Result(true, c) else Result(false, Acted(cfg, c, action.value, r.osdDraw))
  }

  /** One round of the loop in `do_thrash`. */
  ghost function Thrashed(cfg: Config, c: Cluster, r: Round): (res: Result)
    requires c.Valid() && NonNegative(cfg.others)
    ensures res.c.Valid() && c.Conserved(res.c)
    ensures res.c.lowIn >= Min(c.lowIn, cfg.minIn)
  {
    var cleaned := if r.clean then CleanedUp(cfg, c, r) else Result(false, c);
    if cleaned.raised then cleaned else ActedOn(cfg, cleaned.c, r)
  }

  /** The action is the one in whose interval the draw lies; a draw beyond all of them raises and
      changes nothing. */
  lemma DrawDecides(cfg: Config, c: Cluster, r: Round, i: nat)
    requires c.Valid() && NonNegative(cfg.others) && r.actionDraw >= 0.0
    ensures var acts := Offered(cfg, |c.ins|, |c.outs|, |c.live|, |c.dead|);
            && (r.actionDraw >= Prefix(Weights(acts), |acts|) ==> ActedOn(cfg, c, r) == Result(true, c))
            && (i < |acts| && InInterval(Weights(acts), r.actionDraw, i) ==>
                  && Allowed(cfg, c, acts[i].0)
                  && ActedOn(cfg, c, r) == Result(false, Acted(cfg, c, acts[i].0, r.osdDraw)))
  {
    var acts := Offered(cfg, |c.ins|, |c.outs|, |c.live|, |c.dead|);
    OfferedIsGuarded(cfg, |c.ins|, |c.outs|, |c.live|, |c.dead|);
    var pick := Picked(Weights(acts), r.actionDraw);
    if pick.Some? {
      OnlyInterval(Weights(acts), r.actionDraw, pick.value);
      PrefixGrows(Weights(acts), pick.value + 1, |acts|);
    }
  }

  /** A round cleans up if it is drawn to, and unless that raises goes on to an action. */
  lemma RoundExactly(cfg: Config, c: Cluster, r: Round)
    requires c.Valid() && NonNegative(cfg.others)
    ensures !r.clean ==> Thrashed(cfg, c, r) == ActedOn(cfg, c, r)
    ensures r.clean && CleanedUp(cfg, c, r).raised ==> Thrashed(cfg, c, r) == CleanedUp(cfg, c, r)
    ensures r.clean && !CleanedUp(cfg, c, r).raised ==> Thrashed(cfg, c, r) == ActedOn(cfg, CleanedUp(cfg, c, r).c, r)
  {
  }

  ghost function Run(cfg: Config, c: Cluster, rounds: seq<Round>): (res: Result)
    requires c.Valid() && NonNegative(cfg.others)
    ensures res.c.Valid()
    decreases rounds
  {
    if rounds == [] then Result(false, c) else
    var first := Thrashed(cfg, c, rounds[0]);
    if first.raised then first else Run(cfg, first.c, rounds[1..])
  }

  /** A run is its rounds one after the other, up to the first that raises. */
  lemma {:induction false} RunInParts(cfg: Config, c: Cluster, a: seq<Round>, b: seq<Round>)
    requires c.Valid() && NonNegative(cfg.others)
    ensures Run(cfg, c, []) == Result(false, c)
    ensures |a| == 1 ==> Run(cfg, c, a) == Thrashed(cfg, c, a[0])
    ensures var first := Run(cfg, c, a);
            Run(cfg, c, a + b) == if first.raised then first else Run(cfg, first.c, b)
    decreases a
  {
    if a == [] {
      assert a + b == b;
    } else {
      assert (a + b)[1..] == a[1..] + b;
      var first := Thrashed(cfg, c, a[0]);
      if !first.raised {
        RunInParts(cfg, first.c, a[1..], b);
      }
    }
  }

  /** `do_thrash`: it looks at a live OSD first, and brings everything up in the end. */
  ghost function WholeRun(cfg: Config, c: Cluster, rounds: seq<Round>, draws: Draws): (res: Result)
    requires c.Valid() && NonNegative(cfg.others)
    ensures res.c.Valid()
  {
    if c.live == [] then Result(true, c) else
    var run := Run(cfg, c, rounds);
    if run.raised then run else Result(false, AllUp(run.c, draws))
  }

  // ---------- What every run keeps ----------

  lemma {:induction false} RunConserves(cfg: Config, c: Cluster, rounds: seq<Round>)
    requires c.Valid() && NonNegative(cfg.others)
    ensures c.Conserved(Run(cfg, c, rounds).c)
    ensures Run(cfg, c, rounds).c.lowIn >= Min(c.lowIn, cfg.minIn)
    decreases rounds
  {
    if rounds != [] {
      var first := Thrashed(cfg, c, rounds[0]);
      if !first.raised {
        RunConserves(cfg, first.c, rounds[1..]);
      }
    }
  }

  /** A discontinuity test kills one OSD whether or not that leaves min_live. This is what makes it
      harmless: the test needs more than five live OSDs, or after the clean-up more than min_live
      are sure to be live, or nothing else ever kills and more than that are live already. */
  predicate LiveSafe(cfg: Config, c: Cluster) {
    || cfg.minLive <= 5
    || |c.live| + |c.dead| > cfg.minLive + cfg.maxDead
    || (cfg.chanceDown <= 0.0 && |c.live| > cfg.minLive)
  }

  lemma CleanUpKeepsLive(cfg: Config, c: Cluster, r: Round)
    requires c.Valid() && LiveSafe(cfg, c) && c.lowLive >= cfg.minLive
    ensures var d := CleanedUp(cfg, c, r).c; LiveSafe(cfg, d) && d.lowLive >= cfg.minLive
  {
    RevivedDownEnds(c, cfg.maxDead, r.revives, 0);
  }

  lemma RoundKeepsLive(cfg: Config, c: Cluster, r: Round)
    requires c.Valid() && NonNegative(cfg.others) && LiveSafe(cfg, c) && c.lowLive >= cfg.minLive
    ensures var d := Thrashed(cfg, c, r).c; LiveSafe(cfg, d) && d.lowLive >= cfg.minLive
  {
    if r.clean {
      CleanUpKeepsLive(cfg, c, r);
    }
  }

  lemma {:induction false} RunKeepsLive(cfg: Config, c: Cluster, rounds: seq<Round>)
    requires c.Valid() && NonNegative(cfg.others) && LiveSafe(cfg, c) && c.lowLive >= cfg.minLive
    ensures Run(cfg, c, rounds).c.lowLive >= cfg.minLive
    decreases rounds
  {
    if rounds != [] {
      RoundKeepsLive(cfg, c, rounds[0]);
      var first := Thrashed(cfg, c, rounds[0]);
      if !first.raised {
        RunKeepsLive(cfg, first.c, rounds[1..]);
      }
    }
  }

  /** A round without clean-up whose draw falls on killing the first live OSD. */
  function KillRound(): Round {
    Round(false, false, [], [], 0, 0, 1.0, 0)
  }

  /** A round with a map discontinuity test. */
  function TestRound(): Round {
    Round(true, true, [], [], 0, 0, 0.0, 0)
  }

  lemma KillRoundKills(cfg: Config, c: Cluster)
    requires c.Valid() && NonNegative(cfg.others) && cfg.chanceDown > 0.0
    requires |c.ins| > cfg.minIn && |c.live| > cfg.minLive
    ensures Thrashed(cfg, c, KillRound()) == Result(false, Killed(c, Pick(c.live, 0), false))
  {
    var acts := Offered(cfg, |c.ins|, |c.outs|, |c.live|, |c.dead|);
    var ws := Weights(acts);
    OfferedIsGuarded(cfg, |c.ins|, |c.outs|, |c.live|, |c.dead|);
    assert acts[0] == (Out, 1.0) && acts[1] == (Kill, cfg.chanceDown);
    assert Prefix(ws, 1) == Prefix(ws, 0) + ws[0] == 1.0;
    assert Prefix(ws, 2) == Prefix(ws, 1) + ws[1];
    assert InInterval(ws, 1.0, 1);
    OnlyInterval(ws, 1.0, 1);
  }

  lemma TestRoundDrops(cfg: Config, c: Cluster)
    requires c.Valid() && NonNegative(cfg.others)
    requires |c.ins| > cfg.minIn && |c.live| == cfg.minLive > 5 && |c.dead| <= cfg.maxDead
    ensures Thrashed(cfg, c, TestRound()).c.lowLive < cfg.minLive
  {
    var r := TestRound();
    assert CleanedUp(cfg, c, r) == Result(false, Swapped(c, 0, 0));
  }

  /** Otherwise OSDs are killed down to min_live and then a test kills one more. */
  lemma {:induction false} LiveFloorBreaks(cfg: Config, c: Cluster) returns (rounds: seq<Round>)
    requires c.Valid() && NonNegative(cfg.others) && c.lowLive >= cfg.minLive
    requires !LiveSafe(cfg, c) && |c.ins| > cfg.minIn
    ensures forall r | r in rounds :: r == KillRound() || r == TestRound()
    ensures Run(cfg, c, rounds).c.lowLive < cfg.minLive
    decreases |c.live|
  {
    if |c.live| == cfg.minLive {
      TestRoundDrops(cfg, c);
      rounds := [TestRound()];
      var first := Thrashed(cfg, c, TestRound());
      assert rounds[1..] == [];
    } else {
      KillRoundKills(cfg, c);
      var rest := LiveFloorBreaks(cfg, Killed(c, Pick(c.live, 0), false));
      rounds := [KillRound()] + rest;
      assert rounds[1..] == rest;
    }
  }

  /** On a cluster with OSDs in to spare, every run keeps min_live OSDs live at every moment exactly
      when the configuration is safe for it. */
  lemma LiveFloorExactly(cfg: Config, c: Cluster)
    requires c.Valid() && NonNegative(cfg.others) && c.lowLive >= cfg.minLive && |c.ins| > cfg.minIn
    ensures LiveSafe(cfg, c) <==> forall rounds :: Run(cfg, c, rounds).c.lowLive >= cfg.minLive
  {
    if LiveSafe(cfg, c) {
      forall rounds
        ensures Run(cfg, c, rounds).c.lowLive >= cfg.minLive
      {
        RunKeepsLive(cfg, c, rounds);
      }
    } else {
      var rounds := LiveFloorBreaks(cfg, c);
      assert Run(cfg, c, rounds).c.lowLive < cfg.minLive;
    }
  }

  /** A whole run: no OSD is lost, the number of in OSDs never falls below min_in, nor that of live
      OSDs below min_live if the configuration is safe for it, and a run that is not cut short by an
      exception ends with every OSD live and in. */
  lemma WholeRunIsSafe(cfg: Config, c: Cluster, rounds: seq<Round>, draws: Draws)
    requires c.Valid() && NonNegative(cfg.others)
    ensures var res := WholeRun(cfg, c, rounds, draws);
            && c.Conserved(res.c)
            && (c.lowIn >= cfg.minIn ==> res.c.lowIn >= cfg.minIn)
            && (c.lowLive >= cfg.minLive && LiveSafe(cfg, c) ==> res.c.lowLive >= cfg.minLive)
            && (!res.raised ==> res.c.dead == [] && res.c.outs == [])
            && (c.live == [] ==> res == Result(true, c))
            && (c.live != [] ==>
                  var run := Run(cfg, c, rounds);
                  && res.raised == run.raised && (run.raised ==> res.c == run.c)
                  && res.c.lowIn == run.c.lowIn && res.c.lowLive == run.c.lowLive)
  {
    RunConserves(cfg, c, rounds);
    if c.lowLive >= cfg.minLive && LiveSafe(cfg, c) {
      RunKeepsLive(cfg, c, rounds);
    }
  }

  // ---------- Whom a discontinuity test revives ----------

  ghost predicate AllDistinct(c: Cluster) {
    forall x :: (multiset(c.live) + multiset(c.dead))[x] <= 1
  }

  /** Every draw revives the killed OSD exactly when no other was dead. */
  lemma RevivesTheKilledExactly(c: Cluster, killDraw: nat)
    requires c.Valid() && c.live != [] && AllDistinct(c)
    ensures (forall draw: nat :: Pick(c.live, killDraw) in Swapped(c, killDraw, draw).live) <==> c.dead == []
  {
    var x := Pick(c.live, killDraw);
    WithoutOne(c.live, x);
    assert (multiset(c.live) + multiset(c.dead))[x] <= 1;
    assert multiset(Without(c.live, x))[x] == 0 && x !in c.dead;
    assert x !in Without(c.live, x) by {
      assert x in Without(c.live, x) ==> x in multiset(Without(c.live, x));
    }
    if c.dead == [] {
      assert forall draw: nat :: Pick([x], draw) == x;
    } else {
      var y := Pick(c.dead + [x], 0);
      assert y == c.dead[0] && y in multiset(c.dead);
      assert Swapped(c, killDraw, 0).live == Without(c.live, x) + [y];
      assert x !in Swapped(c, killDraw, 0).live;
    }
  }

  /** The same of the whole test, whatever was filled in before. */
  lemma TestRevivesTheKilledExactly(cfg: Config, c: Cluster, r: Round)
    requires c.Valid() && c.live != [] && AllDistinct(c) && |c.ins| + |c.outs| >= cfg.minIn + 1
    ensures var full := Filled(c, cfg.minIn, r.fills, 0).c;
            && full.live != []
            && (full.dead == [] <==>
                forall draw: nat ::
                  Pick(full.live, r.killDraw) in Discontinuity(cfg, c, r.(reviveDraw := draw)).c.live)
  {
    var full := Filled(c, cfg.minIn, r.fills, 0).c;
    RevivesTheKilledExactly(full, r.killDraw);
    forall draw: nat
      ensures Discontinuity(cfg, c, r.(reviveDraw := draw)).c == Swapped(full, r.killDraw, draw)
    {
    }
  }

  lemma SwapsSixForZero(c: Cluster)
    requires c.Valid() && c.live == [0, 1, 2, 3, 4, 5] && c.dead == [6]
    ensures var d := Swapped(c, 0, 0); d.live == [1, 2, 3, 4, 5, 6] && d.dead == [0]
  {
    assert Without([0, 1, 2, 3, 4, 5], 0) == [1, 2, 3, 4, 5];
    assert Without([6, 0], 6) == [0];
    assert [1, 2, 3, 4, 5] + [6] == [1, 2, 3, 4, 5, 6];
    assert Pick([6, 0], 0) == 6;
  }

  /** A clean-up on a cluster with OSD 6 dead: OSD 0 is killed and OSD 6 comes back. */
  lemma RevivesAnother(cfg: Config, c: Cluster)
    requires cfg == Config(0, 0, 2, 0, 1, 0.4, [])
    requires c == Cluster([0, 1, 2, 3, 4, 5], [6], [0, 1, 2, 3, 4, 5], [6], 6, 6)
    ensures var res := CleanedUp(cfg, c, TestRound());
            !res.raised && res.c.live == [1, 2, 3, 4, 5, 6] && res.c.dead == [0]
  {
    SwapsSixForZero(c);
    assert CleanedUp(cfg, c, TestRound()) == Result(false, Swapped(c, 0, 0));
  }

  // ---------- The thrasher object ----------

  class Thrasher {
    const config: Config
    var inOsds: seq<Osd>
    var outOsds: seq<Osd>
    var liveOsds: seq<Osd>
    var deadOsds: seq<Osd>

    ghost var lowIn: nat
    ghost var lowLive: nat

    ghost function View(): Cluster
      reads this
    {
      Cluster(inOsds, outOsds, liveOsds, deadOsds, lowIn, lowLive)
    }

    ghost predicate Valid()
      reads this
    {
      View().Valid()
    }

    constructor (config: Config, ins: seq<Osd>, outs: seq<Osd>, live: seq<Osd>, dead: seq<Osd>)
      ensures Valid() && this.config == config && View() == Cluster(ins, outs, live, dead, |ins|, |live|)
    {
      this.config := config;
      inOsds, outOsds, liveOsds, deadOsds := ins, outs, live, dead;
      lowIn, lowLive := |ins|, |live|;
    }

    /** A given OSD must be in the list; without one, `random.choice` needs a non-empty list. */
    static predicate Raises(list: seq<Osd>, osd: Option<Osd>) {
      if osd.Some? then osd.value !in list else list == []
    }

    static function Chosen(list: seq<Osd>, osd: Option<Osd>, draw: nat): (x: Osd)
      requires !Raises(list, osd)
      ensures x in list
    {
      if osd.Some? then osd.value else Pick(list, draw)
    }

    method OutOsd(osd: Option<Osd>, draw: nat) returns (raised: bool)
      requires Valid()
      modifies this`inOsds, this`outOsds, this`lowIn
      ensures raised == Raises(old(inOsds), osd)
      ensures View() == if raised then old(View()) else Outed(old(View()), Chosen(old(inOsds), osd, draw))
    {
      raised := Raises(inOsds, osd);
      if !raised {
        var x := Chosen(inOsds, osd, draw);
        WithoutOne(inOsds, x);
        inOsds, outOsds := Without(inOsds, x), outOsds + [x];
        lowIn := Min(lowIn, |inOsds|);
      }
    }

    method KillOsd(osd: Option<Osd>, markOut: bool, draw: nat) returns (raised: bool)
      requires Valid()
      modifies this
      ensures raised == Raises(old(liveOsds), osd)
      ensures View() == if raised then old(View())
                        else Killed(old(View()), Chosen(old(liveOsds), osd, draw), markOut)
    {
      raised := Raises(liveOsds, osd);
      if !raised {
        var x := Chosen(liveOsds, osd, draw);
        WithoutOne(liveOsds, x);
        liveOsds, deadOsds := Without(liveOsds, x), deadOsds + [x];
        lowLive := Min(lowLive, |liveOsds|);
        if markOut && x in inOsds {
          var _ := OutOsd(Some(x), draw);
        }
      }
    }

    method ReviveOsd(osd: Option<Osd>, draw: nat) returns (raised: bool)
      requires Valid()
      modifies this`liveOsds, this`deadOsds
      ensures raised == Raises(old(deadOsds), osd)
      ensures View() == if raised then old(View()) else Revived(old(View()), Chosen(old(deadOsds), osd, draw))
    {
      raised := Raises(deadOsds, osd);
      if !raised {
        var x := Chosen(deadOsds, osd, draw);
        deadOsds, liveOsds := Without(deadOsds, x), liveOsds + [x];
      }
    }

    method InOsd(draw: nat) returns (raised: bool)
      requires Valid()
      modifies this`inOsds, this`outOsds, this`liveOsds, this`deadOsds
      ensures raised == (old(outOsds) == [])
      ensures View() == if raised then old(View()) else BroughtIn(old(View()), Pick(old(outOsds), draw))
    {
      raised := Raises(outOsds, None);
      if !raised {
        var x := Chosen(outOsds, None, draw);
        if x in deadOsds {
          var _ := ReviveOsd(Some(x), draw);
          return;
        }
        outOsds, inOsds := Without(outOsds, x), inOsds + [x];
      }
    }

    /** The reviving loop, with the draws from the first on. */
    method ReviveDown(most: nat, draws: Draws) returns (n: nat)
      requires Valid()
      modifies this`liveOsds, this`deadOsds
      ensures View() == RevivedDown(old(View()), most, draws, 0)
      ensures Valid() && n + |deadOsds| == |old(deadOsds)| && |deadOsds| <= most
    {
      n := 0;
      ghost var end := RevivedDown(View(), most, draws, 0);
      while |deadOsds| > most
        invariant Valid() && n + |deadOsds| == |old(deadOsds)|
        invariant RevivedDown(View(), most, draws, n) == end
        decreases |deadOsds|
      {
        var _ := ReviveOsd(None, Draw(draws, n));
        n := n + 1;
      }
    }

    /** The second loop of `all_up`, with the draws from a given one on. */
    method BringAllIn(draws: Draws, from: nat)
      requires Valid()
      modifies this`inOsds, this`outOsds, this`liveOsds, this`deadOsds
      ensures View() == AllIn(old(View()), draws, from)
    {
      var n := from;
      ghost var end := AllIn(View(), draws, n);
      while |outOsds| > 0
        invariant Valid() && AllIn(View(), draws, n) == end
        decreases |deadOsds| + |outOsds|
      {
        var _ := InOsd(Draw(draws, n));
        n := n + 1;
      }
    }

    method BringAllUp(draws: Draws)
      requires Valid()
      modifies this`inOsds, this`outOsds, this`liveOsds, this`deadOsds
      ensures View() == AllUp(old(View()), draws)
    {
      var n := ReviveDown(0, draws);
      BringAllIn(draws, n);
    }

    method FillIn(draws: Draws) returns (raised: bool)
      requires Valid()
      modifies this`inOsds, this`outOsds, this`liveOsds, this`deadOsds
      ensures Result(raised, View()) == Filled(old(View()), config.minIn, draws, 0)
    {
      var n := 0;
      ghost var end := Filled(View(), config.minIn, draws, 0);
      while |inOsds| < config.minIn + 1
        invariant Valid() && Filled(View(), config.minIn, draws, n) == end
        decreases |deadOsds| + |outOsds|
      {
        raised := InOsd(Draw(draws, n));
        if raised {
          return true;
        }
        n := n + 1;
      }
      raised := false;
    }

    method TestMapDiscontinuity(r: Round) returns (raised: bool)
      requires Valid()
      modifies this
      ensures Result(raised, View()) == Discontinuity(config, old(View()), r)
    {
      raised := FillIn(r.fills);
      if raised {
        return;
      }
      raised := KillOsd(None, true, r.killDraw);
      if raised {
        return;
      }
      raised := ReviveOsd(None, r.reviveDraw);
    }

    /** An action is chosen only under its guard and with positive weight, and none at all when
        the draw reaches the total weight. */
    method ChooseAction(draw: real) returns (action: Option<Action>)
      requires NonNegative(config.others) && draw >= 0.0
      ensures action == ActionFor(config, View(), draw)
      ensures var acts := Offered(config, |inOsds|, |outOsds|, |liveOsds|, |deadOsds|);
              && (action.None? <==> draw >= Prefix(Weights(acts), |acts|))
              && (action.Some? ==> exists i: nat :: i < |acts| && InInterval(Weights(acts), draw, i) &&
                                                    action == Some(acts[i].0))
      ensures action.Some? && action.value.Other? ==> config.others[action.value.k] > 0.0
    {
      OfferedIsGuarded(config, |inOsds|, |outOsds|, |liveOsds|, |deadOsds|);
      var acts := Offered(config, |inOsds|, |outOsds|, |liveOsds|, |deadOsds|);
      var pick := PickWeighted(Weights(acts), draw);
      if pick.None? {
        return None;
      }
      assert InInterval(Weights(acts), draw, pick.value);
      action := Some(acts[pick.value].0);
    }

    /** Calling the chosen action; its guard keeps it from raising. */
    method Act(action: Action, draw: nat)
      requires Valid() && Allowed(config, View(), action)
      modifies this
      ensures View() == Acted(config, old(View()), action, draw)
    {
      match action {
        case Out => var _ := OutOsd(None, draw);
        case Kill => var _ := KillOsd(None, false, draw);
        case In => var _ := InOsd(draw);
        case Revive => var _ := ReviveOsd(None, draw);
        case Other(_) =>
      }
    }

    /** The clean-up half of a round. */
    method CleanUp(r: Round) returns (raised: bool)
      requires Valid()
      modifies this
      ensures Result(raised, View()) == CleanedUp(config, old(View()), r)
    {
      var _ := ReviveDown(config.maxDead, r.revives);
      raised := false;
      if r.discontinuity && |liveOsds| > 5 {
        raised := TestMapDiscontinuity(r);
      }
    }

    method ThrashOnce(r: Round) returns (raised: bool)
      requires Valid() && NonNegative(config.others) && r.actionDraw >= 0.0
      modifies this
      ensures Result(raised, View()) == Thrashed(config, old(View()), r)
    {
      if r.clean {
        raised := CleanUp(r);
        if raised {
          return;
        }
      }
      var action := ChooseAction(r.actionDraw);
      raised := action.None?;
      if !raised {
        Act(action.value, r.osdDraw);
      }
    }

    method DoThrash(rounds: seq<Round>, draws: Draws) returns (raised: bool)
      requires Valid() && NonNegative(config.others) && forall r | r in rounds :: r.actionDraw >= 0.0
      modifies this
      ensures Result(raised, View()) == WholeRun(config, old(View()), rounds, draws)
    {
      if liveOsds == [] {
        return true;
      }
      var i := 0;
      while i < |rounds|
        invariant 0 <= i <= |rounds| && Valid()
        invariant Run(config, View(), rounds[i..]) == Run(config, old(View()), rounds)
      {
        assert rounds[i..][0] == rounds[i] && rounds[i..][1..] == rounds[i + 1..];
        raised := ThrashOnce(rounds[i]);
        if raised {
          return;
        }
        i := i + 1;
      }
      BringAllUp(draws);
      raised := false;
    }
  }
}
