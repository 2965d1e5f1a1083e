/** The monitor thrasher: each round kills a random sample of the monitors, freezes others for a
    while, and brings everything back. */
module MonThrash {
  type Mon = nat

  /** `max_killable`. */
  function MaxKillable(m: nat, maintainQuorum: bool): nat {
    if maintainQuorum then
      if (m + 1) / 2 >= 1 then (m + 1) / 2 - 1 else 0
    else m
  }

  /** The smallest number of monitors that form a quorum, as mon_recovery counts it. */
  function MinQuorum(m: nat): nat {
    m / 2 + 1
  }

  /** The budget is the largest that always leaves a quorum. */
  lemma BudgetIsExact(m: nat, k: nat)
    requires m >= 1 && k <= m
    ensures m - MaxKillable(m, true) == MinQuorum(m) && MaxKillable(m, false) == m
    ensures m - k >= MinQuorum(m) <==> k <= MaxKillable(m, true)
  {
  }

  /** Two quorums of the same monitors share a member. */
  lemma QuorumsIntersect(mons: set<Mon>, a: set<Mon>, b: set<Mon>)
    requires a <= mons && b <= mons
    requires |a| >= MinQuorum(|mons|) && |b| >= MinQuorum(|mons|)
    ensures a * b != {}
  {
    SubsetSize(a + b, mons);
    assert |a + b| == |a| + |b| - |a * b|;
  }

  lemma SubsetSize(a: set<Mon>, b: set<Mon>)
    requires a <= b
    ensures |a| <= |b|
  {
    assert b == a + (b - a);
  }

  /** What `rng.sample` and the freezing loop hand to one round. */
  datatype Round = Round(toKill: seq<Mon>, toFreeze: seq<Mon>)

  function Members(s: seq<Mon>): set<Mon> {
    set x | x in s
  }

  predicate Distinct(s: seq<Mon>) {
    forall i, j | 0 <= i < j < |s| :: s[i] != s[j]
  }

  lemma {:induction false} MembersSize(s: seq<Mon>)
    requires Distinct(s)
    ensures |Members(s)| == |s|
  {
    if s != [] {
      var last := s[|s| - 1];
      MembersSize(s[..|s| - 1]);
      assert Members(s) == Members(s[..|s| - 1]) + {last};
      assert last !in s[..|s| - 1];
    }
  }

  lemma MembersNext(s: seq<Mon>, i: nat)
    requires i < |s|
    ensures Members(s[..i + 1]) == Members(s[..i]) + {s[i]} <= Members(s)
  {
    assert s[..i + 1] == s[..i] + [s[i]];
  }

  // ---------- The moments of a round ----------

  /** Which monitors are killed and frozen. */
  datatype Moment = Moment(killed: set<Mon>, frozen: set<Mon>)

  /** A list goes down one by one while the others stay as they are. */
  function Killing(toKill: seq<Mon>): seq<Moment> {
    seq(|toKill|, i requires 0 <= i < |toKill| => Moment(Members(toKill[..i + 1]), {}))
  }

  function Reviving(toKill: seq<Mon>): seq<Moment> {
    seq(|toKill|, i requires 0 <= i < |toKill| => Moment(Members(toKill) - Members(toKill[..i + 1]), {}))
  }

  function Freezing(killed: set<Mon>, toFreeze: seq<Mon>): seq<Moment> {
    seq(|toFreeze|, i requires 0 <= i < |toFreeze| => Moment(killed, Members(toFreeze[..i + 1])))
  }

  function Thawing(killed: set<Mon>, toFreeze: seq<Mon>): seq<Moment> {
    seq(|toFreeze|, i requires 0 <= i < |toFreeze| =>
      Moment(killed, Members(toFreeze) - Members(toFreeze[..i + 1])))
  }

  /** Every moment of a round, in order. */
  function Moments(r: Round): seq<Moment> {
    Killing(r.toKill) + Freezing(Members(r.toKill), r.toFreeze) + Thawing(Members(r.toKill), r.toFreeze) +
    Reviving(r.toKill) + Freezing({}, r.toFreeze) + Thawing({}, r.toFreeze)
  }

  /** The moments at which each of the six parts of a round ends. */
  lemma PartsOfRound(r: Round)
    ensures var ms, k, f := Moments(r), |r.toKill|, |r.toFreeze|;
            var killed, frozen := Members(r.toKill), Members(r.toFreeze);
            && |ms| == 2 * k + 4 * f
            && (k > 0 ==> ms[k - 1] == Moment(killed, {}) && ms[2 * k + 2 * f - 1] == Moment({}, {}))
            && (f > 0 ==>
                  && ms[k + f - 1] == Moment(killed, frozen) && ms[k + 2 * f - 1] == Moment(killed, {})
                  && ms[2 * k + 3 * f - 1] == Moment({}, frozen) && ms[2 * k + 4 * f - 1] == Moment({}, {}))
  {
    var k, f := |r.toKill|, |r.toFreeze|;
    assert r.toKill[..k] == r.toKill && r.toFreeze[..f] == r.toFreeze;
    var killed := Members(r.toKill);
    var a, b, c := Killing(r.toKill), Freezing(killed, r.toFreeze), Thawing(killed, r.toFreeze);
    var d, e, g := Reviving(r.toKill), Freezing({}, r.toFreeze), Thawing({}, r.toFreeze);
    assert Moments(r) == a + b + c + d + e + g;
    if k > 0 {
      assert Moments(r)[k - 1] == a[k - 1] && Moments(r)[2 * k + 2 * f - 1] == d[k - 1];
    }
    if f > 0 {
      assert Moments(r)[k + f - 1] == b[f - 1] && Moments(r)[k + 2 * f - 1] == c[f - 1];
      assert Moments(r)[2 * k + 3 * f - 1] == e[f - 1] && Moments(r)[2 * k + 4 * f - 1] == g[f - 1];
    }
  }

  /** Going down, each step takes the next monitor of the list. */
  lemma OneByOne(list: seq<Mon>, killed: set<Mon>, i: nat)
    requires i < |list|
    ensures Killing(list)[i].killed == (if i == 0 then {} else Killing(list)[i - 1].killed) + {list[i]}
    ensures Freezing(killed, list)[i].frozen ==
            (if i == 0 then {} else Freezing(killed, list)[i - 1].frozen) + {list[i]}
    ensures Reviving(list)[i].killed == (if i == 0 then Members(list) else Reviving(list)[i - 1].killed) - {list[i]}
    ensures Thawing(killed, list)[i].frozen ==
            (if i == 0 then Members(list) else Thawing(killed, list)[i - 1].frozen) - {list[i]}
  {
    MembersNext(list, i);
  }

  /** A sample of between one and max_killable monitors, and some of the others. */
  predicate Drawn(mons: seq<Mon>, maintainQuorum: bool, r: Round) {
    && Distinct(r.toKill) && Members(r.toKill) <= Members(mons)
    && 1 <= |r.toKill| <= MaxKillable(|mons|, maintainQuorum)
    && Distinct(r.toFreeze) && Members(r.toFreeze) <= Members(mons) - Members(r.toKill)
  }

  /** The monitors that are not killed, and of them those that answer. */
  function UnKilled(mons: seq<Mon>, m: Moment): set<Mon> {
    Members(mons) - m.killed
  }

  function Answering(mons: seq<Mon>, m: Moment): set<Mon> {
    Members(mons) - m.killed - m.frozen
  }

  predicate Quorum(mons: seq<Mon>, s: set<Mon>) {
    s <= Members(mons) && |s| >= MinQuorum(|mons|)
  }

  lemma MomentsStayInside(r: Round)
    ensures forall m | m in Moments(r) :: m.killed <= Members(r.toKill) && m.frozen <= Members(r.toFreeze)
  {
    forall m | m in Moments(r)
      ensures m.killed <= Members(r.toKill) && m.frozen <= Members(r.toFreeze)
    {
      var i :| 0 <= i < |Moments(r)| && Moments(r)[i] == m;
    }
  }

  lemma Remaining(mons: seq<Mon>, down: set<Mon>)
    requires Distinct(mons) && down <= Members(mons)
    ensures |Members(mons) - down| == |mons| - |down|
  {
    MembersSize(mons);
    assert Members(mons) == down + (Members(mons) - down);
  }

  /** With maintain_quorum set, the monitors that are not killed form a quorum at every moment. */
  lemma UnKilledQuorum(mons: seq<Mon>, r: Round)
    requires Distinct(mons) && Drawn(mons, true, r)
    ensures forall m | m in Moments(r) :: Quorum(mons, UnKilled(mons, m))
  {
    MomentsStayInside(r);
    MembersSize(r.toKill);
    forall m | m in Moments(r)
      ensures Quorum(mons, UnKilled(mons, m))
    {
      SubsetSize(m.killed, Members(r.toKill));
      Remaining(mons, m.killed);
    }
  }

  /** When all of the round is down at once. */
  lemma AllDownAtOnce(r: Round)
    requires r.toKill != []
    ensures Moment(Members(r.toKill), Members(r.toFreeze)) in Moments(r)
  {
    var k, f := |r.toKill|, |r.toFreeze|;
    if f == 0 {
      assert r.toKill[..k] == r.toKill && Members(r.toFreeze) == {};
      assert Moments(r)[k - 1] == Killing(r.toKill)[k - 1] == Moment(Members(r.toKill), {});
    } else {
      assert r.toFreeze[..f] == r.toFreeze;
      assert Moments(r)[k + f - 1] == Freezing(Members(r.toKill), r.toFreeze)[f - 1];
    }
  }

  /** Frozen monitors do not answer either: a quorum answers at every moment of a round exactly when
      the killed and the frozen together stay within the budget, which the code does not check. */
  lemma AnsweringQuorumExactly(mons: seq<Mon>, maintainQuorum: bool, r: Round)
    requires Distinct(mons) && Drawn(mons, maintainQuorum, r)
    ensures (forall m | m in Moments(r) :: Quorum(mons, Answering(mons, m))) <==>
            |r.toKill| + |r.toFreeze| <= MaxKillable(|mons|, true)
  {
    var killed, frozen := Members(r.toKill), Members(r.toFreeze);
    var all := Moment(killed, frozen);
    MembersSize(r.toKill);
    MembersSize(r.toFreeze);
    assert |killed + frozen| == |r.toKill| + |r.toFreeze|;
    Remaining(mons, killed + frozen);
    assert Answering(mons, all) == Members(mons) - (killed + frozen);
    SubsetSize(killed + frozen, Members(mons));
    MembersSize(mons);
    BudgetIsExact(|mons|, |r.toKill| + |r.toFreeze|);
    AllDownAtOnce(r);
    MomentsStayInside(r);
    forall m | m in Moments(r)
      ensures Quorum(mons, Answering(mons, all)) ==> Quorum(mons, Answering(mons, m))
    {
      SubsetSize(Answering(mons, all), Answering(mons, m));
    }
  }

  /** Three monitors of which one is killed and the others freeze: a round that can be drawn, and
      at one moment of which nobody answers. */
  lemma FreezingBreaksQuorum(mons: seq<Mon>, r: Round)
    requires mons == [0, 1, 2] && r == Round([0], [1, 2])
    ensures Distinct(mons) && Drawn(mons, true, r)
    ensures exists m | m in Moments(r) :: Answering(mons, m) == {}
  {
    AllDownAtOnce(r);
    assert Answering(mons, Moment({0}, {1, 2})) == {};
    assert Members([0]) == {0} && Members([1, 2]) == {1, 2};
  }

  // ---------- Whole runs ----------

  function AllMoments(rounds: seq<Round>): seq<Moment> {
    if rounds == [] then [] else AllMoments(rounds[..|rounds| - 1]) + Moments(rounds[|rounds| - 1])
  }

  lemma {:induction false} MomentOfSomeRound(rounds: seq<Round>, m: Moment)
    ensures m in AllMoments(rounds) <==> exists k :: 0 <= k < |rounds| && m in Moments(rounds[k])
  {
    if rounds != [] {
      var last := |rounds| - 1;
      var front := rounds[..last];
      MomentOfSomeRound(front, m);
      assert m in AllMoments(rounds) <==> m in AllMoments(front) || m in Moments(rounds[last]);
      forall k | 0 <= k < last
        ensures front[k] == rounds[k]
      {
      }
    }
  }

  /** Over a whole run with maintain_quorum set, the un-killed monitors at any two moments share a
      member. */
  lemma RunKeepsQuorum(mons: seq<Mon>, rounds: seq<Round>, a: Moment, b: Moment)
    requires Distinct(mons) && forall r | r in rounds :: Drawn(mons, true, r)
    requires a in AllMoments(rounds) && b in AllMoments(rounds)
    ensures Quorum(mons, UnKilled(mons, a)) && Quorum(mons, UnKilled(mons, b))
    ensures UnKilled(mons, a) * UnKilled(mons, b) != {}
  {
    MomentOfSomeRound(rounds, a);
    MomentOfSomeRound(rounds, b);
    var i :| 0 <= i < |rounds| && a in Moments(rounds[i]);
    var j :| 0 <= j < |rounds| && b in Moments(rounds[j]);
    UnKilledQuorum(mons, rounds[i]);
    UnKilledQuorum(mons, rounds[j]);
    MembersSize(mons);
    QuorumsIntersect(Members(mons), UnKilled(mons, a), UnKilled(mons, b));
  }

  /** A quorum answers at every moment of a run exactly when every round stays within the budget. */
  lemma RunAnswersExactly(mons: seq<Mon>, maintainQuorum: bool, rounds: seq<Round>)
    requires Distinct(mons) && forall r | r in rounds :: Drawn(mons, maintainQuorum, r)
    ensures (forall m | m in AllMoments(rounds) :: Quorum(mons, Answering(mons, m))) <==>
            forall k | 0 <= k < |rounds| ::
              |rounds[k].toKill| + |rounds[k].toFreeze| <= MaxKillable(|mons|, true)
  {
    forall k | 0 <= k < |rounds|
      ensures (forall m | m in Moments(rounds[k]) :: Quorum(mons, Answering(mons, m))) <==>
              |rounds[k].toKill| + |rounds[k].toFreeze| <= MaxKillable(|mons|, true)
    {
      AnsweringQuorumExactly(mons, maintainQuorum, rounds[k]);
    }
    forall m: Moment
      ensures m in AllMoments(rounds) <==> exists k :: 0 <= k < |rounds| && m in Moments(rounds[k])
    {
      MomentOfSomeRound(rounds, m);
    }
  }

  // ---------- The thrasher object ----------

  class MonitorThrasher {
    const mons: seq<Mon>
    const maintainQuorum: bool
    var killed: set<Mon>
    var frozen: set<Mon>

    /** Every moment so far. */
    ghost var history: seq<Moment>

    /** A thrasher needs somebody to kill. */
    constructor (mons: seq<Mon>, maintainQuorum: bool)
      requires Distinct(mons) && MaxKillable(|mons|, maintainQuorum) > 0
      ensures this.mons == mons && this.maintainQuorum == maintainQuorum
      ensures killed == {} && frozen == {} && history == []
    {
      this.mons, this.maintainQuorum := mons, maintainQuorum;
      killed, frozen, history := {}, {}, [];
    }

    ghost method Record()
      modifies this`history
      ensures history == old(history) + [Moment(killed, frozen)]
    {
      history := history + [Moment(killed, frozen)];
    }

    method KillAll(toKill: seq<Mon>)
      requires killed == {} && frozen == {}
      modifies this`killed, this`history
      ensures killed == Members(toKill) && history == old(history) + Killing(toKill)
    {
      var i := 0;
      while i < |toKill|
        invariant 0 <= i <= |toKill| && killed == Members(toKill[..i])
        invariant history == old(history) + Killing(toKill)[..i]
      {
        MembersNext(toKill, i);
        killed := killed + {toKill[i]};
        Record();
        i := i + 1;
      }
      assert toKill[..i] == toKill && Killing(toKill)[..i] == Killing(toKill);
    }

    method ReviveAll(toKill: seq<Mon>)
      requires killed == Members(toKill) && frozen == {}
      modifies this`killed, this`history
      ensures killed == {} && history == old(history) + Reviving(toKill)
    {
      var i := 0;
      while i < |toKill|
        invariant 0 <= i <= |toKill| && killed == Members(toKill) - Members(toKill[..i])
        invariant history == old(history) + Reviving(toKill)[..i]
      {
        MembersNext(toKill, i);
        killed := killed - {toKill[i]};
        Record();
        i := i + 1;
      }
      assert toKill[..i] == toKill && Reviving(toKill)[..i] == Reviving(toKill);
    }

    method FreezeAll(toFreeze: seq<Mon>)
      requires frozen == {}
      modifies this`frozen, this`history
      ensures frozen == Members(toFreeze) && history == old(history) + Freezing(killed, toFreeze)
    {
      var i := 0;
      while i < |toFreeze|
        invariant 0 <= i <= |toFreeze| && frozen == Members(toFreeze[..i])
        invariant history == old(history) + Freezing(killed, toFreeze)[..i]
      {
        MembersNext(toFreeze, i);
        frozen := frozen + {toFreeze[i]};
        Record();
        i := i + 1;
      }
      assert toFreeze[..i] == toFreeze && Freezing(killed, toFreeze)[..i] == Freezing(killed, toFreeze);
    }

    method ThawAll(toFreeze: seq<Mon>)
      requires frozen == Members(toFreeze)
      modifies this`frozen, this`history
      ensures frozen == {} && history == old(history) + Thawing(killed, toFreeze)
    {
      var i := 0;
      while i < |toFreeze|
        invariant 0 <= i <= |toFreeze| && frozen == Members(toFreeze) - Members(toFreeze[..i])
        invariant history == old(history) + Thawing(killed, toFreeze)[..i]
      {
        MembersNext(toFreeze, i);
        frozen := frozen - {toFreeze[i]};
        Record();
        i := i + 1;
      }
      assert toFreeze[..i] == toFreeze && Thawing(killed, toFreeze)[..i] == Thawing(killed, toFreeze);
    }

    method ThrashRound(r: Round)
      requires killed == {} && frozen == {}
      modifies this
      ensures killed == {} && frozen == {} && history == old(history) + Moments(r)
    {
      KillAll(r.toKill);
      FreezeAll(r.toFreeze);
      ThawAll(r.toFreeze);
      ReviveAll(r.toKill);
      FreezeAll(r.toFreeze);
      ThawAll(r.toFreeze);
    }

    method DoThrash(rounds: seq<Round>)
      requires killed == {} && frozen == {} && history == []
      modifies this
      ensures killed == {} && frozen == {} && history == AllMoments(rounds)
    {
      var k := 0;
      while k < |rounds|
        invariant 0 <= k <= |rounds| && killed == {} && frozen == {} && history == AllMoments(rounds[..k])
      {
        assert rounds[..k + 1][..k] == rounds[..k];
        ThrashRound(rounds[k]);
        k := k + 1;
      }
      assert rounds[..k] == rounds;
    }
  }
}
