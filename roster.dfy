/**
  * Aggregates over the roster of a game: the living head counts, the godfather
  * lookup and its succession candidates, each role's win condition, and the two
  * win checks run between phases. The roster is the game's ordered list of
  * players; dead players stay in it.
  */
module Roster {
  import opened Wrappers
  import opened Roles
  import opened Players

  /** No player occurs twice in the roster. */
  ghost predicate Distinct(ps: seq<Player>) {
    forall i, j :: 0 <= i < j < |ps| ==> ps[i] != ps[j]
  }

  /** Living players. */
  function CountAlive(ps: seq<Player>): (n: nat)
    reads ps`dead
    ensures n <= |ps|
  {
    if ps == [] then 0 else (if ps[0].dead then 0 else 1) + CountAlive(ps[1..])
  }

  /** Living players of a mafia role. */
  function CountMafia(ps: seq<Player>): (n: nat)
    reads ps`dead
  {
    if ps == [] then 0 else (if ps[0].role.IsMafia() && !ps[0].dead then 1 else 0) + CountMafia(ps[1..])
  }

  /** Living players of a citizen role. */
  function CountCitizens(ps: seq<Player>): (n: nat)
    reads ps`dead
  {
    if ps == [] then 0 else (if ps[0].role.IsCitizen() && !ps[0].dead then 1 else 0) + CountCitizens(ps[1..])
  }

  /** The living mafia and the living citizens together never outnumber the living, nor the living the roster. */
  lemma {:induction false} TotalsOrdered(ps: seq<Player>)
    ensures CountMafia(ps) + CountCitizens(ps) <= CountAlive(ps) <= |ps|
  {
    if ps != [] {
      TotalsOrdered(ps[1..]);
    }
  }

  /** The mafia count is zero exactly when every mafia player of the roster is dead. */
  lemma {:induction false} NoLivingMafia(ps: seq<Player>)
    ensures CountMafia(ps) == 0 <==> forall q :: q in ps && q.role.IsMafia() ==> q.dead
  {
    if ps != [] {
      NoLivingMafia(ps[1..]);
      assert forall q :: q in ps <==> q == ps[0] || q in ps[1..];
    }
  }

  /** In a roster without repeats, a living member is the only living player exactly when the count is one. */
  lemma {:induction false} SoleSurvivor(ps: seq<Player>, p: Player)
    requires Distinct(ps) && p in ps && !p.dead
    ensures CountAlive(ps) == 1 <==> forall q :: q in ps && q != p ==> q.dead
  {
    if ps[0] == p {
      assert p !in ps[1..];
      NoneAlive(ps[1..]);
      assert forall q :: q in ps && q != p ==> q in ps[1..];
    } else {
      SoleSurvivor(ps[1..], p);
      LivingMemberCounted(ps[1..], p);
      assert forall q :: q in ps && q != ps[0] ==> q in ps[1..];
    }
  }

  /** A living member of the roster is counted among the living. */
  lemma {:induction false} LivingMemberCounted(ps: seq<Player>, p: Player)
    requires p in ps && !p.dead
    ensures CountAlive(ps) >= 1
  {
    if ps[0] != p {
      LivingMemberCounted(ps[1..], p);
    }
  }

  /** Nobody is alive exactly when the living count is zero. */
  lemma {:induction false} NoneAlive(ps: seq<Player>)
    ensures CountAlive(ps) == 0 <==> forall q :: q in ps ==> q.dead
  {
    if ps != [] {
      NoneAlive(ps[1..]);
      assert forall q :: q in ps <==> q == ps[0] || q in ps[1..];
    }
  }

  /** The godfather: the first living player flagged as godfather, if any. */
  function Godfather(ps: seq<Player>): (g: Player?)
    reads ps`isGodfather, ps`dead
    ensures g == null <==> forall q :: q in ps ==> !(q.isGodfather && !q.dead)
    ensures g != null ==> exists i :: 0 <= i < |ps| && ps[i] == g && FirstLivingGodfatherAt(ps, i)
  {
    if ps == [] then null
    else if ps[0].isGodfather && !ps[0].dead then ps[0]
    else
      var g := Godfather(ps[1..]);
      assert g != null ==> exists i :: 1 <= i < |ps| && ps[i] == g && FirstLivingGodfatherAt(ps, i) by {
        if g != null {
          var i :| 0 <= i < |ps[1..]| && ps[1..][i] == g && FirstLivingGodfatherAt(ps[1..], i);
          assert ps[i + 1] == g && FirstLivingGodfatherAt(ps, i + 1);
        }
      }
      g
  }

  /** Index `i` holds a living godfather and no living godfather comes before it. */
  ghost predicate FirstLivingGodfatherAt(ps: seq<Player>, i: int)
    requires 0 <= i < |ps|
    reads ps`isGodfather, ps`dead
  {
    ps[i].isGodfather && !ps[i].dead && forall j :: 0 <= j < i ==> !(ps[j].isGodfather && !ps[j].dead)
  }

  /**
    * The players a new godfather is drawn from: the plain Mafia players (mafia, but not
    * a special mafia role), in roster order, dead ones included.
    */
  function GodfatherCandidates(ps: seq<Player>): (c: seq<Player>)
    ensures forall p :: p in c ==> p in ps && p.role == Mafia
    ensures |c| <= |ps|
  {
    if ps == [] then []
    else (if ps[0].role.IsMafia() && !ps[0].role.IsSpecialMafia() then [ps[0]] else []) + GodfatherCandidates(ps[1..])
  }

  /** Every plain Mafia player of the roster, dead or alive, is a candidate. */
  lemma {:induction false} EveryPlainMafiaIsCandidate(ps: seq<Player>, p: Player)
    requires p in ps && p.role.IsMafia() && !p.role.IsSpecialMafia()
    ensures p in GodfatherCandidates(ps)
  {
    if ps[0] != p {
      EveryPlainMafiaIsCandidate(ps[1..], p);
    }
  }

  /** A living player who can still kill mafia overnight. */
  predicate NightKillerAlive(ps: seq<Player>)
    reads ps`dead
  {
    exists q :: q in ps && !q.dead && q.role.CanKillMafiaAtNight()
  }

  /**
    * Mafia's win: by day, only while no living player can kill mafia overnight and the
    * living mafia are at least half the living; by night, more than half.
    */
  predicate MafiaWins(ps: seq<Player>, isDay: bool)
    reads ps`dead
  {
    if isDay then
      if NightKillerAlive(ps) then false
      else CountMafia(ps) as real >= CountAlive(ps) as real / 2.0
    else
      CountMafia(ps) as real > CountAlive(ps) as real / 2.0
  }

  /** The mafia rule in whole numbers: 2·mafia ≥ alive by day (with no night killer alive), 2·mafia > alive by night. */
  lemma MafiaWinsInIntegers(ps: seq<Player>, isDay: bool)
    ensures isDay ==> (MafiaWins(ps, isDay) <==> !NightKillerAlive(ps) && 2 * CountMafia(ps) >= CountAlive(ps))
    ensures !isDay ==> (MafiaWins(ps, isDay) <==> 2 * CountMafia(ps) > CountAlive(ps))
  {
    var m, a := CountMafia(ps) as real, CountAlive(ps) as real;
    assert m >= a / 2.0 <==> 2.0 * m >= a;
    assert m > a / 2.0 <==> 2.0 * m > a;
  }

  /** A Jester or Executioner killed by someone who is not mafia. */
  predicate KilledByNonMafia(p: Player)
    reads p`dead, p`killedBy
  {
    p.dead && p.killedBy != null && !p.killedBy.role.IsMafia()
  }

  /** Every Executioner has a target in the roster (set when the game's channels are made). */
  predicate TargetsAssigned(ps: seq<Player>)
    reads ps`target
  {
    forall p :: p in ps && p.role == Executioner ==> p.target != null && p.target in ps
  }

  /** A player's limited abilities stay within their starting budget; the Janitor's cleans never move from 3. */
  predicate CountersOk(p: Player)
    reads p`jails, p`vests, p`cleans
  {
    0 <= p.jails <= 3 && 0 <= p.vests <= 4 && p.cleans == 3
  }

  /**
    * A player consistent with the roster: only a plain Mafia is flagged godfather, the
    * ledger names only roles that can do what it records (a killer has an attack tier,
    * a protector a defense tier), a Jailor holds a roster player, and the counters are
    * within budget.
    */
  ghost predicate PlayerValid(p: Player, ps: seq<Player>)
    reads p`isGodfather, p`killedBy, p`protectedBy, p`jailed, p`jails, p`vests, p`cleans
  {
    && (p.isGodfather ==> p.role == Mafia)
    && (p.killedBy != null ==> p.killedBy.role.Attack().Some?)
    && (p.protectedBy != null ==> p.protectedBy.role.Defense().Some?)
    && (p.jailed.Holding? ==> p.jailed.prisoner in ps)
    && CountersOk(p)
  }

  /** Every player of the roster is consistent with it. */
  ghost predicate AllPlayersValid(ps: seq<Player>)
    reads ps`isGodfather, ps`killedBy, ps`protectedBy, ps`jailed, ps`jails, ps`vests, ps`cleans
  {
    forall p :: p in ps ==> PlayerValid(p, ps)
  }

  /** The win condition of player `p`'s role, against roster `ps`. */
  predicate WinCondition(p: Player, ps: seq<Player>, isDay: bool)
    requires p.role == Executioner ==> p.target != null && p.target in ps
    reads p`dead, p`lynched, p`killedBy, p`target, ps`dead, ps`lynched
  {
    match p.role
    case Citizen | Doctor | Sheriff | Jailor | PI | Lookout => CountMafia(ps) == 0
    case Mafia | Janitor | Disguiser => MafiaWins(ps, isDay)
    case Survivor => !p.dead
    case Jester => p.lynched || KilledByNonMafia(p)
    case Executioner =>
      || p.target.lynched
      || (p.target.dead && !p.target.lynched && p.lynched)
      || KilledByNonMafia(p)
    case Arsonist => CountAlive(ps) == 1 && !p.dead
  }

  /**
    * What each role's win means: citizens win once no mafia lives; the mafia as in
    * MafiaWins; the Survivor while alive; the Jester once lynched or killed by a non-mafia
    * player; the Executioner once its target is lynched, once it is lynched itself after
    * its target died otherwise, or once killed by a non-mafia player; the Arsonist when
    * it is the only living player.
    */
  lemma WinConditionMeaning(p: Player, ps: seq<Player>, isDay: bool)
    requires p in ps && Distinct(ps) && TargetsAssigned(ps)
    ensures p.role.IsCitizen() ==>
              (WinCondition(p, ps, isDay) <==> forall q :: q in ps && q.role.IsMafia() ==> q.dead)
    ensures p.role.IsMafia() ==> (WinCondition(p, ps, isDay) <==> MafiaWins(ps, isDay))
    ensures p.role == Survivor ==> (WinCondition(p, ps, isDay) <==> !p.dead)
    ensures p.role == Jester ==>
              (WinCondition(p, ps, isDay) <==> p.lynched || (p.dead && p.killedBy != null && !p.killedBy.role.IsMafia()))
    ensures p.role == Executioner ==>
              (WinCondition(p, ps, isDay) <==>
                 || p.target.lynched
                 || (p.target.dead && !p.target.lynched && p.lynched)
                 || (p.dead && p.killedBy != null && !p.killedBy.role.IsMafia()))
    ensures p.role == Arsonist ==>
              (WinCondition(p, ps, isDay) <==> !p.dead && forall q :: q in ps && q != p ==> q.dead)
  {
    NoLivingMafia(ps);
    if p.role == Arsonist && !p.dead {
      SoleSurvivor(ps, p);
    }
  }

  /** By day, the mafia never win while a player who can kill mafia overnight is alive. */
  lemma MafiaBlockedByNightKiller(p: Player, ps: seq<Player>)
    requires p.role.IsMafia() && NightKillerAlive(ps)
    ensures !WinCondition(p, ps, true)
  {
  }

  /** Some player whose win is not a simultaneous one wins, looking from index k on. */
  predicate DecisiveWinFrom(ps: seq<Player>, isDay: bool, k: nat)
    requires k <= |ps| && TargetsAssigned(ps)
    reads ps`dead, ps`lynched, ps`killedBy, ps`target
    decreases |ps| - k
  {
    k < |ps| && ((!ps[k].role.WinIsMulti() && WinCondition(ps[k], ps, isDay)) || DecisiveWinFrom(ps, isDay, k + 1))
  }

  /** The index-free meaning of DecisiveWinFrom. */
  lemma {:induction false} DecisiveWinFromMeaning(ps: seq<Player>, isDay: bool, k: nat)
    requires k <= |ps| && TargetsAssigned(ps)
    ensures DecisiveWinFrom(ps, isDay, k) <==>
              exists i :: k <= i < |ps| && !ps[i].role.WinIsMulti() && WinCondition(ps[i], ps, isDay)
    decreases |ps| - k
  {
    if k < |ps| {
      DecisiveWinFromMeaning(ps, isDay, k + 1);
    }
  }

  /** The game is won once a player whose win is not simultaneous meets its win condition. */
  predicate CheckWinner(ps: seq<Player>, isDay: bool)
    requires TargetsAssigned(ps)
    reads ps`dead, ps`lynched, ps`killedBy, ps`target
  {
    DecisiveWinFrom(ps, isDay, 0)
  }

  /** CheckWinner holds exactly when some non-simultaneous winner exists. */
  lemma CheckWinnerMeaning(ps: seq<Player>, isDay: bool)
    requires TargetsAssigned(ps)
    ensures CheckWinner(ps, isDay) <==>
              exists i :: 0 <= i < |ps| && !ps[i].role.WinIsMulti() && WinCondition(ps[i], ps, isDay)
  {
    DecisiveWinFromMeaning(ps, isDay, 0);
  }

  /** `w` is `s` with some of its elements left out and the others kept in order. */
  ghost predicate Subsequence(w: seq<Player>, s: seq<Player>)
    decreases |s|
  {
    if w == [] then true
    else if s == [] then false
    else (w[0] == s[0] && Subsequence(w[1..], s[1..])) || Subsequence(w, s[1..])
  }

  /** `w` is the elements of `s` at positions `idx`, which strictly increase. */
  ghost predicate PicksInOrder(idx: seq<int>, w: seq<Player>, s: seq<Player>)
  {
    && |idx| == |w|
    && (forall i :: 0 <= i < |idx| ==> 0 <= idx[i] < |s| && s[idx[i]] == w[i])
    && (forall i, j :: 0 <= i < j < |idx| ==> idx[i] < idx[j])
  }

  /** The elements of a subsequence sit at strictly increasing positions of the whole. */
  lemma {:induction false} SubsequencePositions(w: seq<Player>, s: seq<Player>)
    requires Subsequence(w, s)
    ensures exists idx :: PicksInOrder(idx, w, s)
    decreases |s|
  {
    if w == [] {
      assert PicksInOrder([], w, s);
    } else if w[0] == s[0] && Subsequence(w[1..], s[1..]) {
      SubsequencePositions(w[1..], s[1..]);
      var idx :| PicksInOrder(idx, w[1..], s[1..]);
      var shifted := seq(|idx|, i requires 0 <= i < |idx| => idx[i] + 1);
      assert PicksInOrder([0] + shifted, w, s);
    } else {
      SubsequencePositions(w, s[1..]);
      var idx :| PicksInOrder(idx, w, s[1..]);
      var shifted := seq(|idx|, i requires 0 <= i < |idx| => idx[i] + 1);
      assert PicksInOrder(shifted, w, s);
    }
  }

  /** The winners from index k on, in roster order, simultaneous winners included. */
  function WinnersFrom(ps: seq<Player>, isDay: bool, k: nat): (w: seq<Player>)
    requires k <= |ps| && TargetsAssigned(ps)
    reads ps`dead, ps`lynched, ps`killedBy, ps`target
    ensures |w| <= |ps| - k
    ensures forall p :: p in w ==> exists i :: k <= i < |ps| && ps[i] == p && WinCondition(p, ps, isDay)
    ensures forall i :: k <= i < |ps| && WinCondition(ps[i], ps, isDay) ==> ps[i] in w
    ensures Subsequence(w, ps[k..])
    decreases |ps| - k
  {
    if k == |ps| then []
    else
      var rest := WinnersFrom(ps, isDay, k + 1);
      assert ps[k..][0] == ps[k] && ps[k..][1..] == ps[k + 1..];
      if WinCondition(ps[k], ps, isDay) then [ps[k]] + rest else rest
  }

  /** Every player whose win condition holds, in roster order. */
  function GetWinners(ps: seq<Player>, isDay: bool): (w: seq<Player>)
    requires TargetsAssigned(ps)
    reads ps`dead, ps`lynched, ps`killedBy, ps`target
    ensures forall p :: p in w ==> p in ps && WinCondition(p, ps, isDay)
    ensures forall p :: p in ps && WinCondition(p, ps, isDay) ==> p in w
    ensures Subsequence(w, ps)
  {
    assert ps[0..] == ps;
    WinnersFrom(ps, isDay, 0)
  }

  /** A decisive winner is always among the reported winners. */
  lemma DecisiveWinnerIsReported(ps: seq<Player>, isDay: bool)
    requires TargetsAssigned(ps) && CheckWinner(ps, isDay)
    ensures exists p :: p in GetWinners(ps, isDay) && !p.role.WinIsMulti()
  {
    CheckWinnerMeaning(ps, isDay);
    var i :| 0 <= i < |ps| && !ps[i].role.WinIsMulti() && WinCondition(ps[i], ps, isDay);
    assert ps[i] in GetWinners(ps, isDay);
  }
}
