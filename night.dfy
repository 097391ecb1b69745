/**
  * The night phase: the role blocks taken at nightfall, the Arsonists' nightfall
  * lists, and the effect of each answer the players give during the night,
  * including the godfather's kill with its protection guard.
  *
  * The night's tasks run concurrently; every task first does its synchronous
  * part (an Arsonist protects itself and lists the doused and undoused players)
  * and then waits for its player's answer. The answers are an input: a sequence
  * of actions in the order they arrive. An answer counts only when the task that
  * waits for it is running and the answer is one of the choices offered, and
  * each task takes one answer.
  */
module Night {
  import opened Wrappers
  import opened Roles
  import opened Players
  import opened Roster

  /** One answer given during the night. */
  datatype NightAction =
    | Save(doctor: Player, patient: Player)
    | Shoot(sheriff: Player, suspect: Player)
    | Execute(jailor: Player)
    | Watch(lookout: Player, watched: Player)
    | CleanUp(janitor: Player, corpse: Player)
    | DisguiseAs(disguiser: Player, mafioso: Player, cover: Player)
    | Vest(survivor: Player)
    | Douse(arsonist: Player, choice: Player)
    | MafiaKill(target: Player)

  /** The player whose task takes the answer; the kill order is the godfather's. */
  function Actor(a: NightAction, godfather: Player): Player {
    match a
    case Save(d, _) => d
    case Shoot(s, _) => s
    case Execute(j) => j
    case Watch(l, _) => l
    case CleanUp(j, _) => j
    case DisguiseAs(d, _, _) => d
    case Vest(s) => s
    case Douse(ar, _) => ar
    case MafiaKill(_) => godfather
  }

  /**
    * What the night's answers are checked against, fixed at nightfall: the godfather
    * and whether it may kill, the numbered list of players it may kill, the players
    * whose tasks run, and each Arsonist's lists of doused and undoused players.
    */
  datatype Nightfall = Nightfall(
    godfather: Player,
    killAllowed: bool,
    prey: seq<Player>,
    acting: seq<Player>,
    soakedOf: map<Player, seq<Player>>,
    undousedOf: map<Player, seq<Player>>)

  /** The godfather's kill list: the living players who are not mafia, in roster order. */
  function Prey(ps: seq<Player>): (r: seq<Player>)
    reads ps`dead
    ensures forall p :: p in r ==> p in ps && !p.dead && !p.role.IsMafia()
  {
    if ps == [] then []
    else (if !ps[0].role.IsMafia() && !ps[0].dead then [ps[0]] else []) + Prey(ps[1..])
  }

  /** Every living player who is not mafia is on the godfather's kill list. */
  lemma {:induction false} EveryLivingNonMafiaIsPrey(ps: seq<Player>, p: Player)
    requires p in ps && !p.dead && !p.role.IsMafia()
    ensures p in Prey(ps)
  {
    if ps[0] != p {
      EveryLivingNonMafiaIsPrey(ps[1..], p);
    }
  }

  /** The facts about the nightfall values that do not depend on the heap. */
  ghost predicate WellFormed(n: Nightfall, ps: seq<Player>) {
    && (forall q :: q in n.acting ==> q in ps)
    && (forall q :: q in n.prey ==> q in ps)
    && n.godfather.role == Mafia
    && (n.killAllowed ==> n.godfather in n.acting)
    && (forall a :: a in n.soakedOf ==> a in n.undousedOf && Distinct(n.soakedOf[a]))
    && (forall a, q :: a in n.soakedOf && q in n.soakedOf[a] ==> q in ps)
    && (forall a, q :: a in n.undousedOf && q in n.undousedOf[a] ==> q in ps)
  }

  /** A task of role `r` that is running and has not taken its answer yet. */
  predicate Awaits(p: Player, r: Role, n: Nightfall, done: set<Player>) {
    p in n.acting && p !in done && p.role == r
  }

  /** The default choice list of a task: a living player of the roster other than the chooser. */
  predicate LivingOther(t: Player, chooser: Player, ps: seq<Player>)
    reads ps`dead
  {
    t in ps && !t.dead && t != chooser
  }

  /**
    * Whether an answer is accepted: its task is running and waiting, and the choice is
    * one the task offers. The Jailor's task waits only while it holds a prisoner, the
    * Survivor's only while a vest remains, and the Disguiser offers a living mafia
    * player and then a living non-mafia player.
    */
  predicate Answerable(a: NightAction, n: Nightfall, done: set<Player>, ps: seq<Player>)
    reads ps`dead, ps`jailed, ps`vests
  {
    match a
    case Save(d, t) => Awaits(d, Doctor, n, done) && LivingOther(t, d, ps)
    case Shoot(s, t) => Awaits(s, Sheriff, n, done) && LivingOther(t, s, ps)
    case Execute(j) => Awaits(j, Jailor, n, done) && j in ps && j.jailed.Holding?
    case Watch(l, t) => Awaits(l, Lookout, n, done) && LivingOther(t, l, ps)
    case CleanUp(j, t) => Awaits(j, Janitor, n, done) && LivingOther(t, j, ps)
    case DisguiseAs(d, m, c) =>
      && Awaits(d, Disguiser, n, done)
      && m in ps && !m.dead && m.role.IsMafia()
      && c in ps && !c.dead && !c.role.IsMafia()
    case Vest(s) => Awaits(s, Survivor, n, done) && s in ps && s.vests > 0
    case Douse(ar, c) => Awaits(ar, Arsonist, n, done) && ar in n.soakedOf && ar in n.undousedOf && c in n.undousedOf[ar]
    case MafiaKill(t) => n.killAllowed && n.godfather !in done && t in n.prey
  }

  /**
    * The mafia kill guard: the attack fails when the target is protected by someone
    * whose defense is at least the killer's attack.
    */
  predicate KillBlocked(target: Player, killer: Player)
    reads target`protectedBy
  {
    && target.protectedBy != null
    && target.protectedBy.role.Defense().Some? && killer.role.Attack().Some?
    && target.protectedBy.role.Defense().value.Ge(killer.role.Attack().value)
  }

  /**
    * The godfather's attack is basic, so any protection stops it: its kill lands
    * exactly on the unprotected.
    */
  lemma GodfatherStoppedByAnyProtection(target: Player, godfather: Player)
    requires godfather.role == Mafia
    requires target.protectedBy != null ==> target.protectedBy.role.Defense().Some?
    ensures KillBlocked(target, godfather) <==> target.protectedBy != null
  {
  }

  // ---------------------------------------------------------------------------
  // The night invariant

  /** The part of a player's ledger the night may only extend. */
  datatype Ledger = Ledger(visitedBy: seq<Player>, killedBy: Player?, cleanedBy: Player?)

  /** `after` is `before` followed by visits of the given players only. */
  ghost predicate Extends(before: seq<Player>, after: seq<Player>, actors: seq<Player>) {
    before <= after && forall i :: |before| <= i < |after| ==> after[i] in actors
  }

  lemma ExtendsByOne(before: seq<Player>, after: seq<Player>, x: Player, actors: seq<Player>)
    requires Extends(before, after, actors) && x in actors
    ensures Extends(before, after + [x], actors)
  {
  }

  /**
    * A player during the night, against its ledger at nightfall: consistent, no longer
    * role-blocked, visited and killed only by players whose tasks run, and not cleaned.
    */
  ghost predicate NightOk(p: Player, ps: seq<Player>, acting: seq<Player>, dusk: Ledger)
    reads p`isGodfather, p`killedBy, p`protectedBy, p`jailed, p`jails, p`vests, p`cleans
    reads p`nightRoleBlocked, p`visitedBy, p`cleanedBy
  {
    && PlayerValid(p, ps)
    && !p.nightRoleBlocked
    && Extends(dusk.visitedBy, p.visitedBy, acting)
    && (p.killedBy == dusk.killedBy || p.killedBy in acting)
    && p.cleanedBy == dusk.cleanedBy
  }

  ghost predicate NightInvariant(ps: seq<Player>, acting: seq<Player>, dusk: map<Player, Ledger>)
    reads ps`isGodfather, ps`killedBy, ps`protectedBy, ps`jailed, ps`jails, ps`vests, ps`cleans
    reads ps`nightRoleBlocked, ps`visitedBy, ps`cleanedBy
  {
    forall p :: p in ps ==> p in dusk && NightOk(p, ps, acting, dusk[p])
  }

  // ---------------------------------------------------------------------------
  // Nightfall

  /**
    * The role-block loop: every dead or role-blocked player has the block lifted and
    * runs no task tonight; the others, in roster order, run their tasks.
    */
  method RoleBlocks(ps: seq<Player>) returns (acting: seq<Player>)
    requires Distinct(ps)
    modifies ps`nightRoleBlocked
    ensures forall p :: p in ps ==> !p.nightRoleBlocked
    ensures forall q :: q in acting <==> q in ps && !q.dead && !old(q.nightRoleBlocked)
  {
    acting := [];
    for i := 0 to |ps|
      invariant forall j :: 0 <= j < i ==> !ps[j].nightRoleBlocked
      invariant forall j :: i <= j < |ps| ==> ps[j].nightRoleBlocked == old(ps[j].nightRoleBlocked)
      invariant forall q :: q in acting <==> q in ps[..i] && !q.dead && !old(q.nightRoleBlocked)
    {
      var p := ps[i];
      assert ps[..i + 1] == ps[..i] + [p];
      if p.dead || p.nightRoleBlocked {
        p.nightRoleBlocked := false;
      } else {
        acting := acting + [p];
      }
    }
    assert ps[..|ps|] == ps;
  }

  /** Each Arsonist's lists hold the living doused players of `ps`, and the living undoused ones. */
  ghost predicate ListsMatch(soakedOf: map<Player, seq<Player>>, undousedOf: map<Player, seq<Player>>, ps: seq<Player>)
    reads ps`doused, ps`dead
  {
    && (forall a, q :: a in soakedOf && q in soakedOf[a] ==> q in ps && q.doused && !q.dead)
    && (forall a, q :: a in soakedOf && q in ps && q.doused && !q.dead ==> q in soakedOf[a])
    && (forall a, q :: a in undousedOf && q in undousedOf[a] ==> q in ps && !q.doused && !q.dead)
    && (forall a, q :: a in undousedOf && q in ps && !q.doused && !q.dead ==> q in undousedOf[a])
  }

  lemma ListsMatchGrows(soakedOf: map<Player, seq<Player>>, undousedOf: map<Player, seq<Player>>, ps: seq<Player>,
                        a: Player, soaked: seq<Player>, undoused: seq<Player>)
    requires ListsMatch(soakedOf, undousedOf, ps)
    requires forall q :: q in soaked <==> q in ps && q.doused && !q.dead
    requires forall q :: q in undoused <==> q in ps && !q.doused && !q.dead
    ensures ListsMatch(soakedOf[a := soaked], undousedOf[a := undoused], ps)
  {
  }

  /**
    * The synchronous start of every running Arsonist task: the Arsonist protects itself
    * and lists the living doused players and the living undoused ones.
    */
  method ArsonistsNightfall(ps: seq<Player>, acting: seq<Player>)
      returns (soakedOf: map<Player, seq<Player>>, undousedOf: map<Player, seq<Player>>)
    requires Distinct(ps) && forall q :: q in acting ==> q in ps
    modifies ps`protectedBy
    ensures forall a :: a in soakedOf <==> a in acting && a.role == Arsonist
    ensures forall a :: a in soakedOf ==> a in undousedOf && a.protectedBy == a && Distinct(soakedOf[a])
    ensures ListsMatch(soakedOf, undousedOf, ps)
    ensures forall p :: p in ps && p !in soakedOf ==> p.protectedBy == old(p.protectedBy)
    ensures forall a, q :: a in soakedOf && q in soakedOf[a] ==> q in ps
    ensures forall a, q :: a in undousedOf && q in undousedOf[a] ==> q in ps
  {
    soakedOf, undousedOf := map[], map[];
    for i := 0 to |acting|
      invariant forall a :: a in soakedOf <==> a in acting[..i] && a.role == Arsonist
      invariant forall a :: a in undousedOf <==> a in soakedOf
      invariant forall a :: a in soakedOf ==> a.protectedBy == a && Distinct(soakedOf[a])
      invariant ListsMatch(soakedOf, undousedOf, ps)
      invariant forall p :: p in ps && p !in soakedOf ==> p.protectedBy == old(p.protectedBy)
    {
      var a := acting[i];
      assert a in acting;
      assert acting[..i + 1] == acting[..i] + [a];
      if a.role == Arsonist {
        var soaked, undoused := a.ArsonistNightfall(ps);
        ListsMatchGrows(soakedOf, undousedOf, ps, a, soaked, undoused);
        soakedOf := soakedOf[a := soaked];
        undousedOf := undousedOf[a := undoused];
      }
    }
    assert acting[..|acting|] == acting;
  }

  // ---------------------------------------------------------------------------
  // The answers

  method Heal(ps: seq<Player>, acting: seq<Player>, ghost dusk: map<Player, Ledger>, doctor: Player, patient: Player)
    requires doctor in acting && doctor.role == Doctor && patient in ps
    requires NightInvariant(ps, acting, dusk)
    modifies patient`protectedBy, patient`visitedBy
    ensures NightInvariant(ps, acting, dusk)
    ensures patient.protectedBy == doctor && patient.visitedBy == old(patient.visitedBy) + [doctor]
  {
    ghost var visits := patient.visitedBy;
    doctor.DoctorNight(patient);
    ExtendsByOne(dusk[patient].visitedBy, visits, doctor, acting);
  }

  method Fire(ps: seq<Player>, acting: seq<Player>, ghost dusk: map<Player, Ledger>, sheriff: Player, suspect: Player)
    requires sheriff in acting && sheriff in ps && sheriff.role == Sheriff && suspect in ps && suspect != sheriff
    requires NightInvariant(ps, acting, dusk)
    modifies sheriff`killedBy, sheriff`visitedBy, suspect`killedBy, suspect`visitedBy
    ensures NightInvariant(ps, acting, dusk)
    ensures suspect.visitedBy == old(suspect.visitedBy) + [sheriff]
    ensures old(sheriff.ShotBackfires(suspect)) ==> sheriff.killedBy == sheriff && suspect.killedBy == old(suspect.killedBy)
    ensures !old(sheriff.ShotBackfires(suspect)) ==> suspect.killedBy == sheriff && sheriff.killedBy == old(sheriff.killedBy)
  {
    ghost var own, theirs := sheriff.visitedBy, suspect.visitedBy;
    ghost var backfires := sheriff.ShotBackfires(suspect);
    sheriff.SheriffNight(suspect);
    forall q | q in ps
      ensures NightOk(q, ps, acting, dusk[q])
    {
      assert old(NightOk(q, ps, acting, dusk[q]));
      if q == suspect {
        ExtendsByOne(dusk[suspect].visitedBy, theirs, sheriff, acting);
      } else if q == sheriff && backfires {
        ExtendsByOne(dusk[sheriff].visitedBy, own, sheriff, acting);
      }
    }
  }

  method ExecutePrisoner(ps: seq<Player>, acting: seq<Player>, ghost dusk: map<Player, Ledger>, jailor: Player)
    requires jailor in acting && jailor in ps && jailor.role == Jailor && jailor.jailed.Holding?
    requires NightInvariant(ps, acting, dusk)
    modifies jailor.jailed.prisoner`killedBy, jailor.jailed.prisoner`visitedBy
    ensures NightInvariant(ps, acting, dusk)
    ensures jailor.jailed.prisoner.killedBy == jailor
    ensures jailor.jailed.prisoner.visitedBy == old(jailor.jailed.prisoner.visitedBy) + [jailor]
  {
    var prisoner := jailor.jailed.prisoner;
    ghost var visits := prisoner.visitedBy;
    jailor.JailorExecute(prisoner);
    ExtendsByOne(dusk[prisoner].visitedBy, visits, jailor, acting);
  }

  /** The Janitor's answer: a Janitor's cleans never exceed 3, so it cleans no one. */
  method Clean(ps: seq<Player>, acting: seq<Player>, ghost dusk: map<Player, Ledger>, janitor: Player, corpse: Player)
    requires janitor in ps && janitor.role == Janitor && corpse in ps
    requires NightInvariant(ps, acting, dusk)
    modifies janitor`cleans, corpse`cleanedBy, corpse`visitedBy
    ensures NightInvariant(ps, acting, dusk)
    ensures unchanged(janitor, corpse)
  {
    janitor.JanitorNight(corpse);
  }

  method Disguise(ps: seq<Player>, acting: seq<Player>, ghost dusk: map<Player, Ledger>,
                  disguiser: Player, mafioso: Player, cover: Player)
    requires disguiser in acting && disguiser.role == Disguiser && mafioso in ps
    requires NightInvariant(ps, acting, dusk)
    modifies mafioso`disguisedAs, mafioso`visitedBy
    ensures NightInvariant(ps, acting, dusk)
    ensures old(mafioso.jailed.IsSet() || cover.jailed.IsSet()) ==> unchanged(mafioso)
    ensures old(!mafioso.jailed.IsSet() && !cover.jailed.IsSet()) ==>
              mafioso.disguisedAs == cover && mafioso.visitedBy == old(mafioso.visitedBy) + [disguiser]
  {
    ghost var visits := mafioso.visitedBy;
    disguiser.DisguiserNight(mafioso, cover);
    if mafioso.visitedBy != visits {
      ExtendsByOne(dusk[mafioso].visitedBy, visits, disguiser, acting);
    }
  }

  method WearVest(ps: seq<Player>, acting: seq<Player>, ghost dusk: map<Player, Ledger>, survivor: Player)
    requires survivor in ps && survivor.role == Survivor
    requires NightInvariant(ps, acting, dusk)
    modifies survivor`vests, survivor`protectedBy
    ensures NightInvariant(ps, acting, dusk)
    ensures old(survivor.vests) > 0 ==> survivor.vests == old(survivor.vests) - 1 && survivor.protectedBy == survivor
    ensures old(survivor.vests) <= 0 ==> unchanged(survivor)
  {
    survivor.SurvivorNight(true);
  }

  method DouseOrIgnite(ps: seq<Player>, acting: seq<Player>, ghost dusk: map<Player, Ledger>,
                       arsonist: Player, choice: Player, soaked: seq<Player>)
    requires arsonist in acting && arsonist in ps && arsonist.role == Arsonist && choice in ps
    requires Distinct(soaked) && forall q :: q in soaked ==> q in ps
    requires NightInvariant(ps, acting, dusk)
    modifies soaked`killedBy, soaked`visitedBy, choice`doused, choice`visitedBy
    ensures NightInvariant(ps, acting, dusk)
    ensures choice == arsonist ==> forall q :: q in soaked ==> q.killedBy == arsonist && q.visitedBy == old(q.visitedBy) + [arsonist]
    ensures choice != arsonist ==>
              choice.doused && choice.visitedBy == old(choice.visitedBy) + [arsonist] && choice.killedBy == old(choice.killedBy)
  {
    if choice == arsonist {
      Ignite(ps, acting, dusk, arsonist, soaked);
    } else {
      Douse(ps, acting, dusk, arsonist, choice, soaked);
    }
  }

  /** The Arsonist chose itself: every doused player is killed and visited by it. */
  method Ignite(ps: seq<Player>, acting: seq<Player>, ghost dusk: map<Player, Ledger>,
                arsonist: Player, soaked: seq<Player>)
    requires arsonist in acting && arsonist in ps && arsonist.role == Arsonist
    requires Distinct(soaked) && forall q :: q in soaked ==> q in ps
    requires NightInvariant(ps, acting, dusk)
    modifies soaked`killedBy, soaked`visitedBy, arsonist`doused, arsonist`visitedBy
    ensures NightInvariant(ps, acting, dusk)
    ensures forall q :: q in soaked ==> q.killedBy == arsonist && q.visitedBy == old(q.visitedBy) + [arsonist]
  {
    ghost var before := map q | q in ps :: q.visitedBy;
    arsonist.ArsonistNight(arsonist, soaked);
    forall q | q in ps
      ensures NightOk(q, ps, acting, dusk[q])
    {
      assert old(NightOk(q, ps, acting, dusk[q]));
      if q in soaked {
        ExtendsByOne(dusk[q].visitedBy, before[q], arsonist, acting);
      }
    }
  }

  /** The Arsonist chose another player: that player is doused and visited, no one is killed. */
  method Douse(ps: seq<Player>, acting: seq<Player>, ghost dusk: map<Player, Ledger>,
               arsonist: Player, choice: Player, soaked: seq<Player>)
    requires arsonist in acting && arsonist.role == Arsonist && choice in ps && choice != arsonist
    requires Distinct(soaked)
    requires NightInvariant(ps, acting, dusk)
    modifies soaked`killedBy, soaked`visitedBy, choice`doused, choice`visitedBy
    ensures NightInvariant(ps, acting, dusk)
    ensures choice.doused && choice.visitedBy == old(choice.visitedBy) + [arsonist] && choice.killedBy == old(choice.killedBy)
  {
    ghost var visits := choice.visitedBy;
    arsonist.ArsonistNight(choice, soaked);
    ExtendsByOne(dusk[choice].visitedBy, visits, arsonist, acting);
    forall q | q in ps
      ensures NightOk(q, ps, acting, dusk[q])
    {
      assert old(NightOk(q, ps, acting, dusk[q]));
    }
  }

  /** The godfather's kill order: unless the guard stops it, the target is killed by the godfather. */
  method Strike(ps: seq<Player>, acting: seq<Player>, ghost dusk: map<Player, Ledger>, godfather: Player, target: Player)
    requires godfather in acting && godfather.role == Mafia && target in ps
    requires NightInvariant(ps, acting, dusk)
    modifies target`killedBy, target`visitedBy
    ensures NightInvariant(ps, acting, dusk)
    ensures old(KillBlocked(target, godfather)) ==> unchanged(target)
    ensures !old(KillBlocked(target, godfather)) ==>
              target.killedBy == godfather && target.visitedBy == old(target.visitedBy) + [godfather]
  {
    if KillBlocked(target, godfather) {
      return;
    }
    ghost var visits := target.visitedBy;
    target.Kill(godfather);
    ExtendsByOne(dusk[target].visitedBy, visits, godfather, acting);
  }

  /** Applies one accepted answer. */
  method Answer(a: NightAction, n: Nightfall, done: set<Player>, ps: seq<Player>, ghost dusk: map<Player, Ledger>)
    requires WellFormed(n, ps) && Answerable(a, n, done, ps)
    requires NightInvariant(ps, n.acting, dusk)
    modifies ps`protectedBy, ps`killedBy, ps`visitedBy, ps`doused, ps`cleanedBy, ps`disguisedAs
    modifies ps`watching, ps`vests, ps`cleans
    ensures NightInvariant(ps, n.acting, dusk)
    ensures a.Save? ==> a.patient.protectedBy == a.doctor && a.patient.visitedBy == old(a.patient.visitedBy) + [a.doctor]
    ensures a.Execute? ==> var prisoner := a.jailor.jailed.prisoner;
              prisoner.killedBy == a.jailor && prisoner.visitedBy == old(prisoner.visitedBy) + [a.jailor]
    ensures a.Shoot? ==> a.suspect.visitedBy == old(a.suspect.visitedBy) + [a.sheriff]
    ensures a.Shoot? && old(a.sheriff.ShotBackfires(a.suspect)) ==>
              a.sheriff.killedBy == a.sheriff && a.suspect.killedBy == old(a.suspect.killedBy)
    ensures a.Shoot? && !old(a.sheriff.ShotBackfires(a.suspect)) ==>
              a.suspect.killedBy == a.sheriff && a.sheriff.killedBy == old(a.sheriff.killedBy)
    ensures a.Watch? ==> a.lookout.watching == a.watched
    ensures a.DisguiseAs? && old(a.mafioso.jailed.IsSet() || a.cover.jailed.IsSet()) ==> unchanged(a.mafioso)
    ensures a.DisguiseAs? && old(!a.mafioso.jailed.IsSet() && !a.cover.jailed.IsSet()) ==>
              a.mafioso.disguisedAs == a.cover && a.mafioso.visitedBy == old(a.mafioso.visitedBy) + [a.disguiser]
    ensures a.Vest? ==> a.survivor.vests == old(a.survivor.vests) - 1 && a.survivor.protectedBy == a.survivor
    ensures a.Douse? && a.choice == a.arsonist ==> forall q :: q in n.soakedOf[a.arsonist] ==>
              q.killedBy == a.arsonist && q.visitedBy == old(q.visitedBy) + [a.arsonist]
    ensures a.Douse? && a.choice != a.arsonist ==>
              a.choice.doused && a.choice.visitedBy == old(a.choice.visitedBy) + [a.arsonist]
              && a.choice.killedBy == old(a.choice.killedBy)
    ensures a.CleanUp? ==> unchanged(a.janitor, a.corpse)
    ensures a.MafiaKill? && old(KillBlocked(a.target, n.godfather)) ==> unchanged(a.target)
    ensures a.MafiaKill? && !old(KillBlocked(a.target, n.godfather)) ==>
              a.target.killedBy == n.godfather && a.target.visitedBy == old(a.target.visitedBy) + [n.godfather]
  {
    match a
    case Save(d, t) => Heal(ps, n.acting, dusk, d, t);
    case Shoot(s, t) => Fire(ps, n.acting, dusk, s, t);
    case Execute(j) =>
      assert PlayerValid(j, ps);
      ExecutePrisoner(ps, n.acting, dusk, j);
    case Watch(l, t) => l.LookoutNight(t);
    case CleanUp(j, t) => Clean(ps, n.acting, dusk, j, t);
    case DisguiseAs(d, m, c) => Disguise(ps, n.acting, dusk, d, m, c);
    case Vest(s) => WearVest(ps, n.acting, dusk, s);
    case Douse(ar, c) =>
      var soaked := n.soakedOf[ar];
      assert c in ps && forall q :: q in soaked ==> q in ps;
      assert forall i :: 0 <= i < |soaked| ==> soaked[i] in ps;
      DouseOrIgnite(ps, n.acting, dusk, ar, c, soaked);
    case MafiaKill(t) => Strike(ps, n.acting, dusk, n.godfather, t);
  }

  /**
    * Nightfall, once a living godfather is found: whether it may kill is read before
    * the role blocks are lifted, the running tasks are fixed, and every running
    * Arsonist does its nightfall part. The ledger each player carries into the night
    * is returned as `dusk`.
    */
  method BeginNight(ps: seq<Player>, godfather: Player) returns (n: Nightfall, ghost dusk: map<Player, Ledger>)
    requires Distinct(ps) && AllPlayersValid(ps)
    requires godfather in ps && godfather.isGodfather && !godfather.dead
    modifies ps`nightRoleBlocked, ps`protectedBy
    ensures WellFormed(n, ps) && NightInvariant(ps, n.acting, dusk)
    ensures n.godfather == godfather && n.killAllowed == !old(godfather.nightRoleBlocked)
    ensures forall q :: q in n.acting <==> q in ps && !q.dead && !old(q.nightRoleBlocked)
    ensures forall p :: p in ps ==> p in dusk && dusk[p] == old(Ledger(p.visitedBy, p.killedBy, p.cleanedBy))
    ensures n.prey == Prey(ps)
    ensures forall a :: a in n.soakedOf <==> a in n.acting && a.role == Arsonist
    ensures forall a :: a in n.soakedOf ==> a.protectedBy == a
    ensures ListsMatch(n.soakedOf, n.undousedOf, ps)
  {
    var killAllowed := !godfather.nightRoleBlocked;
    var prey := Prey(ps);
    assert PlayerValid(godfather, ps);
    var acting;
    acting, dusk := LiftBlocks(ps);
    n := KindleArsonists(ps, Nightfall(godfather, killAllowed, prey, acting, map[], map[]), dusk);
  }

  /** The role blocks at nightfall, with the ledger every player carries into the night. */
  method LiftBlocks(ps: seq<Player>) returns (acting: seq<Player>, ghost dusk: map<Player, Ledger>)
    requires Distinct(ps) && AllPlayersValid(ps)
    modifies ps`nightRoleBlocked
    ensures NightInvariant(ps, acting, dusk)
    ensures forall q :: q in acting <==> q in ps && !q.dead && !old(q.nightRoleBlocked)
    ensures forall p :: p in ps ==> p in dusk && dusk[p] == Ledger(p.visitedBy, p.killedBy, p.cleanedBy)
  {
    dusk := map p | p in ps :: Ledger(p.visitedBy, p.killedBy, p.cleanedBy);
    acting := RoleBlocks(ps);
    forall p | p in ps ensures NightOk(p, ps, acting, dusk[p]) {
      assert old(PlayerValid(p, ps));
    }
  }

  /**
    * The Arsonists' nightfall part, for a night whose other parts are fixed: the lists
    * are filled in and each running Arsonist's self-protection keeps the night's
    * invariant.
    */
  method KindleArsonists(ps: seq<Player>, pending: Nightfall, ghost dusk: map<Player, Ledger>) returns (n: Nightfall)
    requires Distinct(ps) && NightInvariant(ps, pending.acting, dusk)
    requires WellFormed(pending, ps)
    modifies ps`protectedBy
    ensures n == pending.(soakedOf := n.soakedOf, undousedOf := n.undousedOf)
    ensures WellFormed(n, ps) && NightInvariant(ps, n.acting, dusk)
    ensures forall a :: a in n.soakedOf <==> a in n.acting && a.role == Arsonist
    ensures forall a :: a in n.soakedOf ==> a.protectedBy == a
    ensures ListsMatch(n.soakedOf, n.undousedOf, ps)
  {
    var soakedOf, undousedOf := ArsonistsNightfall(ps, pending.acting);
    n := pending.(soakedOf := soakedOf, undousedOf := undousedOf);
    forall p | p in ps
      ensures NightOk(p, ps, n.acting, dusk[p])
    {
      assert old(NightOk(p, ps, pending.acting, dusk[p]));
      assert p.protectedBy == old(p.protectedBy) || (p.role == Arsonist && p.protectedBy == p);
    }
  }

  /**
    * The night's answers, in the order they arrive: an answer takes effect when it is
    * answerable, and its task then takes no further answer.
    */
  method AnswerAll(actions: seq<NightAction>, n: Nightfall, ps: seq<Player>, ghost dusk: map<Player, Ledger>)
      returns (done: set<Player>)
    requires WellFormed(n, ps) && NightInvariant(ps, n.acting, dusk)
    modifies ps`protectedBy, ps`killedBy, ps`visitedBy, ps`doused, ps`cleanedBy, ps`disguisedAs
    modifies ps`watching, ps`vests, ps`cleans
    ensures NightInvariant(ps, n.acting, dusk)
    ensures forall p :: p in done ==> exists a :: a in actions && Actor(a, n.godfather) == p
  {
    done := {};
    for k := 0 to |actions|
      invariant NightInvariant(ps, n.acting, dusk)
      invariant forall p :: p in done ==> exists a :: a in actions[..k] && Actor(a, n.godfather) == p
    {
      if Answerable(actions[k], n, done, ps) {
        Answer(actions[k], n, done, ps, dusk);
        done := done + {Actor(actions[k], n.godfather)};
      }
      assert actions[..k + 1] == actions[..k] + [actions[k]];
    }
    assert actions[..|actions|] == actions;
  }

  /**
    * The night with a living godfather: nightfall, then the answers. Afterwards no
    * one is role-blocked, every new visit and every new kill is by a player whose task
    * ran, and no one has been cleaned.
    */
  method RunNight(ps: seq<Player>, godfather: Player, actions: seq<NightAction>) returns (acting: seq<Player>)
    requires Distinct(ps) && AllPlayersValid(ps)
    requires godfather in ps && godfather.isGodfather && !godfather.dead
    modifies ps`nightRoleBlocked, ps`protectedBy, ps`killedBy, ps`visitedBy, ps`doused
    modifies ps`cleanedBy, ps`disguisedAs, ps`watching, ps`vests, ps`cleans
    ensures AllPlayersValid(ps)
    ensures forall q :: q in acting <==> q in ps && !q.dead && !old(q.nightRoleBlocked)
    ensures forall p :: p in ps ==>
              && !p.nightRoleBlocked
              && Extends(old(p.visitedBy), p.visitedBy, acting)
              && (p.killedBy == old(p.killedBy) || p.killedBy in acting)
              && p.cleanedBy == old(p.cleanedBy)
  {
    var n;
    ghost var dusk;
    n, dusk := BeginNight(ps, godfather);
    var _ := AnswerAll(actions, n, ps, dusk);
    forall p | p in ps
      ensures PlayerValid(p, ps)
    {
      assert NightOk(p, ps, n.acting, dusk[p]);
    }
    acting := n.acting;
  }
}
