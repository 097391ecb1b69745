/**
  * A player of the game: its role, its life flags, the per-cycle action ledger
  * (who killed, protected, cleaned, disguised or visited it), the per-game
  * counters of its limited abilities, and the state effects of each role's day
  * and night task. Awaiting a player's answer is replaced by the answer itself,
  * passed as a parameter; a task whose answer never arrives is not called.
  */
module Players {
  import opened Wrappers
  import opened Roles

  /** The chat platform's user id of a member. */
  type MemberId = nat
  /** The chat platform's id of a text channel. */
  type ChannelId = nat

  /**
    * The `jailed` attribute. For every player it is a flag (false, or true once
    * a Jailor jails it); a Jailor's own task reuses the same attribute to hold
    * the player it jailed. Only `Free` is falsy.
    */
  datatype JailState = Free | Jailed | Holding(prisoner: Player) {
    predicate IsSet() { !Free? }
  }

  class Player {
    const member: MemberId
    const role: Role
    var channel: Option<ChannelId>
    var isGodfather: bool
    var dead: bool
    var lynched: bool
    var doused: bool
    // The per-cycle ledger, reset by CleanupAttrs.
    var killedBy: Player?
    var visitedBy: seq<Player>
    var protectedBy: Player?
    var cleanedBy: Player?
    var disguisedAs: Player?
    var nightRoleBlocked: bool
    var jailed: JailState
    // Role-specific state: Jailor, Survivor, Janitor, Lookout and Executioner.
    var jails: int
    var vests: int
    var cleans: int
    var watching: Player?
    var target: Player?

    /** The ledger as CleanupAttrs leaves it. */
    predicate LedgerCleared()
      reads this`visitedBy, this`killedBy, this`protectedBy, this`cleanedBy, this`disguisedAs,
            this`nightRoleBlocked, this`jailed
    {
      && visitedBy == []
      && killedBy == null
      && protectedBy == null
      && cleanedBy == null
      && disguisedAs == null
      && !nightRoleBlocked
      && !jailed.IsSet()
    }

    /** The state of a player who has just joined: alive, flags down, ledger empty, counters full. */
    predicate Pristine()
      reads this
    {
      && !isGodfather && !dead && !lynched && !doused
      && LedgerCleared()
      && jails == 3 && vests == 4 && cleans == 3
      && channel == None && watching == null && target == null
    }

    /** A player of the given role; Jailors start with 3 jails, Survivors with 4 vests, Janitors with 3 cleans. */
    constructor (member: MemberId, role: Role)
      ensures this.member == member && this.role == role
      ensures Pristine()
    {
      this.member := member;
      this.role := role;
      channel := None;
      isGodfather := false;
      dead := false;
      lynched := false;
      doused := false;
      killedBy := null;
      visitedBy := [];
      protectedBy := null;
      cleanedBy := null;
      disguisedAs := null;
      nightRoleBlocked := false;
      jailed := Free;
      jails := 3;
      vests := 4;
      cleans := 3;
      watching := null;
      target := null;
    }

    /** Starts a new cycle: empties the ledger; life flags and counters stay. */
    method CleanupAttrs()
      modifies this`visitedBy, this`killedBy, this`protectedBy, this`nightRoleBlocked
      modifies this`cleanedBy, this`disguisedAs, this`jailed
      ensures LedgerCleared()
    {
      visitedBy := [];
      killedBy := null;
      protectedBy := null;
      nightRoleBlocked := false;
      cleanedBy := null;
      disguisedAs := null;
      jailed := Free;
    }

    method SetChannel(channel: ChannelId)
      modifies this`channel
      ensures this.channel == Some(channel)
    {
      this.channel := Some(channel);
    }

    /** Records one visit by `actor`, at the end of the visitor list. */
    method Visit(actor: Player)
      modifies this`visitedBy
      ensures visitedBy == old(visitedBy) + [actor]
    {
      visitedBy := visitedBy + [actor];
    }

    method Protect(actor: Player)
      modifies this`protectedBy, this`visitedBy
      ensures protectedBy == actor && visitedBy == old(visitedBy) + [actor]
    {
      protectedBy := actor;
      Visit(actor);
    }

    method Kill(actor: Player)
      modifies this`killedBy, this`visitedBy
      ensures killedBy == actor && visitedBy == old(visitedBy) + [actor]
    {
      killedBy := actor;
      Visit(actor);
    }

    method Clean(actor: Player)
      modifies this`cleanedBy, this`visitedBy
      ensures cleanedBy == actor && visitedBy == old(visitedBy) + [actor]
    {
      cleanedBy := actor;
      Visit(actor);
    }

    method Disguise(cover: Player, actor: Player)
      modifies this`disguisedAs, this`visitedBy
      ensures disguisedAs == cover && visitedBy == old(visitedBy) + [actor]
    {
      disguisedAs := cover;
      Visit(actor);
    }

    /** Jailing also puts the player under the jailor's protection. */
    method Jail(actor: Player)
      modifies this`jailed, this`protectedBy, this`visitedBy
      ensures jailed == Jailed && protectedBy == actor && visitedBy == old(visitedBy) + [actor]
    {
      jailed := Jailed;
      protectedBy := actor;
      Visit(actor);
    }

    /** Doctor: protects the chosen player for the night. */
    method DoctorNight(patient: Player)
      requires role == Doctor
      modifies patient`protectedBy, patient`visitedBy
      ensures patient.protectedBy == this && patient.visitedBy == old(patient.visitedBy) + [this]
    {
      patient.Protect(this);
    }

    /**
      * Whether a Sheriff's shot at `suspect` turns on the Sheriff: the suspect is a
      * citizen or is disguised as one.
      */
    static predicate ShotBackfires(suspect: Player)
      reads suspect`disguisedAs
    {
      suspect.role.IsCitizen() || (suspect.disguisedAs != null && suspect.disguisedAs.role.IsCitizen())
    }

    /**
      * Sheriff: shoots the chosen player. A shot at a citizen, or at someone disguised
      * as one, kills the Sheriff instead and leaves only a visit on the suspect.
      */
    method SheriffNight(suspect: Player)
      requires role == Sheriff && suspect != this
      modifies this`killedBy, this`visitedBy, suspect`killedBy, suspect`visitedBy
      ensures suspect.visitedBy == old(suspect.visitedBy) + [this]
      ensures old(ShotBackfires(suspect)) ==>
                && killedBy == this && visitedBy == old(visitedBy) + [this]
                && suspect.killedBy == old(suspect.killedBy)
      ensures !old(ShotBackfires(suspect)) ==>
                && suspect.killedBy == this
                && killedBy == old(killedBy) && visitedBy == old(visitedBy)
    {
      if ShotBackfires(suspect) {
        Kill(this);
        suspect.Visit(this);
      } else {
        suspect.Kill(this);
      }
    }

    /**
      * Jailor, during the day: while jails remain, role-blocks, jails and protects the
      * chosen player, remembers it, and uses up one jail.
      */
    method JailorDay(prisoner: Player)
      requires role == Jailor && prisoner != this
      modifies this`jails, this`jailed
      modifies prisoner`nightRoleBlocked, prisoner`jailed, prisoner`protectedBy, prisoner`visitedBy
      ensures old(jails) <= 0 ==> unchanged(this, prisoner)
      ensures old(jails) > 0 ==>
                && jails == old(jails) - 1 && jailed == Holding(prisoner)
                && prisoner.nightRoleBlocked && prisoner.jailed == Jailed
                && prisoner.protectedBy == this
                && prisoner.visitedBy == old(prisoner.visitedBy) + [this]
    {
      if jails <= 0 {
        return;
      }
      prisoner.nightRoleBlocked := true;
      prisoner.Jail(this);
      jailed := Holding(prisoner);
      jails := jails - 1;
    }

    /** Jailor, during the night, on the word `Execute`: kills the jailed player. */
    method JailorExecute(prisoner: Player)
      requires role == Jailor && jailed == Holding(prisoner)
      modifies prisoner`killedBy, prisoner`visitedBy
      ensures prisoner.killedBy == this && prisoner.visitedBy == old(prisoner.visitedBy) + [this]
    {
      prisoner.Kill(this);
    }

    /** PI: two players have the same alignment when both are citizens or both are mafia. */
    static predicate SameAlignment(first: Player, second: Player) {
      (first.role.IsCitizen() && second.role.IsCitizen()) || (first.role.IsMafia() && second.role.IsMafia())
    }

    /**
      * The PI's answer is symmetric, is never "same" when either player is independent,
      * and between two aligned players says whether both or neither are mafia.
      */
    static lemma SameAlignmentMeaning(first: Player, second: Player)
      ensures SameAlignment(first, second) <==> SameAlignment(second, first)
      ensures first.role.IsIndependent() || second.role.IsIndependent() ==> !SameAlignment(first, second)
      ensures !first.role.IsIndependent() && !second.role.IsIndependent() ==>
                (SameAlignment(first, second) <==> (first.role.IsMafia() <==> second.role.IsMafia()))
    {
      AlignmentsPartitionRoles(first.role);
      AlignmentsPartitionRoles(second.role);
    }

    /** Lookout: remembers whom it watches tonight. */
    method LookoutNight(watched: Player)
      requires role == Lookout
      modifies this`watching
      ensures watching == watched
    {
      watching := watched;
    }

    /** Lookout, after the night: reports who visited the watched player and stops watching. */
    method LookoutPostNight() returns (report: Option<seq<Player>>)
      modifies this`watching
      ensures old(watching) == null ==> report == None
      ensures old(watching) != null ==> report == Some(old(watching.visitedBy))
      ensures watching == null
    {
      if watching == null {
        return None;
      }
      report := Some(watching.visitedBy);
      watching := null;
    }

    /**
      * Janitor: cleans the chosen player only while more than 3 cleans remain, then uses
      * one up. A Janitor starts with 3, so the guard always returns early.
      */
    method JanitorNight(corpse: Player)
      requires role == Janitor
      modifies this`cleans, corpse`cleanedBy, corpse`visitedBy
      ensures old(cleans) <= 3 ==> unchanged(this, corpse)
      ensures old(cleans) > 3 ==>
                && cleans == old(cleans) - 1 && corpse.cleanedBy == this
                && corpse.visitedBy == old(corpse.visitedBy) + [this]
    {
      if cleans <= 3 {
        return;
      }
      corpse.Clean(this);
      cleans := cleans - 1;
    }

    /** Disguiser: disguises a mafioso as a non-mafia player unless either of them is jailed. */
    method DisguiserNight(mafioso: Player, cover: Player)
      requires role == Disguiser
      modifies mafioso`disguisedAs, mafioso`visitedBy
      ensures old(mafioso.jailed.IsSet() || cover.jailed.IsSet()) ==> unchanged(mafioso)
      ensures old(!mafioso.jailed.IsSet() && !cover.jailed.IsSet()) ==>
                mafioso.disguisedAs == cover && mafioso.visitedBy == old(mafioso.visitedBy) + [this]
    {
      if !mafioso.jailed.IsSet() && !cover.jailed.IsSet() {
        mafioso.Disguise(cover, this);
      }
    }

    /** Survivor: with a vest left and the vest accepted, uses one up and protects itself. */
    method SurvivorNight(useVest: bool)
      requires role == Survivor
      modifies this`vests, this`protectedBy
      ensures old(vests) > 0 && useVest ==> vests == old(vests) - 1 && protectedBy == this
      ensures !(old(vests) > 0 && useVest) ==> unchanged(this)
    {
      if vests <= 0 || !useVest {
        return;
      }
      vests := vests - 1;
      protectedBy := this;
    }

    /**
      * Arsonist, at nightfall (before it waits for a choice): protects itself, and takes
      * the list of living doused players and the list of living undoused players it
      * may choose from.
      */
    method ArsonistNightfall(roster: seq<Player>) returns (soaked: seq<Player>, choices: seq<Player>)
      requires role == Arsonist
      modifies this`protectedBy
      ensures protectedBy == this
      ensures forall p :: p in soaked <==> p in roster && p.doused && !p.dead
      ensures forall p :: p in choices <==> p in roster && !p.doused && !p.dead
      ensures (forall i, j :: 0 <= i < j < |roster| ==> roster[i] != roster[j]) ==>
                forall i, j :: 0 <= i < j < |soaked| ==> soaked[i] != soaked[j]
    {
      protectedBy := this;
      soaked, choices := [], [];
      ghost var distinct := forall i, j :: 0 <= i < j < |roster| ==> roster[i] != roster[j];
      var i := 0;
      while i < |roster|
        invariant 0 <= i <= |roster|
        invariant forall p :: p in soaked <==> p in roster[..i] && p.doused && !p.dead
        invariant forall p :: p in choices <==> p in roster[..i] && !p.doused && !p.dead
        invariant distinct ==> forall j, k :: 0 <= j < k < |soaked| ==> soaked[j] != soaked[k]
      {
        var p := roster[i];
        assert roster[..i + 1] == roster[..i] + [p];
        if p.doused && !p.dead {
          assert distinct ==> p !in roster[..i];
          soaked := soaked + [p];
        } else if !p.doused && !p.dead {
          choices := choices + [p];
        }
        i := i + 1;
      }
      assert roster[..i] == roster;
    }

    /**
      * Arsonist, on its choice: choosing itself ignites every player of the nightfall list;
      * choosing another player douses it and visits it.
      */
    method ArsonistNight(choice: Player, soaked: seq<Player>)
      requires role == Arsonist
      requires forall i, j :: 0 <= i < j < |soaked| ==> soaked[i] != soaked[j]
      modifies soaked`killedBy, soaked`visitedBy, choice`doused, choice`visitedBy
      ensures choice == this ==>
                && (forall p :: p in soaked ==> p.killedBy == this && p.visitedBy == old(p.visitedBy) + [this])
                && doused == old(doused)
                && (this !in soaked ==> visitedBy == old(visitedBy))
      ensures choice != this ==>
                && choice.doused && choice.visitedBy == old(choice.visitedBy) + [this]
                && choice.killedBy == old(choice.killedBy)
                && forall p :: p in soaked && p != choice ==>
                     p.killedBy == old(p.killedBy) && p.visitedBy == old(p.visitedBy)
    {
      if choice == this {
        var i := 0;
        while i < |soaked|
          invariant 0 <= i <= |soaked|
          invariant forall k :: 0 <= k < i ==>
                      soaked[k].killedBy == this && soaked[k].visitedBy == old(soaked[k].visitedBy) + [this]
          invariant forall k :: i <= k < |soaked| ==>
                      soaked[k].killedBy == old(soaked[k].killedBy) && soaked[k].visitedBy == old(soaked[k].visitedBy)
          invariant doused == old(doused)
          invariant this !in soaked ==> visitedBy == old(visitedBy)
        {
          soaked[i].Kill(this);
          i := i + 1;
        }
      } else {
        choice.doused := true;
        choice.Visit(this);
      }
    }
  }
}
