/**
  * The game: the roster and the phase loop. Setup deals the roles, gives every
  * player a channel (and every Executioner a target) and names a godfather; each
  * cycle then runs the dawn death pass, the day (jailings, nominations and the
  * lynch vote) and the night (role blocks, the role tasks and the mafia kill),
  * checking for a winner after each of the three phases.
  *
  * Randomness (the member shuffle, the godfather and Executioner draws) is an
  * arbitrary choice. What players answer during a phase is an input: the night's
  * answers arrive as a sequence of actions in the order they complete, and any
  * answer that never comes is simply absent from it.
  */
module Game {
  import opened Wrappers
  import opened Roles
  import opened Players
  import opened Roster
  import opened Utils
  import opened Night

  /** One line of a day's announcements. */
  datatype Notice =
    | GameStarted
    | KilledOvernight(victim: MemberId, role: Role, killer: Role)
    | NoOneKilled
    | TownLynched(victim: MemberId, role: Role)

  /** `choose_godfather` on an empty candidate list raises IndexError. */
  datatype GodfatherError = NoCandidate

  /** Why the setup stops: no citizen to draw an Executioner's target from, or no godfather candidate. */
  datatype SetupError = NoCitizenForTarget | NoGodfatherCandidate

  /** No player of the roster is flagged, dead or marked yet. */
  ghost predicate Untouched(ps: seq<Player>)
    reads ps`isGodfather, ps`dead, ps`killedBy, ps`protectedBy, ps`jailed, ps`jails, ps`vests, ps`cleans
  {
    forall p :: p in ps ==> !p.isGodfather && !p.dead && Unmarked(p)
  }

  // ---------------------------------------------------------------------------
  // Role assignment

  /** How many roles in the list are mafia roles. */
  function MafiaAmong(rs: seq<Role>): nat {
    if rs == [] then 0 else (if rs[0].IsMafia() then 1 else 0) + MafiaAmong(rs[1..])
  }

  lemma {:induction false} MafiaAmongAppend(a: seq<Role>, b: seq<Role>)
    ensures MafiaAmong(a + b) == MafiaAmong(a) + MafiaAmong(b)
  {
    if a != [] {
      assert (a + b)[0] == a[0] && (a + b)[1..] == a[1..] + b;
      MafiaAmongAppend(a[1..], b);
    } else {
      assert a + b == b;
    }
  }

  function Repeat(r: Role, n: nat): (rs: seq<Role>)
    ensures |rs| == n && forall i :: 0 <= i < n ==> rs[i] == r
  {
    seq(n, _ => r)
  }

  lemma {:induction false} MafiaAmongRepeat(r: Role, n: nat)
    ensures MafiaAmong(Repeat(r, n)) == if r.IsMafia() then n else 0
  {
    if n > 0 {
      assert Repeat(r, n)[1..] == Repeat(r, n - 1);
      MafiaAmongRepeat(r, n - 1);
    }
  }

  /** The plain Mafia players to add: what is missing to reach the starting mafia (none when nothing is). */
  function MafiaTopUp(startingMafia: int, mafiaSoFar: nat): nat {
    if startingMafia > mafiaSoFar then startingMafia - mafiaSoFar else 0
  }

  /**
    * The roles dealt to `n` members: the special roles in configuration order, then
    * the plain Mafia needed to reach the starting mafia (counting the living mafia
    * already in the roster), then Citizens for everyone left.
    */
  function AssignedRoles(specials: seq<Role>, startingMafia: int, mafiaBefore: nat, n: nat): seq<Role>
    requires n >= |specials| + MafiaTopUp(startingMafia, mafiaBefore + MafiaAmong(specials))
  {
    var k := MafiaTopUp(startingMafia, mafiaBefore + MafiaAmong(specials));
    specials + Repeat(Mafia, k) + Repeat(Citizen, n - |specials| - k)
  }

  /**
    * Every member gets a role; the specials come first and everyone after them is a
    * plain Mafia or a Citizen; and the living mafia then number the starting mafia,
    * or more when the roster and the specials already exceed it.
    */
  lemma AssignedRolesShape(specials: seq<Role>, startingMafia: int, mafiaBefore: nat, n: nat)
    requires n >= |specials| + MafiaTopUp(startingMafia, mafiaBefore + MafiaAmong(specials))
    ensures var rs := AssignedRoles(specials, startingMafia, mafiaBefore, n);
              && |rs| == n
              && rs[..|specials|] == specials
              && (forall i :: |specials| <= i < n ==> rs[i] == Mafia || rs[i] == Citizen)
              && mafiaBefore + MafiaAmong(rs) ==
                   if startingMafia > mafiaBefore + MafiaAmong(specials) then startingMafia
                   else mafiaBefore + MafiaAmong(specials)
  {
    var k := MafiaTopUp(startingMafia, mafiaBefore + MafiaAmong(specials));
    var rest := n - |specials| - k;
    MafiaAmongAppend(specials + Repeat(Mafia, k), Repeat(Citizen, rest));
    MafiaAmongAppend(specials, Repeat(Mafia, k));
    MafiaAmongRepeat(Mafia, k);
    MafiaAmongRepeat(Citizen, rest);
  }

  /** The roles of a list of players, in order. */
  function RolesOf(ps: seq<Player>): seq<Role> {
    seq(|ps|, i requires 0 <= i < |ps| => ps[i].role)
  }

  /** The member ids of a list of players, in order. */
  function MembersOf(ps: seq<Player>): seq<MemberId> {
    seq(|ps|, i requires 0 <= i < |ps| => ps[i].member)
  }

  /** The living mafia of a roster with new players appended: the old count plus the new players' own. */
  lemma {:induction false} CountMafiaAppend(ps: seq<Player>, qs: seq<Player>)
    ensures CountMafia(ps + qs) == CountMafia(ps) + CountMafia(qs)
  {
    if ps != [] {
      assert (ps + qs)[0] == ps[0] && (ps + qs)[1..] == ps[1..] + qs;
      CountMafiaAppend(ps[1..], qs);
    } else {
      assert ps + qs == qs;
    }
  }

  /** Among living players, the mafia count is the number of mafia roles. */
  lemma {:induction false} CountMafiaOfLiving(qs: seq<Player>)
    requires forall q :: q in qs ==> !q.dead
    ensures CountMafia(qs) == MafiaAmong(RolesOf(qs))
  {
    if qs != [] {
      assert RolesOf(qs)[1..] == RolesOf(qs[1..]);
      CountMafiaOfLiving(qs[1..]);
    }
  }

  /** The players with a citizen role, in roster order. */
  function Citizens(ps: seq<Player>): (cs: seq<Player>)
    ensures forall p :: p in cs ==> p in ps && p.role.IsCitizen()
  {
    if ps == [] then []
    else (if ps[0].role.IsCitizen() then [ps[0]] else []) + Citizens(ps[1..])
  }

  /** Every player of a citizen role is among the citizens. */
  lemma {:induction false} EveryCitizenListed(ps: seq<Player>, p: Player)
    requires p in ps && p.role.IsCitizen()
    ensures p in Citizens(ps)
  {
    if ps[0] != p {
      EveryCitizenListed(ps[1..], p);
    }
  }

  /** No one has attacked, protected or jailed the player, and its counters are within budget. */
  ghost predicate Unmarked(p: Player)
    reads p`killedBy, p`protectedBy, p`jailed, p`jails, p`vests, p`cleans
  {
    p.killedBy == null && p.protectedBy == null && p.jailed == Free && CountersOk(p)
  }

  // ---------------------------------------------------------------------------
  // Dawn

  /**
    * The dawn survival test: a player attacked overnight survives when it is
    * protected and the killer's attack is stronger than the protector's defense.
    */
  predicate Spared(p: Player)
    reads p`killedBy, p`protectedBy
  {
    && p.killedBy != null && p.protectedBy != null
    && p.killedBy.role.Attack().Some? && p.protectedBy.role.Defense().Some?
    && p.killedBy.role.Attack().value.Gt(p.protectedBy.role.Defense().value)
  }

  /** A living player attacked overnight and not spared dies at dawn. */
  predicate DiesAtDawn(p: Player)
    reads p`dead, p`killedBy, p`protectedBy
  {
    !p.dead && p.killedBy != null && !Spared(p)
  }

  /** The notice for a player who dies at dawn with its body not cleaned, if that is what happens to it. */
  function DeathNotice(p: Player): seq<Notice>
    reads p`dead, p`killedBy, p`protectedBy, p`cleanedBy
  {
    if DiesAtDawn(p) && p.cleanedBy == null then [KilledOvernight(p.member, p.role, p.killedBy.role)] else []
  }

  /** The public death notices of the first `k` players of the roster, in roster order. */
  function AnnouncedUpTo(ps: seq<Player>, k: nat): seq<Notice>
    requires k <= |ps|
    reads ps`dead, ps`killedBy, ps`protectedBy, ps`cleanedBy
  {
    if k == 0 then [] else AnnouncedUpTo(ps, k - 1) + DeathNotice(ps[k - 1])
  }

  /** The public death notices of a dawn, in roster order. */
  function Announced(ps: seq<Player>): seq<Notice>
    reads ps`dead, ps`killedBy, ps`protectedBy, ps`cleanedBy
  {
    AnnouncedUpTo(ps, |ps|)
  }

  /** A dawn's announcements: the deaths, or that no one was killed. */
  function DawnNotices(ps: seq<Player>): seq<Notice>
    reads ps`dead, ps`killedBy, ps`protectedBy, ps`cleanedBy
  {
    Announced(ps) + (if Announced(ps) == [] then [NoOneKilled] else [])
  }

  /**
    * Every death notice for the first `k` players names one of them who dies at dawn,
    * by its killer's role, with its body not cleaned.
    */
  lemma {:induction false} AnnouncedAreUncleanedDeaths(ps: seq<Player>, k: nat, n: Notice)
    requires k <= |ps| && n in AnnouncedUpTo(ps, k)
    ensures exists j :: 0 <= j < k && DiesAtDawn(ps[j]) && ps[j].cleanedBy == null
                        && n == KilledOvernight(ps[j].member, ps[j].role, ps[j].killedBy.role)
  {
    if n in AnnouncedUpTo(ps, k - 1) {
      AnnouncedAreUncleanedDeaths(ps, k - 1, n);
    }
  }

  /** Every one of the first `k` players who dies at dawn with its body not cleaned is announced. */
  lemma {:induction false} UncleanedDeathIsAnnounced(ps: seq<Player>, k: nat, j: nat)
    requires j < k <= |ps| && DiesAtDawn(ps[j]) && ps[j].cleanedBy == null
    ensures KilledOvernight(ps[j].member, ps[j].role, ps[j].killedBy.role) in AnnouncedUpTo(ps, k)
  {
    if j < k - 1 {
      UncleanedDeathIsAnnounced(ps, k - 1, j);
    }
  }

  /**
    * "No one was killed" is announced exactly when no roster player dies uncleaned, so
    * also when the only deaths were cleaned up; it is never announced beside a death.
    */
  lemma NoOneKilledMeaning(ps: seq<Player>)
    ensures NoOneKilled in DawnNotices(ps) <==> forall p :: p in ps ==> !(DiesAtDawn(p) && p.cleanedBy == null)
    ensures NoOneKilled in DawnNotices(ps) <==> DawnNotices(ps) == [NoOneKilled]
  {
    if NoOneKilled in Announced(ps) {
      AnnouncedAreUncleanedDeaths(ps, |ps|, NoOneKilled);
    }
    if Announced(ps) == [] {
      forall p | p in ps
        ensures !(DiesAtDawn(p) && p.cleanedBy == null)
      {
        if DiesAtDawn(p) && p.cleanedBy == null {
          var j :| 0 <= j < |ps| && ps[j] == p;
          UncleanedDeathIsAnnounced(ps, |ps|, j);
        }
      }
    } else {
      AnnouncedAreUncleanedDeaths(ps, |ps|, Announced(ps)[0]);
    }
  }

  /** The mafia's attacks are basic, which no protection falls short of: a mafia victim is never spared. */
  lemma MafiaVictimNeverSpared(p: Player)
    requires p.killedBy != null && p.killedBy.role.IsMafia()
    ensures !Spared(p)
  {
  }

  /**
    * The night's kill guard and the dawn test are opposite: with the same killer and
    * protector, the guard stops an attack exactly when the dawn test would not spare
    * its victim.
    */
  lemma GuardOppositeToDawnTest(p: Player)
    requires p.killedBy != null && p.protectedBy != null
    requires p.killedBy.role.Attack().Some? && p.protectedBy.role.Defense().Some?
    ensures KillBlocked(p, p.killedBy) <==> !Spared(p)
  {
    TierComparisonsMirror(p.killedBy.role.Attack().value, p.protectedBy.role.Defense().value);
  }

  /** Clears the ledger of every living player; the dead keep theirs. */
  method CleanupLiving(ps: seq<Player>)
    requires Distinct(ps) && AllPlayersValid(ps)
    modifies ps`visitedBy, ps`killedBy, ps`protectedBy, ps`nightRoleBlocked, ps`cleanedBy, ps`disguisedAs, ps`jailed
    ensures AllPlayersValid(ps)
    ensures forall p :: p in ps && !p.dead ==> p.LedgerCleared()
    ensures forall p :: p in ps && p.dead ==> unchanged(p)
  {
    for i := 0 to |ps|
      invariant forall j :: 0 <= j < i && !ps[j].dead ==> ps[j].LedgerCleared()
      invariant forall j :: 0 <= j < |ps| && (i <= j || ps[j].dead) ==> unchanged(ps[j])
      invariant AllPlayersValid(ps)
    {
      if !ps[i].dead {
        ps[i].CleanupAttrs();
      }
    }
  }

  // ---------------------------------------------------------------------------
  // Day

  /** A Jailor's answer to its day task: whom to jail tonight. */
  datatype Jailing = Jailing(jailor: Player, prisoner: Player)

  /**
    * The Jailors' day tasks: each living Jailor takes at most one answer, a living
    * player other than itself, and jails it while jails remain.
    */
  method JailorDayTasks(ps: seq<Player>, jailings: seq<Jailing>)
    requires AllPlayersValid(ps)
    modifies ps`jails, ps`jailed, ps`nightRoleBlocked, ps`protectedBy, ps`visitedBy
    ensures AllPlayersValid(ps)
    ensures forall p :: p in ps ==> p.jails == old(p.jails) || p.jails == old(p.jails) - 1
    ensures forall p :: p in ps && p.nightRoleBlocked && !old(p.nightRoleBlocked) ==>
              p.protectedBy != null && p.protectedBy.role == Jailor
  {
    var done: set<Player> := {};
    for k := 0 to |jailings|
      invariant AllPlayersValid(ps)
      invariant forall p :: p in ps && p !in done ==> p.jails == old(p.jails)
      invariant forall p :: p in ps ==> p.jails == old(p.jails) || p.jails == old(p.jails) - 1
      invariant forall p :: p in ps && p.nightRoleBlocked && !old(p.nightRoleBlocked) ==>
                  p.protectedBy != null && p.protectedBy.role == Jailor
    {
      var jailor, prisoner := jailings[k].jailor, jailings[k].prisoner;
      if jailor in ps && !jailor.dead && jailor.role == Jailor && jailor !in done
         && prisoner in ps && !prisoner.dead && prisoner != jailor {
        JailorAnswer(ps, jailor, prisoner);
        done := done + {jailor};
      }
    }
  }

  /** One Jailor's answer: the Jailor jails the prisoner while jails remain. */
  method JailorAnswer(ps: seq<Player>, jailor: Player, prisoner: Player)
    requires AllPlayersValid(ps) && jailor in ps && jailor.role == Jailor && prisoner in ps && prisoner != jailor
    modifies jailor`jails, jailor`jailed
    modifies prisoner`nightRoleBlocked, prisoner`jailed, prisoner`protectedBy, prisoner`visitedBy
    ensures AllPlayersValid(ps)
    ensures old(jailor.jails) <= 0 ==> unchanged(jailor, prisoner)
    ensures old(jailor.jails) > 0 ==>
              && jailor.jails == old(jailor.jails) - 1 && jailor.jailed == Holding(prisoner)
              && prisoner.nightRoleBlocked && prisoner.jailed == Jailed
              && prisoner.protectedBy == jailor
              && prisoner.visitedBy == old(prisoner.visitedBy) + [jailor]
  {
    jailor.JailorDay(prisoner);
    forall p | p in ps
      ensures PlayerValid(p, ps)
    {
      assert old(PlayerValid(p, ps));
    }
  }

  /**
    * The nomination task: checks the day's chat messages in order with a fresh
    * nomination counter, two nominations needed, and stops at the first nominee.
    */
  method Nominate(ps: seq<Player>, chat: ChannelId, ms: seq<Message>, nameMatch: NameMatcher) returns (nominee: Option<Player>)
    ensures nominee == NomineeAfter(ps, chat, false, nameMatch, 2, [], ms)
  {
    var nominations := new Nominations();
    var check := new NominationCheck(ps, nominations, chat, false, nameMatch);
    var rest := ms;
    while rest != []
      invariant nominations.Valid() && fresh(nominations)
      invariant NomineeAfter(ps, chat, false, nameMatch, 2, [], ms) ==
                NomineeAfter(ps, chat, false, nameMatch, 2, nominations.accepted, rest)
    {
      var opensVote := check.Check(rest[0]);
      if opensVote {
        return Some(nominations.nomination);
      }
      rest := rest[1..];
    }
    return None;
  }

  /** Whether a reacting user is a living player of the game. */
  predicate IsLivingPlayer(ps: seq<Player>, u: MemberId)
    reads ps`dead
  {
    exists p :: p in ps && p.member == u && !p.dead
  }

  /** The votes among the users who reacted: one per user who is a living player. */
  function VotesFrom(ps: seq<Player>, users: seq<MemberId>): (n: nat)
    reads ps`dead
    ensures n <= |users|
  {
    if users == [] then 0
    else VotesFrom(ps, users[..|users| - 1]) + (if IsLivingPlayer(ps, users[|users| - 1]) then 1 else 0)
  }

  /** Counts the users who reacted and are living players. */
  method CountVotes(ps: seq<Player>, users: seq<MemberId>) returns (count: nat)
    ensures count == VotesFrom(ps, users)
  {
    count := 0;
    for i := 0 to |users|
      invariant count == VotesFrom(ps, users[..i])
    {
      assert users[..i + 1][..i] == users[..i];
      if IsLivingPlayer(ps, users[i]) {
        count := count + 1;
      }
    }
    assert users[..|users|] == users;
  }

  /** With each user reacting once, the votes are the number of distinct living players who reacted. */
  lemma {:induction false} VotesCountLivingReactors(ps: seq<Player>, users: seq<MemberId>)
    requires forall i, j :: 0 <= i < j < |users| ==> users[i] != users[j]
    ensures VotesFrom(ps, users) == |set u | u in users && IsLivingPlayer(ps, u)|
  {
    if users != [] {
      var init, last := users[..|users| - 1], users[|users| - 1];
      VotesCountLivingReactors(ps, init);
      var before := set u | u in init && IsLivingPlayer(ps, u);
      var after := set u | u in users && IsLivingPlayer(ps, u);
      assert users == init + [last];
      assert last !in init;
      if IsLivingPlayer(ps, last) {
        assert after == before + {last};
      } else {
        assert after == before;
      }
    }
  }

  // ---------------------------------------------------------------------------
  // After the night

  /** What a Lookout learns after the night: who visited the player it watched. */
  datatype WatchReport = WatchReport(lookout: Player, watched: Player, visitors: seq<Player>)

  /** The Lookouts watching someone, in roster order, each with the player it watches. */
  function Watches(ps: seq<Player>): seq<(Player, Player)>
    reads ps`watching
  {
    if ps == [] then []
    else
      var p := ps[|ps| - 1];
      Watches(ps[..|ps| - 1]) + (if p.role == Lookout && p.watching != null then [(p, p.watching)] else [])
  }

  /** The watches are exactly the roster's Lookouts with a watch set, each paired with what it watches. */
  lemma {:induction false} WatchesAreTheLookouts(ps: seq<Player>, l: Player, w: Player)
    ensures (l, w) in Watches(ps) <==> l in ps && l.role == Lookout && l.watching == w
  {
    if ps != [] {
      WatchesAreTheLookouts(ps[..|ps| - 1], l, w);
      assert ps == ps[..|ps| - 1] + [ps[|ps| - 1]];
    }
  }

  // ---------------------------------------------------------------------------
  // The cycle

  /** What the players answer during one cycle. */
  datatype CycleInput = CycleInput(
    jailings: seq<Jailing>,
    nominations: seq<Message>,
    yes: seq<MemberId>,
    no: seq<MemberId>,
    night: seq<NightAction>)

  /** How a cycle ends: with the game going on, with a winner, or with the night failing for want of a godfather. */
  datatype Outcome = Continues | Won | Crashed

  class MafiaGame {
    /** The members who joined and have not yet been dealt a role. */
    var members: seq<MemberId>
    /** The roster, in the order the roles were dealt; dead players stay. */
    var players: seq<Player>
    /** Set when the game is made and never cleared. */
    var isDay: bool
    var day: int
    /** The announcements of each day. */
    var dayNotifications: map<int, seq<Notice>>
    const startingMafia: int
    const specialRoles: seq<Role>
    const nightLength: int
    const dayLength: int
    /** The ids of the day chat and the mafia chat. */
    const chat: ChannelId
    const mafiaChat: ChannelId

    /** The game invariant, from the end of setup on. */
    ghost predicate Valid()
      reads this`isDay, this`day, this`players
      reads players`target, players`isGodfather, players`killedBy, players`protectedBy, players`jailed
      reads players`jails, players`vests, players`cleans
    {
      && isDay && day >= 1
      && Distinct(players)
      && TargetsAssigned(players)
      && AllPlayersValid(players)
    }

    /** A game for the members who joined, with the default phase lengths of 45 and 90 seconds. */
    constructor (members: seq<MemberId>, startingMafia: int, specialRoles: seq<Role>, chat: ChannelId, mafiaChat: ChannelId)
      ensures this.members == members && players == []
      ensures this.startingMafia == startingMafia && this.specialRoles == specialRoles
      ensures this.chat == chat && this.mafiaChat == mafiaChat
      ensures isDay && day == 1 && dayNotifications == map[]
      ensures nightLength == 45 && dayLength == 90
    {
      this.members := members;
      players := [];
      isDay := true;
      day := 1;
      dayNotifications := map[];
      this.startingMafia := startingMafia;
      this.specialRoles := specialRoles;
      nightLength := 45;
      dayLength := 90;
      this.chat := chat;
      this.mafiaChat := mafiaChat;
    }

    /** Today's announcements so far. */
    function Today(): seq<Notice>
      reads this`day, this`dayNotifications
    {
      if day in dayNotifications then dayNotifications[day] else []
    }

    /** Appends notices to today's announcements; other days are untouched. */
    method AddDayNotification(notices: seq<Notice>)
      modifies this`dayNotifications
      ensures dayNotifications == old(dayNotifications)[day := old(Today()) + notices]
    {
      dayNotifications := dayNotifications[day := Today() + notices];
    }

    /** The length of the current day: half the configured length on day 1. */
    function DayLength(): (r: real)
      reads this
      ensures day > 1 ==> r == dayLength as real
      ensures day <= 1 ==> 2.0 * r == dayLength as real
    {
      if day > 1 then dayLength as real else dayLength as real / 2.0
    }

    /**
      * Names a new godfather: any plain Mafia player of the roster, dead or alive. With
      * no candidate it fails and changes nothing.
      */
    method ChooseGodfather() returns (r: Result<Player, GodfatherError>)
      modifies players`isGodfather
      ensures r.Failure? <==> GodfatherCandidates(players) == []
      ensures r.Success? ==> r.value in GodfatherCandidates(players) && r.value.isGodfather
      ensures forall p :: p in players && (r.Failure? || p != r.value) ==> p.isGodfather == old(p.isGodfather)
      ensures old(AllPlayersValid(players)) ==> AllPlayersValid(players)
    {
      var candidates := GodfatherCandidates(players);
      if candidates == [] {
        return Failure(NoCandidate);
      }
      assert candidates[0] in candidates;
      var g :| g in candidates;
      g.isGodfather := true;
      return Success(g);
    }

    /** Deals the last member of the pool a new player of the given role. */
    method Enrol(role: Role) returns (p: Player)
      requires members != []
      modifies this`members, this`players
      ensures fresh(p) && p.Pristine() && p.role == role && p.member == old(members[|members| - 1])
      ensures members == old(members[..|members| - 1]) && players == old(players) + [p]
      ensures old(Distinct(players)) ==> Distinct(players)
    {
      p := new Player(members[|members| - 1], role);
      members := members[..|members| - 1];
      players := players + [p];
    }

    /**
      * Deals the given roles, in order, to members popped from the end of the pool:
      * the roster grows by one fresh player per role and the pool gives up exactly
      * the members the new players hold.
      */
    method Deal(rs: seq<Role>) returns (ghost dealt: seq<Player>)
      requires |rs| <= |members|
      modifies this`members, this`players
      ensures |members| == old(|members|) - |rs|
      ensures players == old(players) + dealt
      ensures RolesOf(dealt) == rs
      ensures multiset(members) + multiset(MembersOf(dealt)) == old(multiset(members))
      ensures forall p :: p in dealt ==> fresh(p) && p.Pristine()
      ensures old(Distinct(players)) ==> Distinct(players)
    {
      dealt := [];
      var i := 0;
      while i < |rs|
        invariant 0 <= i <= |rs|
        invariant |members| == old(|members|) - i
        invariant players == old(players) + dealt
        invariant RolesOf(dealt) == rs[..i]
        invariant multiset(members) + multiset(MembersOf(dealt)) == old(multiset(members))
        invariant forall p :: p in dealt ==> fresh(p) && p.Pristine()
        invariant old(Distinct(players)) ==> Distinct(players)
      {
        ghost var pool := members;
        var p := Enrol(rs[i]);
        assert pool == members + [p.member];
        assert MembersOf(dealt + [p]) == MembersOf(dealt) + [p.member];
        assert RolesOf(dealt + [p]) == RolesOf(dealt) + [p.role];
        assert rs[..i + 1] == rs[..i] + [rs[i]];
        dealt := dealt + [p];
        i := i + 1;
      }
      assert rs[..i] == rs;
    }

    /** Shuffles the pool of members five times: it keeps the same members, in any order. */
    method Shuffle()
      modifies this`members
      ensures multiset(members) == old(multiset(members)) && |members| == old(|members|)
    {
      for i := 0 to 5
        invariant multiset(members) == old(multiset(members)) && |members| == old(|members|)
      {
        var shuffled: seq<MemberId> :| multiset(shuffled) == multiset(members);
        assert |shuffled| == |members| by {
          assert |multiset(shuffled)| == |shuffled| && |multiset(members)| == |members|;
        }
        members := shuffled;
      }
    }

    /**
      * Deals the roles: shuffles the members, then pops them from the end to make the
      * special roles, the plain Mafia still needed, and Citizens until the pool is empty.
      */
    method PickPlayers() returns (ghost dealt: seq<Player>)
      requires |members| >= |specialRoles| + MafiaTopUp(startingMafia, CountMafia(players) + MafiaAmong(specialRoles))
      modifies this`members, this`players
      ensures members == [] && players == old(players) + dealt
      ensures RolesOf(dealt) == AssignedRoles(specialRoles, startingMafia, old(CountMafia(players)), old(|members|))
      ensures multiset(MembersOf(dealt)) == multiset(old(members))
      ensures forall p :: p in dealt ==> fresh(p) && p.Pristine()
      ensures old(Distinct(players)) ==> Distinct(players)
    {
      ghost var before := players;
      ghost var mafia0 := CountMafia(players);
      ghost var n := |members|;
      Shuffle();

      ghost var specials := Deal(specialRoles);
      assert CountMafia(players) == mafia0 + MafiaAmong(specialRoles) by {
        CountMafiaAppend(before, specials);
        CountMafiaOfLiving(specials);
      }
      var k := MafiaTopUp(startingMafia, CountMafia(players));

      ghost var mafia := Deal(Repeat(Mafia, k));
      var rest := |members|;
      assert rest == n - |specialRoles| - k;
      ghost var citizens := Deal(Repeat(Citizen, rest));
      dealt := specials + mafia + citizens;
      assert players == before + dealt by {
        assert before + specials + mafia + citizens == before + (specials + mafia + citizens);
      }
      BatchesCombine(specials, mafia, citizens);
      AssignedInBatches(specialRoles, startingMafia, mafia0, n, k, rest, RolesOf(specials), RolesOf(mafia), RolesOf(citizens));
    }

    /**
      * Gives every player, in roster order, their private channel, and then draws each
      * Executioner's target among the citizens. With an Executioner and no citizen the
      * draw fails and setup stops there.
      */
    method SetupChannels(ids: seq<ChannelId>) returns (r: Result<(), SetupError>)
      requires |ids| == |players| && Distinct(players)
      modifies players`channel, players`target
      ensures r.Failure? <==> Citizens(players) == [] && exists p :: p in players && p.role == Executioner
      ensures r.Failure? ==> r.error == NoCitizenForTarget
      ensures r.Success? ==> forall i :: 0 <= i < |players| ==> players[i].channel == Some(ids[i])
      ensures r.Success? ==> forall p :: p in players && p.role == Executioner ==>
                p.target != null && p.target in players && p.target.role.IsCitizen()
      ensures forall p :: p in players && p.role != Executioner ==> p.target == old(p.target)
    {
      var citizens := Citizens(players);
      for i := 0 to |players|
        invariant forall j :: 0 <= j < i ==> players[j].channel == Some(ids[j])
        invariant forall j :: 0 <= j < i && players[j].role == Executioner ==> players[j].target in citizens
        invariant citizens == [] ==> forall j :: 0 <= j < i ==> players[j].role != Executioner
        invariant forall p :: p in players && p.role != Executioner ==> p.target == old(p.target)
      {
        var p := players[i];
        assert forall j :: 0 <= j < i ==> players[j] != p;
        p.SetChannel(ids[i]);
        if p.role == Executioner {
          if citizens == [] {
            return Failure(NoCitizenForTarget);
          }
          assert citizens[0] in citizens;
          var t :| t in citizens;
          p.target := t;
        }
      }
      return Success(());
    }

    /**
      * The setup after the dealing: opens the channels, draws the Executioners'
      * targets and names the godfather, on a roster of players fresh from the dealing.
      */
    method OpenGame(ids: seq<ChannelId>) returns (r: Result<(), SetupError>)
      requires |ids| == |players| && isDay && day >= 1 && Distinct(players)
      requires forall p :: p in players ==> p.Pristine()
      modifies players`channel, players`target, players`isGodfather
      ensures r.Success? ==> Valid()
      ensures r.Success? ==> Godfather(players) != null && Godfather(players).role == Mafia
      ensures r.Success? ==> forall i :: 0 <= i < |players| ==> players[i].channel == Some(ids[i])
      ensures r.Failure? ==>
                || (r.error == NoCitizenForTarget && Citizens(players) == [])
                || (r.error == NoGodfatherCandidate && GodfatherCandidates(players) == [])
    {
      assert Untouched(players);
      r := SetupChannels(ids);
      if r.Failure? {
        return;
      }
      assert TargetsAssigned(players);
      var g := FirstGodfather();
      if g.Failure? {
        return Failure(NoGodfatherCandidate);
      }
    }

    /** The first godfather, drawn from a roster where no one is flagged, dead or marked yet. */
    method FirstGodfather() returns (r: Result<Player, GodfatherError>)
      requires Untouched(players) && TargetsAssigned(players) && Distinct(players) && isDay && day >= 1
      modifies players`isGodfather
      ensures r.Failure? <==> GodfatherCandidates(players) == []
      ensures r.Success? ==> Valid() && Godfather(players) != null && Godfather(players).role == Mafia
    {
      r := ChooseGodfather();
      if r.Success? {
        SoleGodfatherIsValid(players, r.value);
      }
    }

    /** A fresh roster with one godfather, a plain Mafia, is consistent and has that godfather. */
    static lemma SoleGodfatherIsValid(ps: seq<Player>, g: Player)
      requires g in ps && g.role == Mafia && g.isGodfather && !g.dead
      requires forall p :: p in ps ==> (p == g || !p.isGodfather) && Unmarked(p)
      ensures AllPlayersValid(ps)
      ensures Godfather(ps) != null && Godfather(ps).role == Mafia
    {
      assert forall p :: p in ps ==> PlayerValid(p, ps);
    }

    /**
      * Sets the game up: deals the roles, opens the channels and names the godfather.
      * On success the game invariant holds, every member joined plays, exactly the
      * roles `AssignedRoles` prescribes are dealt, and the godfather is a plain Mafia.
      */
    method Start(ids: seq<ChannelId>) returns (r: Result<(), SetupError>)
      requires players == [] && isDay && day >= 1 && |ids| == |members|
      requires |members| >= |specialRoles| + MafiaTopUp(startingMafia, MafiaAmong(specialRoles))
      modifies this`members, this`players
      ensures r.Success? ==> Valid()
      ensures multiset(MembersOf(players)) == multiset(old(members))
      ensures RolesOf(players) == AssignedRoles(specialRoles, startingMafia, 0, old(|members|))
      ensures r.Success? ==> Godfather(players) != null && Godfather(players).role == Mafia
      ensures r.Success? ==> forall i :: 0 <= i < |players| ==> players[i].channel == Some(ids[i])
      ensures r.Failure? ==>
                || (r.error == NoCitizenForTarget && Citizens(players) == [])
                || (r.error == NoGodfatherCandidate && GodfatherCandidates(players) == [])
    {
      assert CountMafia(players) == 0;
      ghost var dealt := PickPlayers();
      assert players == dealt;
      forall i | 0 <= i < |players|
        ensures fresh(players[i])
      {
        assert players[i] in dealt;
      }
      r := OpenGame(ids);
    }

    // -------------------------------------------------------------------------
    // Dawn

    /**
      * The dawn pass over one player: a living player attacked overnight and not
      * spared dies; its death is announced unless its body was cleaned; a dying
      * godfather has a successor drawn and then loses the flag.
      */
    method DawnFor(p: Player) returns (notice: seq<Notice>, ghost successor: Option<Player>)
      requires p in players && AllPlayersValid(players)
      modifies p`dead, players`isGodfather
      ensures AllPlayersValid(players)
      ensures p.dead == old(p.dead || DiesAtDawn(p))
      ensures notice == old(DeathNotice(p))
      ensures old(DiesAtDawn(p)) ==> !p.isGodfather
      ensures !old(DiesAtDawn(p)) ==> p.isGodfather == old(p.isGodfather)
      ensures successor.Some? <==> old(DiesAtDawn(p) && p.isGodfather)
      ensures successor.Some? ==> Succeeds(successor.value, p, players)
      ensures forall q :: q in players && q != p && (successor.None? || q != successor.value) ==>
                q.isGodfather == old(q.isGodfather)
    {
      notice, successor := [], None;
      if p.dead || p.killedBy == null || Spared(p) {
        return;
      }
      if p.cleanedBy == null {
        notice := [KilledOvernight(p.member, p.role, p.killedBy.role)];
      }
      p.dead := true;
      if p.isGodfather {
        var s := Demote(p);
        successor := Some(s);
      }
    }

    /**
      * `s` was drawn to succeed the dead godfather `g`: it is one of the candidates, and
      * it holds the flag unless the draw fell on `g` itself, which then loses it.
      */
    static ghost predicate Succeeds(s: Player, g: Player, ps: seq<Player>)
      reads s`isGodfather
    {
      s in GodfatherCandidates(ps) && (s != g ==> s.isGodfather)
    }

    /** A godfather who died overnight: a successor is drawn, then the dead one loses the flag. */
    method Demote(p: Player) returns (successor: Player)
      requires p in players && p.isGodfather && AllPlayersValid(players)
      modifies players`isGodfather
      ensures AllPlayersValid(players) && !p.isGodfather
      ensures successor in GodfatherCandidates(players) && (successor != p ==> successor.isGodfather)
      ensures forall q :: q in players && q != p && q != successor ==> q.isGodfather == old(q.isGodfather)
    {
      successor := Succession(p);
      label Drawn:
      p.isGodfather := false;
      forall q | q in players
        ensures PlayerValid(q, players)
      {
        assert old@Drawn(PlayerValid(q, players));
      }
    }

    /**
      * A new godfather is drawn when godfather `g` dies. `g` is itself one of the
      * candidates, so the draw never finds the candidates empty, and it may draw `g`
      * again or another dead Mafia player.
      */
    method Succession(g: Player) returns (successor: Player)
      requires g in players && g.isGodfather && AllPlayersValid(players)
      modifies players`isGodfather
      ensures AllPlayersValid(players)
      ensures successor in GodfatherCandidates(players) && successor.isGodfather
      ensures forall q :: q in players && q != successor ==> q.isGodfather == old(q.isGodfather)
    {
      assert PlayerValid(g, players);
      EveryPlainMafiaIsCandidate(players, g);
      var r := ChooseGodfather();
      assert r.Success?;
      successor := r.value;
    }

    /**
      * The dawn pass over the roster, in order; returns the death notices, and the
      * successions it caused: for the roster position of each godfather who died, the
      * player drawn to succeed it.
      */
    method DawnPass() returns (notices: seq<Notice>, ghost successions: map<int, Player>)
      requires Distinct(players) && AllPlayersValid(players)
      modifies players`dead, players`isGodfather
      ensures AllPlayersValid(players)
      ensures forall p :: p in players ==> p.dead == old(p.dead || DiesAtDawn(p))
      ensures notices == old(Announced(players))
      ensures forall q :: q in players && old(q.isGodfather) && !q.dead ==> q.isGodfather
      ensures forall j :: j in successions ==>
                0 <= j < |players| && old(DiesAtDawn(players[j])) && successions[j] in GodfatherCandidates(players)
      ensures forall j :: 0 <= j < |players| && old(players[j].isGodfather && DiesAtDawn(players[j])) ==> j in successions
      ensures forall q :: q in players && q.isGodfather && !old(q.isGodfather) ==>
                exists j :: j in successions && successions[j] == q
    {
      ghost var dying := set p | p in players && DiesAtDawn(p);
      ghost var flagged := set p | p in players && p.isGodfather;
      ghost var gods, drawn;
      notices, successions, gods, drawn := DawnLoop(dying, flagged);
      forall q | q in players && q.isGodfather && !old(q.isGodfather)
        ensures exists j :: j in successions && successions[j] == q
      {
        assert q in gods && q !in flagged;
        var j := drawn[q];
        assert j in successions && successions[j] == q;
      }
      forall q | q in players && old(q.isGodfather) && !q.dead
        ensures q.isGodfather
      {
        var j :| 0 <= j < |players| && players[j] == q;
        assert q in flagged && q !in dying;
      }
    }

    /** The loop of the dawn pass, against the players who die at dawn and the godfathers before it. */
    method DawnLoop(ghost dying: set<Player>, ghost flagged: set<Player>)
        returns (notices: seq<Notice>, ghost successions: map<int, Player>, ghost gods: set<Player>,
                 ghost drawn: map<Player, int>)
      requires Distinct(players) && AllPlayersValid(players)
      requires dying == set p | p in players && DiesAtDawn(p)
      requires flagged == set p | p in players && p.isGodfather
      modifies players`dead, players`isGodfather
      ensures AllPlayersValid(players)
      ensures forall p :: p in players ==> p.dead == old(p.dead || DiesAtDawn(p))
      ensures notices == old(Announced(players))
      ensures Mirrors(players, gods) && PassSoFar(players, |players|, successions, dying, flagged, gods, drawn)
    {
      ghost var wasDead := set p | p in players && p.dead;
      ghost var told := DeathNotices(players);
      gods, drawn := flagged, map[];
      notices, successions := [], map[];
      for i := 0 to |players|
        invariant AllPlayersValid(players)
        invariant DawnedUpTo(players, i, wasDead, dying, told)
        invariant forall j :: 0 <= j < |players| ==> told[j] == old(DeathNotice(players[j]))
        invariant notices == old(AnnouncedUpTo(players, i))
        invariant Mirrors(players, gods)
        invariant PassSoFar(players, i, successions, dying, flagged, gods, drawn)
      {
        var notice;
        notice, successions, gods, drawn := DawnStep(players[i], i, wasDead, told, successions, dying, flagged, gods, drawn);
        notices := notices + notice;
      }
    }

    /** The death notice of each roster player, in roster order. */
    static ghost function DeathNotices(ps: seq<Player>): (r: seq<seq<Notice>>)
      reads ps`dead, ps`killedBy, ps`protectedBy, ps`cleanedBy
      ensures |r| == |ps| && forall j :: 0 <= j < |ps| ==> r[j] == DeathNotice(ps[j])
    {
      if ps == [] then [] else [DeathNotice(ps[0])] + DeathNotices(ps[1..])
    }

    /**
      * The dawn pass has passed the first `i` players: a player is dead when it was dead
      * before the pass (`wasDead`) or is a passed player who dies at dawn (`dying`); a
      * player not yet passed still has the fate and the notice (`told`) it had before.
      */
    static ghost predicate DawnedUpTo(ps: seq<Player>, i: nat, wasDead: set<Player>, dying: set<Player>,
                                      told: seq<seq<Notice>>)
      reads ps`dead, ps`killedBy, ps`protectedBy, ps`cleanedBy
    {
      && |told| == |ps|
      && (forall j :: 0 <= j < |ps| ==> (ps[j].dead <==> ps[j] in wasDead || (j < i && ps[j] in dying)))
      && (forall j :: i <= j < |ps| ==> (DiesAtDawn(ps[j]) <==> ps[j] in dying) && DeathNotice(ps[j]) == told[j])
    }

    /** The godfathers of a roster. */
    static ghost function Flagged(ps: seq<Player>): set<Player>
      reads ps`isGodfather
    {
      set q | q in ps && q.isGodfather
    }

    /** The players of a roster whom the dawn of day `d` kills; there is no dawn pass on day 1. */
    static ghost function DyingAt(ps: seq<Player>, d: int): set<Player>
      reads ps`dead, ps`killedBy, ps`protectedBy
    {
      set q | q in ps && d > 1 && DiesAtDawn(q)
    }

    /** The players of a roster who are dead once the dawn of day `d` is over. */
    static ghost function FallenAt(ps: seq<Player>, d: int): set<Player>
      reads ps`dead, ps`killedBy, ps`protectedBy
    {
      set q | q in ps && (q.dead || (d > 1 && DiesAtDawn(q)))
    }

    /**
      * What a dawn did to the godfather flags, given the godfathers before it (`before`),
      * the players it killed (`dying`) and the players dead after it (`fallen`):
      * `successions` holds a draw among the candidates for each godfather it killed,
      * keyed by the roster position of the dead, and has entries only at positions of
      * players it killed; the godfathers after it (`after`) are every godfather who did
      * not fall, plus only players drawn in `successions`.
      */
    static ghost predicate DawnDrew(ps: seq<Player>, before: set<Player>, dying: set<Player>, fallen: set<Player>,
                                    successions: map<int, Player>, after: set<Player>)
    {
      && (forall j :: j in successions ==> 0 <= j < |ps| && ps[j] in dying && successions[j] in GodfatherCandidates(ps))
      && (forall j :: 0 <= j < |ps| && ps[j] in before && ps[j] in dying ==> j in successions)
      && (forall q :: q in after ==> q in ps)
      && (forall q :: q in ps && q in before && q !in fallen ==> q in after)
      && (forall q :: q in after && q !in before ==> exists j :: j in successions && successions[j] == q)
    }

    /** `gods` is the set of godfathers of the roster. */
    static ghost predicate Mirrors(ps: seq<Player>, gods: set<Player>)
      reads ps`isGodfather
    {
      && (forall q :: q in gods ==> q in ps && q.isGodfather)
      && (forall q :: q in ps && q.isGodfather ==> q in gods)
    }

    /**
      * The dawn pass up to roster position `i`, given the players who die at dawn
      * (`dying`), the godfathers before the pass (`flagged`), and the godfathers now
      * (`gods`): the successions recorded so far, by the roster position of the dead
      * godfather, are at passed positions of dying players and draw candidates; every
      * dying godfather already passed has its succession; every new godfather was
      * drawn in one of them (`drawn` names the position of that succession); and a
      * godfather from before the pass is still one unless it has been passed and died.
      */
    static ghost predicate PassSoFar(ps: seq<Player>, i: nat, ss: map<int, Player>, dying: set<Player>,
                                     flagged: set<Player>, gods: set<Player>, drawn: map<Player, int>)
    {
      && (forall j :: j in ss ==> 0 <= j < i && j < |ps| && ps[j] in dying && ss[j] in GodfatherCandidates(ps))
      && (forall j :: 0 <= j < i && j < |ps| && ps[j] in flagged && ps[j] in dying ==> j in ss)
      && (forall q :: q in gods && q !in flagged ==> q in drawn)
      && (forall q :: q in drawn ==> drawn[q] in ss && ss[drawn[q]] == q)
      && (forall j :: 0 <= j < |ps| && ps[j] in flagged && (j >= i || ps[j] !in dying) ==> ps[j] in gods)
    }

    /** The dawn pass at roster position `i`, recording the succession it causes, if any. */
    method DawnStep(p: Player, i: nat, ghost wasDead: set<Player>, ghost told: seq<seq<Notice>>,
                    ghost before: map<int, Player>, ghost dying: set<Player>, ghost flagged: set<Player>,
                    ghost gods: set<Player>, ghost drawn: map<Player, int>)
        returns (notice: seq<Notice>, ghost after: map<int, Player>, ghost gods': set<Player>,
                 ghost drawn': map<Player, int>)
      requires i < |players| && p == players[i] && Distinct(players) && AllPlayersValid(players)
      requires DawnedUpTo(players, i, wasDead, dying, told)
      requires Mirrors(players, gods) && PassSoFar(players, i, before, dying, flagged, gods, drawn)
      modifies p`dead, players`isGodfather
      ensures AllPlayersValid(players)
      ensures DawnedUpTo(players, i + 1, wasDead, dying, told)
      ensures notice == told[i]
      ensures Mirrors(players, gods') && PassSoFar(players, i + 1, after, dying, flagged, gods', drawn')
    {
      ghost var successor;
      notice, successor := DawnFate(p, i, wasDead, told, dying);
      gods' := set q | q in players && q.isGodfather;
      after, drawn' := before, drawn;
      if successor.Some? {
        after, drawn' := before[i := successor.value], drawn[successor.value := i];
      }
      PassStep(players, i, p, successor, before, after, dying, flagged, gods, gods', drawn, drawn');
    }

    /** The death and notice of the dawn pass at roster position `i`, with the draw it causes. */
    method DawnFate(p: Player, i: nat, ghost wasDead: set<Player>, ghost told: seq<seq<Notice>>, ghost dying: set<Player>)
        returns (notice: seq<Notice>, ghost successor: Option<Player>)
      requires i < |players| && p == players[i] && Distinct(players) && AllPlayersValid(players)
      requires DawnedUpTo(players, i, wasDead, dying, told)
      modifies p`dead, players`isGodfather
      ensures AllPlayersValid(players)
      ensures DawnedUpTo(players, i + 1, wasDead, dying, told)
      ensures notice == told[i]
      ensures p in dying ==> !p.isGodfather
      ensures p !in dying ==> p.isGodfather == old(p.isGodfather)
      ensures successor.Some? <==> p in dying && old(p.isGodfather)
      ensures successor.Some? ==> Succeeds(successor.value, p, players)
      ensures forall q :: q in players && q != p && (successor.None? || q != successor.value) ==>
                q.isGodfather == old(q.isGodfather)
    {
      notice, successor := DawnFor(p);
    }

    /** One step of the dawn pass keeps `PassSoFar`. */
    static lemma PassStep(ps: seq<Player>, i: nat, p: Player, successor: Option<Player>, before: map<int, Player>,
                          after: map<int, Player>, dying: set<Player>, flagged: set<Player>,
                          gods: set<Player>, gods': set<Player>, drawn: map<Player, int>, drawn': map<Player, int>)
      requires i < |ps| && p == ps[i] && Distinct(ps)
      requires PassSoFar(ps, i, before, dying, flagged, gods, drawn)
      requires successor.Some? <==> p in dying && p in gods
      requires successor.Some? ==> successor.value in GodfatherCandidates(ps)
      requires forall q :: q != p && (successor.None? || q != successor.value) ==> (q in gods' <==> q in gods)
      requires successor.Some? && successor.value != p ==> successor.value in gods'
      requires p in dying ==> p !in gods'
      requires p !in dying ==> (p in gods' <==> p in gods)
      requires after == if successor.Some? then before[i := successor.value] else before
      requires drawn' == if successor.Some? then drawn[successor.value := i] else drawn
      ensures PassSoFar(ps, i + 1, after, dying, flagged, gods', drawn')
    {
      forall q | q in drawn'
        ensures drawn'[q] in after && after[drawn'[q]] == q
      {
        if successor.None? || q != successor.value {
          assert drawn'[q] == drawn[q] < i;
        }
      }
    }

    /**
      * The start of a day. From day 2 on, the dawn pass runs and its notices (or "no one
      * was killed") are added to the day's announcements; on day 1 the game's start is
      * announced. Then every living player's ledger is cleared.
      */
    method PreDay() returns (ghost successions: map<int, Player>)
      requires Valid()
      modifies this`dayNotifications, players`dead, players`isGodfather
      modifies players`visitedBy, players`killedBy, players`protectedBy, players`nightRoleBlocked
      modifies players`cleanedBy, players`disguisedAs, players`jailed
      ensures Valid()
      ensures forall p :: p in players ==> p.dead == old(p.dead || (day > 1 && DiesAtDawn(p)))
      ensures day > 1 ==> dayNotifications == old(dayNotifications[day := Today() + DawnNotices(players)])
      ensures day <= 1 ==> dayNotifications == old(dayNotifications[day := Today() + [GameStarted]])
      ensures forall p :: p in players && !p.dead ==> p.LedgerCleared()
      ensures forall p :: p in players && p.dead ==> p.killedBy == old(p.killedBy) && p.visitedBy == old(p.visitedBy)
      ensures forall q :: q in players && old(q.isGodfather) && !q.dead ==> q.isGodfather
      ensures forall j :: j in successions ==>
                0 <= j < |players| && old(DiesAtDawn(players[j])) && successions[j] in GodfatherCandidates(players)
      ensures forall j :: 0 <= j < |players| && old(day > 1 && players[j].isGodfather && DiesAtDawn(players[j])) ==> j in successions
      ensures forall q :: q in players && q.isGodfather && !old(q.isGodfather) ==>
                exists j :: j in successions && successions[j] == q
      ensures day <= 1 ==> successions == map[]
    {
      successions := Daybreak();
      CleanupLiving(players);
    }

    /** The deaths and notices of the pre-day step, before the ledgers are cleared. */
    method Daybreak() returns (ghost successions: map<int, Player>)
      requires Valid()
      modifies this`dayNotifications, players`dead, players`isGodfather
      ensures Valid()
      ensures forall p :: p in players ==> p.dead == old(p.dead || (day > 1 && DiesAtDawn(p)))
      ensures day > 1 ==> dayNotifications == old(dayNotifications[day := Today() + DawnNotices(players)])
      ensures day <= 1 ==> dayNotifications == old(dayNotifications[day := Today() + [GameStarted]])
      ensures forall q :: q in players && old(q.isGodfather) && !q.dead ==> q.isGodfather
      ensures forall j :: j in successions ==>
                0 <= j < |players| && old(DiesAtDawn(players[j])) && successions[j] in GodfatherCandidates(players)
      ensures forall j :: 0 <= j < |players| && old(day > 1 && players[j].isGodfather && DiesAtDawn(players[j])) ==> j in successions
      ensures forall q :: q in players && q.isGodfather && !old(q.isGodfather) ==>
                exists j :: j in successions && successions[j] == q
      ensures day <= 1 ==> successions == map[]
    {
      if day > 1 {
        successions := Dawn();
      } else {
        successions := map[];
        AddDayNotification([GameStarted]);
      }
    }

    /** The dawn of day 2 onwards: the dawn pass, and its notices or "no one was killed". */
    method Dawn() returns (ghost successions: map<int, Player>)
      requires Distinct(players) && AllPlayersValid(players)
      modifies this`dayNotifications, players`dead, players`isGodfather
      ensures AllPlayersValid(players)
      ensures forall p :: p in players ==> p.dead == old(p.dead || DiesAtDawn(p))
      ensures dayNotifications == old(dayNotifications[day := Today() + DawnNotices(players)])
      ensures forall q :: q in players && old(q.isGodfather) && !q.dead ==> q.isGodfather
      ensures forall j :: j in successions ==>
                0 <= j < |players| && old(DiesAtDawn(players[j])) && successions[j] in GodfatherCandidates(players)
      ensures forall j :: 0 <= j < |players| && old(players[j].isGodfather && DiesAtDawn(players[j])) ==> j in successions
      ensures forall q :: q in players && q.isGodfather && !old(q.isGodfather) ==>
                exists j :: j in successions && successions[j] == q
    {
      var notices;
      notices, successions := DawnPass();
      if notices == [] {
        notices := notices + [NoOneKilled];
      }
      assert notices == old(DawnNotices(players));
      AddDayNotification(notices);
    }

    // -------------------------------------------------------------------------
    // Day

    /**
      * The lynch of the nominee: it dies and is marked lynched; a lynched godfather
      * (which keeps its flag) has a successor drawn; the lynch is announced.
      */
    method Lynch(t: Player) returns (successor: Option<Player>)
      requires t in players && AllPlayersValid(players)
      modifies t`dead, t`lynched, players`isGodfather, this`dayNotifications
      ensures AllPlayersValid(players)
      ensures t.dead && t.lynched
      ensures dayNotifications == old(dayNotifications)[day := old(Today()) + [TownLynched(t.member, t.role)]]
      ensures successor.Some? <==> old(t.isGodfather)
      ensures successor.Some? ==> successor.value in GodfatherCandidates(players) && successor.value.isGodfather
      ensures forall q :: q in players && (successor.None? || q != successor.value) ==> q.isGodfather == old(q.isGodfather)
    {
      successor := Hang(t);
      AddDayNotification([TownLynched(t.member, t.role)]);
    }

    /** The lynched player dies; a lynched godfather keeps its flag and a successor is drawn. */
    method Hang(t: Player) returns (successor: Option<Player>)
      requires t in players && AllPlayersValid(players)
      modifies t`dead, t`lynched, players`isGodfather
      ensures AllPlayersValid(players)
      ensures t.dead && t.lynched
      ensures successor.Some? <==> old(t.isGodfather)
      ensures successor.Some? ==> successor.value in GodfatherCandidates(players) && successor.value.isGodfather
      ensures forall q :: q in players && (successor.None? || q != successor.value) ==> q.isGodfather == old(q.isGodfather)
    {
      assert t.isGodfather ==> t.role.IsMafia() by {
        assert PlayerValid(t, players);
      }
      t.dead := true;
      t.lynched := true;
      successor := None;
      if t.role.IsMafia() && t.isGodfather {
        var s := Succession(t);
        successor := Some(s);
      }
    }

    /**
      * The day: the Jailors' tasks; from day 2 on, the nomination task and, once a
      * player is nominated, the vote, which lynches the nominee when the living
      * players' yes votes outnumber their no votes.
      */
    method DayTasks(jailings: seq<Jailing>, ms: seq<Message>, nameMatch: NameMatcher, yes: seq<MemberId>, no: seq<MemberId>)
        returns (lynched: Option<Player>, ghost heir: Option<Player>)
      requires Valid()
      modifies this`dayNotifications, players`jails, players`jailed, players`nightRoleBlocked, players`protectedBy
      modifies players`visitedBy, players`dead, players`lynched, players`isGodfather
      ensures Valid()
      ensures lynched.Some? <==>
                && day > 1
                && old(NomineeAfter(players, chat, false, nameMatch, 2, [], ms)).Some?
                && old(VotesFrom(players, yes) > VotesFrom(players, no))
      ensures lynched.Some? ==>
                && lynched == old(NomineeAfter(players, chat, false, nameMatch, 2, [], ms))
                && lynched.value.dead && lynched.value.lynched
                && dayNotifications == old(dayNotifications)[day := old(Today()) + [TownLynched(lynched.value.member, lynched.value.role)]]
      ensures lynched.None? ==> dayNotifications == old(dayNotifications)
      ensures forall p :: p in players && (lynched.None? || p != lynched.value) ==>
                p.dead == old(p.dead) && p.lynched == old(p.lynched)
      ensures forall p :: p in players ==> p.jails == old(p.jails) || p.jails == old(p.jails) - 1
      ensures heir.Some? <==> lynched.Some? && lynched.value in old(set q | q in players && q.isGodfather)
      ensures heir.Some? ==> heir.value in GodfatherCandidates(players) && heir.value.isGodfather
      ensures forall q :: q in players && (heir.None? || q != heir.value) ==> q.isGodfather == old(q.isGodfather)
    {
      JailorDayTasks(players, jailings);
      lynched, heir := None, None;
      if day > 1 {
        lynched, heir := Trial(ms, nameMatch, yes, no);
      }
    }

    /** The nomination task, then the vote on the nominee if there is one. */
    method Trial(ms: seq<Message>, nameMatch: NameMatcher, yes: seq<MemberId>, no: seq<MemberId>)
        returns (lynched: Option<Player>, ghost heir: Option<Player>)
      requires AllPlayersValid(players)
      modifies this`dayNotifications, players`dead, players`lynched, players`isGodfather
      ensures AllPlayersValid(players)
      ensures lynched.Some? <==>
                && old(NomineeAfter(players, chat, false, nameMatch, 2, [], ms)).Some?
                && old(VotesFrom(players, yes) > VotesFrom(players, no))
      ensures lynched.Some? ==>
                && lynched == old(NomineeAfter(players, chat, false, nameMatch, 2, [], ms))
                && lynched.value.dead && lynched.value.lynched
                && dayNotifications == old(dayNotifications)[day := old(Today()) + [TownLynched(lynched.value.member, lynched.value.role)]]
      ensures lynched.None? ==> dayNotifications == old(dayNotifications)
      ensures forall p :: p in players && (lynched.None? || p != lynched.value) ==>
                p.dead == old(p.dead) && p.lynched == old(p.lynched)
      ensures heir.Some? <==> lynched.Some? && lynched.value in old(set q | q in players && q.isGodfather)
      ensures heir.Some? ==> heir.value in GodfatherCandidates(players) && heir.value.isGodfather
      ensures forall q :: q in players && (heir.None? || q != heir.value) ==> q.isGodfather == old(q.isGodfather)
    {
      lynched, heir := None, None;
      var nominee := Nominate(players, chat, ms, nameMatch);
      if nominee.None? {
        return;
      }
      assert nominee.value in players by {
        NomineeWasNominatedEnough(players, chat, false, nameMatch, 2, [], ms);
      }
      var lynch;
      lynch, heir := Vote(nominee.value, yes, no);
      if lynch {
        lynched := nominee;
      }
    }

    /**
      * The vote on a nominee: the yes and no reactions are counted, each from a living
      * player, and the nominee is lynched when the yes votes outnumber the no votes.
      */
    method Vote(nominee: Player, yes: seq<MemberId>, no: seq<MemberId>) returns (lynched: bool, ghost heir: Option<Player>)
      requires nominee in players && AllPlayersValid(players)
      modifies nominee`dead, nominee`lynched, players`isGodfather, this`dayNotifications
      ensures AllPlayersValid(players)
      ensures lynched <==> old(VotesFrom(players, yes) > VotesFrom(players, no))
      ensures lynched ==> nominee.dead && nominee.lynched
      ensures lynched ==> dayNotifications == old(dayNotifications)[day := old(Today()) + [TownLynched(nominee.member, nominee.role)]]
      ensures !lynched ==> dayNotifications == old(dayNotifications) && unchanged(nominee)
      ensures heir.Some? <==> lynched && old(nominee.isGodfather)
      ensures heir.Some? ==> heir.value in GodfatherCandidates(players) && heir.value.isGodfather
      ensures forall q :: q in players && (heir.None? || q != heir.value) ==> q.isGodfather == old(q.isGodfather)
    {
      var yesCount := CountVotes(players, yes);
      var noCount := CountVotes(players, no);
      lynched := yesCount > noCount;
      heir := None;
      if lynched {
        heir := Lynch(nominee);
      }
    }

    // -------------------------------------------------------------------------
    // Night

    /**
      * The night. Without a living godfather the night fails at once (the source
      * dereferences the missing godfather) and nothing changes. Otherwise: whether the
      * godfather may kill is read before the role blocks are lifted; the dead and the
      * role-blocked run no task and lose their block; every running Arsonist does its
      * nightfall part; then the accepted answers take effect in the order they come.
      * Afterwards no one is role-blocked, every new visit and every new kill is by a
      * player whose task ran, and no one has been cleaned.
      */
    method NightTasks(actions: seq<NightAction>) returns (crashed: bool, ghost acting: seq<Player>)
      requires Valid()
      modifies players`nightRoleBlocked, players`protectedBy, players`killedBy, players`visitedBy, players`doused
      modifies players`cleanedBy, players`disguisedAs, players`watching, players`vests, players`cleans
      ensures Valid()
      ensures crashed <==> old(Godfather(players)) == null
      ensures crashed ==> unchanged(players)
      ensures !crashed ==> forall q :: q in acting <==> q in players && !q.dead && !old(q.nightRoleBlocked)
      ensures !crashed ==> forall p :: p in players ==>
                && !p.nightRoleBlocked
                && Extends(old(p.visitedBy), p.visitedBy, acting)
                && (p.killedBy == old(p.killedBy) || p.killedBy in acting)
                && p.cleanedBy == old(p.cleanedBy)
    {
      var godfather := Godfather(players);
      if godfather == null {
        return true, [];
      }
      crashed := false;
      acting := RunNight(players, godfather, actions);
    }

    /**
      * The post-night tasks: every Lookout watching someone reports who visited that
      * player, and stops watching.
      */
    method PostNight() returns (reports: seq<WatchReport>)
      requires Distinct(players) && TargetsAssigned(players)
      modifies players`watching
      ensures TargetsAssigned(players) && CheckWinner(players, isDay) == old(CheckWinner(players, isDay))
      ensures |reports| == |old(Watches(players))|
      ensures forall i :: 0 <= i < |reports| ==>
                && (reports[i].lookout, reports[i].watched) == old(Watches(players))[i]
                && reports[i].visitors == reports[i].watched.visitedBy
      ensures forall p :: p in players ==> p.watching == (if p.role == Lookout then null else old(p.watching))
    {
      reports := [];
      for i := 0 to |players|
        invariant |reports| == |old(Watches(players[..i]))|
        invariant forall k :: 0 <= k < |reports| ==>
                    && (reports[k].lookout, reports[k].watched) == old(Watches(players[..i]))[k]
                    && reports[k].visitors == reports[k].watched.visitedBy
        invariant forall j :: 0 <= j < |players| ==>
                    players[j].watching == (if j < i && players[j].role == Lookout then null else old(players[j].watching))
      {
        var p := players[i];
        assert players[..i + 1][..i] == players[..i];
        if p.role == Lookout {
          var watched := p.watching;
          var report := p.LookoutPostNight();
          if report.Some? {
            reports := reports + [WatchReport(p, watched, report.value)];
          }
        }
      }
      assert players[..|players|] == players;
    }

    // -------------------------------------------------------------------------
    // The cycle

    /**
      * One day/night cycle: the dawn, a win check, the day, a win check, the day count
      * goes up by one, the night, a win check, and the post-night reports. It ends at
      * the first win check that finds a winner: the night only runs when both day
      * checks found none (`PlayNight` requires it). `dawnWon` is the check after the
      * dawn, `dayWon` the day's last check, made after the day's tasks unless
      * `dawnWon` already held.
      */
    method Cycle(input: CycleInput, nameMatch: NameMatcher)
        returns (outcome: Outcome, ghost nightReached: bool, ghost dawnWon: bool, ghost dayWon: bool)
      requires Valid()
      modifies this`dayNotifications, this`day, players
      ensures Valid()
      ensures day == old(day) + (if nightReached then 1 else 0)
      ensures nightReached <==> !dayWon
      ensures dayWon ==> outcome == Won
      ensures dawnWon ==> dayWon
      ensures outcome != Won ==> nightReached
      ensures dawnWon ==> outcome == Won && !nightReached
      ensures outcome == Won ==> CheckWinner(players, isDay)
      ensures outcome == Continues ==> !CheckWinner(players, isDay)
      ensures outcome == Crashed ==> Godfather(players) == null
    {
      nightReached := false;
      var won;
      ghost var lynched;
      ghost var successions, dawnFlags, heir;
      won, dawnWon, lynched, successions, dawnFlags, heir := PlayDay(input, nameMatch);
      dayWon := won;
      if won {
        return Won, nightReached, dawnWon, dayWon;
      }
      nightReached := true;
      ghost var acting;
      outcome, acting := PlayNight(input.night);
    }

    /**
      * The day half of a cycle: the dawn, a win check, the day, a win check. `dawnWon`
      * is the first win check, made right after the dawn; when it finds a winner the
      * day's tasks do not run. `lynched` is the player the day lynched, if any.
      * `dawnFlags` are the godfathers right after the dawn: the ones from before it
      * that did not die, and the ones its `successions` drew (see `PreDay`). `heir` is
      * the godfather drawn when the lynched player held the flag; no one else gains or
      * loses it during the day.
      */
    method PlayDay(input: CycleInput, nameMatch: NameMatcher)
        returns (won: bool, ghost dawnWon: bool, ghost lynched: Option<Player>,
                 ghost successions: map<int, Player>, ghost dawnFlags: set<Player>, ghost heir: Option<Player>)
      requires Valid()
      modifies this`dayNotifications, players`dead, players`isGodfather, players`lynched, players`jails
      modifies players`visitedBy, players`killedBy, players`protectedBy, players`nightRoleBlocked
      modifies players`cleanedBy, players`disguisedAs, players`jailed
      ensures Valid()
      ensures won <==> CheckWinner(players, isDay)
      ensures dawnWon ==> won && lynched.None?
      ensures dawnWon ==> forall p :: p in players ==> p.jails == old(p.jails)
      ensures lynched.None? ==> (won <==> dawnWon)
      ensures lynched.Some? ==> old(day) > 1 && lynched.value.dead && lynched.value.lynched
      ensures forall p :: p in players && (lynched.None? || p != lynched.value) ==>
                p.dead == old(p.dead || (day > 1 && DiesAtDawn(p))) && p.lynched == old(p.lynched)
      ensures lynched.None? && day > 1 ==> dayNotifications == old(dayNotifications[day := Today() + DawnNotices(players)])
      ensures lynched.None? && day <= 1 ==> dayNotifications == old(dayNotifications[day := Today() + [GameStarted]])
      ensures dawnWon ==> forall p :: p in players && !p.dead ==> p.LedgerCleared()
      ensures dawnWon ==> forall p :: p in players && p.dead ==> p.visitedBy == old(p.visitedBy)
      ensures forall p :: p in players && p.dead && (lynched.None? || p != lynched.value) ==> p.killedBy == old(p.killedBy)
      ensures DawnDrew(players, old(Flagged(players)), old(DyingAt(players, day)), old(FallenAt(players, day)),
                       successions, dawnFlags)
      ensures heir.Some? ==> lynched.Some? && heir.value in GodfatherCandidates(players) && heir.value.isGodfather
      ensures lynched.Some? ==> (heir.Some? <==> lynched.value in dawnFlags)
      ensures forall q :: q in players && (heir.None? || q != heir.value) ==> (q.isGodfather <==> q in dawnFlags)
    {
      var first;
      first, successions, dawnFlags := OpenDay();
      dawnWon := first;
      won, lynched, heir := CloseDay(first, input, nameMatch, dawnFlags);
    }

    /**
      * The dawn and the first win check of a day, with the successions the dawn
      * caused (see `PreDay`).
      */
    method OpenDay() returns (won: bool, ghost successions: map<int, Player>, ghost dawnFlags: set<Player>)
      requires Valid()
      modifies this`dayNotifications, players`dead, players`isGodfather
      modifies players`visitedBy, players`killedBy, players`protectedBy, players`nightRoleBlocked
      modifies players`cleanedBy, players`disguisedAs, players`jailed
      ensures Valid()
      ensures won <==> CheckWinner(players, isDay)
      ensures forall p :: p in players ==> p.dead == old(p.dead || (day > 1 && DiesAtDawn(p)))
      ensures day > 1 ==> dayNotifications == old(dayNotifications[day := Today() + DawnNotices(players)])
      ensures day <= 1 ==> dayNotifications == old(dayNotifications[day := Today() + [GameStarted]])
      ensures forall p :: p in players && !p.dead ==> p.LedgerCleared()
      ensures forall p :: p in players && p.dead ==> p.killedBy == old(p.killedBy) && p.visitedBy == old(p.visitedBy)
      ensures dawnFlags == Flagged(players)
      ensures DawnDrew(players, old(Flagged(players)), old(DyingAt(players, day)), old(FallenAt(players, day)),
                       successions, dawnFlags)
    {
      successions := PreDay();
      won := CheckWinner(players, isDay);
      dawnFlags := Flagged(players);
    }

    /**
      * The day's tasks and the second win check, skipped when the dawn's check
      * (`dawnWon`) already found a winner. A day that lynches no one leaves the win
      * check as it was.
      */
    method CloseDay(dawnWon: bool, input: CycleInput, nameMatch: NameMatcher, ghost flagged: set<Player>)
        returns (won: bool, ghost lynched: Option<Player>, ghost heir: Option<Player>)
      requires Valid() && (dawnWon <==> CheckWinner(players, isDay))
      requires forall q :: q in flagged <==> q in players && q.isGodfather
      modifies this`dayNotifications, players`jails, players`jailed, players`nightRoleBlocked, players`protectedBy
      modifies players`visitedBy, players`dead, players`lynched, players`isGodfather
      ensures Valid()
      ensures won <==> CheckWinner(players, isDay)
      ensures lynched.None? ==> won == old(CheckWinner(players, isDay)) && dayNotifications == old(dayNotifications)
      ensures lynched.Some? ==> day > 1 && lynched.value.dead && lynched.value.lynched
      ensures forall p :: p in players && (lynched.None? || p != lynched.value) ==>
                p.dead == old(p.dead) && p.lynched == old(p.lynched)
      ensures heir.Some? <==> lynched.Some? && lynched.value in flagged
      ensures heir.Some? ==> heir.value in GodfatherCandidates(players) && heir.value.isGodfather
      ensures forall q :: q in players && (heir.None? || q != heir.value) ==> (q.isGodfather <==> q in flagged)
      ensures dawnWon ==> won && lynched.None?
      ensures dawnWon ==> forall p :: p in players ==>
                p.jails == old(p.jails) && p.visitedBy == old(p.visitedBy) && p.LedgerCleared() == old(p.LedgerCleared())
    {
      won, lynched, heir := true, None, None;
      if dawnWon {
        return;
      }
      lynched, heir := DayTasks(input.jailings, input.nominations, nameMatch, input.yes, input.no);
      won := CheckWinner(players, isDay);
    }

    /**
      * The night half of a cycle, reached only when the day's win checks found no
      * winner: the day count goes up by one, the night, a win check, and the
      * post-night reports. A night that ran leaves no one role-blocked, adds
      * visits and kills only by players whose tasks ran (`acting`), cleans no one, and,
      * when play goes on, leaves no Lookout watching.
      */
    method PlayNight(actions: seq<NightAction>) returns (outcome: Outcome, ghost acting: seq<Player>)
      requires Valid() && !CheckWinner(players, isDay)
      modifies this`day
      modifies players`nightRoleBlocked, players`protectedBy, players`killedBy, players`visitedBy, players`doused
      modifies players`cleanedBy, players`disguisedAs, players`watching, players`vests, players`cleans
      ensures Valid() && day == old(day) + 1
      ensures outcome == Won ==> CheckWinner(players, isDay)
      ensures outcome == Continues ==> !CheckWinner(players, isDay)
      ensures outcome == Crashed <==> old(Godfather(players)) == null
      ensures outcome == Crashed ==> unchanged(players) && Godfather(players) == null
      ensures outcome != Crashed ==> forall p :: p in players ==>
                && !p.nightRoleBlocked
                && Extends(old(p.visitedBy), p.visitedBy, acting)
                && (p.killedBy == old(p.killedBy) || p.killedBy in acting)
                && p.cleanedBy == old(p.cleanedBy)
      ensures outcome == Continues ==> forall p :: p in players && p.role == Lookout ==> p.watching == null
    {
      day := day + 1;
      var crashed;
      crashed, acting := NightTasks(actions);
      if crashed {
        return Crashed, acting;
      }
      var reports;
      outcome, reports := CloseNight();
    }

    /**
      * After a night that ran: the game is won and nothing more happens, or the Lookouts
      * get their reports, stop watching, and play goes on.
      */
    method CloseNight() returns (outcome: Outcome, reports: seq<WatchReport>)
      requires Valid()
      modifies players`watching
      ensures Valid() && outcome != Crashed
      ensures outcome == Won <==> old(CheckWinner(players, isDay))
      ensures CheckWinner(players, isDay) == old(CheckWinner(players, isDay))
      ensures forall p :: p in players ==>
                && p.nightRoleBlocked == old(p.nightRoleBlocked) && p.visitedBy == old(p.visitedBy)
                && p.killedBy == old(p.killedBy) && p.cleanedBy == old(p.cleanedBy)
      ensures outcome == Won ==> reports == [] && unchanged(players)
      ensures outcome == Continues ==>
                && |reports| == |old(Watches(players))|
                && (forall i :: 0 <= i < |reports| ==>
                      (reports[i].lookout, reports[i].watched) == old(Watches(players))[i]
                      && reports[i].visitors == reports[i].watched.visitedBy)
                && forall p :: p in players ==> p.watching == (if p.role == Lookout then null else old(p.watching))
    {
      if CheckWinner(players, isDay) {
        return Won, [];
      }
      reports := PostNight();
      return Continues, reports;
    }

    /**
      * Plays cycles, one per input, until a cycle ends the game or the inputs run out;
      * a won game reports every player whose win condition holds.
      */
    method Run(inputs: seq<CycleInput>, nameMatch: NameMatcher) returns (outcome: Outcome, winners: seq<Player>)
      requires Valid()
      modifies this`dayNotifications, this`day, players
      ensures Valid() && day >= old(day)
      ensures outcome == Won ==> CheckWinner(players, isDay)
      ensures outcome == Won ==> forall p :: p in winners <==> p in players && WinCondition(p, players, isDay)
      ensures outcome == Won ==> Subsequence(winners, players)
      ensures outcome != Won ==> winners == []
    {
      outcome := Continues;
      var i := 0;
      ghost var reached: bool, dawnWon: bool, dayWon: bool;
      while i < |inputs| && outcome == Continues
        invariant 0 <= i <= |inputs|
        invariant Valid() && day >= old(day)
        invariant outcome == Won ==> CheckWinner(players, isDay)
      {
        outcome, reached, dawnWon, dayWon := Cycle(inputs[i], nameMatch);
        i := i + 1;
      }
      winners := if outcome == Won then GetWinners(players, isDay) else [];
    }

    /** Dealing the specials, then `k` Mafia, then Citizens for the rest is what `AssignedRoles` prescribes. */
    static lemma AssignedInBatches(specials: seq<Role>, startingMafia: int, mafiaBefore: nat, n: nat, k: nat, rest: nat,
                                   a: seq<Role>, b: seq<Role>, c: seq<Role>)
      requires k == MafiaTopUp(startingMafia, mafiaBefore + MafiaAmong(specials))
      requires n == |specials| + k + rest
      requires a == specials && b == Repeat(Mafia, k) && c == Repeat(Citizen, rest)
      ensures a + b + c == AssignedRoles(specials, startingMafia, mafiaBefore, n)
    {
    }

    /** Roles and members of three consecutive batches of players, taken together. */
    static lemma BatchesCombine(a: seq<Player>, b: seq<Player>, c: seq<Player>)
      ensures RolesOf(a + b + c) == RolesOf(a) + RolesOf(b) + RolesOf(c)
      ensures MembersOf(a + b + c) == MembersOf(a) + MembersOf(b) + MembersOf(c)
    {
    }
  }
}
