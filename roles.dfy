/**
  * The role catalog: attack and defense tiers and the closed set of roles with
  * the class-level attributes each role carries (alignment flags, tiers,
  * abilities, catalog id).
  */
module Roles {
  import opened Wrappers

  /** Strength of a role's attack; the tiers carry the values 1, 2 and 3. */
  datatype AttackType = BasicAttack | PowerfulAttack | UnstoppableAttack {
    function Value(): (v: int)
      ensures 1 <= v <= 3
    {
      match this
      case BasicAttack => 1
      case PowerfulAttack => 2
      case UnstoppableAttack => 3
    }

    /** `attack > defense` */
    predicate Gt(d: DefenseType) { Value() > d.Value() }
    /** `attack < defense` */
    predicate Lt(d: DefenseType) { Value() < d.Value() }
    /** `attack >= defense` */
    predicate Ge(d: DefenseType) { Value() >= d.Value() }
    /** `attack <= defense` */
    predicate Le(d: DefenseType) { Value() <= d.Value() }
  }

  /** Strength of a role's defense; the tiers carry the values 1, 2 and 3. */
  datatype DefenseType = BasicDefense | PowerfulDefense | UnstoppableDefense {
    function Value(): (v: int)
      ensures 1 <= v <= 3
    {
      match this
      case BasicDefense => 1
      case PowerfulDefense => 2
      case UnstoppableDefense => 3
    }

    /** `defense > attack` */
    predicate Gt(a: AttackType) { Value() > a.Value() }
    /** `defense < attack` */
    predicate Lt(a: AttackType) { Value() < a.Value() }
    /** `defense >= attack` */
    predicate Ge(a: AttackType) { Value() >= a.Value() }
    /** `defense <= attack` */
    predicate Le(a: AttackType) { Value() <= a.Value() }
  }

  /** The tiers compare as their values do, and the comparison is a total order. */
  lemma TierOrderIsTotal(a: AttackType, d: DefenseType)
    ensures a.Gt(d) <==> a.Value() > d.Value()
    ensures a.Le(d) <==> !a.Gt(d)
    ensures a.Ge(d) <==> !a.Lt(d)
    ensures (a.Gt(d) && !a.Lt(d) && a.Value() != d.Value())
         || (!a.Gt(d) && a.Lt(d) && a.Value() != d.Value())
         || (!a.Gt(d) && !a.Lt(d) && a.Value() == d.Value())
  {
  }

  /** Each defense comparison is the mirror image of the attack comparison. */
  lemma TierComparisonsMirror(a: AttackType, d: DefenseType)
    ensures d.Ge(a) <==> a.Le(d)
    ensures d.Gt(a) <==> a.Lt(d)
    ensures d.Le(a) <==> a.Ge(d)
    ensures d.Lt(a) <==> a.Gt(d)
    ensures d.Ge(a) <==> !a.Gt(d)
  {
  }

  /** The tiers of one level are equally strong: an attack never beats a defense of its own level. */
  lemma EqualTiersFavourTheDefender(a: AttackType, d: DefenseType)
    requires a.Value() == d.Value()
    ensures !a.Gt(d) && d.Ge(a)
  {
  }

  /** Every role of the game. */
  datatype Role =
    | Citizen | Doctor | Sheriff | Jailor | PI | Lookout
    | Mafia | Janitor | Disguiser
    | Survivor | Jester | Executioner | Arsonist
  {
    /** The id used by the configuration token. */
    function Id(): nat {
      match this
      case Citizen => 0
      case Doctor => 1
      case Sheriff => 2
      case Jailor => 3
      case PI => 4
      case Lookout => 5
      case Mafia => 75
      case Janitor => 76
      case Disguiser => 77
      case Survivor => 150
      case Jester => 151
      case Executioner => 152
      case Arsonist => 153
    }

    predicate IsCitizen() {
      this in {Citizen, Doctor, Sheriff, Jailor, PI, Lookout}
    }

    predicate IsMafia() {
      this in {Mafia, Janitor, Disguiser}
    }

    predicate IsIndependent() {
      this in {Survivor, Jester, Executioner, Arsonist}
    }

    predicate IsJailor() {
      this == Jailor
    }

    /** The attack tier; roles that never attack have none. */
    function Attack(): Option<AttackType> {
      match this
      case Sheriff => Some(BasicAttack)
      case Jailor => Some(UnstoppableAttack)
      case Mafia => Some(BasicAttack)
      case Janitor => Some(BasicAttack)
      case Disguiser => Some(BasicAttack)
      case Arsonist => Some(UnstoppableAttack)
      case _ => None
    }

    /** The defense tier; roles without protection have none. */
    function Defense(): Option<DefenseType> {
      match this
      case Doctor => Some(PowerfulDefense)
      case Jailor => Some(PowerfulDefense)
      case Survivor => Some(BasicDefense)
      case Arsonist => Some(BasicDefense)
      case _ => None
    }

    /** Whether a living player of this role can still kill mafia overnight. */
    predicate CanKillMafiaAtNight() {
      this == Sheriff
    }

    /** Whether the win only counts alongside another outcome at game end. */
    predicate WinIsMulti() {
      this == Survivor
    }

    /** How many of this role a game may hold (0 = no limit). */
    function Limit(): nat {
      if this in {Janitor, Jester, Executioner} then 1 else 0
    }

    predicate IsSpecialMafia() {
      this in SpecialMafia
    }
  }

  const SpecialMafia: seq<Role> := [Janitor, Disguiser]
  const SpecialCitizens: seq<Role> := [Doctor, Sheriff, PI, Jailor, Lookout]
  const SpecialIndependents: seq<Role> := [Jester, Executioner, Arsonist, Survivor]
  const SpecialRoles: seq<Role> := SpecialMafia + SpecialCitizens + SpecialIndependents
  const AllRoles: seq<Role> := SpecialRoles + [Citizen, Mafia]

  /** Each role has exactly one alignment, and its catalog id determines it. */
  lemma AlignmentsPartitionRoles(r: Role)
    ensures r.IsCitizen() || r.IsMafia() || r.IsIndependent()
    ensures !(r.IsCitizen() && r.IsMafia()) && !(r.IsCitizen() && r.IsIndependent())
    ensures !(r.IsMafia() && r.IsIndependent())
    ensures r.IsCitizen() <==> r.Id() < 75
    ensures r.IsMafia() <==> 75 <= r.Id() < 150
    ensures r.IsIndependent() <==> 150 <= r.Id()
  {
  }

  /**
    * The catalog lists every one of the thirteen roles (so each exactly once);
    * only Citizen and Mafia are not special.
    */
  lemma CatalogListsEveryRole(r: Role)
    ensures r in AllRoles && |AllRoles| == 13
    ensures r in SpecialRoles <==> r != Citizen && r != Mafia
  {
  }
}
