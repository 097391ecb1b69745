# Mafia game engine, modelled in Dafny

This project models the rule engine of a chat-server bot that runs games of Mafia.
It covers the player and role catalogue (`extensions/players.py`), the game's
phase loop (`extensions/game.py`) and the input validators (`extensions/utils.py`).

- **Roles** (`roles.dfy`). The attack and defense tiers and how they compare.
  The thirteen roles with their alignment, id, attack and defense tier, and the
  flags "can kill mafia at night" and "wins alongside others". The role
  constants of each Python class become functions of the `Role` datatype.
- **Players** (`players.dfy`). A `Player` is a class whose fields change in place:
  - the life flags;
  - the per-cycle ledger (who killed, protected, cleaned or disguised the player,
    who visited it, the role block and the jail);
  - the limited counters (jails, vests, cleans);
  - the Lookout's watch and the Executioner's target.

  Each role's day or night task is a method that takes the player's answer as a
  parameter.
- **Roster** (`roster.dfy`). The aggregates over the game's ordered roster: the
  living counts, the godfather lookup, the godfather candidates, each role's win
  condition, `check_winner` and `get_winners`.
- **Validators** (`utils.py` → `utils.dfy`):
  - the player lookup, with the id/mention recogniser written out as the regular
    expressions accept it;
  - the number check;
  - the private-channel answer check;
  - the godfather's kill-order check;
  - the nomination counter, as a class that updates a shared nominations record.
- **Night** (`night.dfy`). Nightfall: the kill guard read before role blocks are
  lifted, the role-block loop, and the Arsonists' synchronous start. Then the
  effect of every answer, and a night invariant: every new visit and kill is by
  a player whose task ran, no one is cleaned, and the roster stays consistent.
- **Game** (`game.dfy`). The `MafiaGame` class:
  - role dealing (shuffle, specials, the mafia top-up, citizens);
  - channel and target setup and the first godfather;
  - the dawn death pass with succession and notices, and the ledger cleanup;
  - the Jailors' day tasks, the nomination and the vote, and the lynch;
  - the night and the Lookouts' post-night reports;
  - the cycle with its three win checks, and the game loop.

Inputs that the source waits for become parameters: a player's answer, the
nomination messages, the reacting users and the night's answers in arrival
order. Random choices become Dafny's `:|` (any value satisfying the condition).
The fuzzy name matcher and Python's `int()` are function parameters.

Where the code does something surprising, the model follows the code:

- The dawn survival test spares a victim only when the attack tier is
  *greater* than the protector's defense tier. The night kill guard stops the
  godfather when the defense is *at least* the attack. `Game.GuardOppositeToDawnTest`
  proves these are exact opposites.
- A Janitor starts with 3 cleans but only cleans when it has more than 3, so it
  never cleans anyone.
- `choose_godfather` draws among all plain Mafia, dead ones included.
- `is_day` is set once and never cleared, so every win check uses the daytime rules.
- A lynched godfather keeps its flag.
- The roster invariant makes the `except IndexError` around the lynch-time
  succession unreachable: the lynched godfather is itself a candidate.
- A night with no living godfather dereferences a missing value. The model
  ends such a cycle with the outcome `Crashed` and changes nothing.

## Model

| member | source | states |
|---|---|---|
| Roles.AttackType.Value | extensions/players.py:15-18 | attack tiers are numbered 1 to 3 |
| Roles.DefenseType.Value | extensions/players.py:33-36 | defense tiers are numbered 1 to 3 |
| Roles.TierOrderIsTotal | extensions/players.py:20-30 | attack-versus-defense comparisons are comparisons of the tier numbers; `<=` is the negation of `>`, `>=` of `<`, and exactly one of `>`, `<` or "equal" holds |
| Roles.TierComparisonsMirror | extensions/players.py:20-48 | a defense compared with an attack gives the mirrored answer of the attack compared with the defense |
| Roles.EqualTiersFavourTheDefender | extensions/players.py:38-48 | with equal tiers the attack is not stronger, and the defense is at least as strong |
| Roles.AlignmentsPartitionRoles | extensions/players.py:56-59 | every role is exactly one of citizen, mafia or independent; citizens have ids below 75, mafia 75 to 149, independents 150 and up |
| Roles.CatalogListsEveryRole | extensions/players.py:585-590 | the catalogue holds all thirteen roles, and the special roles are every role except Citizen and Mafia |
| Players.Player.constructor | extensions/players.py:51-89 | a new player holds its member and role, is alive and unflagged with an empty ledger, and starts with 3 jails, 4 vests and 3 cleans |
| Players.Player.CleanupAttrs | extensions/players.py:97-104 | the ledger (visits, killer, protector, cleaner, disguise, role block, jail) is emptied and nothing else changes |
| Players.Player.SetChannel | extensions/players.py:109-110 | the player's channel becomes the given one |
| Players.Player.Visit | extensions/players.py:133-134 | the actor is appended to the visitors |
| Players.Player.Protect | extensions/players.py:112-114 | the actor becomes the protector and is appended to the visitors |
| Players.Player.Kill | extensions/players.py:116-118 | the actor becomes the killer and is appended to the visitors |
| Players.Player.Clean | extensions/players.py:120-122 | the actor becomes the cleaner and is appended to the visitors |
| Players.Player.Disguise | extensions/players.py:124-126 | the player is disguised as the cover and the actor is appended to the visitors |
| Players.Player.Jail | extensions/players.py:128-131 | the player is jailed, protected by the actor and visited by it |
| Players.Player.DoctorNight | extensions/players.py:218-223 | the patient is protected and visited by the Doctor |
| Players.Player.SheriffNight | extensions/players.py:236-249 | a shot at a citizen, or at someone disguised as one, kills the Sheriff and leaves only a visit on the suspect; any other shot kills the suspect and leaves the Sheriff untouched |
| Players.Player.JailorDay | extensions/players.py:267-276 | with no jails left nothing changes; otherwise the prisoner is role-blocked, jailed, protected and visited by the Jailor, the Jailor holds it, and one jail is used |
| Players.Player.JailorExecute | extensions/players.py:292-294 | the held prisoner is killed and visited by the Jailor |
| Players.Player.LookoutNight | extensions/players.py:368-371 | the Lookout watches the chosen player |
| Players.Player.LookoutPostNight | extensions/players.py:373-388 | without a watch there is no report; otherwise the report is the watched player's visitors; the watch is cleared either way |
| Players.Player.JanitorNight | extensions/players.py:428-436 | with 3 cleans or fewer nothing changes; with more, the corpse is cleaned and visited and one clean is used |
| Players.Player.DisguiserNight | extensions/players.py:447-463 | when either chosen player is jailed the mafioso is unchanged; otherwise it is disguised as the cover and visited by the Disguiser |
| Players.Player.SurvivorNight | extensions/players.py:484-503 | with a vest left and the vest accepted, one vest is used and the Survivor protects itself; otherwise nothing changes |
| Players.Player.ArsonistNightfall | extensions/players.py:558-564 | the Arsonist protects itself; its two lists hold exactly the living doused and the living undoused players of the roster; a roster without repeats gives a doused list without repeats |
| Players.Player.ArsonistNight | extensions/players.py:567-577 | choosing itself kills and visits every listed doused player; choosing another player douses and visits that player only and kills no one |
| Players.Player.SameAlignmentMeaning | extensions/players.py:347-349 | the PI's comparison is symmetric; an independent player shares no alignment; two players who are not independent share one exactly when both or neither are mafia |
| Roster.CountAlive | extensions/game.py:94-96 | the living never outnumber the roster |
| Roster.TotalsOrdered | extensions/game.py:84-100 | living mafia plus living citizens is at most the living, which is at most the roster size |
| Roster.NoLivingMafia | extensions/game.py:84-86 | the mafia count is zero exactly when every mafia player of the roster is dead |
| Roster.SoleSurvivor | extensions/game.py:94-96 | for a living player of a roster without repeats, the living count is one exactly when everyone else is dead |
| Roster.LivingMemberCounted | extensions/game.py:94-96 | a living member makes the living count positive |
| Roster.NoneAlive | extensions/game.py:94-96 | the living count is zero exactly when everyone is dead |
| Roster.Godfather | extensions/game.py:102-106 | null exactly when no living player is flagged; otherwise the first living flagged player in roster order |
| Roster.GodfatherCandidates | extensions/game.py:184-192 | every candidate is a plain Mafia player of the roster |
| Roster.EveryPlainMafiaIsCandidate | extensions/game.py:184-192 | every plain Mafia player, dead or alive, is a candidate |
| Roster.MafiaWinsInIntegers | extensions/players.py:400-413 | by day the mafia win exactly when no living player can kill mafia at night and 2·mafia ≥ living; by night exactly when 2·mafia > living |
| Roster.WinConditionMeaning | extensions/players.py:205-582 | citizens win once every mafia player is dead; mafia roles win as the mafia rule says; the Survivor wins while alive; the Jester once lynched or killed by a non-mafia killer; the Executioner once its target is lynched, or its target died unlynched and it was lynched, or it was killed by a non-mafia killer; the Arsonist when it alone lives |
| Roster.MafiaBlockedByNightKiller | extensions/players.py:401-409 | by day no mafia role wins while a living player can kill mafia at night |
| Roster.DecisiveWinFromMeaning | extensions/game.py:172-178 | the loop from index k finds a winner exactly when some player from k on has a win that is not shared and meets its condition |
| Roster.CheckWinnerMeaning | extensions/game.py:172-178 | the game is won exactly when some player whose win is not shared meets its condition |
| Roster.WinnersFrom | extensions/game.py:180-182 | the winners from index k on are exactly the players from k on that meet their condition, listed in roster order (a subsequence of the roster from k) |
| Roster.GetWinners | extensions/game.py:180-182 | a player is a winner exactly when it is in the roster and meets its condition, and the winners are listed in roster order (a subsequence of the roster) |
| Roster.SubsequencePositions | extensions/game.py:180-182 | a subsequence of the roster is made of roster players taken at strictly increasing positions, so the winners list keeps roster order |
| Roster.DecisiveWinnerIsReported | extensions/game.py:172-182 | when the game is won, the reported winners include a player whose win is not shared |
| Utils.WithoutFinalNewline | extensions/utils.py:38 | the text an end-anchored pattern sees is the argument, or the argument less one final newline |
| Utils.MentionBody | extensions/utils.py:38 | a found body is what lies inside `<@…>` or `<@!…>` |
| Utils.RecogniseId | extensions/utils.py:38 | a recognised id is 15 to 20 decimal digits |
| Utils.RecogniseIdExactly | extensions/utils.py:38 | the recogniser returns token t exactly when t is an id token and the argument is one of its six spellings (bare, `<@t>`, `<@!t>`, each with or without one final newline) |
| Utils.RecognisesEveryForm | extensions/utils.py:38 | each of the six spellings of an id token is recognised as that token |
| Utils.MentionRecognised | extensions/utils.py:38 | a mention of an id token, with or without `!` and the final newline, is recognised as the token |
| Utils.MentionBodyIsToken | extensions/utils.py:38 | a mention is not itself an id token, and its inside is the token |
| Utils.FindMember | extensions/utils.py:47 | no result exactly when no player has the id; otherwise the first player with it |
| Utils.GetMafiaPlayer | extensions/utils.py:30-52 | no game gives BadArgument; any other failure is MemberNotFound of the argument; a found player is in the roster; for an id or mention, success exactly when some player has that member id, and the player found has it |
| Utils.IdLookupFindsFirstMatch | extensions/utils.py:45-47 | an id lookup resolves to the first roster player with that member id |
| Utils.MinMaxCheckBounds | extensions/utils.py:59-72 | an accepted answer is in the command's channel, from its author, and parses to an amount in [min, max]; an empty range accepts nothing; widening the range keeps every accepted answer |
| Utils.PrivateChannelCheck | extensions/utils.py:130-150 | accepted exactly when the answer is in the player's own channel, from the player, names a roster player, and names someone else unless choosing oneself is allowed |
| Utils.PrivateChoiceIsAnotherPlayer | extensions/utils.py:144-148 | when choosing oneself is not allowed, an accepted answer names a roster player other than the chooser |
| Utils.MafiaKillCheck | extensions/utils.py:153-171 | raises exactly when the message is in the mafia chat and there is no godfather; an accepted order is in the mafia chat, from the godfather, and names a non-mafia roster player |
| Utils.Before | extensions/utils.py:98 | the result is the prefix of the text before the first occurrence of the separator, or all of it when there is none |
| Utils.NomsNeeded | extensions/utils.py:81-84 | one nomination is needed exactly in mafia mode while some mafia lives, otherwise two |
| Utils.NominationAccepted | extensions/utils.py:86-118 | an accepted nomination is in the channel, from a player, carries the prefix, and names a living roster player other than its author (and not mafia in mafia mode) |
| Utils.NominationRejections | extensions/utils.py:86-112 | each of the rejection conditions alone rejects the message: wrong channel, author not a player, no prefix, target not found, self-nomination, dead target, mafia target in mafia mode |
| Utils.TallyCountsOccurrences | extensions/utils.py:114 | a target's count is the number of accepted nominations of it, whoever made them |
| Utils.TallyStep | extensions/utils.py:114-118 | one more accepted nomination adds one to that target's count only |
| Utils.Nominations.constructor | extensions/game.py:741 | a day's nominations start with no counts, no nominee and nothing accepted |
| Utils.NominationCheck.constructor | extensions/utils.py:75-84 | the check keeps its roster, record, channel and mode, and fixes the number needed when it is made |
| Utils.NominationCheck.Check | extensions/utils.py:86-125 | a rejected message changes nothing; an accepted one is recorded, and the check succeeds exactly when the target's count reaches the number needed, which makes it the nominee |
| Utils.NomineeWasNominatedEnough | extensions/utils.py:86-118 | a nominee is a living roster player, never mafia in mafia mode, named by one of the messages, and short of the number needed before the messages |
| Utils.TargetsAt | extensions/utils.py:86-112 | the verdict recorded for each message is the nomination check of that message |
| Utils.FirstToReachIsFirstDecided | extensions/utils.py:86-118 | the count stops at the first message whose target's accepted count, over the nominations so far and up to that message, equals the number needed, and that target is the nominee; there is no nominee exactly when no message does so |
| Utils.OccurrencesOfAppend | extensions/utils.py:114 | appending a nomination adds one occurrence of its target and none of anything else |
| Utils.TwoNominationsNeeded | extensions/utils.py:81-118 | with two needed, one accepted nomination never opens a vote, and two of the same target do, whoever wrote them |
| Night.Prey | extensions/game.py:598-602 | the godfather's list holds only living non-mafia roster players |
| Night.EveryLivingNonMafiaIsPrey | extensions/game.py:598-602 | every living non-mafia player is on the godfather's list |
| Night.GodfatherStoppedByAnyProtection | extensions/game.py:622-625 | the godfather's basic attack fails exactly when the target has a protector |
| Night.RoleBlocks | extensions/game.py:635-640 | no one stays role-blocked, and the tasks that run are exactly those of the players who were living and not role-blocked |
| Night.ArsonistsNightfall | extensions/players.py:558-564 | every running Arsonist protects itself and gets exactly the living doused and living undoused players as its lists; no one else's protection changes |
| Night.Heal | extensions/players.py:218-223 | the patient is protected and visited by the Doctor, and the night invariant is kept |
| Night.Fire | extensions/players.py:236-249 | the suspect is visited by the Sheriff; a shot at a citizen, or at someone disguised as one, kills the Sheriff and not the suspect; any other shot kills the suspect and not the Sheriff; the night invariant is kept |
| Night.ExecutePrisoner | extensions/players.py:283-303 | the Jailor's held prisoner is killed and visited by the Jailor, and the night invariant is kept |
| Night.Clean | extensions/players.py:428-436 | the Janitor and the corpse are unchanged |
| Night.Disguise | extensions/players.py:447-463 | when either chosen player is jailed the mafioso is unchanged; otherwise it is disguised as the cover and visited by the Disguiser; the night invariant is kept |
| Night.WearVest | extensions/players.py:484-503 | with a vest left, one vest is used and the Survivor protects itself; with none, nothing changes; the night invariant is kept |
| Night.DouseOrIgnite | extensions/players.py:567-577 | choosing itself, the Arsonist kills and visits every doused player; choosing another, it douses and visits that player without killing it; the night invariant is kept |
| Night.Ignite | extensions/players.py:572-574 | every doused player is killed and visited by the Arsonist, and the night invariant is kept |
| Night.Douse | extensions/players.py:575-577 | the chosen player is doused and visited by the Arsonist and its killer is unchanged; the night invariant is kept |
| Night.Strike | extensions/game.py:614-631 | when the guard stops the kill the target is unchanged; otherwise it is killed and visited by the godfather; the night invariant is kept |
| Night.Answer | extensions/game.py:639-644 | each kind of accepted answer has its task's effect (the Doctor's protection, the Sheriff's shot and its backfire, the Jailor's execution, the Lookout's watch, the Janitor's no-op, the disguise unless someone is jailed, the vest, the ignition or the dousing, the godfather's kill unless the guard stops it), and the night invariant is kept |
| Night.BeginNight | extensions/game.py:598-640 | the godfather may kill exactly when it was not role-blocked at nightfall; its list is `Prey` of the roster; the tasks that run are those of the living players who were not blocked; exactly the running Arsonists get lists, holding the living doused and undoused players, and protect themselves; the invariant holds against each player's ledger at nightfall |
| Night.LiftBlocks | extensions/game.py:635-640 | the tasks that run are those of the living players who were not role-blocked, and the night invariant holds against the ledgers at nightfall |
| Night.KindleArsonists | extensions/players.py:558-564 | exactly the running Arsonists get lists, holding the living doused and living undoused players, and each protects itself; nothing else of the nightfall values changes and the night invariant is kept |
| Night.AnswerAll | extensions/game.py:642-647 | after the answers the invariant holds, and every task that took an answer is the actor of one of them |
| Night.RunNight | extensions/game.py:586-649 | afterwards the roster is consistent; no one is role-blocked; every new visit and kill is by a player whose task ran; no one is cleaned |
| Game.AssignedRolesShape | extensions/game.py:197-213 | every member gets a role; the specials come first; everyone after them is a plain Mafia or a Citizen; the living mafia then reach the starting number, or more when the specials already exceed it |
| Game.CountMafiaAppend | extensions/game.py:207 | the living mafia of two rosters together add up |
| Game.CountMafiaOfLiving | extensions/game.py:207 | among living players the mafia count is the number of mafia roles |
| Game.Citizens | extensions/players.py:530 | the draw list holds only citizen players of the roster |
| Game.EveryCitizenListed | extensions/players.py:530 | every citizen of the roster is on the draw list |
| Game.AnnouncedAreUncleanedDeaths | extensions/game.py:676-690 | every dawn notice is for a player who dies at dawn with an uncleaned body |
| Game.UncleanedDeathIsAnnounced | extensions/game.py:676-690 | every player who dies at dawn with an uncleaned body is announced, with its role and its killer's role |
| Game.NoOneKilledMeaning | extensions/game.py:714-715 | "no one was killed" is announced exactly when no uncleaned body was found, and it is then the only notice |
| Game.MafiaVictimNeverSpared | extensions/game.py:663-666 | a player attacked by a mafia role is never spared at dawn |
| Game.GuardOppositeToDawnTest | extensions/game.py:663-666 | for a protected victim, the night guard would have stopped the kill exactly when the dawn test does not spare it |
| Game.CleanupLiving | extensions/game.py:721-724 | every living player's ledger is cleared, the dead are unchanged, and the roster stays consistent |
| Game.JailorDayTasks | extensions/game.py:759-764 | each player loses at most one jail, and anyone newly role-blocked is protected by a Jailor |
| Game.JailorAnswer | extensions/players.py:267-276 | with no jails left nothing changes; otherwise one jail is used, the Jailor holds the prisoner, and the prisoner is role-blocked, jailed, protected and visited by the Jailor; the roster stays consistent |
| Game.Nominate | extensions/game.py:744-749 | the nominee is the one `NomineeAfter` gives for the messages, with two nominations needed |
| Game.VotesFrom | extensions/game.py:783-788 | no more votes than reacting users |
| Game.CountVotes | extensions/game.py:781-788 | the loop counts exactly the reacting users who are living players |
| Game.VotesCountLivingReactors | extensions/game.py:783-788 | with each user reacting once, the votes are the number of distinct living players who reacted |
| Game.WatchesAreTheLookouts | extensions/players.py:373-388 | a (Lookout, watched) pair is listed exactly when that Lookout of the roster watches that player |
| Game.MafiaGame.constructor | extensions/game.py:56-81 | a new game holds its members and configuration, with no players, daytime, day 1, no notices, and phase lengths of 45 and 90 |
| Game.MafiaGame.AddDayNotification | extensions/game.py:119-123 | the notices are appended to today's announcements; other days are untouched |
| Game.MafiaGame.DayLength | extensions/game.py:729-731 | day 1 lasts half the configured length; later days last all of it |
| Game.MafiaGame.ChooseGodfather | extensions/game.py:184-195 | fails exactly when there is no candidate; otherwise a candidate becomes godfather, no other flag changes, and roster consistency is kept |
| Game.MafiaGame.Enrol | extensions/game.py:202-205 | the last member in the pool becomes a fresh player of the role at the end of the roster |
| Game.MafiaGame.Deal | extensions/game.py:202-213 | the roster grows by one fresh player per role, in order, and the pool gives up exactly the members they hold |
| Game.MafiaGame.Shuffle | extensions/game.py:199-200 | the pool keeps the same members, in any order |
| Game.MafiaGame.PickPlayers | extensions/game.py:197-213 | the pool is emptied into the roster; the new players hold exactly the pool's members and exactly the roles `AssignedRoles` prescribes |
| Game.MafiaGame.SetupChannels | extensions/game.py:263-285 | every player gets its channel in roster order; every Executioner's target is a citizen of the roster; it fails exactly when there is an Executioner and no citizen |
| Game.MafiaGame.OpenGame | extensions/game.py:553-555 | on success the game invariant holds, every player has its channel, and the godfather is a plain Mafia; failures name their cause |
| Game.MafiaGame.FirstGodfather | extensions/game.py:555 | fails exactly when there is no candidate; on success the game invariant holds with a plain Mafia godfather |
| Game.MafiaGame.SoleGodfatherIsValid | extensions/game.py:193 | a fresh roster with one flagged plain Mafia is consistent and has that godfather |
| Game.MafiaGame.Start | extensions/game.py:548-555 | every member plays, exactly the prescribed roles are dealt, and on success the game invariant holds with a plain Mafia godfather |
| Game.MafiaGame.DawnFor | extensions/game.py:656-712 | the player dies exactly when it dies at dawn; its notice is its death notice; a successor is drawn exactly when a godfather dies, and it is a candidate who holds the flag unless the draw fell on the dead one; the dead godfather loses the flag; no other flag changes |
| Game.MafiaGame.Demote | extensions/game.py:709-712 | a successor is drawn first: a candidate who holds the flag unless it is the dead godfather; then the dead godfather loses the flag; every other flag is kept |
| Game.MafiaGame.Succession | extensions/game.py:709-711 | the draw never fails, because the dead godfather is a candidate; the successor is a flagged candidate and no other flag changes |
| Game.MafiaGame.DawnPass | extensions/game.py:656-712 | exactly the players who die at dawn die; the notices are the roster-order announcements of the uncleaned deaths; every godfather who dies has a successor drawn among the candidates, every new godfather was drawn so, and living godfathers keep the flag |
| Game.MafiaGame.DawnLoop | extensions/game.py:656-712 | after the loop over the roster: exactly the dawn deaths, the roster-order notices, and the successions recorded by the roster position of each godfather who died |
| Game.MafiaGame.DawnStep | extensions/game.py:656-712 | one roster position of the pass: its death and notice, and its succession recorded so that the pass so far stays described |
| Game.MafiaGame.DawnFate | extensions/game.py:656-712 | the death and notice at one roster position, and a draw exactly when a godfather dies there |
| Game.MafiaGame.PassStep | extensions/game.py:656-712 | one position's death and draw keep the description of the pass so far |
| Game.MafiaGame.PreDay | extensions/game.py:651-726 | from day 2 the dawn deaths happen, with a successor drawn for each godfather who dies, and their notices (or "no one was killed") are announced; on day 1 the start is announced and nothing is drawn; living players' ledgers are cleared and the dead keep their killer and visitors |
| Game.MafiaGame.Daybreak | extensions/game.py:653-719 | deaths and successions only from day 2; the day's announcement is the dawn notices from day 2, or the start on day 1 |
| Game.MafiaGame.Dawn | extensions/game.py:653-717 | the dawn deaths and their successions, and the day's announcements extended by their notices or by "no one was killed" |
| Game.MafiaGame.Lynch | extensions/game.py:790-813 | the nominee dies lynched; a successor is drawn exactly when it was godfather, from the candidates, and holds the flag; no one but that successor gains or loses the flag; the lynch is announced |
| Game.MafiaGame.Hang | extensions/game.py:791-810 | the nominee dies lynched; a successor is drawn exactly when it was godfather, from the candidates, and holds the flag; no one but that successor gains or loses the flag |
| Game.MafiaGame.DayTasks | extensions/game.py:728-817 | someone is lynched exactly when it is day 2 or later, a nominee emerges from the messages, and the living yes votes outnumber the no votes, and it is that nominee; no one else dies; each Jailor uses at most one jail; an heir is drawn exactly when the lynched player was godfather, and no one but the heir gains or loses the flag |
| Game.MafiaGame.Trial | extensions/game.py:766-793 | the lynch happens exactly when there is a nominee and the living yes votes outnumber the no votes, and it is that nominee who is lynched and announced; no one else dies; an heir is drawn exactly when the lynched player was godfather, and no one but the heir gains or loses the flag |
| Game.MafiaGame.Vote | extensions/game.py:776-793 | the nominee is lynched and announced exactly when the living yes votes outnumber the no votes; an heir is drawn exactly when the lynched nominee was godfather, and no one but the heir gains or loses the flag; without a lynch the nominee and the announcements are unchanged and no flag moves |
| Game.MafiaGame.NightTasks | extensions/game.py:586-649 | the night fails exactly when there is no living godfather, and then nothing changes; otherwise the running tasks are those of the living unblocked players, and new visits and kills are only theirs |
| Game.MafiaGame.PostNight | extensions/game.py:542-544 | one report per watching Lookout, in roster order, listing the watched player's visitors; every Lookout stops watching; the win check is unaffected |
| Game.MafiaGame.Cycle | extensions/game.py:527-546 | the night is reached exactly when the day's last check (after the dawn, or after the day's tasks) found no winner, and a day won at either check ends the cycle won, with the day count unchanged; a won cycle has a winner; a continuing cycle has none and the day count went up by one; a failed night had no godfather |
| Game.MafiaGame.PlayDay | extensions/game.py:527-535 | the win check right after the dawn comes first, and when it holds the day's tasks do not run (no jail used, ledgers of the living cleared, the dead keep their visitors); otherwise the day ends won exactly when the second check holds; only the dawn deaths and the lynched player die, and the other dead keep their killer; the dawn's successions are those `DawnDrew` describes; a lynched godfather's heir is drawn from the candidates, and otherwise the godfathers are those right after the dawn |
| Game.MafiaGame.OpenDay | extensions/game.py:529-531 | after the dawn, won exactly when the win check holds, with the dawn deaths and notices; living players' ledgers are cleared and the dead keep their killer and visitors; every godfather who dies at dawn has a successor drawn from the candidates, every godfather who did not fall keeps the flag, and the only new godfathers are drawn successors (`DawnDrew`) |
| Game.MafiaGame.CloseDay | extensions/game.py:532-534 | skipped, won and changing no jail, visitor or ledger, when the dawn's check found a winner; otherwise after the day's tasks, won exactly when the win check holds; a day without a lynch leaves the check and the announcements as they were; an heir is drawn exactly when the lynched player was godfather, and no one but the heir gains or loses the flag |
| Game.MafiaGame.PlayNight | extensions/game.py:536-545 | runs only when the day ended without a winner; the day count goes up by one; a failed night had no godfather and changes no player; otherwise no one stays role-blocked, new visits and kills are only by players whose task ran, no one is cleaned; a won night has a winner, a continuing one none and no Lookout left watching |
| Game.MafiaGame.CloseNight | extensions/game.py:539-546 | won exactly when the win check already held, and then nothing changes; otherwise one report per watching Lookout and every Lookout stops watching; the win check and the night's effects are unaffected |
| Game.MafiaGame.Run | extensions/game.py:559-569 | a won game has a winner, and its reported winners are exactly the players who meet their win condition, in roster order without repeats |

## Left out

- Chat-server I/O is not modelled: channel and category creation, permissions, roles, webhooks, embeds and message text. Notices are datatype values, and a channel is an id.
- Setup dialogs, the hexadecimal configuration string and the role-name converter are not modelled. The configuration arrives as constructor parameters.
- Timing, timeouts and cancellation are not modelled. An answer that never arrives is simply absent from the input, and the night's answers are a sequence in arrival order.
- The Jailor's message relay and the `unjail` timer are not modelled. Only the `Execute` word's effect is.
- The PI's night reports only the alignment comparison (`Players.Player.SameAlignment`); the message sent is left out.
- Fuzzy name matching and `int()` parsing are function parameters. The call sites' index-to-name mappings are not modelled: the predicates follow their definitions in `extensions/utils.py`.
- Error logging, the bot commands and the other extensions are not part of this model.
- Game.MafiaGame.Start: requires enough members to deal the specials and the mafia top-up. With fewer, the source's `pop` raises, and that error path is not modelled.
- Game.MafiaGame.PickPlayers: carries the same requirement as `Start`, for the same reason.
- Game.MafiaGame.DayLength: phase lengths are only bookkeeping here, since no timing is modelled.
- Game.MafiaGame.PlayDay: the cleared ledgers of the living and the visitors kept by the dead are stated only when the dawn's check ends the day; when the day's tasks run, their jailings change those fields and only `Game.MafiaGame.DayTasks` bounds the change (it is not carried up).
- Game.MafiaGame.Cycle: the outcomes are stated as implications, and the post-night reports are not returned from the cycle.
- Game.MafiaGame.PlayNight: a `Crashed` outcome states only that there is no godfather, not the win check.
- Night.AnswerAll: states the night invariant and who answered, not each answer's individual effect.
- Night.RunNight: states the envelope of the night's effects (who may have visited, killed or cleaned), not the exact effects. That the godfather's kill order can only name a player of `Night.Prey` (living, not mafia) is stated by `Night.BeginNight` and the acceptance predicate `Night.Answerable`, and is not carried up.
- Game.JailorDayTasks: states bounds only (at most one jail used per Jailor, new role blocks come from a Jailor), not which player each Jailor jails.
- Game.MafiaGame.NightTasks: states the same envelope as `Night.RunNight`.
- Players.Player.constructor: the source's class default for the visitors list is `None` until the first ledger cleanup. The model starts with an empty list. Day 1's cleanup runs before any visit, so no behaviour differs.
