/**
  * The input validators of the game: the lookup that turns a message argument into
  * a player (an id or mention, else a name match), the number check used during
  * setup, the checks on a player's private-channel answer and on the godfather's
  * kill order, and the nomination counter of the day vote.
  *
  * Chat messages are values: the channel they were posted in, their author and
  * their text. The fuzzy name matcher and Python's `int()` are not modelled; each
  * is a function the caller supplies.
  */
module Utils {
  import opened Wrappers
  import opened Roles
  import opened Players
  import opened Roster

  /** A chat message. */
  datatype Message = Message(channel: ChannelId, author: MemberId, content: string)

  /** The channel and author of the command that started a setup question. */
  datatype Context = Context(channel: ChannelId, author: MemberId)

  /**
    * The fuzzy name matcher: for a text, the roster position of the best-scoring
    * player name at or above the score cut-off, if any. A position past the end
    * of the roster is read as no match.
    */
  type NameMatcher = string -> Option<nat>

  /** The integer parse of a message's text, or None where it raises ValueError. */
  type IntParser = string -> Option<int>

  // ---------------------------------------------------------------------------
  // The id and mention recogniser

  predicate IsDigit(c: char) {
    '0' <= c <= '9'
  }

  /** Between 15 and 20 decimal digits: the shape of a platform user id. */
  predicate IsIdToken(s: string) {
    15 <= |s| <= 20 && forall i :: 0 <= i < |s| ==> IsDigit(s[i])
  }

  /** The text an end-anchored pattern is matched against: a single final newline may precede the end. */
  function WithoutFinalNewline(s: string): (r: string)
    ensures r == s || s == r + "\n"
  {
    if |s| > 0 && s[|s| - 1] == '\n' then s[..|s| - 1] else s
  }

  /** The inside of a mention `<@…>`, with one leading `!` dropped. */
  function MentionBody(s: string): (r: Option<string>)
    ensures r.Some? ==> s == "<@" + r.value + ">" || s == "<@!" + r.value + ">"
  {
    if |s| >= 3 && s[..2] == "<@" && s[|s| - 1] == '>' then
      var inner := s[2..|s| - 1];
      assert s == "<@" + inner + ">";
      if |inner| > 0 && inner[0] == '!' then
        assert inner == "!" + inner[1..];
        Some(inner[1..])
      else Some(inner)
    else None
  }

  /**
    * The digits of an argument that is a bare user id or a mention of one: 15 to 20
    * digits alone, or inside `<@…>` or `<@!…>`, optionally followed by one newline.
    */
  function RecogniseId(arg: string): (r: Option<string>)
    ensures r.Some? ==> IsIdToken(r.value)
  {
    var body := WithoutFinalNewline(arg);
    if IsIdToken(body) then Some(body)
    else
      match MentionBody(body)
      case Some(digits) => if IsIdToken(digits) then Some(digits) else None
      case None => None
  }

  /** The six spellings under which a user id is recognised. */
  function IdForms(t: string): seq<string> {
    [t, t + "\n", "<@" + t + ">", "<@" + t + ">\n", "<@!" + t + ">", "<@!" + t + ">\n"]
  }

  /** The recogniser accepts exactly the six spellings of an id token, and returns that token. */
  lemma RecogniseIdExactly(arg: string, t: string)
    ensures RecogniseId(arg) == Some(t) <==> IsIdToken(t) && arg in IdForms(t)
  {
    if IsIdToken(t) && arg in IdForms(t) {
      RecognisesEveryForm(t, arg);
    }
    if RecogniseId(arg) == Some(t) {
      var body := WithoutFinalNewline(arg);
      assert arg == body || arg == body + "\n";
      if IsIdToken(body) {
        assert body == t;
      } else {
        assert MentionBody(body) == Some(t);
        if body == "<@" + t + ">" {
          assert body + "\n" == "<@" + t + ">\n";
        } else {
          assert body + "\n" == "<@!" + t + ">\n";
        }
      }
    }
  }

  /** Each of the six spellings of an id token is recognised as that token. */
  lemma RecognisesEveryForm(t: string, arg: string)
    requires IsIdToken(t) && arg in IdForms(t)
    ensures RecogniseId(arg) == Some(t)
  {
    if arg == t || arg == t + "\n" {
      assert WithoutFinalNewline(arg) == t by {
        assert IsDigit(t[|t| - 1]);
        if arg == t + "\n" {
          assert arg[..|arg| - 1] == t;
        }
      }
    } else if arg == "<@" + t + ">" || arg == "<@" + t + ">\n" {
      MentionRecognised("<@" + t + ">", arg, t, "");
    } else {
      MentionRecognised("<@!" + t + ">", arg, t, "!");
    }
  }

  /** A mention of an id token, with or without the `!` and the final newline, is recognised as the token. */
  lemma MentionRecognised(mention: string, arg: string, t: string, bang: string)
    requires IsIdToken(t) && (bang == "" || bang == "!")
    requires mention == "<@" + bang + t + ">"
    requires arg == mention || arg == mention + "\n"
    ensures RecogniseId(arg) == Some(t)
  {
    assert WithoutFinalNewline(arg) == mention by {
      if arg == mention + "\n" {
        assert arg[..|arg| - 1] == mention;
      }
    }
    MentionBodyIsToken(mention, t, bang);
  }

  /** A mention of an id token is not itself a token, and its inside is the token. */
  lemma MentionBodyIsToken(mention: string, t: string, bang: string)
    requires IsIdToken(t) && (bang == "" || bang == "!")
    requires mention == "<@" + bang + t + ">"
    ensures !IsIdToken(mention) && MentionBody(mention) == Some(t)
  {
    assert !IsDigit(mention[0]);
    var inner := mention[2..|mention| - 1];
    assert inner == bang + t;
    if bang == "!" {
      assert inner[1..] == t;
    } else {
      assert inner[0] == t[0] && IsDigit(t[0]);
    }
  }

  /** The number a string of decimal digits denotes. */
  function DecimalValue(s: string): nat
    requires forall i :: 0 <= i < |s| ==> IsDigit(s[i])
  {
    if s == [] then 0
    else
      assert IsDigit(s[|s| - 1]);
      10 * DecimalValue(s[..|s| - 1]) + (s[|s| - 1] as int - '0' as int)
  }

  /** The first player of the roster whose member has the given id. */
  function FindMember(ps: seq<Player>, id: MemberId): (r: Option<Player>)
    ensures r.None? <==> forall p :: p in ps ==> p.member != id
    ensures r.Some? ==> exists i :: 0 <= i < |ps| && ps[i] == r.value && FirstMemberAt(ps, id, i)
  {
    if ps == [] then None
    else if ps[0].member == id then
      assert FirstMemberAt(ps, id, 0);
      Some(ps[0])
    else
      var r := FindMember(ps[1..], id);
      assert r.Some? ==> exists i :: 1 <= i < |ps| && ps[i] == r.value && FirstMemberAt(ps, id, i) by {
        if r.Some? {
          var i :| 0 <= i < |ps[1..]| && ps[1..][i] == r.value && FirstMemberAt(ps[1..], id, i);
          assert FirstMemberAt(ps, id, i + 1);
        }
      }
      assert r.None? ==> forall p :: p in ps ==> p.member != id by {
        assert forall p :: p in ps ==> p == ps[0] || p in ps[1..];
      }
      r
  }

  /** Index `i` holds the first player of the roster with member id `id`. */
  predicate FirstMemberAt(ps: seq<Player>, id: MemberId, i: int)
    requires 0 <= i < |ps|
  {
    ps[i].member == id && forall j :: 0 <= j < i ==> ps[j].member != id
  }

  /** Why a player lookup failed: there is no game, or nothing resolved. */
  datatype LookupError = BadArgument | MemberNotFound(arg: string)

  /**
    * Resolves a message argument to a player of the game. An id or mention names the
    * first player with that member id; any other text goes to the name matcher.
    */
  function GetMafiaPlayer(game: Option<seq<Player>>, arg: string, nameMatch: NameMatcher): (r: Result<Player, LookupError>)
    ensures game.None? <==> r == Failure(BadArgument)
    ensures game.Some? && r.Failure? ==> r.error == MemberNotFound(arg)
    ensures r.Success? ==> game.Some? && r.value in game.value
    ensures game.Some? && RecogniseId(arg).Some? ==>
              var id := DecimalValue(RecogniseId(arg).value);
              && (r.Success? <==> exists p :: p in game.value && p.member == id)
              && (r.Success? ==> r.value.member == id)
  {
    match game
    case None => Failure(BadArgument)
    case Some(ps) =>
      match RecogniseId(arg)
      case Some(digits) =>
        (match FindMember(ps, DecimalValue(digits))
         case Some(p) => Success(p)
         case None => Failure(MemberNotFound(arg)))
      case None =>
        match nameMatch(arg)
        case Some(i) => if i < |ps| then Success(ps[i]) else Failure(MemberNotFound(arg))
        case None => Failure(MemberNotFound(arg))
  }

  /** The id branch resolves to the first roster player whose member id is the token's value. */
  lemma IdLookupFindsFirstMatch(ps: seq<Player>, t: string, arg: string, nameMatch: NameMatcher)
    requires IsIdToken(t) && arg in IdForms(t)
    ensures GetMafiaPlayer(Some(ps), arg, nameMatch).Success? ==>
              exists i :: 0 <= i < |ps| && ps[i] == GetMafiaPlayer(Some(ps), arg, nameMatch).value
                          && FirstMemberAt(ps, DecimalValue(t), i)
  {
    RecogniseIdExactly(arg, t);
  }

  // ---------------------------------------------------------------------------
  // Setup and private-channel checks

  /** A setup answer: in the command's channel, from the command's author, an integer within [lo, hi]. */
  predicate MinMaxCheck(ctx: Context, lo: int, hi: int, parse: IntParser, m: Message) {
    && m.channel == ctx.channel
    && m.author == ctx.author
    && match parse(m.content)
       case None => false
       case Some(amount) => lo <= amount <= hi
  }

  /**
    * An accepted answer always parses to an amount inside the range, so an empty range
    * accepts nothing, and widening the range keeps every accepted answer accepted.
    */
  lemma MinMaxCheckBounds(ctx: Context, lo: int, hi: int, parse: IntParser, m: Message, lo': int, hi': int)
    ensures MinMaxCheck(ctx, lo, hi, parse, m) ==>
              parse(m.content).Some? && lo <= parse(m.content).value <= hi
    ensures hi < lo ==> !MinMaxCheck(ctx, lo, hi, parse, m)
    ensures lo' <= lo && hi <= hi' && MinMaxCheck(ctx, lo, hi, parse, m) ==> MinMaxCheck(ctx, lo', hi', parse, m)
    ensures m.channel != ctx.channel || m.author != ctx.author ==> !MinMaxCheck(ctx, lo, hi, parse, m)
  {
  }

  /**
    * An answer in a player's private channel: posted there by that player and naming a
    * player of the game, who must be someone else unless choosing oneself is allowed.
    * A player without a channel accepts nothing.
    */
  function PrivateChannelCheck(ps: seq<Player>, player: Player, canChooseSelf: bool, nameMatch: NameMatcher, m: Message): (r: bool)
    reads player`channel
    ensures r <==> player.channel == Some(m.channel) && m.author == player.member
                   && GetMafiaPlayer(Some(ps), m.content, nameMatch).Success?
                   && (canChooseSelf || GetMafiaPlayer(Some(ps), m.content, nameMatch).value != player)
  {
    if player.channel != Some(m.channel) then false
    else if m.author != player.member then false
    else
      match GetMafiaPlayer(Some(ps), m.content, nameMatch)
      case Failure(_) => false
      case Success(p) => !(!canChooseSelf && player == p)
  }

  /** An accepted private answer names a roster player, and never the player itself when that is not allowed. */
  lemma PrivateChoiceIsAnotherPlayer(ps: seq<Player>, player: Player, nameMatch: NameMatcher, m: Message)
    requires PrivateChannelCheck(ps, player, false, nameMatch, m)
    ensures GetMafiaPlayer(Some(ps), m.content, nameMatch).value in ps
    ensures GetMafiaPlayer(Some(ps), m.content, nameMatch).value != player
  {
  }

  /** The kill check fails outright when there is no living godfather to compare the author with. */
  datatype KillCheckError = NoGodfather

  /**
    * The godfather's kill order: posted in the mafia chat by the current godfather and
    * naming a non-mafia player. A message in the mafia chat while there is no
    * godfather raises.
    */
  function MafiaKillCheck(ps: seq<Player>, mafiaChat: ChannelId, nameMatch: NameMatcher, m: Message): (r: Result<bool, KillCheckError>)
    reads ps`isGodfather, ps`dead
    ensures r.Failure? <==> m.channel == mafiaChat && Godfather(ps) == null
    ensures r == Success(true) ==>
              && m.channel == mafiaChat && Godfather(ps) != null && m.author == Godfather(ps).member
              && GetMafiaPlayer(Some(ps), m.content, nameMatch).Success?
              && GetMafiaPlayer(Some(ps), m.content, nameMatch).value in ps
              && !GetMafiaPlayer(Some(ps), m.content, nameMatch).value.role.IsMafia()
  {
    if m.channel != mafiaChat then Success(false)
    else if Godfather(ps) == null then Failure(NoGodfather)
    else if m.author != Godfather(ps).member then Success(false)
    else
      match GetMafiaPlayer(Some(ps), m.content, nameMatch)
      case Failure(_) => Success(false)
      case Success(p) => Success(!p.role.IsMafia())
  }

  // ---------------------------------------------------------------------------
  // Nominations

  /** The command prefix of a nomination. */
  const NominatePrefix: string := ">>nominate "

  /** The part of `s` before the first occurrence of `sep` (all of `s` when there is none). */
  function Before(s: string, sep: string): (r: string)
    requires |sep| > 0
    ensures r <= s
    ensures r == s || sep <= s[|r|..]
    ensures forall i :: 0 <= i < |r| ==> !(sep <= s[i..])
    decreases |s|
  {
    if |s| < |sep| then s
    else if sep <= s then []
    else
      var r := [s[0]] + Before(s[1..], sep);
      assert forall i :: 1 <= i < |r| ==> s[i..] == s[1..][i - 1..];
      r
  }

  /** The target text of a nomination: what follows the prefix, up to the next occurrence of the prefix. */
  function NominationArgument(content: string): string
    requires NominatePrefix <= content
  {
    Before(content[|NominatePrefix|..], NominatePrefix)
  }

  /** Votes needed to open a lynch vote: 2, or in mafia mode 1 while any mafia lives. */
  function NomsNeeded(mafiaMode: bool, ps: seq<Player>): (n: int)
    reads ps`dead
    ensures n == 1 || n == 2
    ensures !mafiaMode ==> n == 2
    ensures n == 1 <==> mafiaMode && CountMafia(ps) > 0
  {
    if mafiaMode then (if CountMafia(ps) > 0 then 1 else 2) else 2
  }

  /**
    * The player a message nominates, or None when the message is rejected: it is in
    * another channel, its author is no player, it lacks the prefix, its target does
    * not resolve, is the author, is dead, or is mafia in mafia mode.
    */
  function NominationTarget(ps: seq<Player>, channel: ChannelId, mafiaMode: bool, nameMatch: NameMatcher, m: Message): Option<Player>
    reads ps`dead
  {
    if m.channel != channel then None
    else if FindMember(ps, m.author).None? then None
    else if !(NominatePrefix <= m.content) then None
    else
      match GetMafiaPlayer(Some(ps), NominationArgument(m.content), nameMatch)
      case Failure(_) => None
      case Success(p) =>
        if p == FindMember(ps, m.author).value then None
        else if p.dead then None
        else if mafiaMode && p.role.IsMafia() then None
        else Some(p)
  }

  /** An accepted nomination passed every check: what the accepted message and its target satisfy. */
  lemma NominationAccepted(ps: seq<Player>, channel: ChannelId, mafiaMode: bool, nameMatch: NameMatcher, m: Message)
    requires NominationTarget(ps, channel, mafiaMode, nameMatch, m).Some?
    ensures m.channel == channel && FindMember(ps, m.author).Some? && NominatePrefix <= m.content
    ensures var t := NominationTarget(ps, channel, mafiaMode, nameMatch, m).value;
              && GetMafiaPlayer(Some(ps), NominationArgument(m.content), nameMatch) == Success(t)
              && t in ps && !t.dead
              && t != FindMember(ps, m.author).value
              && !(mafiaMode && t.role.IsMafia())
  {
  }

  /** Each of the seven rejection conditions on its own makes a nomination message rejected. */
  lemma NominationRejections(ps: seq<Player>, channel: ChannelId, mafiaMode: bool, nameMatch: NameMatcher, m: Message)
    ensures m.channel != channel ==> NominationTarget(ps, channel, mafiaMode, nameMatch, m).None?
    ensures FindMember(ps, m.author).None? ==> NominationTarget(ps, channel, mafiaMode, nameMatch, m).None?
    ensures !(NominatePrefix <= m.content) ==> NominationTarget(ps, channel, mafiaMode, nameMatch, m).None?
    ensures NominatePrefix <= m.content ==>
              var lookup := GetMafiaPlayer(Some(ps), NominationArgument(m.content), nameMatch);
              && (lookup.Failure? ==> NominationTarget(ps, channel, mafiaMode, nameMatch, m).None?)
              && (lookup.Success? && FindMember(ps, m.author).Some? && lookup.value == FindMember(ps, m.author).value ==>
                    NominationTarget(ps, channel, mafiaMode, nameMatch, m).None?)
              && (lookup.Success? && lookup.value.dead ==> NominationTarget(ps, channel, mafiaMode, nameMatch, m).None?)
              && (lookup.Success? && mafiaMode && lookup.value.role.IsMafia() ==>
                    NominationTarget(ps, channel, mafiaMode, nameMatch, m).None?)
  {
  }

  /** How often `t` occurs in `ts`. */
  function Occurrences(ts: seq<Player>, t: Player): nat {
    if ts == [] then 0 else Occurrences(ts[..|ts| - 1], t) + (if ts[|ts| - 1] == t then 1 else 0)
  }

  /** The nomination counts after the given accepted nominations, one increment per nomination. */
  function Tally(ts: seq<Player>): map<Player, nat>
  {
    if ts == [] then map[]
    else
      var before := Tally(ts[..|ts| - 1]);
      var t := ts[|ts| - 1];
      before[t := (if t in before then before[t] else 0) + 1]
  }

  /** The count of a target is the number of accepted nominations of it, whoever made them. */
  lemma {:induction false} TallyCountsOccurrences(ts: seq<Player>, t: Player)
    ensures t in Tally(ts) <==> Occurrences(ts, t) > 0
    ensures t in Tally(ts) ==> Tally(ts)[t] == Occurrences(ts, t)
  {
    if ts != [] {
      TallyCountsOccurrences(ts[..|ts| - 1], t);
    }
  }

  /** One more accepted nomination of `t` adds one to its count and to its occurrences. */
  lemma TallyStep(ts: seq<Player>, t: Player)
    ensures Tally(ts + [t]) == Tally(ts)[t := (if t in Tally(ts) then Tally(ts)[t] else 0) + 1]
    ensures Occurrences(ts + [t], t) == (if t in Tally(ts) then Tally(ts)[t] else 0) + 1
  {
    assert (ts + [t])[..|ts|] == ts;
    TallyCountsOccurrences(ts, t);
  }

  /** The nominations of one day: a count per nominated player and the nominee, once there is one. */
  class Nominations {
    var counts: map<Player, nat>
    var nomination: Player?
    /** The accepted nominations so far, in order. */
    ghost var accepted: seq<Player>

    ghost predicate Valid()
      reads this
    {
      counts == Tally(accepted)
    }

    constructor ()
      ensures Valid() && counts == map[] && nomination == null && accepted == []
    {
      counts := map[];
      nomination := null;
      accepted := [];
    }
  }

  /**
    * The nomination check of one day: the roster, the chat channel, the mode and the
    * number of nominations needed (fixed when the check is made), and the
    * nominations it updates.
    */
  class NominationCheck {
    const players: seq<Player>
    const channel: ChannelId
    const mafiaMode: bool
    const nomsNeeded: int
    const nominations: Nominations
    const nameMatch: NameMatcher

    constructor (players: seq<Player>, nominations: Nominations, channel: ChannelId, mafiaMode: bool, nameMatch: NameMatcher)
      ensures this.players == players && this.nominations == nominations && this.channel == channel
      ensures this.mafiaMode == mafiaMode && this.nameMatch == nameMatch
      ensures nomsNeeded == NomsNeeded(mafiaMode, players)
    {
      this.players := players;
      this.nominations := nominations;
      this.channel := channel;
      this.mafiaMode := mafiaMode;
      this.nameMatch := nameMatch;
      this.nomsNeeded := NomsNeeded(mafiaMode, players);
    }

    /**
      * Checks one message. A rejected message changes nothing. An accepted one adds one
      * to its target's count; when that count reaches the number needed, the target
      * becomes the nominee and the check succeeds.
      */
    method Check(m: Message) returns (opensVote: bool)
      requires nominations.Valid()
      modifies nominations
      ensures nominations.Valid()
      ensures match NominationTarget(players, channel, mafiaMode, nameMatch, m)
              case None =>
                && !opensVote && nominations.counts == old(nominations.counts)
                && nominations.nomination == old(nominations.nomination)
                && nominations.accepted == old(nominations.accepted)
              case Some(t) =>
                && nominations.accepted == old(nominations.accepted) + [t]
                && (opensVote <==> Occurrences(nominations.accepted, t) == nomsNeeded)
                && nominations.nomination == (if opensVote then t else old(nominations.nomination))
    {
      var target := NominationTarget(players, channel, mafiaMode, nameMatch, m);
      if target.None? {
        return false;
      }
      var t := target.value;
      TallyStep(nominations.accepted, t);
      var count := (if t in nominations.counts then nominations.counts[t] else 0) + 1;
      nominations.counts := nominations.counts[t := count];
      nominations.accepted := nominations.accepted + [t];
      opensVote := count == nomsNeeded;
      if opensVote {
        nominations.nomination := t;
      }
    }
  }

  /** The verdict of the nomination check on each message, in order. */
  function Targets(ps: seq<Player>, channel: ChannelId, mafiaMode: bool, nameMatch: NameMatcher,
                   ms: seq<Message>): (ts: seq<Option<Player>>)
    reads ps`dead
    ensures |ts| == |ms|
  {
    if ms == [] then []
    else [NominationTarget(ps, channel, mafiaMode, nameMatch, ms[0])] + Targets(ps, channel, mafiaMode, nameMatch, ms[1..])
  }

  /** The verdict on message `k` is the nomination check of that message. */
  lemma {:induction false} TargetsAt(ps: seq<Player>, channel: ChannelId, mafiaMode: bool, nameMatch: NameMatcher,
                                     ms: seq<Message>, k: nat)
    requires k < |ms|
    ensures Targets(ps, channel, mafiaMode, nameMatch, ms)[k] == NominationTarget(ps, channel, mafiaMode, nameMatch, ms[k])
  {
    if k > 0 {
      TargetsAt(ps, channel, mafiaMode, nameMatch, ms[1..], k - 1);
    }
  }

  /**
    * Counting the verdicts `ts` in order, with `accepted` the nominations accepted
    * before them: the first target whose count reaches the number needed; None when
    * the verdicts run out first.
    */
  function FirstToReach(needed: int, accepted: seq<Player>, ts: seq<Option<Player>>): Option<Player>
    decreases |ts|
  {
    if ts == [] then None
    else
      match ts[0]
      case None => FirstToReach(needed, accepted, ts[1..])
      case Some(t) =>
        if Occurrences(accepted + [t], t) == needed then Some(t)
        else FirstToReach(needed, accepted + [t], ts[1..])
  }

  /** The nominee of a day: the first target to reach the number needed over the messages' verdicts. */
  function NomineeAfter(ps: seq<Player>, channel: ChannelId, mafiaMode: bool, nameMatch: NameMatcher, needed: int,
                        accepted: seq<Player>, ms: seq<Message>): Option<Player>
    reads ps`dead
  {
    FirstToReach(needed, accepted, Targets(ps, channel, mafiaMode, nameMatch, ms))
  }

  /** The targets of the accepted verdicts among `ts`, in order. */
  function Heard(ts: seq<Option<Player>>): seq<Player>
    decreases |ts|
  {
    if ts == [] then [] else (match ts[0] case None => [] case Some(t) => [t]) + Heard(ts[1..])
  }

  /**
    * Verdict `k` decides the nomination: it accepts a target, and that target's count
    * over `accepted` and the accepted verdicts up to and including it equals `needed`.
    */
  predicate Decides(needed: int, accepted: seq<Player>, ts: seq<Option<Player>>, k: int)
  {
    0 <= k < |ts| && ts[k].Some? && Occurrences(accepted + Heard(ts[..k + 1]), ts[k].value) == needed
  }

  /**
    * The count stops at the first deciding verdict, whose target is the nominee; there
    * is no nominee exactly when no verdict decides.
    */
  lemma {:induction false} FirstToReachIsFirstDecided(needed: int, accepted: seq<Player>, ts: seq<Option<Player>>)
    ensures FirstToReach(needed, accepted, ts).Some? ==>
              exists k :: && Decides(needed, accepted, ts, k) && ts[k] == FirstToReach(needed, accepted, ts)
                          && forall j :: 0 <= j < k ==> !Decides(needed, accepted, ts, j)
    ensures FirstToReach(needed, accepted, ts).None? ==> forall k :: !Decides(needed, accepted, ts, k)
    decreases |ts|
  {
    if ts == [] {
      return;
    }
    var rest := ts[1..];
    var heard := match ts[0] case None => [] case Some(t) => [t];
    var accepted' := accepted + heard;
    FirstToReachIsFirstDecided(needed, accepted', rest);
    forall k | 0 <= k < |rest|
      ensures Decides(needed, accepted, ts, k + 1) <==> Decides(needed, accepted', rest, k)
    {
      assert ts[..k + 2][0] == ts[0] && ts[..k + 2][1..] == rest[..k + 1];
      assert accepted + Heard(ts[..k + 2]) == accepted' + Heard(rest[..k + 1]);
    }
    assert ts[..1][0] == ts[0] && ts[..1][1..] == [];
    assert Heard(ts[..1]) == heard;
    if !Decides(needed, accepted, ts, 0) {
      assert ts[0].None? ==> accepted' == accepted;
      assert FirstToReach(needed, accepted, ts) == FirstToReach(needed, accepted', rest);
      if FirstToReach(needed, accepted', rest).Some? {
        var k :| && Decides(needed, accepted', rest, k) && rest[k] == FirstToReach(needed, accepted', rest)
                 && forall j :: 0 <= j < k ==> !Decides(needed, accepted', rest, j);
        forall j | 0 < j < k + 1
          ensures !Decides(needed, accepted, ts, j)
        {
          assert !Decides(needed, accepted', rest, j - 1);
        }
        assert Decides(needed, accepted, ts, k + 1);
      } else {
        forall k | 0 < k < |ts|
          ensures !Decides(needed, accepted, ts, k)
        {
          assert !Decides(needed, accepted', rest, k - 1);
        }
      }
    }
  }

  /**
    * A nominee is a living player of the roster, never mafia in mafia mode, named by
    * one of the messages, and was short of the number needed before the messages.
    */
  lemma {:induction false} NomineeWasNominatedEnough(ps: seq<Player>, channel: ChannelId, mafiaMode: bool, nameMatch: NameMatcher,
                                                     needed: int, accepted: seq<Player>, ms: seq<Message>)
    requires NomineeAfter(ps, channel, mafiaMode, nameMatch, needed, accepted, ms).Some?
    ensures var t := NomineeAfter(ps, channel, mafiaMode, nameMatch, needed, accepted, ms).value;
              && t in ps && !t.dead && !(mafiaMode && t.role.IsMafia())
              && (exists k :: 0 <= k < |ms| && NominationTarget(ps, channel, mafiaMode, nameMatch, ms[k]) == Some(t))
              && needed > Occurrences(accepted, t)
    decreases |ms|
  {
    var t := NomineeAfter(ps, channel, mafiaMode, nameMatch, needed, accepted, ms).value;
    match NominationTarget(ps, channel, mafiaMode, nameMatch, ms[0])
    case None =>
      NomineeWasNominatedEnough(ps, channel, mafiaMode, nameMatch, needed, accepted, ms[1..]);
      var k :| 0 <= k < |ms[1..]| && NominationTarget(ps, channel, mafiaMode, nameMatch, ms[1..][k]) == Some(t);
      assert ms[k + 1] == ms[1..][k];
    case Some(u) =>
      TallyStep(accepted, u);
      TallyCountsOccurrences(accepted, u);
      if Occurrences(accepted + [u], u) == needed {
        NominationAccepted(ps, channel, mafiaMode, nameMatch, ms[0]);
      } else {
        NomineeWasNominatedEnough(ps, channel, mafiaMode, nameMatch, needed, accepted + [u], ms[1..]);
        var k :| 0 <= k < |ms[1..]| && NominationTarget(ps, channel, mafiaMode, nameMatch, ms[1..][k]) == Some(t);
        assert ms[k + 1] == ms[1..][k];
        OccurrencesOfAppend(accepted, u, t);
      }
  }

  /** Appending one element adds one occurrence of it and none of anything else. */
  lemma OccurrencesOfAppend(ts: seq<Player>, u: Player, t: Player)
    ensures Occurrences(ts + [u], t) == Occurrences(ts, t) + (if u == t then 1 else 0)
  {
    assert (ts + [u])[..|ts|] == ts;
  }

  /**
    * With two nominations needed, a single accepted message never opens a vote, while
    * two accepted messages naming the same target do, whoever wrote them.
    */
  lemma TwoNominationsNeeded(ps: seq<Player>, channel: ChannelId, nameMatch: NameMatcher, m1: Message, m2: Message, t: Player)
    requires NominationTarget(ps, channel, false, nameMatch, m1) == Some(t)
    requires NominationTarget(ps, channel, false, nameMatch, m2) == Some(t)
    ensures NomineeAfter(ps, channel, false, nameMatch, 2, [], [m1]) == None
    ensures NomineeAfter(ps, channel, false, nameMatch, 2, [], [m1, m2]) == Some(t)
  {
    OccurrencesOfAppend([], t, t);
    OccurrencesOfAppend([t], t, t);
    TargetsAt(ps, channel, false, nameMatch, [m1], 0);
    TargetsAt(ps, channel, false, nameMatch, [m1, m2], 0);
    TargetsAt(ps, channel, false, nameMatch, [m1, m2], 1);
    assert Targets(ps, channel, false, nameMatch, [m1]) == [Some(t)];
    assert Targets(ps, channel, false, nameMatch, [m1, m2]) == [Some(t), Some(t)];
    assert [Some(t), Some(t)][1..] == [Some(t)] && [Some(t)][1..] == [] && [] + [t] == [t];
    assert FirstToReach(2, [], [Some(t)]) == FirstToReach(2, [t], []) == None;
    assert FirstToReach(2, [t], [Some(t)]) == Some(t);
    assert FirstToReach(2, [], [Some(t), Some(t)]) == FirstToReach(2, [t], [Some(t)]);
  }
}
