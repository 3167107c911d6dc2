/**
 * The `ExpSystem` cog: the reward filtering done when the bot is ready, the
 * level-up decision taken on every message, and the `rank` and `top`
 * commands. Sending, embedding, role assignment and their retry loops are
 * host-framework calls and are not modelled; the random roll is a parameter.
 */
module ExpSystem {
  import opened Wrappers
  import opened Discord
  import opened Levels
  import opened Ledger

  /** `exp_system.get("max_top", 25)` when the language file sets no maximum. */
  const DefaultMaxTop := 25

  /**
   * A level reward: the role id from `exp_roles` until `on_ready` has run,
   * the fetched role afterwards.
   */
  datatype RoleRef = RoleId(id: int) | Fetched(role: Role)

  /** First role of `roles` with the given id (`discord.utils.get(roles, id=...)`). */
  function FindById(roles: seq<Role>, id: int): (r: Option<Role>)
    ensures r.Some? ==> r.value in roles && r.value.id == id
    ensures r.None? <==> forall i :: 0 <= i < |roles| ==> roles[i].id != id
  {
    if roles == [] then None
    else if roles[0].id == id then Some(roles[0])
    else FindById(roles[1..], id)
  }

  /**
   * The lookup of one configured reward in the guild's roles. A reward that
   * was already fetched is a role object, which never equals an int id.
   */
  function FetchRole(guildRoles: seq<Role>, ref: RoleRef): Option<Role>
  {
    match ref
    case RoleId(id) => FindById(guildRoles, id)
    case Fetched(_) => None
  }

  /** The rewards `on_ready` keeps: those whose role the guild has, as fetched roles. */
  function UsableRewards(configured: map<int, RoleRef>, guildRoles: seq<Role>): (usable: map<int, RoleRef>)
    ensures usable.Keys <= configured.Keys
    ensures forall lvl :: lvl in configured ==>
      (lvl in usable <==> configured[lvl].RoleId? && exists i :: 0 <= i < |guildRoles| && guildRoles[i].id == configured[lvl].id)
    ensures forall lvl :: lvl in usable ==>
      usable[lvl].Fetched? && usable[lvl].role in guildRoles && configured[lvl] == RoleId(usable[lvl].role.id)
  {
    map lvl | lvl in configured && FetchRole(guildRoles, configured[lvl]).Some?
      :: Fetched(FetchRole(guildRoles, configured[lvl]).value)
  }

  /** The loop of `on_ready` that fills `usable`, one configured level at a time. */
  method ResolveRewards(configured: map<int, RoleRef>, guildRoles: seq<Role>) returns (usable: map<int, RoleRef>)
    ensures usable == UsableRewards(configured, guildRoles)
  {
    usable := map[];
    var pending := configured.Keys;
    while pending != {}
      invariant pending <= configured.Keys
      invariant forall lvl :: lvl in usable <==>
        lvl in configured && lvl !in pending && FetchRole(guildRoles, configured[lvl]).Some?
      invariant forall lvl :: lvl in usable ==>
        usable[lvl] == Fetched(FetchRole(guildRoles, configured[lvl]).value)
      decreases |pending|
    {
      if !exists l :: l in pending {
        assert false;
      }
      var lvl :| lvl in pending;
      var fetched := FetchRole(guildRoles, configured[lvl]);
      if fetched.Some? {
        usable := usable[lvl := Fetched(fetched.value)];
      }
      pending := pending - {lvl};
    }
    var expected := UsableRewards(configured, guildRoles);
    forall lvl | lvl in expected
      ensures lvl in usable
    {
      assert lvl in configured && FetchRole(guildRoles, configured[lvl]).Some?;
    }
    forall lvl | lvl in usable
      ensures lvl in expected && usable[lvl] == expected[lvl]
    {
      assert lvl in configured && FetchRole(guildRoles, configured[lvl]).Some?;
    }
    assert usable.Keys == expected.Keys;
  }

  /** What one message leads to: the new level, whether to announce it and whether to grant its role. */
  datatype LevelUp = LevelUp(level: int, notify: bool, grantRole: bool)

  /** `not (new == 0 or new < 50 or new % 5 != 0)` */
  predicate IsMilestone(level: int)
  {
    !(level == 0 || level < 50 || level % 5 != 0)
  }

  /**
   * The decision of `on_message` once `add_experience` has returned the
   * previous exp: a notification needs both notification targets, a level
   * that went up, and a milestone or a reward at the new level; the reward
   * role is granted whenever the new level has one.
   */
  function LevelUpDecision(previous: nat, roll: int, rewards: map<int, RoleRef>, guildSet: bool, channelSet: bool): (d: LevelUp)
    requires 1 <= roll <= 6
    ensures d.level == ExpToLevel(previous + roll)
    ensures d.notify <==>
      && guildSet && channelSet
      && ExpToLevel(previous) < d.level
      && ((d.level >= 50 && d.level % 5 == 0) || d.level in rewards)
    ensures d.notify ==> d.level == ExpToLevel(previous) + 1
    ensures d.grantRole <==> d.level in rewards
  {
    var reached := ExpToLevel(previous + roll);
    var reward := reached in rewards;
    OneRollAtMostOneLevel(previous, roll);
    LevelUp(reached, guildSet && channelSet && (IsMilestone(reached) || reward) && ExpToLevel(previous) < reached, reward)
  }

  /** Level 49 to 50, the first milestone, is announced without a reward, if both targets are set. */
  lemma MilestoneAnnounced()
    ensures LevelUpDecision(5852, 1, map[], true, true) == LevelUp(50, true, false)
    ensures !LevelUpDecision(5852, 1, map[], true, false).notify
  {
    LevelFromBounds(5852, 49);
    LevelFromBounds(5853, 50);
  }

  /** Level 51 to 52 is announced only when level 52 has a reward. */
  lemma NonMilestoneNeedsReward()
    ensures LevelUpDecision(6320, 1, map[], true, true) == LevelUp(52, false, false)
    ensures LevelUpDecision(6320, 1, map[52 := RoleId(7)], true, true) == LevelUp(52, true, true)
  {
    LevelFromBounds(6320, 51);
    LevelFromBounds(6321, 52);
  }

  /** The reward role is granted again on a message that leaves the level unchanged. */
  lemma RewardGrantedWithoutLevelUp()
    ensures LevelUpDecision(10, 1, map[1 := RoleId(7)], true, true) == LevelUp(1, false, true)
  {
    LevelFromBounds(10, 1);
    LevelFromBounds(11, 1);
  }

  /** The reply of the `top` command. */
  datatype TopReply = OutOfRange | Listing(users: Result<seq<BaseUser>, LedgerError>)

  class ExpCog {
    /** `_notifications_guild` is set (truthy). */
    var guildSet: bool
    /** `notifications_channel` is set (truthy). */
    var channelSet: bool
    /** `self.roles`: level -> reward. */
    var roles: map<int, RoleRef>
    /** `self.db`. */
    const db: UsersTable

    /** Every stored exp is non-negative: the cog only ever adds a roll of 1..6. */
    ghost predicate Valid()
      reads this, db
    {
      forall u :: u in db.rows ==> db.rows[u] >= 0
    }

    constructor(table: UsersTable, guildSet: bool, channelSet: bool, expRoles: map<int, int>)
      requires forall u :: u in table.rows ==> table.rows[u] >= 0
      ensures Valid()
      ensures db == table && this.guildSet == guildSet && this.channelSet == channelSet
      ensures roles == map lvl | lvl in expRoles :: RoleId(expRoles[lvl])
    {
      db := table;
      this.guildSet := guildSet;
      this.channelSet := channelSet;
      roles := map lvl | lvl in expRoles :: RoleId(expRoles[lvl]);
    }

    /**
     * `on_ready`: without a guild nothing happens; otherwise the channel is
     * looked up in the guild and the rewards are filtered to the roles found.
     * The guild lookup itself is assumed to succeed.
     */
    method OnReady(guildRoles: seq<Role>, channelFound: bool)
      requires Valid()
      modifies this
      ensures Valid()
      ensures guildSet == old(guildSet)
      ensures !guildSet ==> roles == old(roles) && channelSet == old(channelSet)
      ensures guildSet ==>
        && roles == UsableRewards(old(roles), guildRoles)
        && channelSet == (old(channelSet) && channelFound)
    {
      if !guildSet {
        return;
      }
      if channelSet {
        channelSet := channelFound;
      }
      var usable := ResolveRewards(roles, guildRoles);
      roles := usable;
    }

    /**
     * `on_message`: bots are ignored; otherwise the roll is credited and the
     * level-up decision is taken on the exp held before it.
     */
    method OnMessage(author: int, authorIsBot: bool, roll: int) returns (outcome: Option<LevelUp>)
      requires Valid() && 1 <= roll <= 6
      modifies db
      ensures Valid()
      ensures authorIsBot ==> outcome == None && db.rows == old(db.rows)
      ensures !authorIsBot ==>
        && db.rows == Credited(old(db.rows), author, roll)
        && Previous(old(db.rows), author) >= 0
        && outcome == Some(LevelUpDecision(Previous(old(db.rows), author), roll, roles, guildSet, channelSet))
    {
      if authorIsBot {
        return None;
      }
      var previous := db.AddExperience(author, roll);
      CreditKeepsNonNegative(old(db.rows), author, roll);
      outcome := Some(LevelUpDecision(previous, roll, roles, guildSet, channelSet));
    }

    /** `rank` as written: the figures fetched are always the invoker's, whoever is mentioned. */
    function RankAsWritten(invoker: int, mentioned: Option<int>): (r: Result<User, LedgerError>)
      reads this, db
      ensures invoker !in db.rows ==> r == Err(UnknownUser)
      ensures r.Ok? ==> r.value.base.id == invoker
    {
      db.GetUserData(invoker)
    }

    /** Corrected `rank`: the figures of the mentioned user, or of the invoker when nobody is mentioned. */
    function Rank(invoker: int, mentioned: Option<int>): (r: Result<User, LedgerError>)
      reads this, db
      ensures var subject := if mentioned.Some? then mentioned.value else invoker;
        && (subject !in db.rows ==> r == Err(UnknownUser))
        && (r.Ok? ==> r.value.base.id == subject && r.value.base.exp == db.rows[subject])
    {
      db.GetUserData(if mentioned.Some? then mentioned.value else invoker)
    }

    /**
     * `rank @someone` shows the invoker's figures under the other user's
     * name; the corrected command shows the mentioned user's.
     */
    lemma RankIgnoresMention(invoker: int, other: int)
      requires invoker != other
      requires invoker in db.rows && db.rows[invoker] >= 0
      requires other in db.rows && db.rows[other] >= 0
      ensures RankAsWritten(invoker, Some(other)).Ok? && RankAsWritten(invoker, Some(other)).value.base.id != other
      ensures Rank(invoker, Some(other)).Ok? && Rank(invoker, Some(other)).value.base.id == other
    {
    }

    /** `top`: the leaderboard is queried only for 1 <= amount <= maxTop. */
    function Top(amount: int, maxTop: int): (reply: TopReply)
      reads this, db
      ensures reply == OutOfRange <==> !(1 <= amount <= maxTop)
      ensures reply.Listing? ==> reply.users == db.GetTop(amount)
      ensures reply.Listing? && reply.users.Ok? ==> |reply.users.value| <= amount
      ensures Valid() && reply.Listing? ==> reply.users.Ok?
    {
      if 1 <= amount <= maxTop then Listing(db.GetTop(amount)) else OutOfRange
    }

    /** With the default maximum, 25 users can be listed and 26 cannot. */
    lemma DefaultTopRange()
      ensures Top(DefaultMaxTop, DefaultMaxTop).Listing?
      ensures Top(DefaultMaxTop + 1, DefaultMaxTop) == OutOfRange
      ensures Top(0, DefaultMaxTop) == OutOfRange
    {
    }
  }
}
