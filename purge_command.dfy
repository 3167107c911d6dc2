/**
 * The `PurgeCommand` cog: the `purge` entry of the `MODERATION` section
 * parsed into allowed roles, the permission rule, and the message filter
 * handed to the channel's bulk delete. The delete itself and the replies are
 * host-framework calls.
 */
module PurgeCommand {
  import opened Wrappers
  import opened Discord
  import opened Text

  /** One entry of `self.allowed`: an int (a role id) or a str (a role name). */
  datatype Allowed = ById(id: int) | ByName(name: string)

  /** `__init__` raises when the configuration has no `purge` entry. */
  datatype PurgeError = MissingPurgeEntry

  /** `convert_if_number`: `int(value)` when that succeeds, else the text itself. */
  function ConvertIfNumber(value: string): (entry: Allowed)
    ensures entry.ById? <==> IntegerText(Strip(value))
    ensures entry.ByName? ==> entry.name == value
    ensures entry.ById? && AllDigits(Strip(value)) ==> entry.id == DigitsValue(Strip(value))
    ensures entry.ById? && |Strip(value)| >= 2 && Strip(value)[0] == '-' ==>
      entry.id == -(DigitsValue(Strip(value)[1..]) as int)
    ensures entry.ById? && |Strip(value)| >= 2 && Strip(value)[0] == '+' ==>
      entry.id == DigitsValue(Strip(value)[1..]) as int
  {
    IntegerTextForms(Strip(value));
    match ParseInt(value)
    case Some(n) => ById(n)
    case None => ByName(value)
  }

  /** A rendered integer becomes a role id. */
  lemma NumberBecomesId(n: int)
    ensures ConvertIfNumber(Render(n)) == ById(n)
  {
    ParseRender(n);
  }

  /** A piece holding any character other than a digit, a sign or blank stays a role name, unchanged. */
  lemma NameStaysName(value: string, k: nat)
    requires k < |value|
    requires !IsDigit(value[k]) && !IsSpace(value[k]) && value[k] != '-' && value[k] != '+'
    ensures ConvertIfNumber(value) == ByName(value)
  {
    if ParseInt(value).Some? {
      var t := Strip(value);
      var a := LeadingSpaces(value);
      if k < a || k >= a + |t| {
        assert false;
      }
      assert false;
    }
  }

  /** `[convert_if_number(p.strip()) for p in pieces]` */
  function ConvertPieces(pieces: seq<string>): (entries: seq<Allowed>)
    ensures |entries| == |pieces|
    ensures forall i :: 0 <= i < |pieces| ==> entries[i] == ConvertIfNumber(Strip(pieces[i]))
  {
    if pieces == [] then [] else [ConvertIfNumber(Strip(pieces[0]))] + ConvertPieces(pieces[1..])
  }

  /**
   * `__init__`: `cfg["MODERATION"]["purge"]` (a missing section or entry
   * raises), split on every comma; one entry per piece, empty pieces kept.
   */
  function ParseAllowed(cfg: map<string, map<string, string>>): (r: Result<seq<Allowed>, PurgeError>)
    ensures r.Err? <==> !("MODERATION" in cfg && "purge" in cfg["MODERATION"])
    ensures r.Ok? ==>
      var raw := cfg["MODERATION"]["purge"];
      && |r.value| == Count(raw, ',') + 1
      && forall i :: 0 <= i < |r.value| ==> r.value[i] == ConvertIfNumber(Strip(Split(raw, ',')[i]))
  {
    if "MODERATION" in cfg && "purge" in cfg["MODERATION"] then
      Ok(ConvertPieces(Split(cfg["MODERATION"]["purge"], ',')))
    else
      Err(MissingPurgeEntry)
  }

  /** An allowed entry names this role: by id for an int, by name for a str. */
  predicate Matches(entry: Allowed, role: Role)
  {
    match entry
    case ById(id) => role.id == id
    case ByName(name) => role.name == name
  }

  /** `getter(id=...) is not None` or `getter(name=...) is not None` over the author's roles. */
  function Found(roles: seq<Role>, entry: Allowed): (found: bool)
    ensures found <==> exists j :: 0 <= j < |roles| && Matches(entry, roles[j])
  {
    if roles == [] then false
    else Matches(entry, roles[0]) || Found(roles[1..], entry)
  }

  /** `any(... for role in self.allowed)`: the permission rule of `purge`. */
  function HasPermission(allowed: seq<Allowed>, authorRoles: seq<Role>): (ok: bool)
    ensures ok <==> exists i, j :: 0 <= i < |allowed| && 0 <= j < |authorRoles| && Matches(allowed[i], authorRoles[j])
    ensures allowed == [] ==> !ok
  {
    if allowed == [] then false
    else Found(authorRoles, allowed[0]) || HasPermission(allowed[1..], authorRoles)
  }

  /** `lambda m: authors is None or m.author in authors` */
  predicate Qualifies(authors: Option<seq<Member>>, m: Message)
  {
    authors.None? || exists k :: 0 <= k < |authors.value| && authors.value[k].id == m.author
  }

  /** The examined messages the bulk delete removes, in their order. */
  function Deletable(examined: seq<Message>, authors: Option<seq<Member>>): (deleted: seq<Message>)
    ensures |deleted| <= |examined|
    ensures forall m :: m in deleted <==> m in examined && Qualifies(authors, m)
    ensures authors.None? ==> deleted == examined
  {
    if examined == [] then []
    else
      (if Qualifies(authors, examined[0]) then [examined[0]] else [])
      + Deletable(examined[1..], authors)
  }

  /** The filter keeps the order of the channel: it distributes over concatenation. */
  lemma {:induction false} DeletableConcat(a: seq<Message>, b: seq<Message>, authors: Option<seq<Member>>)
    ensures Deletable(a + b, authors) == Deletable(a, authors) + Deletable(b, authors)
  {
    if a == [] {
      assert a + b == b;
    } else {
      var head := if Qualifies(authors, a[0]) then [a[0]] else [];
      assert (a + b)[0] == a[0];
      assert (a + b)[1..] == a[1..] + b;
      assert Deletable(a + b, authors) == head + Deletable(a[1..] + b, authors);
      assert Deletable(a, authors) == head + Deletable(a[1..], authors);
      DeletableConcat(a[1..], b, authors);
    }
  }

  /** `", ".join(a.mention for a in authors)` */
  function MentionList(authors: seq<Member>): (list: string)
    ensures authors == [] ==> list == ""
    ensures |authors| == 1 ==> list == authors[0].mention
    ensures authors != [] ==> authors[0].mention <= list
    ensures authors != [] ==>
      var last := authors[|authors| - 1].mention;
      |last| <= |list| && list[|list| - |last|..] == last
    ensures |list| == SumMentionLengths(authors) + (if authors == [] then 0 else 2 * (|authors| - 1))
  {
    if authors == [] then ""
    else if |authors| == 1 then authors[0].mention
    else
      var rest := MentionList(authors[1..]);
      var list := authors[0].mention + ", " + rest;
      var last := authors[|authors| - 1].mention;
      assert authors[1..][|authors| - 2] == authors[|authors| - 1];
      assert list[|list| - |last|..] == rest[|rest| - |last|..];
      list
  }

  /** Total length of the mentions. */
  function SumMentionLengths(authors: seq<Member>): nat
  {
    if authors == [] then 0 else |authors[0].mention| + SumMentionLengths(authors[1..])
  }

  /** Two mentions are joined by a comma and a blank. */
  lemma MentionPair(a: Member, b: Member)
    ensures MentionList([a, b]) == a.mention + ", " + b.mention
  {
    assert [a, b][1..] == [b];
  }

  /** `_ending`: empty when no authors were given, else " <from> " and the mentions. */
  function Ending(authors: Option<seq<Member>>, fromWord: string): (ending: string)
    ensures ending == "" <==> authors.None?
    ensures authors.Some? ==> ending == " " + fromWord + " " + MentionList(authors.value)
  {
    if authors.None? then ""
    else " " + fromWord + " " + MentionList(authors.value)
  }

  /** What the command does: refuse outside a guild, refuse without a role, or purge. */
  datatype PurgeReply = NotInGuild | MissingRole | Purged(ending: string, deleted: seq<Message>)

  /**
   * `purge`: the channel check comes first, then the permission rule, then
   * the bulk delete over the messages the channel's history yields for the
   * requested count (`examined`).
   */
  function Purge(inGuild: bool, allowed: seq<Allowed>, authorRoles: seq<Role>,
                 authors: Option<seq<Member>>, examined: seq<Message>, fromWord: string): (reply: PurgeReply)
    ensures !inGuild ==> reply == NotInGuild
    ensures inGuild ==> (reply == MissingRole <==> !HasPermission(allowed, authorRoles))
    ensures inGuild && HasPermission(allowed, authorRoles) ==> reply.Purged?
    ensures reply.Purged? ==>
      && (reply.ending == "" <==> authors.None?)
      && (forall m :: m in reply.deleted <==> m in examined && Qualifies(authors, m))
      && reply.deleted == Deletable(examined, authors)
      && reply.ending == Ending(authors, fromWord)
  {
    if !inGuild then NotInGuild
    else if !HasPermission(allowed, authorRoles) then MissingRole
    else Purged(Ending(authors, fromWord), Deletable(examined, authors))
  }
}
