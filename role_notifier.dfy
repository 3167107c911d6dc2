/**
 * The `RoleNotifier` cog: the optional `roles` list of the `ROLE_NOTIFIER`
 * section, and which role changes of a member produce a notification. The
 * embed that carries each notification is a host-framework call.
 */
module RoleNotifier {
  import opened Wrappers
  import opened Discord
  import opened Text

  /** The `state` key handed to `send_message`: "added" or "removed". */
  datatype State = Added | Removed

  /** One `send_message` call that gets past the `specific` filter. */
  datatype Event = Event(role: Role, state: State)

  /** `ph.fatal` followed by `exit(1)` when a listed role is not an integer. */
  datatype ConfigError = InvalidRoles

  /** `[int(role) for role in pieces if role != ""]`, failing as a whole on the first bad piece. */
  function ParseIds(pieces: seq<string>): (r: Result<seq<int>, ConfigError>)
    ensures r.Err? <==> exists i :: 0 <= i < |pieces| && pieces[i] != "" && ParseInt(pieces[i]).None?
    ensures r.Ok? ==> |r.value| <= |pieces|
    ensures r.Ok? ==> forall x :: x in r.value ==> exists i :: 0 <= i < |pieces| && pieces[i] != "" && ParseInt(pieces[i]) == Some(x)
    ensures r.Ok? ==> forall i :: 0 <= i < |pieces| && pieces[i] != "" ==> ParseInt(pieces[i]).value in r.value
  {
    if pieces == [] then Ok([])
    else
      match ParseIds(pieces[1..])
      case Err(e) => Err(e)
      case Ok(rest) =>
        if pieces[0] == "" then Ok(rest)
        else
          match ParseInt(pieces[0])
          case None => Err(InvalidRoles)
          case Some(n) => Ok([n] + rest)
  }

  /** `__init__` with `specific` on: the `roles` entry (default empty) split on every comma. */
  function SpecificRoles(section: map<string, string>): (r: Result<seq<int>, ConfigError>)
    ensures "roles" !in section ==> r == Ok([])
    ensures "roles" in section ==> r == ParseIds(Split(section["roles"], ','))
  {
    var raw := if "roles" in section then section["roles"] else "";
    assert Split("", ',') == [""] by {
      assert Count("", ',') == 0;
      assert Join(Split("", ','), ',') == "";
    }
    ParseIds(Split(raw, ','))
  }

  /** The rendering of each id, one piece per id. */
  function RenderAll(ids: seq<int>): (pieces: seq<string>)
    ensures |pieces| == |ids|
  {
    if ids == [] then [] else [Render(ids[0])] + RenderAll(ids[1..])
  }

  /** Ids written out one per piece are read back, in order. */
  lemma {:induction false} ListedIdsRead(ids: seq<int>)
    ensures ParseIds(RenderAll(ids)) == Ok(ids)
  {
    if ids != [] {
      ListedIdsRead(ids[1..]);
      ParseRender(ids[0]);
      assert Render(ids[0]) != "";
      assert RenderAll(ids)[1..] == RenderAll(ids[1..]);
      assert [ids[0]] + ids[1..] == ids;
    }
  }

  /** `send_message`'s filter: with `specific` off every role passes, with it on only the listed ids. */
  predicate Passes(specific: Option<seq<int>>, role: Role)
  {
    specific.None? || role.id in specific.value
  }

  /** `[role for role in src if role not in other]`, roles being equal when their ids are. */
  function Missing(src: seq<Role>, other: seq<Role>): (d: seq<Role>)
    ensures |d| <= |src|
    ensures forall r :: r in d <==> r in src && !HasRole(other, r)
  {
    if src == [] then []
    else (if HasRole(other, src[0]) then [] else [src[0]]) + Missing(src[1..], other)
  }

  /** A role list whose every role is also in the other list has nothing missing. */
  lemma {:induction false} NothingMissing(src: seq<Role>, other: seq<Role>)
    requires forall i :: 0 <= i < |src| ==> HasRole(other, src[i])
    ensures Missing(src, other) == []
  {
    if src != [] {
      assert HasRole(other, src[0]);
      NothingMissing(src[1..], other);
    }
  }

  /** `before.roles != after.roles`: lists compared position by position, roles by id. */
  predicate SameRoles(a: seq<Role>, b: seq<Role>)
  {
    |a| == |b| && forall i :: 0 <= i < |a| ==> a[i].id == b[i].id
  }

  /** The `send_message` loop: one event per role of the difference that passes the filter, in order. */
  function Announce(roles: seq<Role>, state: State, specific: Option<seq<int>>): (events: seq<Event>)
    ensures |events| <= |roles|
    ensures forall e :: e in events ==> e.state == state
  {
    if roles == [] then []
    else Heading(roles[0], state, specific) + Announce(roles[1..], state, specific)
  }

  /** The event one role contributes: one when it passes the filter, none otherwise. */
  function Heading(role: Role, state: State, specific: Option<seq<int>>): seq<Event>
  {
    if Passes(specific, role) then [Event(role, state)] else []
  }

  /** A role is announced exactly when it is in the difference and passes the filter. */
  lemma {:induction false} AnnounceMembers(roles: seq<Role>, state: State, specific: Option<seq<int>>)
    ensures forall r :: Event(r, state) in Announce(roles, state, specific) <==> r in roles && Passes(specific, r)
  {
    if roles != [] {
      AnnounceMembers(roles[1..], state, specific);
      var head := Heading(roles[0], state, specific);
      assert Announce(roles, state, specific) == head + Announce(roles[1..], state, specific);
      assert roles == [roles[0]] + roles[1..];
    }
  }

  /** With the filter off, every role of the difference is announced once, in order. */
  lemma {:induction false} AnnounceUnfiltered(roles: seq<Role>, state: State)
    ensures |Announce(roles, state, None)| == |roles|
    ensures forall i :: 0 <= i < |roles| ==> Announce(roles, state, None)[i] == Event(roles[i], state)
  {
    if roles != [] {
      AnnounceUnfiltered(roles[1..], state);
      var events := Announce(roles, state, None);
      assert events == [Event(roles[0], state)] + Announce(roles[1..], state, None);
      forall i | 0 < i < |roles|
        ensures events[i] == Event(roles[i], state)
      {
        assert events[i] == Announce(roles[1..], state, None)[i - 1];
      }
    }
  }

  /** Each role of the source list missing from the other appears in the difference as often as in the source. */
  lemma {:induction false} MissingCount(src: seq<Role>, other: seq<Role>, r: Role)
    ensures multiset(Missing(src, other))[r] == if HasRole(other, r) then 0 else multiset(src)[r]
  {
    if src != [] {
      MissingCount(src[1..], other, r);
      var head := if HasRole(other, src[0]) then [] else [src[0]];
      assert Missing(src, other) == head + Missing(src[1..], other);
      assert multiset(Missing(src, other)) == multiset(head) + multiset(Missing(src[1..], other));
      assert src == [src[0]] + src[1..];
      assert multiset(src) == multiset([src[0]]) + multiset(src[1..]);
      if src[0] == r {
        assert HasRole(other, src[0]) == HasRole(other, r);
      }
    }
  }

  /** Each passing role gets exactly as many events as it has entries in the list; others get none. */
  lemma {:induction false} AnnounceCount(roles: seq<Role>, state: State, specific: Option<seq<int>>, r: Role)
    ensures multiset(Announce(roles, state, specific))[Event(r, state)] ==
      if Passes(specific, r) then multiset(roles)[r] else 0
  {
    if roles != [] {
      AnnounceCount(roles[1..], state, specific, r);
      var head := Heading(roles[0], state, specific);
      var rest := Announce(roles[1..], state, specific);
      assert Announce(roles, state, specific) == head + rest;
      assert multiset(head + rest) == multiset(head) + multiset(rest);
      assert roles == [roles[0]] + roles[1..];
      assert multiset(roles) == multiset([roles[0]]) + multiset(roles[1..]);
    }
  }

  /** The announcements keep the order of the difference: they distribute over concatenation. */
  lemma {:induction false} AnnounceConcat(a: seq<Role>, b: seq<Role>, state: State, specific: Option<seq<int>>)
    ensures Announce(a + b, state, specific) == Announce(a, state, specific) + Announce(b, state, specific)
  {
    if a == [] {
      assert a + b == b;
    } else {
      assert (a + b)[0] == a[0];
      assert (a + b)[1..] == a[1..] + b;
      AnnounceConcat(a[1..], b, state, specific);
    }
  }

  /**
   * `on_member_update`: when the role lists differ, the change counts as a
   * removal whenever `before` is at least as long as `after`, and the roles
   * of the longer side missing from the other side are announced.
   */
  function Notifications(before: seq<Role>, after: seq<Role>, specific: Option<seq<int>>): (events: seq<Event>)
    ensures SameRoles(before, after) ==> events == []
    ensures |before| >= |after| ==>
      forall r :: Event(r, Removed) in events <==> !SameRoles(before, after) && r in before && !HasRole(after, r) && Passes(specific, r)
    ensures |before| < |after| ==>
      forall r :: Event(r, Added) in events <==> r in after && !HasRole(before, r) && Passes(specific, r)
    ensures forall e :: e in events ==> e.state == (if |before| >= |after| then Removed else Added)
    ensures !SameRoles(before, after) && |before| >= |after| ==>
      events == Announce(Missing(before, after), Removed, specific)
    ensures |before| < |after| ==>
      events == Announce(Missing(after, before), Added, specific)
  {
    if SameRoles(before, after) then []
    else if |before| >= |after| then
      AnnounceMembers(Missing(before, after), Removed, specific);
      Announce(Missing(before, after), Removed, specific)
    else
      AnnounceMembers(Missing(after, before), Added, specific);
      Announce(Missing(after, before), Added, specific)
  }

  /**
   * One message per lost role: a role of `before` that `after` lacks and
   * that passes the filter is announced as removed exactly as often as
   * `before` lists it, and no other role is announced.
   */
  lemma RemovalsCounted(before: seq<Role>, after: seq<Role>, specific: Option<seq<int>>, r: Role)
    requires !SameRoles(before, after) && |before| >= |after|
    ensures multiset(Notifications(before, after, specific))[Event(r, Removed)] ==
      if HasRole(after, r) || !Passes(specific, r) then 0 else multiset(before)[r]
  {
    MissingCount(before, after, r);
    AnnounceCount(Missing(before, after), Removed, specific, r);
  }

  /** One message per gained role, counted the same way. */
  lemma AdditionsCounted(before: seq<Role>, after: seq<Role>, specific: Option<seq<int>>, r: Role)
    requires |before| < |after|
    ensures multiset(Notifications(before, after, specific))[Event(r, Added)] ==
      if HasRole(before, r) || !Passes(specific, r) then 0 else multiset(after)[r]
  {
    MissingCount(after, before, r);
    AnnounceCount(Missing(after, before), Added, specific, r);
  }

  /** Reordering the same roles is a change of the lists yet announces nothing. */
  lemma ReorderIsSilent(before: seq<Role>, after: seq<Role>, specific: Option<seq<int>>)
    requires |before| == |after|
    requires forall i :: 0 <= i < |before| ==> HasRole(after, before[i])
    ensures Notifications(before, after, specific) == []
  {
    NothingMissing(before, after);
  }

  /** Swapping one role for another keeps the length, so only the removal is announced. */
  lemma SwapReportsOnlyRemoval(lost: Role, gained: Role)
    requires lost.id != gained.id
    ensures Notifications([lost], [gained], None) == [Event(lost, Removed)]
  {
    assert !HasRole([gained], lost);
    assert Missing([lost], [gained]) == [lost];
  }

  /** Without the `specific` filter, a gained role is announced exactly once. */
  lemma GainAnnounced(before: seq<Role>, role: Role)
    requires !HasRole(before, role)
    ensures Notifications(before, before + [role], None) == [Event(role, Added)]
  {
    var after := before + [role];
    assert after[|before|] == role;
    assert !SameRoles(before, after);
    forall i | 0 <= i < |before|
      ensures HasRole(after, before[i])
    {
      assert after[i] == before[i];
    }
    MissingLast(before, role);
  }

  /** The roles of `before + [role]` missing from `before` are `[role]` alone. */
  lemma MissingLast(before: seq<Role>, role: Role)
    requires !HasRole(before, role)
    ensures Missing(before + [role], before) == [role]
  {
    var after := before + [role];
    forall i | 0 <= i < |before|
      ensures HasRole(before, after[i])
    {
      assert after[i] == before[i];
    }
    MissingPrefix(before, [role], before);
    NothingMissing(before, before) by {
      forall i | 0 <= i < |before|
        ensures HasRole(before, before[i])
      {
      }
    }
    assert Missing([role], before) == [role];
  }

  /** The roles missing from a concatenation come in the order of the lists. */
  lemma {:induction false} MissingPrefix(a: seq<Role>, b: seq<Role>, other: seq<Role>)
    ensures Missing(a + b, other) == Missing(a, other) + Missing(b, other)
  {
    if a == [] {
      assert a + b == b;
    } else {
      var head := if HasRole(other, a[0]) then [] else [a[0]];
      assert (a + b)[0] == a[0];
      assert (a + b)[1..] == a[1..] + b;
      assert Missing(a + b, other) == head + Missing(a[1..] + b, other);
      MissingPrefix(a[1..], b, other);
    }
  }
}
