/**
 * The experience ledger (`_DatabaseInteractions`): the `users` table, keyed
 * by user id with one integer `exp` column, and the three queries on it.
 * The SQLite file is replaced by a map held in a class.
 */
module Ledger {
  import opened Wrappers
  import opened Levels

  /** `_BaseUser`, with its numbers kept as numbers (the `intword` texts are not modelled). */
  datatype BaseUser = BaseUser(id: int, exp: int, expNextLevel: real, level: int, left: int)

  /** `_User`: a `_BaseUser` with the user's place among all rows. */
  datatype User = User(base: BaseUser, serverRank: int, serverTotal: int)

  datatype LedgerError =
    | UnknownUser   // `tuple(None or 0)` raises TypeError for an id with no row
    | MathDomain    // `sqrt` of a negative exp raises ValueError

  function Min(a: int, b: int): int
  {
    if a <= b then a else b
  }

  /** What `add_experience` returns: the stored exp, or 0 when there is no row. */
  function Previous(rows: map<int, int>, id: int): int
  {
    if id in rows then rows[id] else 0
  }

  /** The table after `add_experience(id, amount)`: UPDATE exp = exp + amount, or INSERT amount. */
  function Credited(rows: map<int, int>, id: int, amount: int): (after: map<int, int>)
    ensures after.Keys == rows.Keys + {id}
    ensures after[id] == Previous(rows, id) + amount
    ensures id !in rows ==> after[id] == amount
    ensures forall u :: u in rows && u != id ==> after[u] == rows[u]
    ensures |after| == |rows| + (if id in rows then 0 else 1)
  {
    rows[id := Previous(rows, id) + amount]
  }

  /** Two grants to one user add up, whether or not the user had a row. */
  lemma CreditsAccumulate(rows: map<int, int>, id: int, a1: int, a2: int)
    ensures Credited(Credited(rows, id, a1), id, a2)[id] == Previous(rows, id) + a1 + a2
    ensures |Credited(Credited(rows, id, a1), id, a2)| == |Credited(rows, id, a1)|
  {
  }

  /** Non-negative grants keep every stored exp non-negative. */
  lemma CreditKeepsNonNegative(rows: map<int, int>, id: int, amount: int)
    requires forall u :: u in rows ==> rows[u] >= 0
    requires amount >= 0
    ensures forall u :: u in Credited(rows, id, amount) ==> Credited(rows, id, amount)[u] >= 0
  {
  }

  /**
   * `convert_to_baseuser`: the derived level figures of one row. `left` is
   * the corrected amount (`ExpToNextLevel`), not the truncated `ExpLeft`.
   */
  function ToBaseUser(id: int, exp: int): (r: Result<BaseUser, LedgerError>)
    ensures r.Err? <==> exp < 0
    ensures r.Ok? ==>
      && r.value.id == id && r.value.exp == exp
      && r.value.level == ExpToLevel(exp)
      && exp as real < r.value.expNextLevel == LevelToExp(r.value.level + 1)
      && 1 <= r.value.left
      && ExpToLevel(exp + r.value.left) == r.value.level + 1
      && ExpToLevel(exp + r.value.left - 1) == r.value.level
  {
    if exp < 0 then Err(MathDomain)
    else Ok(BaseUser(id, exp, NextLevelExp(exp), ExpToLevel(exp), ExpToNextLevel(exp)))
  }

  lemma SubsetCard<T>(a: set<T>, b: set<T>)
    requires a <= b
    ensures |a| <= |b|
  {
    assert b == a + (b - a);
  }

  /**
   * `server_rank` as written: 1 + the number of rows with strictly SMALLER
   * exp (the `ORDER BY` of a COUNT(*) query has no effect).
   */
  function ServerRank(rows: map<int, int>, id: int): (rank: int)
    requires id in rows
    ensures 1 <= rank <= |rows|
    ensures rank == 1 <==> forall u :: u in rows ==> rows[id] <= rows[u]
  {
    var below := set u | u in rows && rows[u] < rows[id];
    SubsetCard(below, rows.Keys - {id});
    assert (forall u :: u in rows ==> rows[id] <= rows[u]) ==> below == {};
    1 + |below|
  }

  /** Corrected rank: 1 + the number of rows with strictly GREATER exp. */
  function LeaderboardRank(rows: map<int, int>, id: int): (rank: int)
    requires id in rows
    ensures 1 <= rank <= |rows|
    ensures rank == 1 <==> forall u :: u in rows ==> rows[u] <= rows[id]
  {
    var above := set u | u in rows && rows[u] > rows[id];
    SubsetCard(above, rows.Keys - {id});
    assert (forall u :: u in rows ==> rows[u] <= rows[id]) ==> above == {};
    1 + |above|
  }

  /**
   * The corrected rank orders users by exp: more exp gives a strictly better
   * (smaller) rank, and equal exp gives the same rank.
   */
  lemma LeaderboardRankOrders(rows: map<int, int>, u: int, v: int)
    requires u in rows && v in rows
    ensures rows[u] > rows[v] <==> LeaderboardRank(rows, u) < LeaderboardRank(rows, v)
    ensures rows[u] == rows[v] <==> LeaderboardRank(rows, u) == LeaderboardRank(rows, v)
  {
    var aboveU := set w | w in rows && rows[w] > rows[u];
    var aboveV := set w | w in rows && rows[w] > rows[v];
    if rows[u] > rows[v] {
      assert aboveU <= aboveV && u in aboveV - aboveU;
      assert aboveV == aboveU + (aboveV - aboveU);
    } else if rows[u] < rows[v] {
      assert aboveV <= aboveU && v in aboveU - aboveV;
      assert aboveU == aboveV + (aboveU - aboveV);
    } else {
      assert aboveU == aboveV;
    }
  }

  /**
   * As written, the rank counts the wrong side: of two users, the one with
   * more exp is ranked last.
   */
  lemma ServerRankReversed()
    ensures var rows := map[1 := 100, 2 := 10];
      ServerRank(rows, 1) == 2 == |rows| && LeaderboardRank(rows, 1) == 1
  {
    var rows := map[1 := 100, 2 := 10];
    assert (set u | u in rows && rows[u] < rows[1]) == {2};
    assert (set u | u in rows && rows[u] > rows[1]) == {};
  }

  /** The user listed first by the leaderboard has the most exp (lowest id among equals). */
  predicate IsLeader(rows: map<int, int>, u: int)
  {
    u in rows && forall v :: v in rows ==> rows[v] < rows[u] || (rows[v] == rows[u] && u <= v)
  }

  lemma SomeKey(rows: map<int, int>) returns (x: int)
    requires |rows| > 0
    ensures x in rows
  {
    if !exists k :: k in rows {
      assert false;
    }
    x :| x in rows;
  }

  lemma {:induction false} LeaderExists(rows: map<int, int>)
    requires |rows| > 0
    ensures exists u :: IsLeader(rows, u)
    decreases |rows|
  {
    var x := SomeKey(rows);
    var rest := rows - {x};
    assert rest.Keys == rows.Keys - {x};
    if |rest| == 0 {
      forall v | v in rows ensures rows[v] < rows[x] || (rows[v] == rows[x] && x <= v) {
        if v != x { assert false; }
      }
      assert IsLeader(rows, x);
    } else {
      LeaderExists(rest);
      var l :| IsLeader(rest, l);
      if rows[x] > rows[l] || (rows[x] == rows[l] && x < l) {
        forall v | v in rows ensures rows[v] < rows[x] || (rows[v] == rows[x] && x <= v) {
          if v != x { assert v in rest; }
        }
        assert IsLeader(rows, x);
      } else {
        forall v | v in rows ensures rows[v] < rows[l] || (rows[v] == rows[l] && l <= v) {
          if v != x { assert v in rest; }
        }
        assert IsLeader(rows, l);
      }
    }
  }

  function Leader(rows: map<int, int>): (u: int)
    requires |rows| > 0
    ensures IsLeader(rows, u)
  {
    LeaderExists(rows);
    var u :| IsLeader(rows, u);
    u
  }

  predicate Listed(top: seq<(int, int)>, u: int)
  {
    exists i :: 0 <= i < |top| && top[i].0 == u
  }

  /**
   * `SELECT id, exp FROM users ORDER BY exp DESC LIMIT limit`: distinct rows
   * in non-increasing exp, and no row left out has more exp than one listed.
   * SQLite leaves the order of equal exp open; the model lists them by id.
   */
  function TopRows(rows: map<int, int>, limit: nat): (top: seq<(int, int)>)
    ensures |top| == Min(limit, |rows|)
    ensures forall i :: 0 <= i < |top| ==> top[i].0 in rows && rows[top[i].0] == top[i].1
    ensures forall i, j :: 0 <= i < j < |top| ==> top[i].0 != top[j].0 && top[i].1 >= top[j].1
    ensures forall u, i :: u in rows && !Listed(top, u) && 0 <= i < |top| ==> rows[u] <= top[i].1
    decreases limit
  {
    if limit == 0 || |rows| == 0 then []
    else
      var u := Leader(rows);
      var rest := rows - {u};
      assert rest.Keys == rows.Keys - {u};
      var tail := TopRows(rest, limit - 1);
      var top := [(u, rows[u])] + tail;
      assert forall v :: v in rows && !Listed(top, v) ==> v in rest && !Listed(tail, v) by {
        forall v | v in rows && !Listed(top, v) ensures v in rest && !Listed(tail, v) {
          assert top[0].0 == u;
          forall i | 0 <= i < |tail| ensures tail[i].0 != v {
            assert top[i + 1] == tail[i];
          }
        }
      }
      top
  }

  /** A user with more exp than the one at place i is listed before place i. */
  lemma AboveIsAhead(rows: map<int, int>, limit: nat, i: nat, u: int)
    requires i < |TopRows(rows, limit)|
    requires u in rows && rows[u] > TopRows(rows, limit)[i].1
    ensures exists j :: 0 <= j < i && TopRows(rows, limit)[j].0 == u
  {
    var top := TopRows(rows, limit);
    if !Listed(top, u) {
      assert false;
    }
    var j :| 0 <= j < |top| && top[j].0 == u;
    assert top[j].1 == rows[u];
    if j >= i {
      assert false;
    }
  }

  /** The corrected rank of a listed user is at most its place on the leaderboard. */
  lemma LeaderboardRankWithinTop(rows: map<int, int>, limit: nat, i: nat)
    requires i < |TopRows(rows, limit)|
    ensures LeaderboardRank(rows, TopRows(rows, limit)[i].0) <= i + 1
  {
    var top := TopRows(rows, limit);
    var id := top[i].0;
    var above := set u | u in rows && rows[u] > rows[id];
    var ahead := set j | 0 <= j < i :: top[j].0;
    forall u | u in above ensures u in ahead {
      AboveIsAhead(rows, limit, i, u);
      var j :| 0 <= j < i && top[j].0 == u;
    }
    SubsetCard(above, ahead);
    ImageCard(top, i);
  }

  lemma {:induction false} ImageCard(top: seq<(int, int)>, n: nat)
    requires n <= |top|
    ensures |set j | 0 <= j < n :: top[j].0| <= n
  {
    if n > 0 {
      ImageCard(top, n - 1);
      assert (set j | 0 <= j < n :: top[j].0) == (set j | 0 <= j < n - 1 :: top[j].0) + {top[n - 1].0};
    }
  }

  /** The user `u` appears in a converted leaderboard. */
  predicate Shown(users: seq<BaseUser>, u: int)
  {
    exists i :: 0 <= i < |users| && users[i].id == u
  }

  /** Users converted row by row show exactly the users the rows list. */
  lemma ShownIffListed(top: seq<(int, int)>, users: seq<BaseUser>)
    requires |users| == |top|
    requires forall i :: 0 <= i < |top| ==> users[i].id == top[i].0
    ensures forall u :: Shown(users, u) <==> Listed(top, u)
  {
    forall u | Listed(top, u)
      ensures Shown(users, u)
    {
      var k :| 0 <= k < |top| && top[k].0 == u;
      assert users[k].id == u;
    }
  }

  /** Converts the selected rows one by one, failing on the first negative exp. */
  function ConvertAll(top: seq<(int, int)>): (r: Result<seq<BaseUser>, LedgerError>)
    ensures r.Err? <==> exists i :: 0 <= i < |top| && top[i].1 < 0
    ensures r.Ok? ==>
      && |r.value| == |top|
      && forall i :: 0 <= i < |top| ==> r.value[i].id == top[i].0 && r.value[i].exp == top[i].1
    ensures r.Ok? ==> forall i :: 0 <= i < |top| ==>
      ToBaseUser(top[i].0, top[i].1).Ok? && r.value[i] == ToBaseUser(top[i].0, top[i].1).value
  {
    if top == [] then Ok([])
    else
      match ToBaseUser(top[0].0, top[0].1)
      case Err(e) => Err(e)
      case Ok(first) =>
        match ConvertAll(top[1..])
        case Err(e) => Err(e)
        case Ok(rest) => Ok([first] + rest)
  }

  class UsersTable {
    /** The `users` table: `id INTEGER PRIMARY KEY`, `exp INTEGER NOT NULL`. */
    var rows: map<int, int>

    constructor(initial: map<int, int>)
      ensures rows == initial
    {
      rows := initial;
    }

    /**
     * `add_experience`: look the row up, then UPDATE or INSERT; returns the
     * exp held before. Sequential: no claim about overlapping calls.
     */
    method AddExperience(id: int, amount: int) returns (previous: int)
      modifies this
      ensures previous == Previous(old(rows), id)
      ensures rows == Credited(old(rows), id, amount)
    {
      if id in rows {
        previous := rows[id];
        rows := rows[id := rows[id] + amount];
      } else {
        previous := 0;
        rows := rows[id := amount];
      }
    }

    /**
     * `get_user_data`: fails for an id with no row, and for a negative exp;
     * otherwise the user's figures, the corrected rank (`LeaderboardRank`,
     * not the as-written `ServerRank`) and the row count.
     */
    function GetUserData(id: int): (r: Result<User, LedgerError>)
      reads this
      ensures id !in rows ==> r == Err(UnknownUser)
      ensures id in rows ==> (r == Err(MathDomain) <==> rows[id] < 0)
      ensures r.Ok? ==>
        && r.value.base.id == id && r.value.base.exp == rows[id]
        && r.value.base.level == ExpToLevel(rows[id])
        && 1 <= r.value.serverRank <= r.value.serverTotal == |rows|
        && (r.value.serverRank == 1 <==> forall u :: u in rows ==> rows[u] <= rows[id])
        && r.value.serverRank == LeaderboardRank(rows, id)
      ensures r.Ok? ==> ToBaseUser(id, rows[id]).Ok? && r.value.base == ToBaseUser(id, rows[id]).value
    {
      if id !in rows then Err(UnknownUser)
      else
        match ToBaseUser(id, rows[id])
        case Err(e) => Err(e)
        case Ok(base) => Ok(User(base, LeaderboardRank(rows, id), |rows|))
    }

    /**
     * `get_top(amount)`: SQLite reads a negative LIMIT as no limit; the
     * conversion fails when a listed row has a negative exp.
     */
    function GetTop(amount: int): (r: Result<seq<BaseUser>, LedgerError>)
      reads this
      ensures r.Ok? ==>
        && |r.value| == (if amount < 0 then |rows| else Min(amount, |rows|))
        && (forall i :: 0 <= i < |r.value| ==> r.value[i].id in rows && rows[r.value[i].id] == r.value[i].exp)
        && (forall i, j :: 0 <= i < j < |r.value| ==> r.value[i].id != r.value[j].id && r.value[i].exp >= r.value[j].exp)
      ensures r.Ok? ==> forall i :: 0 <= i < |r.value| ==>
        ToBaseUser(r.value[i].id, r.value[i].exp).Ok? && r.value[i] == ToBaseUser(r.value[i].id, r.value[i].exp).value
      ensures r.Ok? ==> forall u, i :: u in rows && !Shown(r.value, u) && 0 <= i < |r.value| ==> rows[u] <= r.value[i].exp
      ensures (forall u :: u in rows ==> rows[u] >= 0) ==> r.Ok?
    {
      var top := TopRows(rows, if amount < 0 then |rows| else amount);
      var r := ConvertAll(top);
      if r.Ok? then
        ShownIffListed(top, r.value);
        r
      else
        r
    }
  }
}
