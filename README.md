# BotExtensions plugins in Dafny

This project models three plugins ("cogs") of the BotExtensions Discord bot collection and proves properties of them.

- **Experience system** (`exp-system/ExpSystem.py`). Every message by a non-bot earns a roll of 1 to 6 experience points. The points are kept in a `users` table (id, exp). A user's level is `int(sqrt(exp) / 1.5 - 1)`. A level-up is announced in a notification channel when the new level is a milestone (50, 55, 60, …) or carries a role reward. The reward role is granted whenever the user's current level has one. The `rank` and `top` commands read the table.
- **Purge command** (`purge-command/PurgeCommand.py`). The `purge` entry of the `MODERATION` configuration section lists role ids and role names. A member holding one of those roles may bulk-delete the last messages of a channel, optionally only those of some authors.
- **Role notifier** (`role-notifier/RoleNotifier.py`). When a member's role list changes, the cog announces the roles that were added or removed. With `specific` on, it announces only the roles whose ids are listed in the `roles` entry.

How the modules map to the source:

- `Text` covers Python's `str.split(",")`, `str.strip()`, `int(str)` and `str(int)`, as the configuration parsers use them.
- `Discord` reduces roles, members and messages to the attributes the plugins read. Roles and members compare by id, as the framework's objects do.
- `Levels` holds the level arithmetic. It is done in integers: `Steps(e)` is the largest `k` with `9k² ≤ 4e`, so `sqrt(e)/1.5 ≥ k` exactly when `9k² ≤ 4e`.
- `Ledger` holds the `users` table. It is a class, `UsersTable`, whose `rows` map is updated in place by `AddExperience`. `Ledger` also has the rank and leaderboard queries.
- `ExpSystem` holds the cog: a class `ExpCog` with the fields `on_ready` rewrites, the level-up decision of `on_message`, and the `rank` and `top` commands.
- `PurgeCommand` and `RoleNotifier` are pure, and so are their modules.

Choices where the code's behaviour may differ from what it seems to intend:

- `get_user_data` fails for an id with no row. The fallback `tuple(... or 0)[0]` looks meant to yield 0, but `tuple(0)` raises, and the model follows the code.
- The rank that `get_user_data` computes counts users with *less* exp. The table uses the corrected rank, and the as-written one is kept beside it (see Findings). The same holds for the `left` figure of a user.
- `add_experience` reads the row and then writes it, in two statements. Nothing makes that pair atomic, so the model is sequential.

## Model

| member | source | states |
|---|---|---|
| Text.Split | purge-command/PurgeCommand.py:58 | `s.split(",")`: one piece more than there are commas, no piece holds a comma, and joining the pieces with commas gives back `s` |
| Text.SplitJoin | role-notifier/RoleNotifier.py:39 | splitting a comma-joined list of comma-free pieces gives back exactly those pieces |
| Text.Strip | purge-command/PurgeCommand.py:58 | `p.strip()` is a slice of `p` that starts after the leading whitespace; only whitespace follows it, and it neither starts nor ends with whitespace |
| Text.ParseInt | purge-command/PurgeCommand.py:52-56 | `int(value)` succeeds exactly when the stripped text is an optional sign followed by at least one digit, and then yields the decimal value of the digits, negated after a `-` |
| Text.ParseLeadingZeros | purge-command/PurgeCommand.py:52-56 | `int("007")` is 7 |
| Text.ParsePlusPadded | purge-command/PurgeCommand.py:52-56 | `int(" +5 ")` is 5 |
| Text.ParseRejects | purge-command/PurgeCommand.py:52-56 | `""`, `"1a"` and `"-"` are not integers |
| Text.ParseRender | purge-command/PurgeCommand.py:52-56 | `int(str(n)) == n` for every integer `n` |
| Levels.ExpToLevel | exp-system/ExpSystem.py:118-125 | the level of `exp`: -1 at 0 exp, never negative otherwise, and `k - 1` for the largest `k` with `9k² ≤ 4·exp` (truncation of `sqrt(exp)/1.5 - 1` toward zero) |
| Levels.LevelFromBounds | exp-system/ExpSystem.py:125 | for `exp > 0`, a level `L ≥ 0` (with `9(L+1)² ≤ 4·exp` when `L ≥ 1`) and `4·exp < 9(L+2)²` is the level of `exp`; the converse is `Levels.ExpToLevel`'s contract |
| Levels.LevelMonotone | exp-system/ExpSystem.py:125 | more exp never means a lower level |
| Levels.LevelSamples | exp-system/ExpSystem.py:125 | 0 exp is level -1, 1 to 8 exp are level 0, 9 and 20 exp are level 1 |
| Levels.LevelToExp | exp-system/ExpSystem.py:127-134 | `((level + 1) * 1.5) ** 2` equals `9(level+1)²/4` |
| Levels.ThresholdIncreasing | exp-system/ExpSystem.py:134 | from level -1 upward, each level's threshold is above the previous one |
| Levels.ThresholdExpIsCeiling | exp-system/ExpSystem.py:134 | `ThresholdExp(L)` is the least whole exp at or above the real threshold of level `L` |
| Levels.LevelBand | exp-system/ExpSystem.py:125-134 | for `L ≥ 1`, the level of `exp` is `L` exactly when `ThresholdExp(L) ≤ exp < ThresholdExp(L+1)` |
| Levels.ThresholdExpIncreasing | exp-system/ExpSystem.py:134 | whole thresholds strictly increase from level 0 |
| Levels.ReachedAtThreshold | exp-system/ExpSystem.py:125-134 | at `ThresholdExp(L)` exp the level is at least `L` |
| Levels.NotReachedBelowThreshold | exp-system/ExpSystem.py:125-134 | one exp below `ThresholdExp(L)` the level is below `L` |
| Levels.OneRollAtMostOneLevel | exp-system/ExpSystem.py:280-291 | a gain of at most 6 exp raises the level by at most one |
| Levels.NextLevelExp | exp-system/ExpSystem.py:145-146 | `exp_next` is strictly above the current exp |
| Levels.ExpLeft | exp-system/ExpSystem.py:147 | `int(exp_next - exp)` as written: exactly 9 (level + 2)^2 / 4, truncated, minus the exp; non-negative, and one short of the next whole threshold or exactly on it |
| Levels.ExpLeftShortExactly | exp-system/ExpSystem.py:147 | for exp ≥ 1 the as-written `left` is one short of the corrected amount exactly when the next threshold is not whole, and equal to it exactly when it is |
| Levels.ExpLeftUndercounts | exp-system/ExpSystem.py:147 | at 20 exp the as-written `left` is 0, yet 20 exp is still level 1 |
| Levels.ExpLeftOvercountsAtZero | exp-system/ExpSystem.py:147 | at 0 exp the as-written `left` is 2, yet 1 exp already reaches level 0 |
| Levels.ExpToNextLevel | exp-system/ExpSystem.py:145-147 | corrected `left`: at least 1; the level goes up by one after exactly that much exp and not one point earlier |
| Levels.ExpToNextLevelIsLeast | exp-system/ExpSystem.py:145-147 | no smaller gain than the corrected `left` changes the level |
| Ledger.Credited | exp-system/ExpSystem.py:194-203 | the table after a grant: the user's row holds the previous exp (0 without a row) plus the grant, the user gains a row if they had none, and every other row is unchanged |
| Ledger.CreditsAccumulate | exp-system/ExpSystem.py:194-203 | two grants to one user add up, and the second adds no row |
| Ledger.CreditKeepsNonNegative | exp-system/ExpSystem.py:194-203 | non-negative grants keep every stored exp non-negative |
| Ledger.ToBaseUser | exp-system/ExpSystem.py:149-158 | fails exactly for a negative exp (`sqrt` domain error); otherwise the user's id, exp, level, a next threshold above the exp, and a `left` that reaches the next level exactly |
| Ledger.ServerRank | exp-system/ExpSystem.py:173-176 | the rank as written (1 + users with less exp) lies in 1..total, and it is 1 exactly for a user with the least exp |
| Ledger.LeaderboardRank | exp-system/ExpSystem.py:173-176 | corrected rank (1 + users with more exp) lies in 1..total, and it is 1 exactly for a user with the most exp |
| Ledger.LeaderboardRankOrders | exp-system/ExpSystem.py:173-176 | the corrected rank orders users by exp: more exp gives a strictly smaller rank and equal exp the same rank, both as if-and-only-if |
| Ledger.ServerRankReversed | exp-system/ExpSystem.py:173-176 | with two users, the one with more exp gets the as-written rank 2 (last) but the corrected rank 1 |
| Ledger.Leader | exp-system/ExpSystem.py:216 | a non-empty table has a user with the most exp (lowest id among equals) |
| Ledger.TopRows | exp-system/ExpSystem.py:216 | `ORDER BY exp DESC LIMIT n`: `min(n, rows)` distinct rows of the table with their exp, in non-increasing exp, and no row left out has more exp than one listed |
| Ledger.AboveIsAhead | exp-system/ExpSystem.py:216 | a user with more exp than the one at place `i` is listed before place `i` |
| Ledger.LeaderboardRankWithinTop | exp-system/ExpSystem.py:173-176 | the corrected rank of the user at place `i` of the top list is at most `i + 1` |
| Ledger.ConvertAll | exp-system/ExpSystem.py:219 | converting the selected rows fails exactly when one has a negative exp; otherwise one user per row, in the same order, each with the figures `ToBaseUser` gives for that row |
| Ledger.UsersTable.constructor | exp-system/ExpSystem.py:109-112 | a table holding the given rows |
| Ledger.UsersTable.AddExperience | exp-system/ExpSystem.py:185-205 | returns the exp held before (0 without a row) and leaves the table as `Credited` describes |
| Ledger.UsersTable.GetUserData | exp-system/ExpSystem.py:160-183 | fails for an unknown id and for a negative exp; otherwise the user's figures exactly as `ToBaseUser` gives them (exp, level, next threshold, `left`), a corrected rank in 1..total that is 1 exactly for a user with the most exp, and the row count |
| Ledger.UsersTable.GetTop | exp-system/ExpSystem.py:207-219 | `min(amount, rows)` users (every user for a negative LIMIT), each a row of the table with `ToBaseUser`'s figures, distinct, in non-increasing exp, and no user left out has more exp than one listed; never fails when every exp is non-negative |
| ExpSystem.FindById | exp-system/ExpSystem.py:264 | `get(roles, id=...)` finds a role with that id, and finds nothing exactly when no role has it |
| ExpSystem.UsableRewards | exp-system/ExpSystem.py:262-273 | a configured level keeps its reward exactly when the guild has a role with the configured id, and then the reward becomes that role |
| ExpSystem.ResolveRewards | exp-system/ExpSystem.py:262-273 | the loop over the configured rewards builds exactly `UsableRewards` |
| ExpSystem.LevelUpDecision | exp-system/ExpSystem.py:280-307 | the new level is that of previous + roll; it is announced exactly when both notification targets are set, the level went up and it is a milestone or has a reward; an announced level is one above the old one; the role is granted exactly when the new level has a reward |
| ExpSystem.MilestoneAnnounced | exp-system/ExpSystem.py:287-291 | 5852 + 1 exp reaches level 50 and is announced without a reward, but not when the channel is unset |
| ExpSystem.NonMilestoneNeedsReward | exp-system/ExpSystem.py:287-291 | 6320 + 1 exp reaches level 52; that is announced only when level 52 has a reward |
| ExpSystem.RewardGrantedWithoutLevelUp | exp-system/ExpSystem.py:307-317 | a message that leaves a user at a rewarded level grants the role again without an announcement |
| ExpSystem.ExpCog.constructor | exp-system/ExpSystem.py:236-248 | the cog starts with the configured targets, the reward ids of `exp_roles` and a table of non-negative exp |
| ExpSystem.ExpCog.OnReady | exp-system/ExpSystem.py:250-273 | without a guild nothing changes; otherwise the channel stays set only if the guild has it, and the rewards become `UsableRewards` of the configured ones |
| ExpSystem.ExpCog.OnMessage | exp-system/ExpSystem.py:275-317 | a bot's message changes nothing; any other message credits the roll to its author and yields `LevelUpDecision` on the exp held before; the table stays non-negative |
| ExpSystem.ExpCog.RankAsWritten | exp-system/ExpSystem.py:335-337 | `rank` as written fetches the invoker's figures whoever is mentioned |
| ExpSystem.ExpCog.Rank | exp-system/ExpSystem.py:335-337 | corrected `rank`: the figures of the mentioned user, or of the invoker when nobody is mentioned |
| ExpSystem.ExpCog.RankIgnoresMention | exp-system/ExpSystem.py:335-337 | for two distinct known users, the as-written command shows the invoker's figures and the corrected one the mentioned user's |
| ExpSystem.ExpCog.Top | exp-system/ExpSystem.py:356-361 | the leaderboard is queried exactly when `1 ≤ amount ≤ max_top`; it lists at most `amount` users and never fails while the table is non-negative |
| ExpSystem.ExpCog.DefaultTopRange | exp-system/ExpSystem.py:356 | with the default maximum of 25, an amount of 25 is listed and 0 and 26 are refused |
| PurgeCommand.ConvertIfNumber | purge-command/PurgeCommand.py:52-56 | a role id exactly when the stripped text is an optional sign followed by digits (what `int` accepts), with the value of the digits, negated after `-`; otherwise the text itself, unchanged, as a role name |
| PurgeCommand.NumberBecomesId | purge-command/PurgeCommand.py:52-56 | a written-out integer becomes a role id with that value |
| PurgeCommand.NameStaysName | purge-command/PurgeCommand.py:52-56 | a piece holding any character other than a digit, a sign or whitespace stays a role name, unchanged |
| PurgeCommand.ConvertPieces | purge-command/PurgeCommand.py:58 | one entry per piece, each the conversion of the stripped piece |
| PurgeCommand.ParseAllowed | purge-command/PurgeCommand.py:47-58 | fails exactly when the `MODERATION` section or its `purge` entry is missing; otherwise one entry per comma-separated piece (commas + 1, empty pieces kept), each the converted stripped piece |
| PurgeCommand.Found | purge-command/PurgeCommand.py:78-79 | `get(roles, id=…)` / `get(roles, name=…)` is not None exactly when some role matches the entry |
| PurgeCommand.HasPermission | purge-command/PurgeCommand.py:78-81 | permitted exactly when some allowed entry matches some role of the author; an empty list permits nobody |
| PurgeCommand.Deletable | purge-command/PurgeCommand.py:85 | the purge check deletes exactly the examined messages whose author is listed, or all of them when no authors are given |
| PurgeCommand.DeletableConcat | purge-command/PurgeCommand.py:85 | the deleted messages keep the channel's order |
| PurgeCommand.MentionList | purge-command/PurgeCommand.py:83 | `", ".join(mentions)`: empty for no authors, the one mention for one author, starts with the first mention and ends with the last, and its length is the mentions' lengths plus two per separator |
| PurgeCommand.MentionPair | purge-command/PurgeCommand.py:83 | two mentions are joined as `a, b` |
| PurgeCommand.Ending | purge-command/PurgeCommand.py:83 | the reply ending is empty exactly when no authors are given, and otherwise " from " followed by the joined mentions |
| PurgeCommand.Purge | purge-command/PurgeCommand.py:75-86 | outside a guild the command refuses before checking roles; in a guild it refuses exactly when the permission rule fails and purges exactly when it holds; the purge deletes exactly `Deletable` of the examined messages (so their number and order too) with the `Ending` reply |
| RoleNotifier.ParseIds | role-notifier/RoleNotifier.py:39-43 | fails exactly when a non-empty piece is not an integer; otherwise every id comes from a non-empty piece and every non-empty piece gives an id in the list |
| RoleNotifier.SpecificRoles | role-notifier/RoleNotifier.py:37-43 | without a `roles` entry the list is empty; otherwise it is the parse of the comma-separated entry |
| RoleNotifier.ListedIdsRead | role-notifier/RoleNotifier.py:39-40 | ids written out one per piece are read back as the same ids, in order |
| RoleNotifier.Missing | role-notifier/RoleNotifier.py:63-64 | the difference holds exactly the roles of the source list that the other list lacks (by id) |
| RoleNotifier.NothingMissing | role-notifier/RoleNotifier.py:63-64 | when the other list has every role of the source, the difference is empty |
| RoleNotifier.MissingPrefix | role-notifier/RoleNotifier.py:63-64 | the difference keeps the order of the source list |
| RoleNotifier.MissingLast | role-notifier/RoleNotifier.py:63-64 | appending a new role to a list makes that role alone the difference |
| RoleNotifier.Announce | role-notifier/RoleNotifier.py:45-48 | at most one event per role of the difference, all in the given state |
| RoleNotifier.AnnounceMembers | role-notifier/RoleNotifier.py:45-48 | a role is announced exactly when it is in the difference and passes the `specific` filter |
| RoleNotifier.AnnounceUnfiltered | role-notifier/RoleNotifier.py:45-48 | with the filter off, one event per role of the difference, in order |
| RoleNotifier.AnnounceCount | role-notifier/RoleNotifier.py:45-48 | a passing role gets exactly as many events as it has entries in the difference; a filtered role gets none |
| RoleNotifier.AnnounceConcat | role-notifier/RoleNotifier.py:65-66 | the events keep the order of the difference: announcing distributes over concatenation |
| RoleNotifier.MissingCount | role-notifier/RoleNotifier.py:63-64 | a role missing from the other list appears in the difference exactly as often as in the source list |
| RoleNotifier.Notifications | role-notifier/RoleNotifier.py:59-66 | nothing when the role lists are equal; with `before` at least as long as `after`, exactly the roles lost (that pass the filter) as removals; otherwise exactly the roles gained as additions; in each case the events are the announcements of the difference, in its order |
| RoleNotifier.RemovalsCounted | role-notifier/RoleNotifier.py:62-66 | on a removal, each lost role that passes the filter is announced exactly as often as `before` lists it, and no other role is |
| RoleNotifier.AdditionsCounted | role-notifier/RoleNotifier.py:62-66 | on an addition, each gained role that passes the filter is announced exactly as often as `after` lists it, and no other role is |
| RoleNotifier.ReorderIsSilent | role-notifier/RoleNotifier.py:61-64 | reordering the same roles changes the list but announces nothing |
| RoleNotifier.SwapReportsOnlyRemoval | role-notifier/RoleNotifier.py:62-64 | exchanging one role for another is reported as the removal alone |
| RoleNotifier.GainAnnounced | role-notifier/RoleNotifier.py:61-66 | a role gained with nothing lost is announced once, as an addition |

## Left out

- Discord I/O is not modelled: embeds, channel sends, message edits, `add_roles`, the bulk delete call and the reply texts of `lang.py`. The purge is modelled by the messages it examines (`examined`), which the channel's history supplies for `limit=count`.
- The retry loops of `send_levelup` and `add_role` are not modelled. They sleep and call again until the channel or role object exists. `notify` and `grantRole` of `ExpSystem.LevelUpDecision` record that `send_levelup` or `add_role` is entered, not that anything is delivered. In two cases the source enters them and then retries forever without sending or granting anything. First, a configured `notifications_guild` of 0 makes `on_ready` return early (exp-system/ExpSystem.py:252-255): `self.roles` keeps its int ids and `_notifications_guild` never becomes a `Guild`, so `add_role` never grants the role. Second, a message handled before `on_ready` whose channel or reward role `on_ready` then fails to find (exp-system/ExpSystem.py:260, 265-269) leaves `send_levelup` or `add_role` retrying forever.
- `random.randint(1, 6)` is not modelled. The roll is a parameter, constrained to 1..6.
- Floating point is not modelled. The level formula is proved in exact arithmetic. Above about 10^15 exp, `sqrt` rounding can differ from the exact level.
- `intword` is not modelled. `_BaseUser` keeps numbers, not their humanised texts.
- `strtobool` for the `specific` and `enabled` flags is not modelled. With `specific` on, `RoleNotifier.Notifications` takes the id list; with it off, it takes `None`.
- Concurrency is not modelled. `Ledger.UsersTable.AddExperience` is sequential; interleaved reads and writes of the same row are not modelled.
- `Text.ParseInt` does not accept underscores between digits or non-ASCII digits, both of which Python's `int` accepts.
- `Ledger.TopRows` breaks ties among equal exp by the lowest id. SQLite leaves that order open. The contract only states non-increasing exp and distinct rows, so it holds for any tie order.
- The `ORDER BY exp DESC` inside the rank's `COUNT(*)` query has no effect on a count and is not modelled.
- `ExpSystem.ExpCog.OnReady`: a second `on_ready` call is not modelled faithfully. In the source, `get_guild` then receives a guild object, returns None, and the call raises. In the model, a second call looks up the already-fetched rewards again; a fetched role never matches an id, so it empties `roles`. The case where the first `get_guild` returns None is not modelled either; the guild's roles are a parameter.
- The configuration parsing of `ExpSystem.__init__` is not modelled. The constructor takes as flags whether the guild and the channel are set. When the `LEVELING` section is missing, the source never assigns `_notifications_guild`, and `on_ready` then raises; this is not modelled.
- A reward role id of 0 is not modelled. `role_reward` would be falsy in Python, so the `if role_reward` tests would skip it.
- The database file, its creation on first use and the schema's SQL are not modelled. `Ledger.UsersTable.constructor` stands for an existing table.
- The default arguments `amount = 10` of `top` and `count = 100` of `purge` are not modelled, because the callers pass them.
- `setup` of each plugin is not modelled. It registers the cog with the bot.

## Findings

| source | as written | input that shows it | evidently intended | confidence | as-written member | corrected member |
|---|---|---|---|---|---|---|
| exp-system/ExpSystem.py:173-176 | the position counts users with less exp (`exp <`), so the user with the most exp gets the last place | users 1 (100 exp) and 2 (10 exp): user 1 is ranked 2 of 2 | rank 1 for the user with the most exp: count users with more exp | high, not executed | Ledger.ServerRank | Ledger.LeaderboardRank |
| exp-system/ExpSystem.py:147 | `int(exp_next - exp)` truncates, so for exp ≥ 1 `left` is one short when the next threshold is not whole; at 0 exp it is one too many, because level 0 starts at 1 exp, not at the threshold 2.25 | 20 exp: level 1, next threshold 20.25, `left` = 0, yet 20 exp is still level 1; 0 exp: `left` = 2, yet 1 exp reaches level 0 | the exp still needed to reach the next level | medium, not executed | Levels.ExpLeft | Levels.ExpToNextLevel |
| exp-system/ExpSystem.py:335-337 | `rank @user` fetches the data of `ctx.author.id` and shows it under the mentioned user's name | invoker 1 and mentioned user 2, both in the table: the figures shown are user 1's | fetch the data of the user shown, `user.id` | high, not executed | ExpSystem.ExpCog.RankAsWritten | ExpSystem.ExpCog.Rank |
