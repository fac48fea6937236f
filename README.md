# Snake game engine, verified model

A Dafny model of the simulation core of a browser snake game, plus its
in-memory fallback leaderboard.

- **Board and collision rules** (`GameUtils`, `game_utils.dfy`). The board is a fixed 20×20 grid of
  integer positions. There is a one-cell step per direction that never wraps. There are the wall,
  self, food and direction-reversal checks, and food placement by rejection sampling.
- **Engine** (`GameStore`, `game_store.dfy`). The store is a class `Game` with the fields `snake`,
  `food`, `direction`, `nextDirection`, `score`, `highScore`, `gameStatus` and `speed`. Its methods
  are the store's actions: `MoveSnake`, `ChangeDirection`, `IncreaseScore`, `GenerateFood`,
  `ResetGame`, `PauseGame`, `ResumeGame` and `StartGame`. `CheckCollision` is a function that reads
  the object. Each method's frame is exactly the set of fields the action may write.
- **Fallback leaderboard** (`LeaderboardService`, `leaderboard.dfy`). The module-level list becomes
  the `entries` field of a class `FallbackStorage`. A submission pushes an entry, sorts stably by
  descending score and keeps the first 100. A read returns a prefix chosen by the JavaScript
  `slice(0, limit)` rules. The remote service is reduced to the outcome it reports.
- **Scenarios** (`scenarios.dfy`). Two client methods drive a `Game` through concrete ticks, and
  their assertions are verified.

Randomness is a parameter. A source of `Math.random` becomes `draws: seq<Cell>`: the cells that
successive `Math.floor(Math.random() * 20)` pairs would produce, each inside the grid. Rejection
sampling scans these draws and accepts the first one off the snake. The JavaScript loop runs forever
when no draw is ever free. So every operation that places food requires `HasFreeDraw`: some draw
lands on a free cell. That can only happen while a free cell exists (`FreeDrawNeedsFreeCell`).

What the proofs establish beyond each action's own contract:

- **The store's invariant.** `Game.Valid` has five parts, and every action preserves them:
  - the snake has at least three segments;
  - consecutive segments are adjacent;
  - no segment sits on the one two places behind it;
  - the head is one step from the neck in the committed `direction`;
  - the pending `nextDirection` is never the reversal of `direction`.

  It also covers the score bookkeeping: `0 <= score <= highScore`, and `speed` equals
  `max(80, 150 - 5 * score)`, so `speed` stays in [80, 150].
- **The self-collision shortcut is sound.** `checkSelfCollision` returns false for snakes with
  fewer than four segments. A parity argument shows this never hides a real collision: on any snake
  of this shape the head can only meet a segment at least four places behind it
  (`HeadMeetsOnlyFarSegments`). So the game-over test is exactly "head off the board or on the body"
  (`SelfCollisionShortcutSound`, `Game.CollisionExact`).
- **The sort is stable.** The fallback sort is specified as a stable descending sort, proved
  sorted, a permutation and stable (`SortDesc`, `SortDescIsPermutation`, `SortDescStable`). On an
  already sorted list, push-then-sort equals insertion after all entries of equal score
  (`PushThenSortIsInsert`).

Two behaviours of the code that are easy to miss, and that the model keeps:

- **Food after eating.** `generateFood` runs before the snake is updated
  (`src/store/gameStore.ts:74-75` runs before `:81`), so new food avoids only the pre-move snake
  and may land under the new head. `Game.MoveSnake` states exactly that: after eating, the new
  food lies off every segment except possibly the head. The scenario `Scenarios.FoodUnderNewHead`
  builds a case where it lands on the head.
- **Starting a game.** `startGame` (`src/store/gameStore.ts:137-139`) has no guard and sets
  `playing` from any status, including `gameOver`; `Game.StartGame` does the same.
- **Moving outside play.** `moveSnake` itself does not look at the status. Only its caller in
  `src/components/GameCanvas.tsx` checks it, and that gate is modelled separately as
  `Game.GameLoopTick`.

## Model

| member | source | states |
|---|---|---|
| `GameUtils.Opposite` | src/utils/gameUtils.ts:19-24 | no direction is its own opposite |
| `GameUtils.OppositeIsInvolution` | src/utils/gameUtils.ts:19-24 | the opposite of the opposite is the direction itself |
| `GameUtils.GetNextPosition` | src/utils/gameUtils.ts:26-39 | the result is exactly one cell away; UP/DOWN keep x, LEFT lowers x, UP lowers y, so the direction fixes which coordinate moves and which way; no wrap or clamp |
| `GameUtils.NextPositionUndo` | src/utils/gameUtils.ts:19-39 | a second step returns to the start if and only if it goes in the opposite direction |
| `GameUtils.NextPositionInjective` | src/utils/gameUtils.ts:26-39 | from one position, two directions give the same step only if they are equal |
| `GameUtils.CheckWallCollision` | src/utils/gameUtils.ts:41-48 | true exactly for positions off the 20×20 board |
| `GameUtils.AnySegmentAt` | src/utils/gameUtils.ts:53 | the front-to-back `some` over segments holds iff the position is one of them |
| `GameUtils.CheckSelfCollision` | src/utils/gameUtils.ts:50-54 | false below four segments; from four segments on, true iff the head equals some segment at index 1 or later |
| `GameUtils.CheckFoodCollision` | src/utils/gameUtils.ts:56-59 | needs a non-empty snake; true iff the head is on the food |
| `GameUtils.FoodCollisionReadsOnlyHead` | src/utils/gameUtils.ts:56-59 | the result depends on the head alone: any snake with the same head gives the answer of the one-segment snake |
| `GameUtils.RefusedExactlyWhenUndoing` | src/utils/gameUtils.ts:72-77 | a requested direction is refused exactly when, from every position, its step undoes the step of the current direction |
| `GameUtils.ValidDirectionProperties` | src/utils/gameUtils.ts:19-24 | keeping the same direction is valid; validity is symmetric; invalid iff the two are opposites |
| `GameUtils.InitialSnakeProperties` | src/utils/gameUtils.ts:11-17 | three in-grid cells in a horizontal row, head (10,10) first, the head one step RIGHT of the neck, neither wall nor self collision |
| `GameUtils.FirstFreeDraw` | src/utils/gameUtils.ts:63-68 | the accepted draw is off the snake and every earlier draw is on it |
| `GameUtils.FreeDrawNeedsFreeCell` | src/utils/gameUtils.ts:61-70 | placement can only finish while some grid cell is free of the snake |
| `GameUtils.GenerateFood` | src/utils/gameUtils.ts:61-70 | the do/while loop returns a grid cell off the snake: the first draw that is off the snake |
| `GameStore.SpeedForScore` | src/store/gameStore.ts:40-42 | the interval after n foods, max(80, 150 - 5n), lies in [80, 150] |
| `GameStore.SpeedUp` | src/store/gameStore.ts:147 | one speed-up never goes below 80, never slows the game down, and makes it strictly faster while above 80 |
| `GameStore.SpeedAfterClosedForm` | src/store/gameStore.ts:40-42 | n speed-ups from 150 give exactly max(80, 150 - 5n) |
| `GameStore.InitialSnakeShaped` | src/utils/gameUtils.ts:11-17 | the initial snake with direction RIGHT has the shape the store's invariant demands |
| `GameStore.Slither` | src/store/gameStore.ts:71-79 | one move adds a new head one step in the direction; the rest is a prefix of the old snake; length grows by one when eating and is unchanged otherwise |
| `GameStore.NoReversalIntoNeck` | src/store/gameStore.ts:89-96 | when the head is one step from the neck in the committed direction, a direction accepted by the anti-reversal rule never puts the new head on the neck |
| `GameStore.SlitherKeepsShape` | src/store/gameStore.ts:56-79 | every move in an accepted direction keeps the snake of length 3 or more, connected and free of U-turns, with its head one step from its neck in the new direction |
| `GameStore.HeadMeetsOnlyFarSegments` | src/utils/gameUtils.ts:50-54 | on a connected snake without U-turns, the head can only coincide with a segment four or more places behind it |
| `GameStore.SelfCollisionShortcutSound` | src/utils/gameUtils.ts:50-54 | on every such snake, the check with its length-below-four shortcut holds exactly when the head is on the body |
| `GameStore.GlideKeepsLength` | src/store/gameStore.ts:76-79 | any number of moves without food leave the snake's length unchanged |
| `GameStore.Game.constructor` | src/store/gameStore.ts:47-54 | initial state: initial snake, food off it, RIGHT/RIGHT, score 0, the persisted high score, idle, speed 150 |
| `GameStore.Game.WillEat` | src/store/gameStore.ts:64-68 | the move eats exactly when one step from the head in the pending direction is the food |
| `GameStore.Game.CheckCollision` | src/store/gameStore.ts:104-108 | true iff the head is off the board or, for four or more segments, on the body |
| `GameStore.Game.CollisionExact` | src/store/gameStore.ts:104-108 | on every valid state the check is exactly "head off the board or on the body" |
| `GameStore.Game.IncreaseScore` | src/store/gameStore.ts:141-154 | score + 1, high score = max(old high score, new score), speed = max(80, speed - 5); keeps high score >= score and speed in step with score |
| `GameStore.Game.GenerateFood` | src/store/gameStore.ts:98-102 | new food off the current snake, chosen by rejection sampling; nothing else changes |
| `GameStore.Game.MoveSnake` | src/store/gameStore.ts:56-87 | commits the pending direction; moves one cell; on food, grows, scores, speeds up and places food off the pre-move snake (so off every segment but possibly the head); without food, shifts with tail dropped and keeps score, speed and food; game over iff the new head is off the board or on the body, status otherwise unchanged; growth not undone; invariant kept |
| `GameStore.Game.ChangeDirection` | src/store/gameStore.ts:89-96 | only while playing, and only a non-reversal of the committed direction, overwrites the pending direction; the committed one is never written |
| `GameStore.Game.ResetGame` | src/store/gameStore.ts:110-121 | restores the initial snake, RIGHT/RIGHT, score 0, speed 150, idle, fresh food off the initial snake; high score untouched |
| `GameStore.Game.PauseGame` | src/store/gameStore.ts:123-128 | playing becomes paused; any other status stays |
| `GameStore.Game.ResumeGame` | src/store/gameStore.ts:130-135 | paused becomes playing; any other status stays |
| `GameStore.Game.StartGame` | src/store/gameStore.ts:137-139 | playing from every status, with no guard |
| `GameStore.Game.GameLoopTick` | src/components/GameCanvas.tsx:129-136 | moves exactly when playing and at least `speed` ms have passed, and changes nothing otherwise; a move has `MoveSnake`'s full effect: new snake, score, high score, speed, food, and `gameOver` on a wall or self collision, otherwise still `playing` |
| `LeaderboardService.SortedDescPairwise` | src/services/leaderboardService.ts:23 | in a list in non-increasing order, no entry outscores any entry before it, not only its neighbour |
| `LeaderboardService.Rank` | src/services/leaderboardService.ts:23 | the slot of a new score: every entry before the slot scores at least that much, the one at it scores less |
| `LeaderboardService.Insert` | src/services/leaderboardService.ts:22-23 | inserting one entry makes the list one longer |
| `LeaderboardService.InsertAtRank` | src/services/leaderboardService.ts:22-23 | the entry goes in at its rank, after all entries of equal or higher score |
| `LeaderboardService.InsertIsPermutation` | src/services/leaderboardService.ts:22-23 | insertion adds exactly the new entry |
| `LeaderboardService.InsertKeepsSorted` | src/services/leaderboardService.ts:22-23 | inserting into a list in descending order keeps it in descending order |
| `LeaderboardService.InsertStable` | src/services/leaderboardService.ts:22-23 | on a sorted list, the entries of each score keep their order and the new one comes last among its ties |
| `LeaderboardService.SortDesc` | src/services/leaderboardService.ts:23 | the sort by `b.score - a.score` yields a list in non-increasing score order of the same length |
| `LeaderboardService.SortDescIsPermutation` | src/services/leaderboardService.ts:23 | the sort yields the same entries, each as often |
| `LeaderboardService.SortDescStable` | src/services/leaderboardService.ts:23 | the sort is stable: for every score, the entries of that score come out in their input order |
| `LeaderboardService.InsertBelowAll` | src/services/leaderboardService.ts:22-23 | an entry scoring no more than every listed entry is appended at the end |
| `LeaderboardService.SortDescOfSorted` | src/services/leaderboardService.ts:23 | a list already in order is left unchanged |
| `LeaderboardService.PushThenSortIsInsert` | src/services/leaderboardService.ts:22-23 | pushing onto the sorted list and sorting is the stable insertion of the new entry |
| `LeaderboardService.Take` | src/services/leaderboardService.ts:24 | `slice(0, n)`: a prefix of length min(n, length) |
| `LeaderboardService.TruncationDropsLowest` | src/services/leaderboardService.ts:24 | on a sorted list, the kept prefix and the dropped rest make up the list, and nothing dropped outranks anything kept |
| `LeaderboardService.SubmitDropsAtMostOne` | src/services/leaderboardService.ts:22-24 | one submission drops at most one entry, and it scores no higher than any kept one |
| `LeaderboardService.FullListRejectsLowEntry` | src/services/leaderboardService.ts:22-25 | on a full list, an entry scoring at most the 100th falls off and the list is unchanged |
| `LeaderboardService.EntryKeptUnlessFullAndLow` | src/services/leaderboardService.ts:22-24 | otherwise the new entry is kept, at its rank |
| `LeaderboardService.FallbackStorage.constructor` | src/services/leaderboardService.ts:12 | the fallback list starts empty |
| `LeaderboardService.FallbackStorage.StoreLocally` | src/services/leaderboardService.ts:17-25 | push, stable descending sort, keep 100: the new list is the first 100 of the sorted old list plus the entry, kept sorted and at most 100 long; the entry carries the given name and score |
| `LeaderboardService.FallbackStorage.SubmitScore` | src/services/leaderboardService.ts:14-76 | unconfigured and failed requests perform the same fallback update and return the new entry; a stored remote row is returned and the list is unchanged |
| `LeaderboardService.FallbackStorage.GetLeaderboard` | src/services/leaderboardService.ts:78-119 | without a successful remote read: a prefix of the list, min(limit, length) long for non-negative limits and length + limit floored at 0 for negative ones, with `limit` defaulting to 10; reading changes nothing |

## Left out

- Rendering, the animation-frame loop and its timing, and the pulsing and flash effects are left
  out. Only the caller's gate on status and interval is kept, as `Game.GameLoopTick`, with the
  elapsed time as a parameter.
- Keyboard handling (`src/hooks/useKeyboardControls.ts`) is left out. It only maps keys to the
  store actions modelled here.
- The UI components and theme selection are React presentation and are left out.
- The persistence middleware is a library call and is left out. The restored high score is a
  constructor parameter, a non-negative integer, 0 when nothing was stored.
- The remote leaderboard is network I/O and is left out: requests, JSON parsing, environment
  variables and logging. What the service did is a parameter (`SubmitOutcome`, `FetchOutcome`),
  and a stored or fetched remote result is taken as opaque.
- Creation timestamps (`created_at`, a clock read) and the optional `id` are left out of `Entry`.
  `Entry` holds the player name and the score.
- `Math.random` is not modelled as a floating-point source. It becomes the stream of grid cells
  that `Math.floor(Math.random() * 20)` yields. The JavaScript loop does not terminate when no draw
  is ever free, and that case is excluded by a precondition.
- JavaScript numbers are modelled as unbounded integers. Scores do not approach 2^53, and
  non-integer scores or limits are left out.
- `getNextPosition` has a `default` branch. The four-valued `Direction` type makes it
  unreachable, so it is left out.
