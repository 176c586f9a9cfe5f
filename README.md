# Rule-based Super Mario Bros. agent — Dafny model

This project models the decision logic of the early rule-based Mario agent in
`ruleBasedMario.py`:

- the **move table**: twelve move names (`NOTHING`, `RIGHT`, …, `UP`) and the
  dictionary `actions = dict(zip(moves, range(12)))` that gives each its index
  in the emulator's COMPLEX_MOVEMENT action set (module `Actions`);
- the **goomba test** `goomba(observation, row, col, theme)`: fifteen
  whole-pixel colour comparisons, chained with `and`, over the 4x4 window
  whose top-left corner is `(row, col)` (module `Screen`);
- the **screen scan** `look(observation, theme="g")`: two nested loops over a
  253x253 area that record `objects[(row, p)] = "goomba"` where the anchor pixel
  is orange and `goomba` holds. The dictionary is then dropped: `look` returns
  nothing (module `Screen`);
- the **decision** `agent(observation, info, ticks)`: a timing schedule that
  runs right and holds jump on ticks 51..99 of every 100-tick cycle, whatever
  the screen and info say (module `Agent`);
- the **frame loop** `main`: starting at `ticks = 34` and action 4, it steps
  the emulator, takes the next action from `agent`, adds up the reward and
  stops at the first step that is terminated or truncated (module `Episode`).

The Python built-ins this code relies on are modelled in module `Python`.
These are subscripting with negative indices (which may raise `IndexError`),
`range`, `zip`, and `dict` built from pairs, where a later key wins. Pixels
are RGB triples of integers, compared as a whole. A screen is a sequence of
rows of pixels. `goomba` returns `True` or falls off its end; the model
returns `Value(true)` or `Value(false)`, the latter standing for `None`, and
`IndexError` where Python would raise.

The emulator is abstracted. `RunEpisode` receives the sequence of results
that `env.step` returns during one episode: screen, reward, `terminated`,
`truncated` and info. It returns the actions it sent, one per step, so the
contract can say what the emulator was given.

No template-matching object locator and no jump-latching controller appear
in `ruleBasedMario.py`, so neither is part of this model.

## Model

| member | source | states |
|---|---|---|
| `Actions.MovesDistinct` | ruleBasedMario.py:8-21 | the move list has twelve entries and no name appears twice |
| `Actions.ActionTableIndex` | ruleBasedMario.py:8-23 | `actions` holds exactly the twelve move names, and `actions[moves[i]] == i` for every `i` in 0..11 |
| `Actions.ActionTableRoundTrip` | ruleBasedMario.py:23 | a name is a key of `actions` iff it is a move, and `moves[actions[m]] == m`: the table is a bijection between names and 0..11 |
| `Actions.ActionTableInjective` | ruleBasedMario.py:23 | distinct move names get distinct action indices |
| `Actions.RunEntries` | ruleBasedMario.py:12-13 | `actions["RIGHT_RUN"] == 3` and `actions["RIGHT_JUMP_RUN"] == 4` |
| `Python.ZipUnzip` | ruleBasedMario.py:23 | projecting the pairs of `zip(a, b)` gives back `a` and `b`, each cut to the shorter length |
| `Python.SubscriptFromEnd` | ruleBasedMario.py:45-59 | a negative index `i - len(s)` reaches the same element as `i`, as Python's indexing in `goomba` does |
| `Python.DictOfKeys` | ruleBasedMario.py:23 | the keys of `dict(pairs)` are exactly the keys occurring in `pairs` |
| `Python.DictOfLookup` | ruleBasedMario.py:23 | with distinct keys, `dict(pairs)` maps each key to the value paired with it |
| `Screen.Goomba` | ruleBasedMario.py:42-61 | any theme other than "g" gives `None`; the result is `True` exactly when the theme is "g" and all fifteen comparisons read a pixel equal to the listed colour |
| `Screen.ProbeAllTrue` | ruleBasedMario.py:43-60 | a left-to-right `and` chain of pixel comparisons is true exactly when every comparison reads an existing pixel of the right colour |
| `Screen.ProbeAllInWindow` | ruleBasedMario.py:43-60 | when all reads fall inside a window of the frame, the chain never raises and its value is the conjunction of the comparisons |
| `Screen.GoombaProbesColumnMajor` | ruleBasedMario.py:45-59 | the fifteen comparisons visit the 4x4 window column by column, skipping the anchor, each against the tile's colour at that cell |
| `Screen.GoombaProbesMatchTile` | ruleBasedMario.py:45-59 | the fifteen comparisons all hold iff the window shows the goomba tile on every cell but the anchor |
| `Screen.GoombaWindow` | ruleBasedMario.py:42-61 | when rows `row..row+3` and columns `col..col+3` exist, `goomba` never raises and is true iff the theme is "g" and the window shows the goomba tile outside the anchor |
| `Screen.GoombaReadsOnlyWindow` | ruleBasedMario.py:45-59 | `goomba` depends only on the 4x4 window at `(row, col)`: frames agreeing there, out-of-range reads included, give the same result |
| `Screen.ScanScreen` | ruleBasedMario.py:29-37 | every key of `objects` lies in `[0,253)x[0,253)`, has an orange anchor and passes `goomba`, and maps to "goomba"; every such position is a key |
| `Screen.Look` | ruleBasedMario.py:29-39 | runs the scan and returns nothing; the dictionary it built is dropped |
| `Screen.GoombaAtTile` | ruleBasedMario.py:35-36 | a position of the scan area is recorded iff the theme is "g" and its whole 4x4 window, anchor included, shows the goomba tile |
| `Agent.Decide` | ruleBasedMario.py:64-86 | the decision is always `RIGHT_RUN` (3) or `RIGHT_JUMP_RUN` (4) |
| `Agent.DecideJumpIntervals` | ruleBasedMario.py:84-86 | the agent jumps (4) exactly on ticks `100q+51..100q+99` and runs (3) on all others; the `< 100` test never fails, so jumping is exactly `ticks % 100 > 50` |
| `Agent.DecidePeriodic` | ruleBasedMario.py:84-86 | the decision repeats with period 100 in `ticks` |
| `Agent.DecideIgnoresInputs` | ruleBasedMario.py:64-69 | the decision does not depend on the screen or on the info entries read |
| `Episode.RunEpisode` | ruleBasedMario.py:89-112 | the loop stops at the first step that is terminated or truncated; it sends 4 first and then, at step `k`, the decision made at tick `34 + k`, which is 4 iff `(34 + k) % 100 > 50`; the reward total is the sum of the rewards received and `ticks` ends at 34 plus the number of steps |
| `Episode.RewardSumAppend` | ruleBasedMario.py:104 | the reward total over an episode adds up over consecutive stretches of it |
| `Episode.RewardSumBounds` | ruleBasedMario.py:104 | if every step's reward lies in `[lo, hi]`, the total over `n` steps lies in `[n*lo, n*hi]` |

## Left out

- Environment construction and the emulator itself (`gym.make`, `JoypadSpace`, `reset`, rendering, `env.step`) are foreign calls. The model takes the step results of an episode as input.
- The emulator's reaction to the actions sent is not modelled: the step results are given in advance. Any single run fixes such a sequence.
- `Episode.RunEpisode` requires that some step ends the episode. On an emulator that never reports termination, the Python loop runs forever; that case is not modelled.
- `Screen.ScanScreen` and `Screen.Look` require a screen of at least 256x256 pixels. Python reads rows and columns 0..252 unconditionally, but rows and columns 253..255 only inside `goomba`, when the theme is "g", the anchor is orange and the earlier comparisons hold. So the requires also excludes frames of 253 to 255 rows or columns that Python scans without error, and the `IndexError` that `look` raises on a frame where a read does fall outside is not modelled. The emulator's real frame size is not part of this model.
- `Episode.RunEpisode`: rewards are modelled as whole numbers (`int`); `rewardTotal += reward` in the source adds whatever numeric type `env.step` returns.
- The comparison `observation[row][p] == [228, 92, 16]` on a numpy array yields an element-wise array, and using it in `if`/`and` would raise. The model uses the intended whole-pixel equality.
- The 249 blank lines that `agent` prints, and the final score print of `main`, are console output.
- The unused `env.reset()` results and the commented-out HUD and debug code.
- PPO training, prediction, model loading and saving, and the checkpoint callback in `PyTorchMario.py`, `1_TrainMario.py` and `2_RunMario.py` belong to an external learning library and the file system.
