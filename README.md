# Tweens, A* paths, TSV export and reward colours, verified in Dafny

This project models the utility core of a browser game's UI layer:

- **JMTween** (`utils.js`) is a small tweening engine. A tween owns a target object. Entries are pushed with `to`, `from`, `colorTo` and `colorFrom`. `start()` resolves each entry's start and end values against the object and registers the tween. A registry then calls `tickThis(time)` once per animation frame. The first tick fixes the time window, after an optional `wait`. Later ticks do three things:
  - end the wait;
  - write an interpolated value for every entry, with an optional easing curve and a per-channel step for colours;
  - once past the window, `complete` the tween.

  Completing snaps every field to its end value. It then replays the tween:
  - a `loop` restarts it, at a cost of 1 repeat;
  - a `yoyo` swaps every entry's endpoints, at a cost of half a repeat.

  When no replay is left, the tween stops, leaves the registry, fires `onComplete`, and starts the chained tween, if there is one.
- **AStarPath** (`utils.js`) is a best-first search over nodes with `connections`. It keeps an open list sorted by `pValue + hValue` and a closed list. It relaxes records already on either list, and walks `previous` links back to build the path.
- **arrayToTSV** (`utils.js`) turns a list of records into a tab-separated table. The header line holds every key in the order first seen, and each record gets one row.
- **getLuminance** (`utils.js`) gives the HSL lightness of a 24-bit colour.
- **getColorForReward** (`helpers.js`) looks up a reward's two colours. It returns the first table entry whose name occurs in the reward, or entry 0 (`None`).

## Files

- `seqs.dfy` (module `Seqs`): `Option`, `indexOf`, and "remove the first occurrence" (`indexOf` plus `splice`).
- `colour.dfy` (module `Colour`): JavaScript `%` and `Math.round` on numbers, the colour channel split, the colour interpolation step, and `getLuminance`.
- `tween_props.dfy` (module `TweenProps`): the entry record, plus the value-level meaning of `start()`, an interpolation frame, the completion snap and `reverseProps`.
- `tween_state.dfy` (module `TweenState`): the tween's fields as a value and each tick and completion step as a function of it. It also holds the lemmas about repeated completions (loop and yoyo counts) and the `onWaitComplete` budget.
- `tween.dfy` (module `Tween`): the classes `Registry` (the static `_tweens` list with `_add` and `_remove`) and `JMTween`. Each method updates the fields in place and is proved equal to the matching `TweenState` function.
- `astar.dfy` (module `AStar`): the search over a record arena with open and closed index lists, and the class `AStarPath`.
- `tsv.dfy` (module `Tsv`): `arrayToTSV` as loops, proved against a functional table.
- `reward_colors.dfy` (module `RewardColors`): the reward table and the first-match lookup.

## Modelling choices

- **Numbers:**
  - JavaScript numbers are reals, and times and durations are integers.
  - `Math.floor` is `.Floor`.
  - `%` is JavaScript's truncating remainder (`Colour.JsRem`), not Dafny's Euclidean one.
  - `Math.round` rounds halves up (`Colour.JsRound`).
- **Target object:** a `map<string, real>`. `object[key] || 0` reads a missing key as 0.
- **`Object.keys` order:** the order of a sequence of key/value pairs.
- **Callbacks:** a flag per callback that holds the truthiness of the last value registered (so registering `null` or nothing unregisters), plus a log of `onUpdate`, `onComplete` and `onWaitComplete` calls. Each logged call carries the object it was handed.
- **Easing function and A* costs:** the easing function is a parameter (`real -> real`), and so are A*'s `tileValue` and `hermeneutic`.
- **Registry:** passed to the methods that use it, not held in a static field.
- **A* graph:** a map from a node id to its `connections`. Node identity (`===`) is equality of ids.
- **Reward table:** a constant that the lookup never modifies, so the lookup is a function.
- **Loop completion:** the code snaps every field to its end value and then replays, so fields do not return to their start values. The model follows the code (`TweenState.LoopEndsOnEnd`).
- **TSV row separator:** a line break followed by the six spaces the template literal holds, as in the code.
- **A* relaxation costs:** a record relaxed through the current node is charged the current node's `tileValue`. A newly opened record is charged its own node's value. Both are modelled as written (`AStar.Relaxed`, `AStar.Visit`).

## Model

| member | source | states |
|---|---|---|
| Seqs.IndexOf | utils.js:85 | the first index holding `x`, or -1 exactly when `x` is absent |
| Seqs.SpliceFirst | utils.js:84-89 | splicing out the index `indexOf` finds removes exactly the first occurrence |
| Seqs.RemoveFirstMultiset | utils.js:84-89 | `_remove` takes one copy of the tween out when it is registered, and changes nothing otherwise |
| Seqs.RemoveFirstIdempotent | utils.js:171-177 | for a tween registered at most once, a second `stop` changes nothing, and the tween is no longer registered |
| Tween.Registry.constructor | utils.js:77 | the registry starts empty |
| Tween.Registry.Add | utils.js:79-82 | `_add` appends the tween, even when it is already registered |
| Tween.Registry.Remove | utils.js:84-89 | `_remove` leaves the list with the first occurrence removed |
| Tween.JMTween.constructor | utils.js:132-136 | a new tween owns the object and the duration (default 200), has no entries and is valid, and its first tick is `firstTick` |
| Tween.JMTween.OnUpdate | utils.js:138-142 | the `onUpdate` registration becomes the given callback's truthiness (a falsy one unregisters); nothing else changes |
| Tween.JMTween.OnComplete | utils.js:144-148 | the `onComplete` registration becomes the given callback's truthiness (a falsy one unregisters); nothing else changes |
| Tween.JMTween.OnWaitComplete | utils.js:150-154 | the `onWaitComplete` registration becomes the given callback's truthiness (a falsy one unregisters); nothing else changes |
| Tween.JMTween.Yoyo | utils.js:156-162 | the yoyo flag is set and the counter starts at `repeat - 0.5`; nothing else changes |
| Tween.JMTween.Loop | utils.js:164-169 | the loop flag is set and the counter is `repeat`; nothing else changes |
| Tween.JMTween.Stop | utils.js:171-177 | the tween no longer runs and its first registry entry is removed |
| Tween.JMTween.Reset | utils.js:179-184 | the next tick is `firstTick`, and a non-zero wait is armed again |
| Tween.JMTween.Wait | utils.js:186-191 | the wait time is set and armed |
| Tween.JMTween.Over | utils.js:193-197 | only the duration changes, and a tween that has not yet ticked stays valid |
| Tween.JMTween.ResolveAll | utils.js:202-223 | the in-place loop over the entries leaves the entries and the object as the functional `StartFold` does |
| Tween.JMTween.Start | utils.js:199-228 | the tween's new state is `TweenState.Started`, the tween is appended to the registry, and validity is kept |
| Tween.JMTween.Push | utils.js:230-264 | the entries gain one fresh entry per key, in key order, and validity is kept |
| Tween.JMTween.To | utils.js:230-237 | `Push` with `to` entries |
| Tween.JMTween.From | utils.js:239-246 | `Push` with `from` entries |
| Tween.JMTween.ColorTo | utils.js:248-255 | `Push` with colour `to` entries |
| Tween.JMTween.ColorFrom | utils.js:257-264 | `Push` with colour `from` entries |
| Tween.JMTween.Easing | utils.js:266-270 | only the easing function changes |
| Tween.JMTween.Chain | utils.js:275-279 | a fresh tween on the new object, with the given duration, is chained and returned; this tween is otherwise unchanged |
| Tween.JMTween.ChainTween | utils.js:284-288 | the given tween is chained and returned; this tween is otherwise unchanged |
| Tween.JMTween.SnapAll | utils.js:291-294 | every entry's field gets its `end`, later entries winning (`TweenProps.Snapped`) |
| Tween.JMTween.Restart | utils.js:296-300 | the loop branch of `complete` leaves the state `TweenState.Restarted` describes |
| Tween.JMTween.Turn | utils.js:301-305 | the yoyo branch of `complete` leaves the state `TweenState.Turned` describes |
| Tween.JMTween.Halt | utils.js:307-311 | the last branch of `complete`: not running, no more ticks, out of the registry, `onComplete` logged |
| Tween.JMTween.RunNext | utils.js:313-317 | the chained tween is reset, started (and registered) and ticked once at the same time, as `TweenState.Chained` describes; its own chain is kept |
| Tween.JMTween.Finish | utils.js:306-318 | the tween finishes, and then its chained tween, if any, is started |
| Tween.JMTween.Complete | utils.js:290-320 | snap, then exactly one of restart, turn or finish, chosen as `TweenState.CompletedAt` chooses |
| Tween.JMTween.FirstTick | utils.js:322-330 | the new state is `TweenState.FirstTicked` |
| Tween.JMTween.CheckWait | utils.js:333-336 | the wait boundary of `tailTick`, as `TweenState.WaitChecked` |
| Tween.JMTween.ApplyFrame | utils.js:344-357 | the interpolation loop writes the frame's values, in entry order, as `TweenProps.Frame` gives them |
| Tween.JMTween.TailTick | utils.js:332-361 | the wait boundary, then completion past the window, an interpolation frame inside it, or nothing before it |
| Tween.JMTween.Tick | utils.js:322-361 | `tickThis` does what the current tick mode names, and a finished tween's tick does nothing |
| Tween.JMTween.ReverseProps | utils.js:363-377 | the entries become `TweenProps.Reversed` of what they were, and nothing else changes |
| Tween.NewPropertiesConsistent | utils.js:230-264 | freshly pushed entries have increments that agree with their (zero) endpoints |
| TweenProps.Resolve | utils.js:203-219 | a resolved entry keeps its key, flags and literal, and its increments agree with its endpoints |
| TweenProps.StartFold | utils.js:202-223 | the resolved list has one entry per entry |
| TweenProps.StartWrites | utils.js:222 | `start()` adds exactly the entries' keys to the object and leaves every other field alone |
| TweenProps.StartResolves | utils.js:202-223 | with distinct keys, each entry resolves against the original object, and its key ends up holding its start value |
| TweenProps.StartEndpoints | utils.js:203-211 | `to` runs from the current field (0 if missing) to the literal; `from` runs from the literal to the current field |
| TweenProps.StartFoldConsistent | utils.js:213-219 | every resolved entry has increments that agree with its endpoints, and keys are kept in order |
| TweenProps.AssignDistinct | utils.js:222 | writing distinct keys in order gives each key its value and keeps every other field |
| TweenProps.Assign | utils.js:222 | writes a list of `(key, value)` pairs into the object in order; `AssignDistinct` gives each distinct key its value and keeps every other field |
| TweenProps.Snapped | utils.js:291-294 | the object after the completion snap; `SnappedFields`, `FrameAtOneIsSnap` and `SnapReversedIsStart` say what it holds |
| TweenProps.Percent | utils.js:345 | an entry's progress, eased or raw by its `eased` flag; `ValueEndpoints` and `FrameAtOneIsSnap` use it at progress 0 and 1 |
| TweenProps.Value | utils.js:347-356 | the value a frame writes for one entry; `ValueEndpoints` proves it is the start at progress 0 and the end at progress 1 |
| TweenProps.SnappedFields | utils.js:291-294 | after a snap with distinct keys, every field holds its entry's end |
| TweenProps.ValueEndpoints | utils.js:347-356 | a frame at progress 0 writes the start value and at progress 1 the end value (colours written as whole numbers) |
| TweenProps.FrameAtOneIsSnap | utils.js:338-357 | the last in-window frame, at progress 1 (with an easing that keeps 1), writes the same object as the completion snap |
| TweenProps.Swap | utils.js:364-375 | `reverseProps` swaps one entry's endpoints and recomputes increments that agree with them |
| TweenProps.SwapTwice | utils.js:363-377 | swapping a consistent entry twice restores it |
| TweenProps.ReversedTwice | utils.js:363-377 | reversing a consistent list twice restores it |
| TweenProps.ReversedKeys | utils.js:363-377 | a reversed list is consistent and keeps distinct keys distinct |
| TweenProps.SnapReversedIsStart | utils.js:291-305 | snapping after a yoyo reversal writes every field's original start |
| TweenState.Initial | utils.js:132-136 | a new tween is valid |
| TweenState.AfterReset | utils.js:179-184 | `reset()` as a value; `Tween.JMTween.Reset` and `Restarted` state what it leaves |
| TweenState.Eased | utils.js:342 | the eased progress, or the raw one without an easing; `FrameAtOneIsSnap` needs an easing that keeps 1 |
| TweenState.Ticked | utils.js:322-361 | `tickThis(time)` as a value; `TickedValid`, `FrameKeepsReplay`, `CompletionFrame`, `WaitFiresWhenDue` and `TickWaitBudget` say what one tick does |
| TweenState.Started | utils.js:199-228 | `start()` leaves every entry consistent, marks the tween running and keeps the window |
| TweenState.FirstTicked | utils.js:322-330 | the window starts at `time`, or at `time + waitTime` when a wait is armed, lasts one duration, and `tailTick` follows |
| TweenState.WaitChecked | utils.js:333-336 | with a wait armed and `time` past the window's start, the wait is cleared and `onWaitComplete` is logged exactly when registered; in every other case the tween is unchanged; no other field changes |
| TweenState.Progress | utils.js:341 | inside the window the raw progress lies in (0, 1] |
| TweenState.CompletedAt | utils.js:290-320 | the snap; a loop with repeats left costs 1 and restarts; otherwise a yoyo with repeats left costs 0.5 and reverses; otherwise the tween stops and logs `onComplete` |
| TweenState.Restarted | utils.js:296-300 | one repeat used, back to `firstTick`, the wait re-armed, a new window; nothing else changes |
| TweenState.Turned | utils.js:301-305 | half a repeat used, the entries reversed, a new window that starts at `time` and lasts one duration; nothing else changes |
| TweenState.Finished | utils.js:306-311 | not running, idle, `onComplete` logged when registered; nothing else changes |
| TweenState.Advanced | utils.js:340-359 | an in-window frame changes only the object, and logs `onUpdate` with it exactly when registered |
| TweenState.TailTicked | utils.js:332-361 | nothing happens before the window, completion past it, and an in-window frame keeps the entries; `onUpdate` fires only inside the window |
| TweenState.Chained | utils.js:313-317 | the chained tween ends up running, timed and in `tailTick` |
| TweenState.CompletedValid | utils.js:290-320 | completion keeps the tween valid |
| TweenState.TickedValid | utils.js:322-361 | every tick keeps the tween valid |
| TweenState.FrameKeepsReplay | utils.js:322-361 | a tick that does not complete keeps the entries, the repeat counter and the yoyo and loop flags |
| TweenState.CompletionFrame | utils.js:332-339 | a tick past the window is the wait check followed by the completion `CompletedAt` describes |
| TweenState.YoyoSteps | utils.js:301-305 | each of `k` yoyo completions costs half a repeat and reverses the entries once |
| TweenState.ReversedTimesParity | utils.js:363-377 | only the parity of the number of reversals matters |
| TweenState.YoyoReplays | utils.js:296-306 | a yoyo does not finish before its halves run out |
| TweenState.YoyoEndsOnStart | utils.js:156-162 | `yoyo(true, n)` finishes at exactly the `2n`-th completion, with every field back on its start value, and logs `onComplete` then |
| TweenState.LoopEndsOnEnd | utils.js:164-169 | `loop(true, n)` restarts on each of the first `n` completions and finishes on the next, with every field on its end value |
| TweenState.CompleteTimesSplit | utils.js:290-320 | `k + 1` completions are one more completion after `k` |
| TweenState.Run | utils.js:98-105 | any series of frames keeps the tween valid |
| TweenState.TickWaitBudget | utils.js:296-336 | one frame keeps the loop flag and only appends to the log; its `onWaitComplete` calls plus a wait still armed after it are at most the wait armed before it, plus 1 when the frame restarts a loop |
| TweenState.WaitFiresWhenDue | utils.js:332-336 | a frame fires `onWaitComplete` exactly when it is a `tailTick` with a wait armed, a time past the window's start and the callback registered |
| TweenState.WaitFiresPerRestart | utils.js:296-336 | over any series of frames, `onWaitComplete` fires at most once for the wait armed at the outset and once more per loop restart (`Restarts`) |
| TweenState.NoLoopNoRestarts | utils.js:296-300 | a tween without a loop never restarts, over any series of frames |
| TweenState.WaitFiresAtMostOnce | utils.js:332-336 | without a loop to re-arm it, `onWaitComplete` fires at most once over any series of frames, and never after the wait is used up |
| Colour.JsRem | utils.js:215-216 | JavaScript's remainder of a non-negative number lies in [0, m) |
| Colour.JsRound | utils.js:349 | `Math.round` is within half of its argument |
| Colour.ChannelsOfNat | utils.js:214-216 | on a whole colour the channel split gives its base-256 digits, and they rebuild it |
| Colour.StepEndpoints | utils.js:349-352 | a colour frame at progress 0 writes the start colour and at progress 1 the end colour |
| Colour.QuarterWayCyanToRed | utils.js:349-352 | 0x00ffff to 0xff0000 at a quarter writes 0x3fbfbf: each channel moves by its own floored step |
| Colour.ChannelBounds | utils.js:618-620 | every channel of a 24-bit colour is a byte |
| Colour.Channels | utils.js:618-620 | the red, green and blue split of a colour; `ChannelsOfNat` shows it gives the base-256 digits of a whole colour and `ChannelBounds` that they are bytes |
| Colour.Delta | utils.js:213-217 | the per-channel increments of a colour entry; `StepEndpoints` shows a frame moves from the start to the end colour by exactly them |
| Colour.Step | utils.js:349-352 | a colour frame's value; `StepEndpoints` and `QuarterWayCyanToRed` state it |
| Colour.GetLuminance | utils.js:617-626 | the mean of the largest and smallest channel, scaled to 100; `LuminanceRange` bounds it to [0, 100] on 24-bit colours and gives a grey's value |
| Colour.LuminanceRange | utils.js:617-626 | the luminance of a 24-bit colour lies in [0, 100], and a grey's is its level times 100/255 |
| AStar.FindRecord | utils.js:691-709 | the first list entry whose record is for the node, or -1 exactly when there is none |
| AStar.Relaxed | utils.js:693-705 | exactly when the cost through the current record is strictly cheaper, the record takes that cost and the current record as its `previous`; otherwise nothing changes; no other record ever changes |
| AStar.RelaxedOk | utils.js:693-706 | relaxing keeps every `previous` link along a connection |
| AStar.Visit | utils.js:690-717 | one connection is relaxed in open, else in closed, else opened as a new record; either way it ends up on a list |
| AStar.Expand | utils.js:690-718 | after the `main:` loop every connection of the current node has a record on a list, and only new connections were opened |
| AStar.InsertByScore | utils.js:719-727 | insertion yields a permutation of the list plus the new entry |
| AStar.SortByScore | utils.js:719-727 | the sort yields a permutation of the open list |
| AStar.SortSorted | utils.js:719-727 | the sorted open list is ordered by `pValue + hValue` |
| AStar.SortKeepsDistinct | utils.js:719-727 | sorting never puts two records for one node on the open list |
| AStar.Walk | utils.js:682-688 | the walk back along `previous` links yields a path from the start to the found node, and it reaches the start whenever every link points to an earlier record (`Ranked`) |
| AStar.Advance | utils.js:677-728 | one pass closes the first open record, keeps the search invariant, leaves the open list sorted by `pValue + hValue`, makes progress, and with non-negative tile costs keeps every `previous` link pointing to an earlier record |
| AStar.RelaxedRanked | utils.js:693-705 | relaxing with a non-negative cost keeps every link pointing to an earlier record: lower `pValue`, or equal and updated earlier |
| AStar.AddedRanked | utils.js:710 | a new record linked to the current one at no lower cost comes after it |
| AStar.SearchDecreases | utils.js:676-729 | each pass closes a new node or shortens the open list, so the loop ends |
| AStar.KeepsApart | utils.js:690-728 | with no node connected to itself, no node has two records on a list or records on both |
| AStar.Exhausted | utils.js:731-732 | when the open list runs dry, no path joins start and end |
| AStar.NoWayOut | utils.js:731-732 | a connection-closed set holding the start and not the end rules out every path |
| AStar.ClosedBound | utils.js:728 | with no node connected to itself, the closed list names each node at most once |
| AStar.Search | utils.js:671-733 | start equals end gives `[start]`; a found path is a path from start to end; `null` means no path exists; with non-negative tile costs the walk back always ends, so whenever a path exists one is found; the closed nodes are distinct |
| AStar.AStarPath.constructor | utils.js:663-667 | default costs of 1 per node and a zero heuristic, then the path is made at once, with `makePath`'s guarantees; with the default or a non-negative `tileValue` the walk back always ends |
| AStar.AStarPath.MakePath | utils.js:671-733 | the result is stored in `path`, with `Search`'s guarantees, including that non-negative tile costs rule out a walk back that never ends |
| Tsv.Put | utils.js:641 | `row[index] = v` grows the sparse array to `index + 1` with holes, and changes only that slot |
| Tsv.Join | utils.js:646-651 | `join` with a separator; `JoinNoBreak` and `LineBreaks` count the line breaks it makes |
| Tsv.Fill | utils.js:636-642 | the inner key loop as a fold; `FillHeaders`, `FillLast`, `FillOthers` and `FillWidth` state its headers, cells and length |
| Tsv.Table | utils.js:632-645 | the outer record loop as a fold; `HeadersFirstSeen`, `RowColumns`, `RowWidth` and `TableRow` state what it builds |
| Tsv.AddRecord | utils.js:633-642 | the inner key loop adds the record's new keys to the headers and fills its row as `Fill` does |
| Tsv.RenderLines | utils.js:647-652 | the header line, then each row after a line break |
| Tsv.ArrayToTsv | utils.js:628-655 | the output is the header line and the rows of the functional `Table` |
| Tsv.HeadersFirstSeen | utils.js:636-640 | the header line names every key of the records exactly once, in the order first seen |
| Tsv.RowColumns | utils.js:632-645 | each record's row puts each key's value (the last, for a repeated key) under its header, leaves every other column empty, and is exactly `Width` long |
| Tsv.Width | utils.js:636-641 | a row's length is one past the largest header index of the record's keys, and 0 for a record without keys |
| Tsv.FillWidth | utils.js:636-641 | the inner loop leaves the row as long as the record's width (or the old row, if longer) |
| Tsv.RowWidth | utils.js:632-645 | the row of record `r` is exactly as long as its width under the final header line |
| Tsv.TableRow | utils.js:632-645 | row `r` is filled against the headers known before record `r`, and later records only append headers |
| Tsv.LineBreaks | utils.js:647-652 | without line breaks in keys or values, the output has exactly one line break per record |
| RewardColors.Membership | helpers.js:43-51 | the result is always a row of the table |
| RewardColors.MatchFrom | helpers.js:44-50 | the `for … of` loop from entry `i` on; `FirstMatch`, `Fallback` and `Cases` give its result |
| RewardColors.GetColorForReward | helpers.js:43-51 | the lookup; `Membership`, `FirstMatch`, `Fallback` and `Cases` give its result |
| RewardColors.FirstMatch | helpers.js:44-47 | when entry `j` is the first whose name occurs in the reward, the result is entry `j` |
| RewardColors.Fallback | helpers.js:50 | when no name occurs in the reward, the result is entry 0, `None` |
| RewardColors.Cases | helpers.js:43-51 | every reward falls under `FirstMatch` for some entry or under `Fallback` |
| RewardColors.LadderReward | helpers.js:6-8 | "Ladder" gets the `Ladder` entry, past the earlier `LadderUp` and `Ladder.Datetime` |
| RewardColors.LadderDatetimeReward | helpers.js:7-8 | "Ladder.Datetime" gets its own entry, placed before `Ladder` |
| RewardColors.LadderInDatetime | helpers.js:7-8 | "Ladder.Datetime" also includes "Ladder", so the table order is what decides |
| RewardColors.LegendaryReward | helpers.js:31-32 | "Equipment:Legendary" gets its own entry, placed before `Equipment` |
| RewardColors.EquipmentInLegendary | helpers.js:31-32 | "Equipment:Legendary" also includes "Equipment", so the table order is what decides |
| RewardColors.UnknownReward | helpers.js:50 | a reward naming no entry ("Gem") falls back to `None` |

## Left out

- `_tryRun` and `_onTick` (utils.js:91-105) are left out. They schedule `requestAnimationFrame` and call `tickThis` on every registered tween, and the browser's frame loop and the asynchrony between frames are outside the model. `TweenState.Run` stands for a series of frames of one tween.
- A tween that is removed from, or added to, the registry while `_onTick` iterates over it is not modelled.
- `getColorForReward`'s `for (el of …)` declares no variable, so each call assigns a global `el` (or throws in strict mode). The model leaves that global out.
- Callbacks are recorded, not run: the model does not capture a callback that modifies the tween or the object.
- The easing function is any `real -> real`; the named easing curves of `utils.js` are not part of this model.
- Targets are owned maps. Two tweens (or a tween and its chained tween) that share one object are not modelled as aliases, and a chained tween that is the tween itself is excluded from `Tick`'s last clause.
- Entry values are numbers. `undefined`, `null` and `NaN` literals, and so the `to || to === 0` fall-through of `start()`, are left out, and so is `totalTime || 0` with a missing duration.
- Tween.JMTween.Over: validity is promised only before the first tick. On a tween already ticking, the window keeps its old end, so progress can pass 1 before completion; the model does not describe those frames.
- AStar.Walk: with a negative `tileValue`, the `previous` links can form a cycle, and then the source's walk never returns. The model stops after as many steps as there are records and reports `Diverged`. With non-negative tile costs, `Search` proves that this cannot happen.
- AStar.SortByScore: the sort is proved to be an ordered permutation; its stability is not proved.
- AStar.Search: optimality of the path is not claimed. The source relaxes closed records without reopening them and charges relaxations with the current node's cost, so it does not promise a shortest path.
- AStar.Search: the distinct-closed-nodes bound needs a graph in which no node lists itself among its connections.
- RewardColors.FirstMatch: the converse (that the entry returned is the first match) is stated as `FirstMatch` plus `Cases`, not as a single if-and-only-if over entry names.
- `arrayToTSV` takes every value as the string `toString()` gives it, and records as lists of key/value pairs in `Object.keys` order.
- Texture caching, loaders, `debounce`, `throttle`, the easing library, `CONFIG`, local-storage saving and the game's strings are not part of this model.
