# Browser tabs: the `useTabs` state controller and its title debouncer

This project models the state behind the browser-tabs widget of a form page:
the `useTabs` hook, which keeps an ordered, never-empty list of `{ title }`
tabs, an active-tab token of the form `tab-<index>`, and a staged title; and
the `useDebounce` hook, which lets a staged title through only after it has
stayed unchanged for a full 500 ms window. When the debounced title changes,
the hook's commit effect writes it into the tab the active token points at,
unless it is empty.

Files and modules:

- `wrappers.dfy` (`Wrappers`): `Option` and `Result`.
- `tab_token.dfy` (`TabToken`): the token encoding `tab-${i}` and its decoding
  `Number(id.split('-')[1])`, with `split`, decimal rendering and `Number` on
  index strings written out, and the round trip proved.
- `debounce.dfy` (`Debounce`): `useDebounce` as a discrete-event machine on a
  logical clock (`Render`, `Tick`, `Unmount` events), with the host's timer
  queue and the effect's timer handle made explicit, the invariant "at most one
  timer pending, carrying the latest value", last-value-wins over a burst, and
  the `Debouncer` class whose methods follow the machine step by step.
- `tabs_model.dfy` (`TabsModel`): the tab list operations, the active-title
  read, the commit, the strip's token list and navigation layout, and the whole
  hook as a value (`Hook`) with an `Apply` step function and the lemmas about it.
- `tabs_hook.dfy` (`TabsHook`): the hook instance as a class over tab record
  objects (the commit writes a record's `title` in place) and `TabTitleInput`.

Behaviour of the code that the model keeps, including the parts that are easy
to assume otherwise:

- `addNewTab` appends a tab and does not move the selection
  (src/components/ui/tabs.tsx:130).
- The hook has no `removeTab`, no `maxItems` ceiling and no overflow
  detection (src/components/ui/tabs.tsx:105-141); a caller's `useTabs({ maxItems: 5 })`
  and `tabs.removeTab(id)` (src/app/page.tsx:65, 231) have nothing to call.
- Only the empty string is kept out of a tab title: the guard is JavaScript
  truthiness (src/components/ui/tabs.tsx:118), so a title of spaces is committed.
- The commit effect depends on the debounced value only
  (src/components/ui/tabs.tsx:124); re-staging the current debounced title (the
  value the debouncer last wrote) commits nothing, even when another tab is now
  active (`TabsModel.SameTitleNotRecommitted`).
- The active title is a memo over the active token alone
  (src/components/ui/tabs.tsx:126): it is recomputed when the token changes and
  goes stale after a commit or an append.
- Selection is never checked: any token is accepted, and reading the title of
  a token that names no tab throws (`TabsModel.SelectUnchecked`).

Modelling choices: time is a logical clock of unit ticks standing for
milliseconds; `setTimeout`/`clearTimeout` are a queue of `(handle, due, payload)`
timers inside the state; a thrown `TypeError` (`tabs[i]` is `undefined`) is a
`Fault` value, with the tabs left as they were before the throw.

## Model

| member | source | states |
|---|---|---|
| `TabToken.Decimal` | src/components/ui/tabs.tsx:152 | the text of an index is a non-empty string of decimal digits, with a leading zero only for 0 |
| `TabToken.ToIndex` | src/components/ui/tabs.tsx:114 | `Number` of a string gives an index exactly when the string is all decimal digits, and the empty string gives 0 |
| `TabToken.Split` | src/components/ui/tabs.tsx:114 | `split('-')` always gives at least one part, even of the empty string |
| `TabToken.SplitJoin` | src/components/ui/tabs.tsx:114 | no part of `split('-')` contains `-`, and joining the parts with `-` gives the input back |
| `TabToken.DecodeIndex` | src/components/ui/tabs.tsx:126 | a token decodes to an index only if it contains `-` |
| `TabToken.SplitSepFree` | src/components/ui/tabs.tsx:114 | a string without `-` splits into itself alone |
| `TabToken.SplitAtFirst` | src/components/ui/tabs.tsx:114 | splitting at the first `-` peels off the head and splits the rest |
| `TabToken.DecimalValue` | src/components/ui/tabs.tsx:152 | reading the decimal text of n as digits gives n |
| `TabToken.TokenRoundTrip` | src/components/ui/tabs.tsx:152-155 | the token `tab-${i}` of index i decodes back to i through `split('-')[1]` and `Number` |
| `TabToken.TokenInjective` | src/components/ui/tabs.tsx:152 | two tokens are equal exactly when their indices are |
| `TabToken.DecodeEmptyField` | src/components/ui/tabs.tsx:114 | `tab-` decodes to 0, because `Number("")` is 0 |
| `TabToken.DecodeLeadingZero` | src/components/ui/tabs.tsx:126 | `tab-07` decodes to 7 although it is not the token of 7 |
| `TabToken.DecodeSecondField` | src/components/ui/tabs.tsx:114 | a token decodes to `Number` of its second `-`-separated field, whatever the first field is |
| `TabToken.DecodeIgnoresLaterFields` | src/components/ui/tabs.tsx:114 | fields after the second do not change the decoded index |
| `TabToken.NoSeparatorNoIndex` | src/components/ui/tabs.tsx:126 | any token without a `-` has no second field and names no index |
| `TabToken.NonDigitFieldNoIndex` | src/components/ui/tabs.tsx:126 | any token whose second field is not all digits names no index (NaN) |
| `Debounce.Init` | src/hooks/use-debounce.ts:5-10 | the debounced value starts as the initial value and the mount effect schedules one timer for it |
| `Debounce.InitValid` | src/hooks/use-debounce.ts:5-15 | the first render satisfies the invariant |
| `Debounce.StepValid` | src/hooks/use-debounce.ts:7-15 | every event keeps the invariant: at most one timer pending, owned by the current effect and carrying the latest value; none after unmount |
| `Debounce.RenderReschedules` | src/hooks/use-debounce.ts:7-15 | a change of value or delay clears the pending timer, then schedules exactly one new timer for the new value, due one delay from now; the debounced value is untouched |
| `Debounce.TickFiresLatest` | src/hooks/use-debounce.ts:8-10 | a tick either fires the pending timer, emptying the queue, setting the debounced value to the latest value and changing nothing but the clock besides, or changes only the clock; the whole next state is given |
| `Debounce.TicksQuiet` | src/hooks/use-debounce.ts:8-10 | ticks before the timer is due only advance the clock and write nothing |
| `Debounce.TicksThroughDue` | src/hooks/use-debounce.ts:8-10 | a full quiet window writes the latest value exactly once and leaves no timer |
| `Debounce.BurstLastWins` | src/hooks/use-debounce.ts:7-15 | over a burst of changing values, each arriving before the delay elapses, the debounced value is written exactly once, with the final value |
| `Debounce.UnmountClears` | src/hooks/use-debounce.ts:12-14 | the cleanup on unmount leaves no pending timer and keeps the debounced value |
| `Debounce.UnmountedStable` | src/hooks/use-debounce.ts:12-14 | after unmount no event ever writes the debounced value again |
| `Debounce.Debouncer.constructor` | src/hooks/use-debounce.ts:5-10 | the instance starts in the initial state of the machine |
| `Debounce.Debouncer.Render` | src/hooks/use-debounce.ts:7-15 | the instance takes exactly the machine's step for a render, keeping the invariant |
| `Debounce.Debouncer.Tick` | src/hooks/use-debounce.ts:8-10 | the instance takes the machine's tick and reports the values the fired timers wrote |
| `Debounce.Debouncer.Unmount` | src/hooks/use-debounce.ts:12-14 | the instance clears its timer and keeps its debounced value |
| `TabsModel.AppendDefault` | src/components/ui/tabs.tsx:130 | appending keeps every earlier tab, grows the list by one and ends it with a "New Tab" tab |
| `TabsModel.TitleAt` | src/components/ui/tabs.tsx:126 | the active title is read exactly when the token decodes to an index below the tab count, and is that tab's title; otherwise it throws |
| `TabsModel.CommitTitle` | src/components/ui/tabs.tsx:114-123 | an empty title leaves the tabs as they are; any other title replaces the title of exactly the tab the token decodes to, with the length unchanged, or throws when there is no such tab |
| `TabsModel.Navigation` | src/components/ui/tabs.tsx:73-93 | below four tabs the strip is exactly the list and the add button; from four on it is exactly left chevron, list, right chevron, add button; the add button's label is 'Add new tab' by default |
| `TabsModel.Init` | src/components/ui/tabs.tsx:106-110 | the hook starts with one "New Tab" tab, staged title "New Tab", token `tab-0`, active title "New Tab" and count 1 |
| `TabsModel.InitValid` | src/components/ui/tabs.tsx:106-128 | the first render satisfies the hook invariant |
| `TabsModel.ApplyValid` | src/components/ui/tabs.tsx:105-141 | every action keeps the invariant (at least one tab, count equals length, the debouncer sees the staged title) and no action removes a tab |
| `TabsModel.RunValid` | src/components/ui/tabs.tsx:128-140 | over any sequence of actions the tab list is never empty, never shrinks, and `totalItems` is its length |
| `TabsModel.ReachableValid` | src/components/ui/tabs.tsx:106-128 | every state reachable from the first render has at least one tab and `totalItems` equal to the length |
| `TabsModel.AddNewTabAppends` | src/components/ui/tabs.tsx:130 | `addNewTab` appends one "New Tab" tab and leaves the earlier tabs, the active token, the active title and the staged title unchanged |
| `TabsModel.SelectShowsTitle` | src/components/ui/tabs.tsx:126 | selecting the token of an existing tab recomputes the active title to that tab's title |
| `TabsModel.SelectUnchecked` | src/components/ui/tabs.tsx:97 | `setActiveTabId` accepts a token past the last tab, and the active title then fails |
| `TabsModel.TokensDecode` | src/components/ui/tabs.tsx:152-155 | every token the strip renders decodes to its own position, and the tokens are pairwise distinct |
| `TabsModel.CommitThenRead` | src/components/ui/tabs.tsx:114-126 | committing a non-empty title through a rendered token and reading through the same token gives that title |
| `TabsModel.NavigationFollowsTabs` | src/components/ui/tabs.tsx:150 | the chevrons appear exactly when the hook holds four or more tabs |
| `TabsModel.TickCommits` | src/components/ui/tabs.tsx:112-124 | a tick that changes the debounced title to a non-empty one writes it into the tab the active token decodes to and no other, without recomputing the active title |
| `TabsModel.TickEmptyKeepsTabs` | src/components/ui/tabs.tsx:118-123 | when the staged title is empty, a tick leaves the tabs unchanged and throws nothing |
| `TabsModel.TickMissingTabFaults` | src/components/ui/tabs.tsx:119 | a new non-empty title aimed at a token with no tab throws and leaves the tabs unchanged |
| `TabsModel.TicksQuiet` | src/components/ui/tabs.tsx:110-124 | ticks before the title timer is due change only the clock |
| `TabsModel.WindowCommits` | src/components/ui/tabs.tsx:110-124 | once the pending title timer is due, the staged title is committed to the active tab and the timer is gone |
| `TabsModel.QuietWindowCommits` | src/components/ui/tabs.tsx:110-126 | staging a new non-empty title and waiting 500 ticks commits it to the active tab, while the shown active title stays stale |
| `TabsModel.SupersededTitleDropped` | src/hooks/use-debounce.ts:7-15 | a staged title replaced within its window is never committed: the tabs are unchanged after its ticks and after the replacement is staged; only the replacement is committed once its own window passes |
| `TabsModel.CommitRetargets` | src/components/ui/tabs.tsx:114-119 | selecting another tab inside the window makes the commit land on the newly selected tab |
| `TabsModel.SameTitleNotRecommitted` | src/components/ui/tabs.tsx:124 | re-staging the current debounced title (the value the debouncer last wrote) and waiting out the window leaves the tabs unchanged, even when another tab is now active |
| `TabsModel.UnmountedFrozen` | src/hooks/use-debounce.ts:12-14 | after unmount no action changes the tabs, the active token or the debounced title |
| `TabsHook.TabsController.constructor` | src/components/ui/tabs.tsx:106-110 | the instance starts in the hook's initial state with fresh records |
| `TabsHook.TabsController.AddNewTab` | src/components/ui/tabs.tsx:130 | the instance takes the append step, keeping the old records and adding one fresh record |
| `TabsHook.TabsController.SetActiveTabId` | src/components/ui/tabs.tsx:126 | the instance takes the selection step without touching the records |
| `TabsHook.TabsController.SetTabTitle` | src/components/ui/tabs.tsx:107-110 | the instance stages the title and re-renders its debouncer |
| `TabsHook.TabsController.Tick` | src/components/ui/tabs.tsx:112-124 | the instance takes the tick step, writing a committed title into the existing record in place, and reports a throw |
| `TabsHook.TabsController.Unmount` | src/hooks/use-debounce.ts:12-14 | the instance's debouncer is cleaned up |
| `TabsHook.TitleInput.constructor` | src/components/ui/tabs.tsx:162 | the local text starts as the title passed in |
| `TabsHook.TitleInput.OnChange` | src/components/ui/tabs.tsx:164-167 | a keystroke sets the local text and stages the same text in the hook |

## Left out

- JSX rendering, class names, styling and the Radix `Tabs` primitives (src/components/ui/tabs.tsx:15-61): presentation over a library that is not part of this model.
- src/app/page.tsx and src/app/layout.tsx: page composition, the form library, its schema and the confirmation dialog are not part of this model; the page's lockstep `append` to its field array on add is not modelled.
- Removing tabs, a maximum tab count, overflow detection and scroll-into-view: the shown hook has none of them.
- Real `setTimeout`, `clearTimeout` and wall-clock time: replaced by a logical clock of unit ticks and an explicit timer queue.
- React's render scheduling, batching and memo mechanics beyond three facts the model keeps: an unchanged state value causes no re-run of dependent effects or memos, the active title is recomputed only on a token change, and the count on every list change.
- What React does after an effect or a render throws (tearing down the tree): the model reports the fault and leaves the tabs as they were.
- `TabTitleInput` seeds its local text once and ignores later changes of its `title` prop; remounting it when another panel is shown is Radix behaviour and is not modelled.
- TabToken.ToIndex: models `Number` only on strings of decimal digits; JavaScript also accepts surrounding whitespace, a `+` sign, hexadecimal and exponent forms and fractions, which the model treats as no index, and indices above 2^53 lose precision in JavaScript but not here.
- TabsModel.TabTokens: its contract states only the length; what each token is and that it decodes to its position is stated by `TabsModel.TokensDecode`.
