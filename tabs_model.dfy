/**
 * The browser-tabs hook `useTabs` (tabs.tsx:105-141) as values: the tab list,
 * the staged title, the active token, the memoised active title and tab count,
 * and the title debouncer; plus the pure pieces around it (the token list the
 * strip renders, tabs.tsx:152-157, and the navigation layout, tabs.tsx:73-93).
 */
module TabsModel {
  import opened Wrappers
  import opened TabToken
  import D = Debounce

  datatype Tab = Tab(title: string)

  const DefaultTitle: string := "New Tab"

  /** The debounce window of the staged title, in clock units (milliseconds). */
  const TitleDelay: nat := 500

  /** `tabs[Number(...)]` is `undefined`, so reading or writing its `.title` throws a TypeError. */
  datatype Fault = NoTabAtIndex(id: string)

  /** `[...tabs, { title: 'New Tab' }]` (tabs.tsx:130). */
  function AppendDefault(tabs: seq<Tab>): (r: seq<Tab>)
    ensures |r| == |tabs| + 1
    ensures forall k :: 0 <= k < |tabs| ==> r[k] == tabs[k]
    ensures r[|tabs|].title == DefaultTitle
  {
    tabs + [Tab(DefaultTitle)]
  }

  /** The title of the tab the token points at (the memo of tabs.tsx:126). */
  function TitleAt(tabs: seq<Tab>, id: string): (r: Result<string, Fault>)
    ensures r.Ok? <==> DecodeIndex(id).Some? && DecodeIndex(id).value < |tabs|
    ensures r.Ok? ==> r.value == tabs[DecodeIndex(id).value].title
    ensures r.Err? ==> r.error == NoTabAtIndex(id)
  {
    match DecodeIndex(id)
    case Some(i) => if i < |tabs| then Ok(tabs[i].title) else Err(NoTabAtIndex(id))
    case None => Err(NoTabAtIndex(id))
  }

  /**
   * The title-commit effect (tabs.tsx:112-124): an empty debounced title leaves
   * the tabs as they are; any other title replaces the title of the tab the
   * active token decodes to, and only that one, or throws when there is none.
   */
  function CommitTitle(tabs: seq<Tab>, id: string, title: string): (r: Result<seq<Tab>, Fault>)
    ensures title == "" ==> r == Ok(tabs)
    ensures title != "" ==> (r.Ok? <==> TitleAt(tabs, id).Ok?)
    ensures r.Ok? ==> |r.value| == |tabs|
    ensures r.Ok? && title != "" ==>
      var i := DecodeIndex(id).value;
      r.value[i].title == title && forall k :: 0 <= k < |tabs| && k != i ==> r.value[k] == tabs[k]
  {
    if title == "" then Ok(tabs)
    else
      match DecodeIndex(id)
      case Some(i) =>
        if i < |tabs| then Ok(tabs[i := Tab(title)]) else Err(NoTabAtIndex(id))
      case None => Err(NoTabAtIndex(id))
  }

  /** The `value` of each trigger and panel: `tab-${i}` for the tab at index i (tabs.tsx:152, 155). */
  function TabTokens(tabs: seq<Tab>): (r: seq<string>)
    ensures |r| == |tabs|
  {
    seq(|tabs|, i requires 0 <= i < |tabs| => Token(i))
  }

  /** What `TabsNavigation` renders around the tab list, left to right. */
  datatype NavItem = TabList | AddButton(caption: string) | ScrollLeft | ScrollRight

  /**
   * tabs.tsx:73-93: fewer than four tabs show the list and the add button; from
   * four on the list is framed by left and right chevrons. The add button's
   * label defaults to 'Add new tab'.
   */
  function Navigation(totalItems: int, addTabTitle: Option<string>): (r: seq<NavItem>)
    ensures |r| >= 2 && r[|r| - 1].AddButton?
    ensures r[|r| - 1].caption == (if addTabTitle.Some? then addTabTitle.value else "Add new tab")
    ensures TabList in r
    ensures ScrollLeft in r <==> totalItems >= 4
    ensures ScrollRight in r <==> totalItems >= 4
    ensures totalItems < 4 ==> r == [TabList, r[1]]
    ensures totalItems >= 4 ==> r == [ScrollLeft, TabList, ScrollRight, r[3]]
  {
    var caption := match addTabTitle case Some(c) => c case None => "Add new tab";
    if totalItems < 4 then [TabList, AddButton(caption)]
    else [ScrollLeft, TabList, ScrollRight, AddButton(caption)]
  }

  /**
   * The hook's state between events. activeTitle is the `useMemo` over
   * [activeTabId] (tabs.tsx:126) and totalItems the one over [tabs] (tabs.tsx:128).
   */
  datatype Hook = Hook(
    tabs: seq<Tab>,
    tabTitle: string,
    activeTabId: string,
    activeTitle: Result<string, Fault>,
    totalItems: nat,
    titleTimer: D.State<string>)

  /** What the page can do to the hook, plus the passing of time and unmounting. */
  datatype Action = AddNewTab | SetActiveTabId(id: string) | SetTabTitle(t: string) | Tick | Unmount

  /** The next state, and the error the commit effect threw, if it did. */
  datatype Outcome = Outcome(next: Hook, fault: Option<Fault>)

  /**
   * The hook's invariant: never without a tab, the memoised count is the
   * length, the debouncer sees the staged title with the 500 ms delay, and the
   * debouncer's own invariant holds.
   */
  ghost predicate Valid(h: Hook) {
    |h.tabs| >= 1 &&
    h.totalItems == |h.tabs| &&
    h.tabTitle == h.titleTimer.value &&
    h.titleTimer.delay == TitleDelay &&
    D.Valid(h.titleTimer)
  }

  /** The first render (tabs.tsx:106-110, 126-128) and the mount run of the commit effect. */
  function Init(): (h: Hook)
    ensures h.tabs == [Tab(DefaultTitle)] && h.totalItems == 1
    ensures h.tabTitle == DefaultTitle && h.activeTabId == Token(0)
    ensures h.activeTitle == Ok(DefaultTitle)
    ensures h.titleTimer.debounced == DefaultTitle && h.titleTimer.mounted
  {
    // the mount run of the effect writes "New Tab" over "New Tab": no change
    Hook([Tab(DefaultTitle)], DefaultTitle, "tab-0", Ok(DefaultTitle), 1,
         D.Init(DefaultTitle, TitleDelay))
  }

  /** One action, followed by the re-render it causes and the effects that re-run. */
  function Apply(h: Hook, a: Action): Outcome {
    match a
    case AddNewTab =>
      if !h.titleTimer.mounted then Outcome(h, None)
      else
        var tabs := AppendDefault(h.tabs);
        Outcome(h.(tabs := tabs, totalItems := |tabs|), None)
    case SetActiveTabId(id) =>
      // an unchanged token is bailed out of; a new one recomputes the memo
      if !h.titleTimer.mounted || id == h.activeTabId then Outcome(h, None)
      else Outcome(h.(activeTabId := id, activeTitle := TitleAt(h.tabs, id)), None)
    case SetTabTitle(t) =>
      if !h.titleTimer.mounted then Outcome(h, None)
      else Outcome(h.(tabTitle := t, titleTimer := D.Step(h.titleTimer, D.Render(t, TitleDelay))), None)
    case Tick =>
      var d := D.Step(h.titleTimer, D.Tick);
      // the commit effect re-runs only when the debounced title changed
      if d.debounced == h.titleTimer.debounced then Outcome(h.(titleTimer := d), None)
      else
        (match CommitTitle(h.tabs, h.activeTabId, d.debounced)
         case Ok(tabs) => Outcome(h.(titleTimer := d, tabs := tabs, totalItems := |tabs|), None)
         case Err(f) => Outcome(h.(titleTimer := d), Some(f)))
    case Unmount =>
      Outcome(h.(titleTimer := D.Step(h.titleTimer, D.Unmount)), None)
  }

  function Run(h: Hook, acts: seq<Action>): Hook
    decreases |acts|
  {
    if acts == [] then h else Run(Apply(h, acts[0]).next, acts[1..])
  }

  function TickActions(n: nat): (acts: seq<Action>)
    ensures |acts| == n && forall k :: 0 <= k < n ==> acts[k] == Tick
  {
    if n == 0 then [] else TickActions(n - 1) + [Tick]
  }

  lemma InitValid()
    ensures Valid(Init())
  {
    D.InitValid(DefaultTitle, TitleDelay);
  }

  /** Every action keeps the invariant, and none removes a tab. */
  lemma ApplyValid(h: Hook, a: Action)
    requires Valid(h)
    ensures Valid(Apply(h, a).next)
    ensures |Apply(h, a).next.tabs| >= |h.tabs|
  {
    match a
    case SetTabTitle(t) => D.StepValid(h.titleTimer, D.Render(t, TitleDelay));
    case Tick => D.StepValid(h.titleTimer, D.Tick); D.TickFiresLatest(h.titleTimer);
    case Unmount => D.StepValid(h.titleTimer, D.Unmount);
    case _ =>
  }

  /**
   * Over any sequence of actions from a valid state the tab list is never
   * empty, never shrinks, and the reported count is always its length.
   */
  lemma {:induction false} RunValid(h: Hook, acts: seq<Action>)
    requires Valid(h)
    ensures Valid(Run(h, acts))
    ensures |Run(h, acts).tabs| >= |h.tabs| >= 1
    ensures Run(h, acts).totalItems == |Run(h, acts).tabs|
    decreases |acts|
  {
    if acts != [] {
      ApplyValid(h, acts[0]);
      RunValid(Apply(h, acts[0]).next, acts[1..]);
    }
  }

  /** Every state reachable from the first render is valid and has at least one tab. */
  lemma ReachableValid(acts: seq<Action>)
    ensures Valid(Run(Init(), acts))
    ensures Run(Init(), acts).totalItems == |Run(Init(), acts).tabs| >= 1
  {
    InitValid();
    RunValid(Init(), acts);
  }

  /**
   * `addNewTab` appends one default tab at the end and changes nothing else:
   * the earlier tabs, the active token, the memoised title and the staged title.
   */
  lemma AddNewTabAppends(h: Hook)
    requires Valid(h) && h.titleTimer.mounted
    ensures var n := Apply(h, AddNewTab).next;
      n.tabs == h.tabs + [Tab(DefaultTitle)] && n.totalItems == |h.tabs| + 1 &&
      n.activeTabId == h.activeTabId && n.activeTitle == h.activeTitle &&
      n.tabTitle == h.tabTitle && n.titleTimer == h.titleTimer
  {
  }

  /** Selecting the token of an existing tab shows that tab's title. */
  lemma SelectShowsTitle(h: Hook, i: nat)
    requires h.titleTimer.mounted && i < |h.tabs| && Token(i) != h.activeTabId
    ensures Apply(h, SetActiveTabId(Token(i))).next.activeTitle == Ok(h.tabs[i].title)
    ensures Apply(h, SetActiveTabId(Token(i))).next.tabs == h.tabs
  {
    TokenRoundTrip(i);
  }

  /**
   * `setActiveTabId` does not check its argument: a token past the last tab is
   * accepted, and computing the active title from it fails.
   */
  lemma SelectUnchecked(h: Hook, i: nat)
    requires h.titleTimer.mounted && i >= |h.tabs| && Token(i) != h.activeTabId
    ensures Apply(h, SetActiveTabId(Token(i))).next.activeTabId == Token(i)
    ensures Apply(h, SetActiveTabId(Token(i))).next.activeTitle == Err(NoTabAtIndex(Token(i)))
  {
    TokenRoundTrip(i);
  }

  /** Every token the strip renders decodes to its own position, so the tokens are distinct. */
  lemma TokensDecode(tabs: seq<Tab>)
    ensures forall i :: 0 <= i < |tabs| ==> DecodeIndex(TabTokens(tabs)[i]) == Some(i)
    ensures forall i, j :: 0 <= i < j < |tabs| ==> TabTokens(tabs)[i] != TabTokens(tabs)[j]
  {
    forall i | 0 <= i < |tabs| ensures DecodeIndex(TabTokens(tabs)[i]) == Some(i) {
      TokenRoundTrip(i);
    }
  }

  /** Committing to a rendered token and then reading through that token gives the new title back. */
  lemma CommitThenRead(tabs: seq<Tab>, i: nat, title: string)
    requires i < |tabs| && title != ""
    ensures CommitTitle(tabs, Token(i), title) == Ok(tabs[i := Tab(title)])
    ensures TitleAt(tabs[i := Tab(title)], Token(i)) == Ok(title)
  {
    TokenRoundTrip(i);
  }

  /** The layout the strip shows depends only on how many tabs there are. */
  lemma NavigationFollowsTabs(h: Hook)
    requires Valid(h)
    ensures ScrollLeft in Navigation(h.totalItems, None) <==> |h.tabs| >= 4
  {
  }

  /**
   * A tick on which the debouncer writes a new, non-empty title commits it to
   * the tab the active token decodes to at that moment, and to no other; the
   * memoised active title is not recomputed.
   */
  lemma TickCommits(h: Hook)
    requires Valid(h)
    requires D.Step(h.titleTimer, D.Tick).debounced != h.titleTimer.debounced
    requires h.tabTitle != ""
    requires TitleAt(h.tabs, h.activeTabId).Ok?
    ensures var o := Apply(h, Tick); var i := DecodeIndex(h.activeTabId).value;
      o.fault == None && o.next.tabs == h.tabs[i := Tab(h.tabTitle)] &&
      o.next.activeTitle == h.activeTitle && o.next.activeTabId == h.activeTabId
  {
    D.TickFiresLatest(h.titleTimer);
  }

  /** With the staged title empty, a tick leaves every tab as it was and throws nothing. */
  lemma TickEmptyKeepsTabs(h: Hook)
    requires Valid(h) && h.tabTitle == ""
    ensures Apply(h, Tick).next.tabs == h.tabs && Apply(h, Tick).fault == None
  {
    D.TickFiresLatest(h.titleTimer);
  }

  /** A new non-empty title aimed at a token with no tab throws, and the tabs stay as they were. */
  lemma TickMissingTabFaults(h: Hook)
    requires Valid(h)
    requires D.Step(h.titleTimer, D.Tick).debounced != h.titleTimer.debounced
    requires h.tabTitle != "" && TitleAt(h.tabs, h.activeTabId).Err?
    ensures Apply(h, Tick).fault == Some(NoTabAtIndex(h.activeTabId))
    ensures Apply(h, Tick).next.tabs == h.tabs
  {
    D.TickFiresLatest(h.titleTimer);
  }

  /** Ticks before the title timer is due change only the clock. */
  lemma {:induction false} TicksQuiet(h: Hook, n: nat)
    requires Valid(h) && |h.titleTimer.timers| == 1 && h.titleTimer.now + n < h.titleTimer.timers[0].due
    ensures Run(h, TickActions(n)) == h.(titleTimer := h.titleTimer.(now := h.titleTimer.now + n))
  {
    if n > 0 {
      var first := TickActions(n - 1);
      TicksQuiet(h, n - 1);
      var m := h.(titleTimer := h.titleTimer.(now := h.titleTimer.now + (n - 1)));
      assert Run(h, first) == m;
      D.TickFiresLatest(m.titleTimer);
      assert D.Step(m.titleTimer, D.Tick) == h.titleTimer.(now := h.titleTimer.now + n);
      assert Apply(m, Tick).next == h.(titleTimer := h.titleTimer.(now := h.titleTimer.now + n));
      assert TickActions(n) == first + [Tick];
      RunAppend(h, first, [Tick]);
      RunOne(m, Tick);
    }
  }

  lemma {:induction false} RunAppend(h: Hook, a: seq<Action>, b: seq<Action>)
    ensures Run(h, a + b) == Run(Run(h, a), b)
    decreases |a|
  {
    if a == [] {
      assert a + b == b;
    } else {
      assert (a + b)[0] == a[0] && (a + b)[1..] == a[1..] + b;
      RunAppend(Apply(h, a[0]).next, a[1..], b);
    }
  }

  /** The first n - 1 ticks of a window move only the clock; what is left is the last tick. */
  lemma WindowEnd(h: Hook, n: nat)
    requires Valid(h) && |h.titleTimer.timers| == 1 && h.titleTimer.timers[0].due == h.titleTimer.now + n && n >= 1
    ensures Run(h, TickActions(n)) == Run(h.(titleTimer := h.titleTimer.(now := h.titleTimer.now + (n - 1))), [Tick])
  {
    var first := TickActions(n - 1);
    TicksQuiet(h, n - 1);
    assert TickActions(n) == first + [Tick];
    RunAppend(h, first, [Tick]);
    assert Run(h, first) == h.(titleTimer := h.titleTimer.(now := h.titleTimer.now + (n - 1)));
  }

  /** Running one action is applying it. */
  lemma RunOne(h: Hook, a: Action)
    ensures Run(h, [a]) == Apply(h, a).next
  {
    assert [a][0] == a && [a][1..] == [];
  }

  /**
   * With the title timer pending and due after n ticks, the n-th tick commits
   * the staged title to the tab active at that moment, when it is new and not
   * empty; nothing else about the tabs or the memoised title changes.
   */
  lemma WindowCommits(h: Hook, n: nat)
    requires Valid(h) && |h.titleTimer.timers| == 1 && h.titleTimer.timers[0].due == h.titleTimer.now + n && n >= 1
    requires h.tabTitle != "" && h.tabTitle != h.titleTimer.debounced
    requires TitleAt(h.tabs, h.activeTabId).Ok?
    ensures var r := Run(h, TickActions(n)); var i := DecodeIndex(h.activeTabId).value;
      r.tabs == h.tabs[i := Tab(h.tabTitle)] && r.activeTitle == h.activeTitle &&
      r.titleTimer.debounced == h.tabTitle && r.titleTimer.timers == []
  {
    WindowEnd(h, n);
    var m := h.(titleTimer := h.titleTimer.(now := h.titleTimer.now + (n - 1)));
    RunOne(m, Tick);
    D.TickFiresLatest(m.titleTimer);
    TickCommits(m);
  }

  /**
   * Staging a new non-empty title and then letting the full 500 ms window pass
   * commits it to the active tab; the shown active title stays what it was.
   */
  lemma QuietWindowCommits(h: Hook, t: string)
    requires Valid(h) && h.titleTimer.mounted
    requires t != "" && t != h.tabTitle && t != h.titleTimer.debounced
    requires TitleAt(h.tabs, h.activeTabId).Ok?
    ensures var r := Run(h, [SetTabTitle(t)] + TickActions(TitleDelay));
      r.tabs == h.tabs[DecodeIndex(h.activeTabId).value := Tab(t)] &&
      r.activeTitle == h.activeTitle
  {
    var h1 := Apply(h, SetTabTitle(t)).next;
    D.RenderReschedules(h.titleTimer, t, TitleDelay);
    ApplyValid(h, SetTabTitle(t));
    RunAppend(h, [SetTabTitle(t)], TickActions(TitleDelay));
    assert Run(h, [SetTabTitle(t)]) == Run(h1, []);
    WindowCommits(h1, TitleDelay);
  }

  /**
   * Debounce collapsing: a title staged and replaced before its window ends is
   * never committed (the tabs are untouched up to and including the
   * replacement); only the replacement, once its own window has passed, is.
   */
  lemma SupersededTitleDropped(h: Hook, t1: string, k: nat, t2: string)
    requires Valid(h) && h.titleTimer.mounted && k < TitleDelay
    requires t1 != h.tabTitle
    requires t2 != "" && t2 != t1 && t2 != h.titleTimer.debounced
    requires TitleAt(h.tabs, h.activeTabId).Ok?
    ensures Run(h, [SetTabTitle(t1)] + TickActions(k)).tabs == h.tabs
    ensures Run(h, [SetTabTitle(t1)] + TickActions(k) + [SetTabTitle(t2)]).tabs == h.tabs
    ensures var r := Run(h, [SetTabTitle(t1)] + TickActions(k) + [SetTabTitle(t2)] + TickActions(TitleDelay));
      r.tabs == h.tabs[DecodeIndex(h.activeTabId).value := Tab(t2)]
  {
    var h1 := Apply(h, SetTabTitle(t1)).next;
    D.RenderReschedules(h.titleTimer, t1, TitleDelay);
    ApplyValid(h, SetTabTitle(t1));
    TicksQuiet(h1, k);
    var h2 := Run(h1, TickActions(k));
    RunAppend(h, [SetTabTitle(t1)], TickActions(k));
    assert Run(h, [SetTabTitle(t1)]) == Run(h1, []);
    assert Run(h, [SetTabTitle(t1)] + TickActions(k)) == h2;
    RunAppend(h, [SetTabTitle(t1)] + TickActions(k), [SetTabTitle(t2)]);
    RunOne(h2, SetTabTitle(t2));
    var rest := [SetTabTitle(t2)] + TickActions(TitleDelay);
    assert [SetTabTitle(t1)] + TickActions(k) + [SetTabTitle(t2)] + TickActions(TitleDelay)
        == [SetTabTitle(t1)] + (TickActions(k) + rest);
    RunAppend(h, [SetTabTitle(t1)], TickActions(k) + rest);
    RunAppend(h1, TickActions(k), rest);
    QuietWindowCommits(h2, t2);
  }

  /**
   * The commit is addressed by the token active when the timer fires, not when
   * typing happened: selecting another tab inside the window retargets it.
   */
  lemma CommitRetargets(h: Hook, t: string, j: nat)
    requires Valid(h) && h.titleTimer.mounted
    requires t != "" && t != h.tabTitle && t != h.titleTimer.debounced
    requires j < |h.tabs| && Token(j) != h.activeTabId
    ensures Run(h, [SetTabTitle(t), SetActiveTabId(Token(j))] + TickActions(TitleDelay)).tabs
      == h.tabs[j := Tab(t)]
  {
    var stage, select := SetTabTitle(t), SetActiveTabId(Token(j));
    var h1 := Apply(h, stage).next;
    D.RenderReschedules(h.titleTimer, t, TitleDelay);
    ApplyValid(h, stage);
    var h2 := Apply(h1, select).next;
    assert h2 == h1.(activeTabId := Token(j), activeTitle := TitleAt(h1.tabs, Token(j)));
    TokenRoundTrip(j);
    assert TitleAt(h2.tabs, h2.activeTabId).Ok?;
    assert [stage, select] + TickActions(TitleDelay) == [stage] + ([select] + TickActions(TitleDelay));
    RunAppend(h, [stage], [select] + TickActions(TitleDelay));
    assert Run(h, [stage]) == Run(h1, []);
    RunAppend(h1, [select], TickActions(TitleDelay));
    assert Run(h1, [select]) == Run(h2, []);
    WindowCommits(h2, TitleDelay);
  }

  /**
   * The effect depends on the debounced value only: re-staging the current
   * debounced title (the value the debouncer last wrote) and waiting out the
   * window writes nothing at all, even when another tab is active now.
   */
  lemma SameTitleNotRecommitted(h: Hook, t: string)
    requires Valid(h) && h.titleTimer.mounted
    requires t != h.tabTitle && t == h.titleTimer.debounced
    ensures Run(h, [SetTabTitle(t)] + TickActions(TitleDelay)).tabs == h.tabs
    ensures Run(h, [SetTabTitle(t)] + TickActions(TitleDelay)).titleTimer.debounced == t
  {
    var h1 := Apply(h, SetTabTitle(t)).next;
    D.RenderReschedules(h.titleTimer, t, TitleDelay);
    ApplyValid(h, SetTabTitle(t));
    RunAppend(h, [SetTabTitle(t)], TickActions(TitleDelay));
    assert Run(h, [SetTabTitle(t)]) == Run(h1, []);
    WindowEnd(h1, TitleDelay);
    var m := h1.(titleTimer := h1.titleTimer.(now := h1.titleTimer.now + (TitleDelay - 1)));
    RunOne(m, Tick);
    D.TickFiresLatest(m.titleTimer);
  }

  /** After unmounting, no action changes the tabs, the selection or the debounced title. */
  lemma {:induction false} UnmountedFrozen(h: Hook, acts: seq<Action>)
    requires Valid(h) && !h.titleTimer.mounted
    ensures Run(h, acts).tabs == h.tabs
    ensures Run(h, acts).activeTabId == h.activeTabId
    ensures Run(h, acts).titleTimer.debounced == h.titleTimer.debounced
    decreases |acts|
  {
    if acts != [] {
      var a := acts[0];
      ApplyValid(h, a);
      if a.Tick? {
        D.TickFiresLatest(h.titleTimer);
      }
      UnmountedFrozen(Apply(h, a).next, acts[1..]);
    }
  }
}
