/**
 * The `useTabs` hook instance (tabs.tsx:105-141) and `TabTitleInput`
 * (tabs.tsx:161-173) as objects updated in place. Each tab is a record object
 * whose `title` the commit effect overwrites through the array that holds it
 * (tabs.tsx:116-119); `addNewTab` builds a new array sharing the old records
 * (tabs.tsx:130). Every method is tied to one action of the value model.
 */
module TabsHook {
  import opened Wrappers
  import opened TabToken
  import opened TabsModel
  import D = Debounce

  /** One `{ title }` object of the tabs array. */
  class TabRecord {
    var title: string

    constructor(title: string)
      ensures this.title == title
    {
      this.title := title;
    }
  }

  class TabsController {
    var tabs: seq<TabRecord>
    var tabTitle: string
    var activeTabId: string
    var activeTitle: Result<string, Fault>
    var totalItems: nat
    const titleTimer: D.Debouncer<string>

    /** The tab values the records hold, in order. */
    function Tabs(): (r: seq<Tab>)
      reads this, tabs
      ensures |r| == |tabs| && forall k :: 0 <= k < |tabs| ==> r[k].title == tabs[k].title
    {
      var rs := tabs;
      seq(|rs|, k reads rs requires 0 <= k < |rs| => Tab(rs[k].title))
    }

    function Snapshot(): Hook
      reads this, tabs, titleTimer
    {
      Hook(Tabs(), tabTitle, activeTabId, activeTitle, totalItems, titleTimer.Snapshot())
    }

    /** No record is held twice, so writing one tab's title changes no other tab. */
    ghost predicate Valid()
      reads this, tabs, titleTimer
    {
      (forall j, k :: 0 <= j < k < |tabs| ==> tabs[j] != tabs[k]) &&
      TabsModel.Valid(Snapshot())
    }

    /** The first render: one "New Tab", token "tab-0", and the title debouncer mounted. */
    constructor()
      ensures Valid() && Snapshot() == Init()
      ensures fresh(titleTimer) && |tabs| == 1 && fresh(tabs[0])
    {
      var first := new TabRecord(DefaultTitle);
      tabs := [first];
      tabTitle := DefaultTitle;
      activeTabId := "tab-0";
      activeTitle := Ok(DefaultTitle);
      totalItems := 1;
      titleTimer := new D.Debouncer(DefaultTitle, TitleDelay);
      new;
      InitValid();
    }

    /** `addNewTab`: a new array of the old records plus one fresh default record. */
    method AddNewTab()
      requires Valid()
      modifies this
      ensures Valid() && Snapshot() == Apply(old(Snapshot()), Action.AddNewTab).next
      ensures tabs[..|old(tabs)|] == old(tabs)
      ensures titleTimer.mounted ==> |tabs| == |old(tabs)| + 1 && fresh(tabs[|tabs| - 1])
    {
      ghost var before := Snapshot();
      ApplyValid(before, Action.AddNewTab);
      if titleTimer.mounted {
        var held := tabs;
        var added := new TabRecord(DefaultTitle);
        assert forall j :: 0 <= j < |held| ==> held[j] != added;
        tabs := held + [added];
        totalItems := |tabs|;
        assert forall k :: 0 <= k < |held| ==> Tabs()[k] == before.tabs[k];
        assert Tabs()[|held|] == Tab(DefaultTitle);
        assert Tabs() == AppendDefault(before.tabs);
        assert Snapshot() == before.(tabs := AppendDefault(before.tabs), totalItems := |held| + 1);
      }
    }

    /** `setActiveTabId`: any token is accepted; a new one recomputes the active title. */
    method SetActiveTabId(id: string)
      requires Valid()
      modifies this
      ensures Valid() && Snapshot() == Apply(old(Snapshot()), Action.SetActiveTabId(id)).next
      ensures tabs == old(tabs)
    {
      ApplyValid(Snapshot(), Action.SetActiveTabId(id));
      if titleTimer.mounted && id != activeTabId {
        activeTabId := id;
        activeTitle := TitleAt(Tabs(), id);
      }
    }

    /** `setTabTitle`: stages the title; the debouncer sees it on the re-render. */
    method SetTabTitle(t: string)
      requires Valid()
      modifies this, titleTimer
      ensures Valid() && Snapshot() == Apply(old(Snapshot()), Action.SetTabTitle(t)).next
      ensures tabs == old(tabs)
    {
      ApplyValid(Snapshot(), Action.SetTabTitle(t));
      if titleTimer.mounted {
        tabTitle := t;
        titleTimer.Render(t, TitleDelay);
      }
    }

    /**
     * One unit of time. When the debounced title changes, the commit effect
     * writes it into the record the active token decodes to (unless it is
     * empty), or throws when there is no such record.
     */
    method Tick() returns (fault: Option<Fault>)
      requires Valid()
      modifies this, titleTimer, tabs
      ensures Valid() && Snapshot() == Apply(old(Snapshot()), Action.Tick).next
      ensures fault == Apply(old(Snapshot()), Action.Tick).fault
      ensures tabs == old(tabs)
    {
      ghost var before := Snapshot();
      ApplyValid(before, Action.Tick);
      ghost var stepped := D.Step(before.titleTimer, D.Tick);
      var last := titleTimer.debounced;
      var _ := titleTimer.Tick();
      assert titleTimer.Snapshot() == stepped;
      fault := None;
      if titleTimer.debounced != last {
        var title := titleTimer.debounced;
        if title != "" {
          var index := DecodeIndex(activeTabId);
          if index.Some? && index.value < |tabs| {
            var i := index.value;
            tabs[i].title := title;
            forall k | 0 <= k < |tabs| && k != i ensures tabs[k].title == before.tabs[k].title {
              assert tabs[k] != tabs[i];
            }
            assert Tabs() == before.tabs[i := Tab(title)];
            assert CommitTitle(before.tabs, activeTabId, title) == Ok(before.tabs[i := Tab(title)]);
          } else {
            fault := Some(NoTabAtIndex(activeTabId));
            assert CommitTitle(before.tabs, activeTabId, title) == Err(NoTabAtIndex(activeTabId));
          }
        } else {
          assert CommitTitle(before.tabs, activeTabId, title) == Ok(before.tabs);
        }
        // `setTabs([...currentTabs])`: a copy of the same records, so nothing to do
      }
    }

    /** Unmounting: the debouncer's cleanup clears its timer. */
    method Unmount()
      requires Valid()
      modifies titleTimer
      ensures Valid() && Snapshot() == Apply(old(Snapshot()), Action.Unmount).next
    {
      ApplyValid(Snapshot(), Action.Unmount);
      titleTimer.Unmount();
    }
  }

  /** `TabTitleInput`: a local copy of the text, seeded once from the shown title. */
  class TitleInput {
    var temp: string

    constructor(title: string)
      ensures temp == title
    {
      temp := title;
    }

    /** Each keystroke goes both to the local copy and to the hook's staged title. */
    method OnChange(value: string, hook: TabsController)
      requires hook.Valid()
      modifies this, hook, hook.titleTimer
      ensures temp == value
      ensures hook.Valid() && hook.Snapshot() == Apply(old(hook.Snapshot()), SetTabTitle(value)).next
    {
      temp := value;
      hook.SetTabTitle(value);
    }
  }
}
