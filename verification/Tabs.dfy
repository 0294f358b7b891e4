/** The client's tab list under user actions, and the commands it sends the host. */
module Tabs {
  import opened Bytes
  import opened Wire
  import opened Host

  datatype TabInfo = TabInfo(id: u32, url: Str)

  datatype TabState = TabState(tabs: seq<TabInfo>, active: u32, next: nat)

  datatype UserAction =
    | NewTab                // Ctrl+T or the plus button
    | CloseActive           // Ctrl+W
    | NextTab               // Ctrl+Tab
    | ClickTab(index: nat)
    | ClickClose(index: nat)

  /** "https://duckduckgo.com" */
  const HOME_PAGE: seq<byte> := [
    0x68, 0x74, 0x74, 0x70, 0x73, 0x3A, 0x2F, 0x2F, 0x64, 0x75, 0x63,
    0x6B, 0x64, 0x75, 0x63, 0x6B, 0x67, 0x6F, 0x2E, 0x63, 0x6F, 0x6D]

  lemma {:induction false} AsciiIsUtf8(s: seq<byte>)
    requires forall i :: 0 <= i < |s| ==> s[i] < 0x80
    ensures ValidUtf8(s)
  {
    if s != [] {
      AsciiIsUtf8(s[1..]);
    }
  }

  function Home(): Str {
    hide ValidUtf8;
    AsciiIsUtf8(HOME_PAGE);
    HOME_PAGE
  }

  /** Ids are 32 bits wide; the counter must not overflow. */
  predicate Enabled(v: TabState, a: UserAction) {
    a.NewTab? ==> v.next + 1 < TWO_32
  }

  predicate HasId(tabs: seq<TabInfo>, id: u32) {
    exists i :: 0 <= i < |tabs| && tabs[i].id == id
  }

  predicate Distinct(tabs: seq<TabInfo>, bound: nat) {
    && (forall i, j :: 0 <= i < j < |tabs| ==> tabs[i].id != tabs[j].id)
    && (forall i :: 0 <= i < |tabs| ==> tabs[i].id < bound)
  }

  /** Never empty, distinct ids below the counter, the active one among them. */
  ghost predicate WellFormed(v: TabState) {
    v.tabs != [] && Distinct(v.tabs, v.next) && HasId(v.tabs, v.active)
  }

  /** `tabs.retain(|t| t.id != id)` */
  function Without(tabs: seq<TabInfo>, id: u32): seq<TabInfo> {
    if tabs == [] then []
    else Without(tabs[..|tabs| - 1], id) + if tabs[|tabs| - 1].id != id then [tabs[|tabs| - 1]] else []
  }

  function IndexOf(tabs: seq<TabInfo>, id: u32): (r: nat)
    ensures r <= |tabs|
    ensures r < |tabs| ==> tabs[r].id == id
    ensures forall i :: 0 <= i < r ==> tabs[i].id != id
  {
    if tabs == [] then 0 else if tabs[0].id == id then 0 else 1 + IndexOf(tabs[1..], id)
  }

  /** After the active tab is gone, the first one left takes over. */
  function ActivateFirst(v: TabState): (TabState, seq<Message>) {
    if v.tabs == [] then (v, []) else (v.(active := v.tabs[0].id), [SwitchTab(v.tabs[0].id)])
  }

  function Select(v: TabState, id: u32): (TabState, seq<Message>) {
    if v.active != id then (v.(active := id), [SwitchTab(id)]) else (v, [])
  }

  /** One user action: the new tab list and the commands sent, in order. */
  function Act(v: TabState, a: UserAction): (TabState, seq<Message>)
    requires Enabled(v, a)
  {
    match a
    case NewTab =>
      (TabState(v.tabs + [TabInfo(v.next, Home())], v.next, v.next + 1), [Message.CreateTab(v.next, Home())])
    case CloseActive =>
      if |v.tabs| <= 1 then (v, [])
      else
        var (v1, cmds) := ActivateFirst(v.(tabs := Without(v.tabs, v.active)));
        (v1, [Message.CloseTab(v.active)] + cmds)
    case NextTab =>
      if |v.tabs| <= 1 then (v, [])
      else
        var i := IndexOf(v.tabs, v.active);
        var next := v.tabs[((if i < |v.tabs| then i else 0) + 1) % |v.tabs|].id;
        (v.(active := next), [SwitchTab(next)])
    case ClickTab(i) => if i < |v.tabs| then Select(v, v.tabs[i].id) else (v, [])
    case ClickClose(i) =>
      if i >= |v.tabs| then (v, [])
      else if |v.tabs| == 1 then Select(v, v.tabs[i].id)
      else
        var id := v.tabs[i].id;
        var v1 := v.(tabs := v.tabs[..i] + v.tabs[i + 1..]);
        if v.active == id then
          var (v2, cmds) := ActivateFirst(v1);
          (v2, [Message.CloseTab(id)] + cmds)
        else (v1, [Message.CloseTab(id)])
  }

  // ─── The host's side ─────────────────────────────────────────────────────

  /** What the host does with one command. */
  function Obey(h: Host, m: Message): Host {
    match m
    case CreateTab(id, url) => Switched(Created(h, id, url, NEW_TAB), id)
    case CloseTab(id) => Closed(h, id)
    case SwitchTab(id) => Switched(h, id)
    case _ => h
  }

  /** Each command a client sends is a step of the host. */
  lemma ObeyIsStep(h: Host, m: Message, ts: u64) returns (a: Action, msgs: seq<Message>)
    requires m.CreateTab? || m.CloseTab? || (m.SwitchTab? && m.tabId in h.tabs)
    ensures Step(h, a, ts, Obey(h, m), msgs)
    ensures m.CreateTab? ==> a == Action.CreateTab(m.tabId, m.url)
    ensures m.CloseTab? ==> a == Action.CloseTab(m.tabId)
    ensures m.SwitchTab? ==> a == SwitchTo(m.tabId)
  {
    hide FrameStep, SwitchMsgs, FullFrame, ValidUtf8, Loaded, Titled, Navigated, Created, Switched, Closed;
    match m {
      case CreateTab(id, url) =>
        a, msgs := Action.CreateTab(id, url), SwitchMsgs(Created(h, id, url, NEW_TAB), id, ts);
      case CloseTab(id) => a, msgs := Action.CloseTab(id), [];
      case SwitchTab(id) => a, msgs := SwitchTo(id), SwitchMsgs(h, id, ts);
    }
  }

  function ObeyAll(h: Host, ms: seq<Message>): Host
    decreases |ms|
  {
    if ms == [] then h else ObeyAll(Obey(h, ms[0]), ms[1..])
  }

  function Ids(tabs: seq<TabInfo>): set<u32> {
    set i | 0 <= i < |tabs| :: tabs[i].id
  }

  /** Host and client have the same tabs open and the same one active. */
  predicate InSync(v: TabState, h: Host) {
    h.tabs.Keys == Ids(v.tabs) && h.active == v.active
  }

  lemma {:induction false} WithoutNone(tabs: seq<TabInfo>, id: u32)
    requires forall j :: 0 <= j < |tabs| ==> tabs[j].id != id
    ensures Without(tabs, id) == tabs
  {
    if tabs != [] {
      WithoutNone(tabs[..|tabs| - 1], id);
    }
  }

  lemma {:induction false} WithoutIsRemove(tabs: seq<TabInfo>, i: nat)
    requires i < |tabs| && forall j, k :: 0 <= j < k < |tabs| ==> tabs[j].id != tabs[k].id
    ensures Without(tabs, tabs[i].id) == tabs[..i] + tabs[i + 1..]
  {
    var n := |tabs| - 1;
    var init := tabs[..n];
    if i == n {
      WithoutNone(init, tabs[i].id);
    } else {
      WithoutIsRemove(init, i);
      assert tabs[i + 1..] == init[i + 1..] + [tabs[n]];
    }
  }

  lemma RemoveIds(tabs: seq<TabInfo>, i: nat, bound: nat)
    requires i < |tabs| && Distinct(tabs, bound)
    ensures Ids(tabs[..i] + tabs[i + 1..]) == Ids(tabs) - {tabs[i].id}
  {
    var rest := tabs[..i] + tabs[i + 1..];
    forall id | id in Ids(tabs) - {tabs[i].id}
      ensures id in Ids(rest)
    {
      var k :| 0 <= k < |tabs| && tabs[k].id == id;
      assert rest[if k < i then k else k - 1].id == id;
    }
    forall id | id in Ids(rest)
      ensures id in Ids(tabs) - {tabs[i].id}
    {
      var k :| 0 <= k < |rest| && rest[k].id == id;
      assert tabs[if k < i then k else k + 1].id == id;
    }
  }

  lemma RemoveDistinct(tabs: seq<TabInfo>, i: nat, bound: nat)
    requires i < |tabs| && Distinct(tabs, bound)
    ensures Distinct(tabs[..i] + tabs[i + 1..], bound)
  {
  }

  lemma RemoveKeeps(v: TabState, i: nat)
    requires WellFormed(v) && i < |v.tabs| && |v.tabs| > 1
    ensures var rest := v.tabs[..i] + v.tabs[i + 1..];
            && (v.active != v.tabs[i].id ==> WellFormed(v.(tabs := rest)))
            && rest != [] && WellFormed(v.(tabs := rest, active := rest[0].id))
  {
    hide Distinct;
    var rest := v.tabs[..i] + v.tabs[i + 1..];
    RemoveDistinct(v.tabs, i, v.next);
    assert HasId(rest, rest[0].id);
    if v.active != v.tabs[i].id {
      var k :| 0 <= k < |v.tabs| && v.tabs[k].id == v.active;
      assert rest[if k < i then k else k - 1].id == v.active;
    }
  }

  lemma ObeyOne(h: Host, m: Message)
    ensures ObeyAll(h, [m]) == Obey(h, m)
  {
    assert [m][1..] == [];
  }

  /** Removing tab `i`, and moving to the first tab when it was the active one. */
  lemma CloseKeeps(v: TabState, i: nat, h: Host)
    requires WellFormed(v) && i < |v.tabs| && |v.tabs| > 1 && InSync(v, h)
    ensures var id := v.tabs[i].id;
            var v1 := v.(tabs := v.tabs[..i] + v.tabs[i + 1..]);
            if v.active == id then
              && WellFormed(ActivateFirst(v1).0)
              && InSync(ActivateFirst(v1).0, ObeyAll(Closed(h, id), ActivateFirst(v1).1))
            else WellFormed(v1) && InSync(v1, Closed(h, id))
  {
    hide Distinct, HasId;
    RemoveKeeps(v, i);
    RemoveIds(v.tabs, i, v.next);
    ObeyOne(Closed(h, v.tabs[i].id), SwitchTab((v.tabs[..i] + v.tabs[i + 1..])[0].id));
  }

  lemma ObeyTwo(h: Host, m: Message, ms: seq<Message>)
    ensures ObeyAll(h, [m] + ms) == ObeyAll(Obey(h, m), ms)
  {
    assert ([m] + ms)[1..] == ms;
  }

  lemma AddIds(tabs: seq<TabInfo>, t: TabInfo)
    ensures Ids(tabs + [t]) == Ids(tabs) + {t.id}
  {
    assert (tabs + [t])[|tabs|] == t;
    forall id | id in Ids(tabs)
      ensures id in Ids(tabs + [t])
    {
      var k :| 0 <= k < |tabs| && tabs[k].id == id;
      assert (tabs + [t])[k].id == id;
    }
  }

  lemma HasIdAppend(tabs: seq<TabInfo>, t: TabInfo, id: u32)
    ensures HasId(tabs + [t], id) <==> HasId(tabs, id) || id == t.id
  {
    if HasId(tabs, id) {
      var i :| 0 <= i < |tabs| && tabs[i].id == id;
      assert (tabs + [t])[i].id == id;
    }
    assert (tabs + [t])[|tabs|] == t;
  }

  lemma AddDistinct(tabs: seq<TabInfo>, t: TabInfo)
    requires Distinct(tabs, t.id)
    ensures Distinct(tabs + [t], t.id + 1)
  {
  }

  lemma NewTabKeeps(v: TabState, h: Host)
    requires WellFormed(v) && InSync(v, h) && Enabled(v, NewTab)
    ensures var (v', cmds) := Act(v, NewTab);
            WellFormed(v') && InSync(v', ObeyAll(h, cmds))
  {
    hide Home, Distinct, Ids, HasId;
    var t := TabInfo(v.next, Home());
    AddIds(v.tabs, t);
    AddDistinct(v.tabs, t);
    HasIdAppend(v.tabs, t, t.id);
    ObeyOne(h, Message.CreateTab(v.next, Home()));
  }

  lemma SelectKeeps(v: TabState, id: u32, h: Host)
    requires WellFormed(v) && InSync(v, h) && HasId(v.tabs, id)
    ensures var (v', cmds) := Select(v, id);
            WellFormed(v') && InSync(v', ObeyAll(h, cmds))
  {
    hide Distinct, Ids;
    ObeyOne(h, SwitchTab(id));
  }

  lemma ObeyClose(h: Host, id: u32)
    ensures Obey(h, Message.CloseTab(id)) == Closed(h, id)
  {
  }

  lemma ActiveIndex(v: TabState)
    requires WellFormed(v)
    ensures IndexOf(v.tabs, v.active) < |v.tabs| && v.tabs[IndexOf(v.tabs, v.active)].id == v.active
  {
  }

  lemma WithoutActive(v: TabState, i: nat)
    requires WellFormed(v) && i < |v.tabs| && v.tabs[i].id == v.active
    ensures Without(v.tabs, v.active) == v.tabs[..i] + v.tabs[i + 1..]
  {
    WithoutIsRemove(v.tabs, i);
  }

  lemma CloseActiveKeeps(v: TabState, h: Host)
    requires WellFormed(v) && InSync(v, h)
    ensures var (v', cmds) := Act(v, CloseActive);
            WellFormed(v') && InSync(v', ObeyAll(h, cmds))
  {
    hide Home, WellFormed, InSync, ActivateFirst, Without, IndexOf;
    if |v.tabs| > 1 {
      ActiveIndex(v);
      var i := IndexOf(v.tabs, v.active);
      WithoutActive(v, i);
      CloseKeeps(v, i, h);
      ObeyTwo(h, Message.CloseTab(v.active), ActivateFirst(v.(tabs := v.tabs[..i] + v.tabs[i + 1..])).1);
    }
  }

  lemma NextKeeps(v: TabState, k: nat, h: Host)
    requires WellFormed(v) && k < |v.tabs| && InSync(v, h)
    ensures var v' := v.(active := v.tabs[k].id);
            WellFormed(v') && InSync(v', ObeyAll(h, [SwitchTab(v.tabs[k].id)]))
  {
    hide Distinct, Ids;
    ObeyOne(h, SwitchTab(v.tabs[k].id));
    assert HasId(v.tabs, v.tabs[k].id);
  }

  lemma ActKeeps(v: TabState, a: UserAction, h: Host)
    requires WellFormed(v) && InSync(v, h) && Enabled(v, a)
    ensures var (v', cmds) := Act(v, a);
            WellFormed(v') && InSync(v', ObeyAll(h, cmds))
  {
    hide Home, WellFormed, InSync, Select, ActivateFirst, Without, IndexOf, Obey;
    match a {
      case NewTab => NewTabKeeps(v, h);
      case CloseActive => CloseActiveKeeps(v, h);
      case NextTab =>
        if |v.tabs| > 1 {
          ActiveIndex(v);
          var i := IndexOf(v.tabs, v.active);
          NextKeeps(v, (i + 1) % |v.tabs|, h);
        }
      case ClickTab(i) =>
        if i < |v.tabs| {
          assert HasId(v.tabs, v.tabs[i].id);
          SelectKeeps(v, v.tabs[i].id, h);
        }
      case ClickClose(i) =>
        if i < |v.tabs| && |v.tabs| == 1 {
          assert HasId(v.tabs, v.tabs[i].id);
          SelectKeeps(v, v.tabs[i].id, h);
        } else if i < |v.tabs| {
          CloseKeeps(v, i, h);
          ObeyOne(h, Message.CloseTab(v.tabs[i].id));
          ObeyClose(h, v.tabs[i].id);
          ObeyTwo(h, Message.CloseTab(v.tabs[i].id), ActivateFirst(v.(tabs := v.tabs[..i] + v.tabs[i + 1..])).1);
        }
    }
  }

  lemma FreshId(v: TabState)
    requires Distinct(v.tabs, v.next)
    ensures v.next !in Ids(v.tabs)
  {
  }

  lemma NthIndex(v: TabState, k: nat)
    requires WellFormed(v) && k < |v.tabs|
    ensures IndexOf(v.tabs, v.tabs[k].id) == k
  {
  }

  /** Tab `id` goes, the others keep their order; the first of them becomes active if it was. */
  predicate Closes(v: TabState, id: u32, v': TabState, cmds: seq<Message>) {
    var i := IndexOf(v.tabs, id);
    && i < |v.tabs| && v'.tabs == v.tabs[..i] + v.tabs[i + 1..] && v'.tabs != [] && v'.next == v.next
    && Ids(v'.tabs) == Ids(v.tabs) - {id}
    && v'.active == (if v.active == id then v'.tabs[0].id else v.active)
    && cmds == if v.active == id then [Message.CloseTab(id), SwitchTab(v'.tabs[0].id)] else [Message.CloseTab(id)]
  }

  /** Tab `id` becomes active; the host is told only if it was not. */
  predicate Selects(v: TabState, id: u32, v': TabState, cmds: seq<Message>) {
    v' == TabState(v.tabs, id, v.next) && cmds == if v.active == id then [] else [SwitchTab(id)]
  }

  lemma HomeIs()
    ensures Home() == HOME_PAGE
  {
  }

  lemma TwoCommands(id: u32, next: u32)
    ensures [Message.CloseTab(id)] + [SwitchTab(next)] == [Message.CloseTab(id), SwitchTab(next)]
  {
  }

  lemma NotEmpty(v: TabState)
    requires WellFormed(v)
    ensures |v.tabs| > 0 && Distinct(v.tabs, v.next)
  {
  }

  lemma CloseEffects(v: TabState, i: nat)
    requires WellFormed(v) && i < |v.tabs| && |v.tabs| > 1
    ensures var id := v.tabs[i].id;
            var v1 := v.(tabs := v.tabs[..i] + v.tabs[i + 1..]);
            if v.active == id then Closes(v, id, ActivateFirst(v1).0, [Message.CloseTab(id)] + ActivateFirst(v1).1)
            else Closes(v, id, v1, [Message.CloseTab(id)])
  {
    hide Ids;
    NthIndex(v, i);
    RemoveIds(v.tabs, i, v.next);
    TwoCommands(v.tabs[i].id, (v.tabs[..i] + v.tabs[i + 1..])[0].id);
  }

  /** What each action does to the tabs, in order, and to the active one, and the commands it sends. */
  lemma ActEffects(v: TabState, a: UserAction)
    requires WellFormed(v) && Enabled(v, a)
    ensures var (v', cmds) := Act(v, a);
            match a
            case NewTab =>
              && v.next !in Ids(v.tabs) && v' == TabState(v.tabs + [TabInfo(v.next, HOME_PAGE)], v.next, v.next + 1)
              && cmds == [Message.CreateTab(v.next, HOME_PAGE)]
            case CloseActive =>
              if |v.tabs| == 1 then v' == v && cmds == [] else Closes(v, v.active, v', cmds)
            case NextTab =>
              && v' == v.(active := v'.active)
              && IndexOf(v.tabs, v'.active) == (IndexOf(v.tabs, v.active) + 1) % |v.tabs|
              && cmds == if |v.tabs| == 1 then [] else [SwitchTab(v'.active)]
            case ClickTab(i) => if i < |v.tabs| then Selects(v, v.tabs[i].id, v', cmds) else v' == v && cmds == []
            case ClickClose(i) =>
              if i >= |v.tabs| then v' == v && cmds == []
              else if |v.tabs| == 1 then Selects(v, v.tabs[i].id, v', cmds)
              else Closes(v, v.tabs[i].id, v', cmds)
  {
    hide Home, Without, Ids, IndexOf, WellFormed, Closes, ActivateFirst;
    NotEmpty(v);
    match a {
      case NewTab =>
        HomeIs();
        FreshId(v);
      case CloseActive =>
        ActiveIndex(v);
        var i := IndexOf(v.tabs, v.active);
        WithoutActive(v, i);
        if |v.tabs| > 1 {
          CloseEffects(v, i);
        }
      case NextTab =>
        ActiveIndex(v);
        var i := IndexOf(v.tabs, v.active);
        NthIndex(v, (i + 1) % |v.tabs|);
      case ClickClose(i) =>
        if i < |v.tabs| && |v.tabs| > 1 {
          CloseEffects(v, i);
        }
      case _ =>
    }
  }

  /** A whole session of user actions. */
  function ActAll(v: TabState, acts: seq<UserAction>): Option<(TabState, seq<Message>)>
    decreases |acts|
  {
    if acts == [] then Some((v, []))
    else if !Enabled(v, acts[0]) then None
    else
      var (v1, cmds) := Act(v, acts[0]);
      var rest := ActAll(v1, acts[1..]);
      if rest.None? then None else Some((rest.value.0, cmds + rest.value.1))
  }

  lemma {:induction false} ObeyConcat(h: Host, a: seq<Message>, b: seq<Message>)
    ensures ObeyAll(h, a + b) == ObeyAll(ObeyAll(h, a), b)
    decreases |a|
  {
    if a == [] {
      assert [] + b == b;
    } else {
      assert (a + b)[1..] == a[1..] + b;
      ObeyConcat(Obey(h, a[0]), a[1..], b);
    }
  }

  /** Tab state machine: any session of user actions keeps the list well formed, and a host that started with
      the same tabs and obeys the emitted commands in order ends with the same tabs open and the same one active. */
  lemma {:induction false} SessionKeepsSync(v: TabState, acts: seq<UserAction>, h: Host)
    requires WellFormed(v) && InSync(v, h) && ActAll(v, acts).Some?
    ensures var (v', cmds) := ActAll(v, acts).value;
            WellFormed(v') && InSync(v', ObeyAll(h, cmds))
    decreases |acts|
  {
    hide Home, WellFormed, InSync, Act, Obey, Enabled;
    if acts != [] {
      var (v1, cmds) := Act(v, acts[0]);
      ActKeeps(v, acts[0], h);
      SessionKeepsSync(v1, acts[1..], ObeyAll(h, cmds));
      ObeyConcat(h, cmds, ActAll(v1, acts[1..]).value.1);
    }
  }

  lemma SyncActive(v: TabState, h: Host)
    requires WellFormed(v) && InSync(v, h)
    ensures h.active in h.tabs
  {
  }

  /** Every command a session sends is one the mirror argument allows: it never switches to a closed tab. */
  lemma ActSwitchesToOpen(v: TabState, a: UserAction, h: Host)
    requires WellFormed(v) && InSync(v, h) && Enabled(v, a)
    ensures var cmds := Act(v, a).1;
            forall i :: 0 <= i < |cmds| && cmds[i].SwitchTab? ==> cmds[i].tabId in ObeyAll(h, cmds[..i]).tabs
  {
    hide Home, WellFormed, InSync, ObeyAll, Without, IndexOf;
    var (v', cmds) := Act(v, a);
    forall i | 0 <= i < |cmds| && cmds[i].SwitchTab?
      ensures cmds[i].tabId in ObeyAll(h, cmds[..i]).tabs
    {
      assert i == |cmds| - 1 && cmds == cmds[..i] + [cmds[i]];
      ActKeeps(v, a, h);
      ObeyConcat(h, cmds[..i], [cmds[i]]);
      SyncActive(v', ObeyAll(h, cmds));
      ObeyOne(ObeyAll(h, cmds[..i]), cmds[i]);
    }
  }
}
