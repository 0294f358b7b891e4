/** The client: host events update its queues and its tab list, user actions its tab list, and a rendering pass
    composites what is queued. */
module Client {
  import opened Bytes
  import opened Wire
  import opened Screen
  import opened Framebuffer
  import opened Compositor
  import opened Tabs

  // ─── The tab list under host events ──────────────────────────────────────

  /** What a host event does to the tab list. */
  function Echoed(v: TabState, ev: RenderEvent): TabState {
    match ev
    case TabCreated(id, url) =>
      var v1 := v.(next := Max(v.next, id + 1));
      var i := IndexOf(v.tabs, id);
      if i == |v.tabs| then v1.(tabs := v.tabs + [TabInfo(id, url)])
      else if url != [] then v1.(tabs := v.tabs[i := TabInfo(id, url)])
      else v1
    case TabClosed(id) =>
      var v1 := v.(tabs := Without(v.tabs, id));
      if v.active == id then ActivateFirst(v1).0 else v1
    case TabActivated(id) => v.(active := id)
    case _ => v
  }

  lemma {:induction false} WithoutKeeps(tabs: seq<TabInfo>, id: u32, bound: nat)
    requires Distinct(tabs, bound)
    ensures Distinct(Without(tabs, id), bound)
    ensures forall other :: HasId(Without(tabs, id), other) <==> HasId(tabs, other) && other != id
  {
    if tabs != [] {
      var n := |tabs| - 1;
      WithoutKeeps(tabs[..n], id, bound);
      var rest := Without(tabs[..n], id);
      forall other
        ensures HasId(tabs, other) <==> HasId(tabs[..n], other) || other == tabs[n].id
        ensures HasId(rest + [tabs[n]], other) <==> HasId(rest, other) || other == tabs[n].id
      {
        HasIdAppend(tabs[..n], tabs[n], other);
        HasIdAppend(rest, tabs[n], other);
        assert tabs[..n] + [tabs[n]] == tabs;
      }
      assert !HasId(tabs[..n], tabs[n].id);
      assert !HasId(rest, tabs[n].id);
      assert rest + [] == rest;
    }
  }

  predicate IsTabEvent(ev: RenderEvent) {
    ev.TabCreated? || ev.TabClosed? || ev.TabActivated?
  }

  /** Host events keep the ids distinct and below the counter. */
  lemma EchoKeepsDistinct(v: TabState, ev: RenderEvent)
    requires Distinct(v.tabs, v.next)
    ensures Distinct(Echoed(v, ev).tabs, Echoed(v, ev).next)
  {
    if ev.TabClosed? {
      WithoutKeeps(v.tabs, ev.tabId, v.next);
    }
  }

  /** They keep the whole list well formed exactly when the last tab is not closed and no unknown tab activated. */
  lemma EchoKeepsOk(v: TabState, ev: RenderEvent)
    requires WellFormed(v)
    ensures WellFormed(Echoed(v, ev)) <==>
              match ev
              case TabClosed(id) => exists other :: HasId(v.tabs, other) && other != id
              case TabActivated(id) => HasId(v.tabs, id)
              case _ => true
  {
    hide Distinct, Without;
    EchoKeepsDistinct(v, ev);
    match ev {
      case TabClosed(id) =>
        WithoutKeeps(v.tabs, id, v.next);
        var rest := Without(v.tabs, id);
        if rest != [] {
          assert HasId(rest, rest[0].id);
        }
      case TabCreated(id, url) =>
        var i := IndexOf(v.tabs, id);
        if i == |v.tabs| {
          HasIdAppend(v.tabs, TabInfo(id, url), v.active);
        } else if url != [] {
          var k :| 0 <= k < |v.tabs| && v.tabs[k].id == v.active;
          assert v.tabs[i := TabInfo(id, url)][k].id == v.active;
        }
      case _ =>
    }
  }

  /** Of several tabs, closing the active one leaves a first one to move to. */
  lemma CloseLeaves(v: TabState)
    requires WellFormed(v) && |v.tabs| > 1
    ensures var rest := Without(v.tabs, v.active);
            rest != [] && rest[0].id != v.active && WellFormed(v.(tabs := rest, active := rest[0].id))
  {
    hide Without;
    WithoutKeeps(v.tabs, v.active, v.next);
    var other := if v.tabs[0].id == v.active then v.tabs[1].id else v.tabs[0].id;
    var rest := Without(v.tabs, v.active);
    assert HasId(v.tabs, other);
    assert HasId(rest, other);
    assert HasId(rest, rest[0].id);
  }

  lemma SentTwo(sent: seq<Message>, a: Message, b: Message)
    ensures sent + [a] + [b] == sent + ([a] + [b])
  {
  }

  lemma NextDiffers(v: TabState)
    requires WellFormed(v) && |v.tabs| > 1
    ensures var i := IndexOf(v.tabs, v.active);
            var next := v.tabs[(i + 1) % |v.tabs|].id;
            i < |v.tabs| && next != v.active && WellFormed(v.(active := next))
  {
    var i := IndexOf(v.tabs, v.active);
    assert HasId(v.tabs, v.tabs[(i + 1) % |v.tabs|].id);
  }

  lemma RestDiffers(tabs: seq<TabInfo>, i: nat, bound: nat)
    requires i < |tabs| && |tabs| > 1 && Distinct(tabs, bound)
    ensures (tabs[..i] + tabs[i + 1..])[0].id != tabs[i].id
  {
  }

  lemma FirstLeft(tabs: seq<TabInfo>, id: u32, bound: nat)
    requires Distinct(tabs, bound)
    ensures var rest := Without(tabs, id); rest != [] ==> rest[0].id != id
  {
    hide Without;
    WithoutKeeps(tabs, id, bound);
    var rest := Without(tabs, id);
    if rest != [] {
      assert HasId(rest, rest[0].id);
    }
  }

  lemma HasNth(tabs: seq<TabInfo>, i: nat)
    requires i < |tabs|
    ensures HasId(tabs, tabs[i].id)
  {
  }

  lemma ActiveBelow(v: TabState)
    requires WellFormed(v)
    ensures v.active < v.next
  {
  }

  lemma IdsUpdate(tabs: seq<TabInfo>, i: nat, t: TabInfo)
    requires i < |tabs| && tabs[i].id == t.id
    ensures Ids(tabs[i := t]) == Ids(tabs)
  {
    forall id
      ensures id in Ids(tabs) <==> id in Ids(tabs[i := t])
    {
      if id in Ids(tabs) {
        var k :| 0 <= k < |tabs| && tabs[k].id == id;
        assert tabs[i := t][k].id == id;
      }
      if id in Ids(tabs[i := t]) {
        var k :| 0 <= k < |tabs| && tabs[i := t][k].id == id;
        assert tabs[k].id == id;
      }
    }
  }

  lemma InIds(tabs: seq<TabInfo>, id: u32)
    ensures id in Ids(tabs) <==> IndexOf(tabs, id) < |tabs|
    ensures id in Ids(tabs) <==> exists i :: 0 <= i < |tabs| && tabs[i].id == id
  {
  }

  lemma ClosedEffects(tabs: seq<TabInfo>, bound: nat, id: u32)
    requires Distinct(tabs, bound)
    ensures Ids(Without(tabs, id)) == Ids(tabs) - {id}
    ensures id !in Ids(tabs) ==> Without(tabs, id) == tabs
    ensures forall i :: 0 <= i < |tabs| && tabs[i].id == id ==> Without(tabs, id) == tabs[..i] + tabs[i + 1..]
  {
    hide Without, Ids;
    InIds(tabs, id);
    var i := IndexOf(tabs, id);
    if i < |tabs| {
      WithoutIsRemove(tabs, i);
      RemoveIds(tabs, i, bound);
    } else {
      WithoutNone(tabs, id);
    }
  }

  lemma KnownId(tabs: seq<TabInfo>, id: u32)
    requires id in Ids(tabs)
    ensures Ids(tabs) + {id} == Ids(tabs)
  {
  }

  /** Which tabs each host event leaves open, in which order, with which address, and which is active: a new tab comes
      last, a known one keeps its place and takes a new address; closing the active tab moves to the first one left. */
  lemma EchoEffects(v: TabState, ev: RenderEvent)
    requires Distinct(v.tabs, v.next)
    ensures var v' := Echoed(v, ev);
            match ev
            case TabCreated(id, url) =>
              && Ids(v'.tabs) == Ids(v.tabs) + {id} && v'.active == v.active
              && v'.next == (if id < v.next then v.next else id + 1)
              && (id !in Ids(v.tabs) ==> v'.tabs == v.tabs + [TabInfo(id, url)])
              && (id in Ids(v.tabs) ==> |v'.tabs| == |v.tabs|)
              && (id in Ids(v.tabs) ==>
                    forall i :: 0 <= i < |v.tabs| ==>
                      v'.tabs[i] == if v.tabs[i].id == id && url != [] then TabInfo(id, url) else v.tabs[i])
            case TabClosed(id) =>
              && Ids(v'.tabs) == Ids(v.tabs) - {id} && v'.next == v.next
              && (id !in Ids(v.tabs) ==> v'.tabs == v.tabs)
              && (forall i :: 0 <= i < |v.tabs| && v.tabs[i].id == id ==> v'.tabs == v.tabs[..i] + v.tabs[i + 1..])
              && v'.active == (if v.active == id && v'.tabs != [] then v'.tabs[0].id else v.active)
            case TabActivated(id) => v' == TabState(v.tabs, id, v.next)
            case _ => v' == v
  {
    hide Without, Ids;
    match ev {
      case TabCreated(id, url) =>
        var i := IndexOf(v.tabs, id);
        InIds(v.tabs, id);
        if i == |v.tabs| {
          AddIds(v.tabs, TabInfo(id, url));
        } else {
          IdsUpdate(v.tabs, i, TabInfo(id, url));
          KnownId(v.tabs, id);
        }
      case TabClosed(id) => ClosedEffects(v.tabs, v.next, id);
      case _ =>
    }
  }

  // ─── The browser core ────────────────────────────────────────────────────

  class BrowserCore {
    var winW: nat
    var winH: nat
    var tabs: seq<TabInfo>
    var activeTabId: u32
    var nextTabId: nat
    var outbound: seq<Message>
    var chromeDirty: bool
    var fullContentDirty: bool
    var pendingFrames: seq<GfxFrame>
    var pendingSubframes: seq<GfxSubframe>
    var framesSeen: nat

    /** Everything queued can be painted; tab ids are distinct and below the counter. */
    ghost predicate Valid()
      reads this
    {
      && (forall f :: f in pendingFrames ==> Paintable(RenderEvent.Frame(f)))
      && (forall s :: s in pendingSubframes ==> Paintable(RenderEvent.Subframe(s)))
      && Distinct(tabs, nextTabId)
    }

    function Pending(): Backlog
      reads this
    {
      Backlog(pendingFrames, pendingSubframes, fullContentDirty)
    }

    function TabView(): TabState
      reads this
    {
      TabState(tabs, activeTabId, nextTabId)
    }

    constructor (width: nat, height: nat, initialUrl: Str)
      ensures Valid() && WellFormed(TabView())
      ensures winW == width && winH == height && outbound == []
      ensures TabView() == TabState([TabInfo(1, initialUrl)], 1, 2)
      ensures Pending() == CLEAN.(dirty := true) && chromeDirty
    {
      winW, winH := width, height;
      tabs, activeTabId, nextTabId := [TabInfo(1, initialUrl)], 1, 2;
      outbound := [];
      chromeDirty, fullContentDirty := true, true;
      pendingFrames, pendingSubframes := [], [];
      framesSeen := 0;
      new;
      assert tabs[0].id == 1;
    }

    /** One event from the host. The content area is declared stale when the active tab changes. */
    method HandleRenderEvent(ev: RenderEvent)
      requires Valid() && Regular(ev)
      requires ev.TabCreated? ==> ev.tabId + 1 < TWO_32
      modifies this
      ensures Valid()
      ensures TabView() == Echoed(old(TabView()), ev)
      ensures Pending() == if activeTabId != old(activeTabId) then old(Pending()).(dirty := true)
                           else Enqueue(old(Pending()), ev)
      ensures chromeDirty == (old(chromeDirty) || IsTabEvent(ev))
      ensures framesSeen == old(framesSeen) + if IsTabEvent(ev) || !Accepted(ev) then 0 else 1
      ensures winW == old(winW) && winH == old(winH) && outbound == old(outbound)
    {
      hide Distinct, Without, HasId, IndexOf;
      EchoKeepsDistinct(TabView(), ev);
      match ev {
        case Frame(f) =>
          if f.width == 0 || f.height == 0 || |f.pixels| < f.stride * f.height {
            return;
          }
          pendingFrames, pendingSubframes := [], [];
          pendingFrames := pendingFrames + [f];
          fullContentDirty := true;
          framesSeen := framesSeen + 1;
        case Subframe(s) =>
          if s.w == 0 || s.h == 0 || |s.pixels| < s.stride * s.h {
            return;
          }
          pendingSubframes := pendingSubframes + [s];
          framesSeen := framesSeen + 1;
        case TabCreated(id, url) =>
          nextTabId := Max(nextTabId, id + 1);
          var i := IndexOf(tabs, id);
          if i < |tabs| {
            if url != [] {
              tabs := tabs[i := TabInfo(id, url)];
            }
          } else {
            tabs := tabs + [TabInfo(id, url)];
          }
          chromeDirty := true;
        case TabClosed(id) =>
          FirstLeft(tabs, id, nextTabId);
          tabs := Without(tabs, id);
          if activeTabId == id {
            if tabs != [] {
              activeTabId := tabs[0].id;
              fullContentDirty := true;
            }
          }
          chromeDirty := true;
        case TabActivated(id) =>
          if activeTabId != id {
            activeTabId := id;
            fullContentDirty := true;
          }
          chromeDirty := true;
      }
    }

    // ─── User actions ──────────────────────────────────────────────────────

    ghost predicate Acted(v: TabState, sent: seq<Message>, b: Backlog, a: UserAction)
      reads this
      requires Enabled(v, a)
    {
      && TabView() == Act(v, a).0
      && outbound == sent + Act(v, a).1
      && Pending() == if activeTabId != v.active then b.(dirty := true) else b
    }

    /** Ctrl+T or the plus button. */
    method NewTab()
      requires Valid() && WellFormed(TabView()) && nextTabId + 1 < TWO_32
      modifies this
      ensures Valid() && WellFormed(TabView()) && winW == old(winW) && winH == old(winH)
      ensures Acted(old(TabView()), old(outbound), old(Pending()), UserAction.NewTab)
    {
      hide Home, Distinct, HasId;
      ActiveBelow(TabView());
      var newId := nextTabId;
      nextTabId := nextTabId + 1;
      var url := Home();
      AddDistinct(tabs, TabInfo(newId, url));
      HasIdAppend(tabs, TabInfo(newId, url), newId);
      tabs := tabs + [TabInfo(newId, url)];
      activeTabId := newId;
      fullContentDirty := true;
      chromeDirty := true;
      outbound := outbound + [Message.CreateTab(newId, url)];
    }

    /** Ctrl+W. */
    method CloseActive()
      requires Valid() && WellFormed(TabView())
      modifies this
      ensures Valid() && WellFormed(TabView()) && winW == old(winW) && winH == old(winH)
      ensures Acted(old(TabView()), old(outbound), old(Pending()), UserAction.CloseActive)
    {
      hide Home, Distinct, Without, HasId, IndexOf;
      if |tabs| > 1 {
        var id := activeTabId;
        CloseLeaves(TabView());
        outbound := outbound + [Message.CloseTab(id)];
        tabs := Without(tabs, id);
        if tabs != [] {
          activeTabId := tabs[0].id;
          SentTwo(old(outbound), Message.CloseTab(id), SwitchTab(activeTabId));
          outbound := outbound + [SwitchTab(activeTabId)];
        }
        fullContentDirty := true;
        chromeDirty := true;
      }
    }

    /** Ctrl+Tab. */
    method NextTab()
      requires Valid() && WellFormed(TabView())
      modifies this
      ensures Valid() && WellFormed(TabView()) && winW == old(winW) && winH == old(winH)
      ensures Acted(old(TabView()), old(outbound), old(Pending()), UserAction.NextTab)
    {
      hide Home, Distinct, Without, HasId, IndexOf;
      if |tabs| > 1 {
        var idx := IndexOf(tabs, activeTabId);
        NextDiffers(TabView());
        var nextId := tabs[((if idx < |tabs| then idx else 0) + 1) % |tabs|].id;
        activeTabId := nextId;
        outbound := outbound + [SwitchTab(nextId)];
        fullContentDirty := true;
        chromeDirty := true;
      }
    }

    /** A click on tab `i`, `close` if it closes the tab there. */
    method ClickTabAt(i: nat, close: bool)
      requires Valid() && WellFormed(TabView()) && i < |tabs|
      modifies this
      ensures Valid() && WellFormed(TabView()) && winW == old(winW) && winH == old(winH)
      ensures Acted(old(TabView()), old(outbound), old(Pending()), if close then ClickClose(i) else ClickTab(i))
    {
      hide Home, Distinct, Without, HasId, IndexOf;
      var tabId := tabs[i].id;
      HasNth(tabs, i);
      if close && |tabs| > 1 {
        RemoveKeeps(TabView(), i);
        RestDiffers(tabs, i, nextTabId);
        outbound := outbound + [Message.CloseTab(tabId)];
        tabs := tabs[..i] + tabs[i + 1..];
        if activeTabId == tabId {
          if tabs != [] {
            activeTabId := tabs[0].id;
            SentTwo(old(outbound), Message.CloseTab(tabId), SwitchTab(activeTabId));
            outbound := outbound + [SwitchTab(activeTabId)];
          }
          fullContentDirty := true;
        }
        chromeDirty := true;
        return;
      }
      if activeTabId != tabId {
        activeTabId := tabId;
        outbound := outbound + [SwitchTab(tabId)];
        fullContentDirty := true;
        chromeDirty := true;
      }
    }

    // ─── Rendering ─────────────────────────────────────────────────────────

    /** `buffer` can hold the window, and the window has a content area. */
    predicate Fits(buffer: array<u32>)
      reads this
    {
      winW > 0 && winH > 0 && buffer.Length >= winW * winH
    }

    /** One compositing pass. `chrome` is the image of the bars above the content area. */
    method RenderInto(buffer: array<u32>, chrome: seq<u32>) returns (damage: seq<DamageRect>)
      requires Valid() && |chrome| == Min(CHROME_H, winH) * winW
      modifies this, buffer
      ensures Valid() && TabView() == old(TabView()) && outbound == old(outbound)
      ensures winW == old(winW) && winH == old(winH)
      ensures !Fits(buffer) ==>
                damage == [] && buffer[..] == old(buffer[..])
                && Pending() == old(Pending()) && chromeDirty == old(chromeDirty)
      ensures Fits(buffer) ==>
                && Beyond(buffer, winW, winH)
                && (forall x, y :: 0 <= x < winW && 0 <= y < winH && y >= CHROME_H ==>
                      Cell(buffer, winW, x, y)
                      == Mixed(Paints(old(Pending()), x, y - CHROME_H), old(Cell(buffer, winW, x, y))))
                && (forall x, y :: 0 <= x < winW && 0 <= y < winH && y < CHROME_H ==>
                      Cell(buffer, winW, x, y)
                      == if old(chromeDirty) && At(winW, x, y) < |chrome| then chrome[At(winW, x, y)]
                         else old(Cell(buffer, winW, x, y)))
                && Pending() == (if winH > CHROME_H then CLEAN else old(Pending()))
                && !chromeDirty
      ensures Fits(buffer) ==>
                forall x, y :: 0 <= x < winW && 96 <= y < winH ==>
                  Prescribed(old(Pending()), x, y - 96, Cell(buffer, winW, x, y), old(Cell(buffer, winW, x, y)))
      ensures Fits(buffer) ==>
                && InBounds(damage, winW, winH)
                && (forall x, y :: 0 <= x < winW && 0 <= y < winH ==>
                      (Damaged(damage, x, y)
                       <==> if y < CHROME_H then old(chromeDirty) else Paints(old(Pending()), x, y - CHROME_H).Some?))
    {
      hide Cell, At, Damaged, Paints, Mixed, Distinct, Prescribed, Paintable;
      var bw, bh := winW, winH;
      if bw == 0 || bh == 0 || buffer.Length < bw * bh {
        return [];
      }
      NoneDamaged();
      damage := [];
      ghost var b := Pending();
      if chromeDirty {
        BlitRows(buffer, bw, bh, Min(CHROME_H, bh), chrome);
        damage := [DamageRect(0, 0, bw, Min(CHROME_H, bh))];
        forall x, y | 0 <= x < bw && 0 <= y < bh
          ensures Damaged(damage, x, y) <==> y < CHROME_H
        {
          OneDamaged(damage[0], x, y);
        }
        chromeDirty := false;
      }
      if bh > CHROME_H {
        var painted := PaintContent(buffer, bw, bh, Pending());
        MoreDamage(damage, painted, bw, bh);
        damage := damage + painted;
        pendingFrames, pendingSubframes := [], [];
        fullContentDirty := false;
        forall x, y | 0 <= x < bw && 96 <= y < bh
          ensures Prescribed(b, x, y - 96, Cell(buffer, bw, x, y), old(Cell(buffer, bw, x, y)))
        {
          PaintsPrescribed(b, x, y - 96, old(Cell(buffer, bw, x, y)));
        }
      }
    }
  }
}
