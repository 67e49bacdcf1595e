/**
 The availability tree of common/strategy.cpp: elements with parent pointers, the upward
 propagation of enabling and disabling, and the choosers that pick an enabled child.
 */
module Elements {
  import opened Arith

  class Element {
    var enable: bool
    var parent: Element?
    var children: seq<Element>
    ghost const level: nat      // services 0, replicas 1, groups 2, ...

    constructor (ghost level: nat)
      ensures !enable && parent == null && children == [] && this.level == level
    {
      enable, parent, children := false, null, [];
      this.level := level;
    }

    /** `Enable`. */
    method Enable(ghost s: set<Element>, ghost top: nat)
      requires Shape(s, top) && this in s
      modifies s`enable
      decreases top - level, 1
      ensures enable
      ensures forall e | e in s && e != this && e.level <= level :: e.enable == old(e.enable)
      ensures forall e | e in s && e != this && e.children == [] :: e.enable == old(e.enable)
      ensures Owned(s, top) && old(FineBut(s, top, this) && (children == [] || HasEnabled(children))) ==> AllFine(s, top)
    {
      hide *;
      SplitFine(s, top, this);
      FineIs(s, top, this);
      if enable {
        return;
      }
      SetFlag(true, s, top);
      FineIs(s, top, this);
      AfterEnable(s, top);
    }

    /** `AfterEnable`: climbs until it meets an enabled ancestor. */
    method AfterEnable(ghost s: set<Element>, ghost top: nat)
      requires Shape(s, top) && this in s
      modifies s`enable
      decreases top - level, 0
      ensures forall e | e in s && e.level <= level :: e.enable == old(e.enable)
      ensures forall e | e in s && e.children == [] :: e.enable == old(e.enable)
      ensures old(parent == null || parent.enable) ==> forall e | e in s :: e.enable == old(e.enable)
      ensures Owned(s, top) && old(enable && FineBut(s, top, if parent == null then this else parent) && Fine(s, top, this))
              ==> AllFine(s, top)
    {
      hide *;
      Up(s, top, this);
      SplitFine(s, top, this);
      var now := parent;
      ghost var good := Owned(s, top) && enable && FineBut(s, top, if parent == null then this else parent)
                        && Fine(s, top, this);
      while now != null
        invariant now != null ==> now in s && now.level > level && now.children != []
        invariant now == parent || old(parent != null && !parent.enable)
        invariant now == parent ==> forall e | e in s :: e.enable == old(e.enable)
        invariant forall e | e in s && e.level <= level :: e.enable == old(e.enable)
        invariant forall e | e in s && e.children == [] :: e.enable == old(e.enable)
        invariant good ==> now == null ==> AllFine(s, top)
        invariant good ==> now != null ==> FineBut(s, top, now) && HasEnabled(now.children)
        decreases if now == null then 0 else top + 1 - now.level
      {
        Up(s, top, now);
        FineIs(s, top, now);
        SplitFine(s, top, now);
        if now.enable {
          break;
        }
        now.Enable(s, top);
        Up(s, top, now);
        if now.parent != null {
          SplitFine(s, top, now.parent);
        }
        now := now.parent;
      }
    }

    /** `Disable`. */
    method Disable(ghost s: set<Element>, ghost top: nat)
      requires Shape(s, top) && this in s
      modifies s`enable
      decreases top - level, 1
      ensures !enable
      ensures forall e | e in s && e != this && e.level <= level :: e.enable == old(e.enable)
      ensures forall e | e in s && e != this && e.children == [] :: e.enable == old(e.enable)
      ensures Owned(s, top) && old(FineBut(s, top, this) && !HasEnabled(children)) ==> AllFine(s, top)
    {
      hide *;
      SplitFine(s, top, this);
      FineIs(s, top, this);
      Up(s, top, this);
      if parent != null {
        FineIs(s, top, parent);
        ButFine(s, top, this, parent);
      }
      if !enable {
        return;
      }
      SetFlag(false, s, top);
      FineIs(s, top, this);
      SplitFine(s, top, this);
      if parent != null {
        FineIs(s, top, parent);
        SplitFine(s, top, parent);
      }
      SettledIs(s, top, parent);
      AfterDisable(s, top);
    }

    /** Writing the flag can only matter to the parent's consistency and one's own. */
    method SetFlag(value: bool, ghost s: set<Element>, ghost top: nat)
      requires Shape(s, top) && this in s
      modifies this`enable
      ensures enable == value && HasEnabled(children) == old(HasEnabled(children))
      ensures Owned(s, top) && old(FineBut(s, top, this)) && Fine(s, top, this) ==>
                FineBut(s, top, if parent == null then this else parent)
    {
      ghost var good := Owned(s, top) && FineBut(s, top, this);
      enable := value;
      assert forall i | 0 <= i < |children| :: children[i] != this;
      if good {
        forall e | e in s && e != this && e != parent ensures Fine(s, top, e) {
          assert old(Fine(s, top, e));
          assert forall i | 0 <= i < |e.children| :: e.children[i] != this;
        }
      }
    }

    /** `AfterDisable`: climbs as long as all children are disabled. */
    method AfterDisable(ghost s: set<Element>, ghost top: nat)
      requires Shape(s, top) && this in s
      modifies s`enable
      decreases top - level, 0
      ensures forall e | e in s && e.level <= level :: e.enable == old(e.enable)
      ensures forall e | e in s && e.children == [] :: e.enable == old(e.enable)
      ensures Owned(s, top) && old(Settled(s, top, parent)) ==> AllFine(s, top)
    {
      hide *;
      Up(s, top, this);
      SettledIs(s, top, parent);
      var now := parent;
      ghost var good := Owned(s, top) && Settled(s, top, now);
      while now != null
        invariant now != null ==> now in s && now.level > level && now.children != []
        invariant forall e | e in s && e.level <= level :: e.enable == old(e.enable)
        invariant forall e | e in s && e.children == [] :: e.enable == old(e.enable)
        invariant good ==> Settled(s, top, now)
        decreases if now == null then 0 else top + 1 - now.level
      {
        Up(s, top, now);
        SettledIs(s, top, now);
        FineIs(s, top, now);
        SplitFine(s, top, now);
        HasEnabledIs(now.children);
        var allDisable := true;
        var i := 0;
        while i < |now.children|
          invariant 0 <= i <= |now.children|
          invariant allDisable ==> forall k | 0 <= k < i :: !now.children[k].enable
          invariant !allDisable ==> HasEnabled(now.children)
        {
          if now.children[i].enable {
            allDisable := false;
            break;
          }
          i := i + 1;
        }
        if allDisable {
          now.Disable(s, top);
          Up(s, top, now);
          SettledIs(s, top, now.parent);
          now := now.parent;
        } else {
          break;
        }
      }
      SettledIs(s, top, now);
    }

    /** `AddChild`. */
    method AddChild(ele: Element, ghost s: set<Element>, ghost top: nat)
      requires Shape(s, top) && this in s && ele in s && ele.level < level
      modifies s`enable, this`children, ele`parent
      ensures Shape(s, top) && children == old(children) + [ele] && ele.parent == this
      ensures old(Owned(s, top)) ==> (Owned(s, top) <==> old(ele.parent) == null || old(ele.parent) == this)
      ensures !ele.enable ==> forall e | e in s :: e.enable == old(e.enable)
      ensures enable == old(enable) && ele.enable == old(ele.enable)
      ensures forall e | e in s && e.children == [] :: e.enable == old(e.enable)
      ensures old(AllFine(s, top) && ele.enable) ==> (AllFine(s, top) <==> old(enable))
      ensures old(AllFine(s, top) && !ele.enable) ==> (AllFine(s, top) <==> old(children) != [] || !enable)
    {
      hide Owned;
      Join(ele, s, top);
      if ele.enable {
        ghost var fine := FineBut(s, top, this) && Fine(s, top, this);
        if fine && parent != null {
          assert Fine(s, top, parent);
        }
        AfterEnable(s, top);
        assert ele.enable && children[|children| - 1] == ele;
        assert HasEnabled(children);
        assert Fine(s, top, this) ==> enable;
      }
    }

    /** What the two assignments of `AddChild` do to consistency. */
    method Join(ele: Element, ghost s: set<Element>, ghost top: nat)
      requires Shape(s, top) && this in s && ele in s && ele.level < level
      modifies this`children, ele`parent
      ensures Shape(s, top) && children == old(children) + [ele] && ele.parent == this
      ensures old(Owned(s, top)) ==> (Owned(s, top) <==> old(ele.parent) == null || old(ele.parent) == this)
      ensures old(AllFine(s, top)) ==> FineBut(s, top, this)
      ensures old(AllFine(s, top)) ==>
                (Fine(s, top, this) <==> if ele.enable then enable else old(children) != [] || !enable)
    {
      hide Shape, Owned;
      ghost var before := HasEnabled(children);
      ghost var kids := children;
      Attach(ele, s, top);
      assert HasEnabled(children) <==> ele.enable || before by {
        assert children[|children| - 1] == ele && forall i | 0 <= i < |kids| :: children[i] == kids[i];
      }
    }

    /** The two assignments of `AddChild`. */
    method Attach(ele: Element, ghost s: set<Element>, ghost top: nat)
      requires Shape(s, top) && this in s && ele in s && ele.level < level
      modifies this`children, ele`parent
      ensures Shape(s, top) && children == old(children) + [ele] && ele.parent == this
      ensures old(Owned(s, top)) ==> (Owned(s, top) <==> old(ele.parent) == null || old(ele.parent) == this)
    {
      ghost var p, kids := ele.parent, children;
      children := children + [ele];
      ele.parent := this;
      forall e | e in s && e.parent != null
        ensures e.parent in s && e in e.parent.children && e.parent.level > e.level
      {
        if e != ele {
          assert e in old(e.parent.children);
        }
      }
      assert forall i | 0 <= i < |kids| :: children[i] == kids[i];
      if p != null && p != this {
        assert ele in p.children;
      }
    }
  }

  // ---- the steps of a climb ----

  lemma Up(s: set<Element>, top: nat, e: Element)
    requires Shape(s, top) && e in s
    ensures e.level <= top
    ensures e.parent != null ==> e.parent in s && e.parent.level > e.level && e.parent.children != []
    ensures e.parent != null && e.enable ==> HasEnabled(e.parent.children)
  {
  }

  lemma FineIs(s: set<Element>, top: nat, e: Element)
    requires Shape(s, top) && e in s
    ensures Fine(s, top, e) <==> (e.children != [] ==> (e.enable <==> HasEnabled(e.children)))
  {
  }

  lemma SplitFine(s: set<Element>, top: nat, e: Element)
    requires Shape(s, top) && e in s
    ensures AllFine(s, top) <==> FineBut(s, top, e) && Fine(s, top, e)
  {
  }

  lemma ButFine(s: set<Element>, top: nat, x: Element, e: Element)
    requires Shape(s, top) && e in s && x in s
    ensures FineBut(s, top, x) && e != x ==> Fine(s, top, e)
  {
  }

  lemma SettledIs(s: set<Element>, top: nat, now: Element?)
    requires Shape(s, top) && (now != null ==> now in s)
    ensures Settled(s, top, now)
            <==> AllFine(s, top) || (now != null && FineBut(s, top, now) && now.enable && !HasEnabled(now.children))
  {
  }

  lemma HasEnabledIs(children: seq<Element>)
    ensures HasEnabled(children) <==> exists i :: 0 <= i < |children| && children[i].enable
  {
  }

  /** Everything is consistent, or everything but `now`, which is enabled with all its children disabled. */
  ghost predicate Settled(s: set<Element>, top: nat, now: Element?)
    requires Shape(s, top) && (now != null ==> now in s)
    reads s
  {
    AllFine(s, top) || (now != null && FineBut(s, top, now) && now.enable && !HasEnabled(now.children))
  }

  /** `FixedStrategy.ChooseByNothing`: the first enabled element. */
  method ChooseFixed(elements: seq<Element>) returns (chosen: Element?)
    ensures chosen == null <==> !HasEnabled(elements)
    ensures chosen != null ==> exists i :: 0 <= i < |elements| && chosen == elements[i] && chosen.enable
                                           && forall k | 0 <= k < i :: !elements[k].enable
  {
    var i := 0;
    while i < |elements|
      invariant 0 <= i <= |elements| && forall k | 0 <= k < i :: !elements[k].enable
    {
      if elements[i].enable {
        return elements[i];
      }
      i := i + 1;
    }
    return null;
  }

  /** `RollStrategy`: `current` counts successful choices. */
  class RollStrategy {
    var current: nat
    const elements: seq<Element>

    constructor (elements: seq<Element>)
      ensures current == 0 && this.elements == elements
    {
      this.elements := elements;
      current := 0;
    }

    /** `RollStrategy.ChooseByNothing`: the first enabled element from `current` on, going round once. */
    method Choose() returns (chosen: Element?)
      modifies this`current
      ensures chosen == null <==> !HasEnabled(elements)
      ensures current == old(current) + if chosen == null then 0 else 1
      ensures chosen != null ==>
                (exists d: nat :: d < |elements| && chosen == elements[Slot(old(current), d, |elements|)] && chosen.enable
                                  && forall k: nat | k < d :: !elements[Slot(old(current), k, |elements|)].enable)
      ensures elements != [] && elements[old(current) % |elements|].enable ==>
                chosen == elements[old(current) % |elements|]
    {
      if |elements| == 0 {
        return null;
      }
      var n := |elements|;
      var index := current % n;
      var i := 0;
      assert index == Slot(current, 0, n);
      while i < n
        invariant 0 <= i <= n && index == Slot(current, i, n) && current == old(current)
        invariant forall k: nat | k < i :: !elements[Slot(current, k, n)].enable
      {
        hide Slot;
        if !elements[index].enable {
          SlotAfter(current, i, n);
          index := (index + 1) % n;
          i := i + 1;
          continue;
        }
        current := current + 1;
        return elements[index];
      }
      hide Slot;
      forall j | 0 <= j < n ensures !elements[j].enable {
        Covers(current, n, j);
      }
      return null;
    }
  }

  /** While all elements are enabled, as many choices as there are elements take each of them once, in rolling order. */
  method ChooseRound(roll: RollStrategy) returns (chosen: seq<Element>)
    requires forall i | 0 <= i < |roll.elements| :: roll.elements[i].enable
    modifies roll`current
    ensures multiset(chosen) == multiset(roll.elements) && roll.current == old(roll.current) + |roll.elements|
    ensures roll.elements != [] ==>
              var start := old(roll.current) % |roll.elements|;
              chosen == roll.elements[start..] + roll.elements[..start]
  {
    var elements := roll.elements;
    ghost var c, n := roll.current, |elements|;
    chosen := [];
    while |chosen| < |elements|
      invariant |chosen| <= n && roll.current == c + |chosen|
      invariant forall k | 0 <= k < |chosen| :: chosen[k] == elements[(c + k) % n]
    {
      var next := roll.Choose();
      assert elements[(c + |chosen|) % n].enable;
      assert HasEnabled(elements);
      chosen := chosen + [next];
    }
    if n > 0 {
      Rotated(elements, chosen, c);
    }
  }

  lemma Rotated<T>(elements: seq<T>, chosen: seq<T>, c: nat)
    requires |chosen| == |elements| > 0
    requires forall k | 0 <= k < |chosen| :: chosen[k] == elements[(c + k) % |elements|]
    ensures chosen == elements[c % |elements|..] + elements[..c % |elements|]
    ensures multiset(chosen) == multiset(elements)
  {
    var n := |elements|;
    var start := c % n;
    var rotated := elements[start..] + elements[..start];
    forall k | 0 <= k < n ensures chosen[k] == rotated[k] {
      Around(c, k, n);
    }
    assert chosen == rotated;
    assert elements == elements[..start] + elements[start..];
  }

  lemma Around(c: nat, k: nat, n: nat)
    requires k < n
    ensures (c + k) % n == if c % n + k < n then c % n + k else c % n + k - n
  {
    var q, start := c / n, c % n;
    assert c == q * n + start && (q + 1) * n == q * n + n;
    if start + k < n {
      RemainderUnique(c + k, q, start + k, n);
    } else {
      RemainderUnique(c + k, q + 1, start + k - n, n);
    }
  }

  /** The index `k` places after the starting point `c`, round a list of `n`. */
  function Slot(c: nat, k: nat, n: nat): (r: nat)
    requires n > 0
    ensures r < n
  {
    (c + k) % n
  }

  lemma NextIndex(x: nat, n: nat)
    requires n > 0
    ensures (x % n + 1) % n == (x + 1) % n
  {
    var q, r := x / n, x % n;
    assert x == q * n + r;
    if r + 1 < n {
      RemainderUnique(r + 1, 0, r + 1, n);
      RemainderUnique(x + 1, q, r + 1, n);
    } else {
      assert (q + 1) * n == q * n + n;
      RemainderUnique(n, 1, 0, n);
      RemainderUnique(x + 1, q + 1, 0, n);
    }
  }

  lemma SlotAfter(c: nat, k: nat, n: nat)
    requires n > 0
    ensures (Slot(c, k, n) + 1) % n == Slot(c, k + 1, n)
  {
    NextIndex(c + k, n);
    assert c + (k + 1) == c + k + 1;
  }

  /** Going round once from anywhere meets every index exactly once. */
  lemma Covers(c: nat, n: nat, j: nat)
    requires j < n
    ensures exists k: nat :: k < n && Slot(c, k, n) == j
    ensures forall k: nat, m: nat | k < n && m < n && Slot(c, k, n) == j == Slot(c, m, n) :: k == m
  {
    var r := c % n;
    forall k: nat | k < n ensures Slot(c, k, n) == (if r + k < n then r + k else r + k - n) {
      Around(c, k, n);
    }
    var k := if j >= r then j - r else j + n - r;
    assert Slot(c, k, n) == j;
  }

  datatype Strategy = Fixed | Roll(roll: RollStrategy)

  /** `ChooseByNothing` of whichever strategy was configured. */
  method ChooseBy(strategy: Strategy, elements: seq<Element>) returns (chosen: Element?)
    requires strategy.Roll? ==> strategy.roll.elements == elements
    modifies if strategy.Roll? then {strategy.roll} else {}
    ensures chosen == null <==> !HasEnabled(elements)
    ensures chosen != null ==> chosen in elements && chosen.enable
  {
    match strategy
    case Fixed => chosen := ChooseFixed(elements);
    case Roll(roll) => chosen := roll.Choose();
  }

  /**
   A group sends through replicas, replicas through a service, each by its own strategy: an enabled group always
   finds an enabled service, a disabled one never.
   */
  method ChooseService(group: Element, strategies: map<Element, Strategy>, ghost s: set<Element>, ghost top: nat)
    returns (service: Element?)
    requires Forest(s, top) && AllFine(s, top) && group in s && group.children != []
    requires forall i | 0 <= i < |group.children| :: group.children[i].children == [] ==> !group.children[i].enable
    requires group in strategies
    requires forall i | 0 <= i < |group.children| && group.children[i].children != [] :: group.children[i] in strategies
    requires forall e | e in strategies && strategies[e].Roll? :: strategies[e].roll.elements == e.children
    modifies set e | e in strategies && strategies[e].Roll? :: strategies[e].roll
    ensures group.enable <==> service != null
    ensures service != null ==>
              service in s && service.enable && service.parent != null && service.parent.parent == group
  {
    assert Fine(s, top, group);
    var replicas := ChooseBy(strategies[group], group.children);
    if replicas == null {
      return null;
    }
    assert Fine(s, top, replicas);
    service := ChooseBy(strategies[replicas], replicas.children);
  }

  /** Parents list their children, and lie above them. */
  ghost predicate Shape(s: set<Element>, top: nat)
    reads s`children, s`parent
  {
    forall e | e in s ::
      && e.level <= top
      && (e.parent != null ==> e.parent in s && e in e.parent.children && e.parent.level > e.level)
      && (forall i | 0 <= i < |e.children| :: e.children[i] in s && e.children[i].level < e.level)
  }

  /** Listed children know their parent: nobody is listed twice. */
  ghost predicate Owned(s: set<Element>, top: nat)
    requires Shape(s, top)
    reads s`children, s`parent
  {
    forall e | e in s :: forall i | 0 <= i < |e.children| :: e.children[i].parent == e
  }

  ghost predicate Forest(s: set<Element>, top: nat)
    reads s`children, s`parent
  {
    Shape(s, top) && Owned(s, top)
  }

  ghost predicate HasEnabled(children: seq<Element>)
    reads children
  {
    exists i :: 0 <= i < |children| && children[i].enable
  }

  /** An inner element is enabled iff one of its children is. */
  ghost predicate Fine(s: set<Element>, top: nat, e: Element)
    requires Shape(s, top) && e in s
    reads s
  {
    e.children != [] ==> (e.enable <==> HasEnabled(e.children))
  }

  ghost predicate FineBut(s: set<Element>, top: nat, x: Element)
    requires Shape(s, top)
    reads s
  {
    forall e | e in s && e != x :: Fine(s, top, e)
  }

  ghost predicate AllFine(s: set<Element>, top: nat)
    requires Shape(s, top)
    reads s
  {
    forall e | e in s :: Fine(s, top, e)
  }

  /** Whether some leaf at or below `e` is enabled: what an element's flag is meant to say. */
  ghost predicate ServiceBelow(s: set<Element>, top: nat, e: Element)
    requires Shape(s, top) && e in s
    reads s
    decreases e.level
  {
    if e.children == [] then e.enable
    else exists i :: 0 <= i < |e.children| && e.children[i].level < e.level && ServiceBelow(s, top, e.children[i])
  }

  lemma {:induction false} FlagsTellServices(s: set<Element>, top: nat, e: Element)
    requires Forest(s, top) && AllFine(s, top) && e in s
    ensures e.enable <==> ServiceBelow(s, top, e)
    decreases e.level
  {
    forall i | 0 <= i < |e.children|
      ensures e.children[i].level < e.level && (e.children[i].enable <==> ServiceBelow(s, top, e.children[i]))
    {
      FlagsTellServices(s, top, e.children[i]);
    }
    assert Fine(s, top, e);
  }

  /** Building the tree, and a service going up or down. */
  datatype Event = Add(parent: Element, child: Element) | Switch(service: Element, up: bool)

  predicate Concerns(e: Event, s: set<Element>) {
    match e
    case Add(p, c) => p in s && c in s
    case Switch(x, _) => x in s
  }

  /** What the last switch of `e` says; it was built disabled. */
  ghost function LastWord(events: seq<Event>, e: Element): bool {
    if events == [] then false
    else
      var last := events[|events| - 1];
      if last.Switch? && last.service == e then last.up else LastWord(events[..|events| - 1], e)
  }

  /** Elements as their constructor leaves them. */
  ghost predicate JustBuilt(s: set<Element>, top: nat)
    reads s
  {
    forall e | e in s :: !e.enable && e.parent == null && e.children == [] && e.level <= top
  }

  /** A consistent tree whose childless inner elements are disabled. */
  ghost predicate Sound(s: set<Element>, top: nat)
    reads s
  {
    && Forest(s, top) && AllFine(s, top)
    && forall e | e in s && e.level > 0 && e.children == [] :: !e.enable
  }

  lemma NoChildren(e: Element)
    requires e.children == []
    ensures !HasEnabled(e.children)
  {
  }

  // ---- what a run of events makes of the tree, without looking at any object ----

  /** The children of `e`: the elements added below it, in order. */
  ghost function Kids(events: seq<Event>, e: Element): seq<Element>
    decreases |events|, 0, 0
  {
    if events == [] then []
    else
      var past, last := events[..|events| - 1], events[|events| - 1];
      Kids(past, e) + if last.Add? && last.parent == e && Added(past, last) then [last.child] else []
  }

  /** Whether `e` has been added below some element. */
  ghost predicate Adopted(events: seq<Event>, e: Element)
    decreases |events|, 0, 0
  {
    events != []
    && var past, last := events[..|events| - 1], events[|events| - 1];
       Adopted(past, e) || (last.Add? && last.child == e && Added(past, last))
  }

  /** Whether `e` is up: a service by its last switch, anything else by an element below it. */
  ghost predicate IsUp(events: seq<Event>, e: Element)
    decreases |events|, 1, e.level
  {
    var kids := Kids(events, e);
    if kids == [] then e.level == 0 && LastWord(events, e)
    else exists i :: 0 <= i < |kids| && kids[i].level < e.level && IsUp(events, kids[i])
  }

  /** An addition takes place unless the child has a parent, or is up while the parent is down. */
  ghost predicate Added(past: seq<Event>, add: Event)
    requires add.Add?
    decreases |past|, 2, 0
  {
    !Adopted(past, add.child) && (IsUp(past, add.child) ==> IsUp(past, add.parent))
  }

  /** The objects are what the events say. */
  ghost predicate Agrees(events: seq<Event>, s: set<Element>)
    reads s
  {
    && (forall e | e in s :: e.children == Kids(events, e))
    && (forall e | e in s :: e.parent != null <==> Adopted(events, e))
    && (forall e | e in s && e.level == 0 :: e.enable == LastWord(events, e))
  }

  lemma {:induction false} FlagsTellEvents(events: seq<Event>, s: set<Element>, top: nat, e: Element)
    requires Sound(s, top) && Agrees(events, s) && e in s
    ensures e.enable == IsUp(events, e)
    decreases e.level
  {
    forall i | 0 <= i < |e.children|
      ensures e.children[i].level < e.level && e.children[i].enable == IsUp(events, e.children[i])
    {
      FlagsTellEvents(events, s, top, e.children[i]);
    }
    assert Fine(s, top, e);
  }

  /**
   Any run from the construction on: elements are added below others and services go up and down, in any order; an
   addition that would break the tree is left out. At the end every object is what the events alone determine: its
   children are those added below it, in order; a service has the state of its last event, and every inner element,
   at every depth, is enabled iff a service below it is.
   */
  method RunEvents(events: seq<Event>, ghost s: set<Element>, ghost top: nat)
    requires JustBuilt(s, top) && forall i | 0 <= i < |events| :: Concerns(events[i], s)
    requires forall i | 0 <= i < |events| ::
               if events[i].Add? then events[i].child.level < events[i].parent.level else events[i].service.level == 0
    modifies s
    ensures Forest(s, top) && AllFine(s, top)
    ensures forall e | e in s :: e.children == Kids(events, e) && (e.parent != null <==> Adopted(events, e))
    ensures forall e | e in s :: e.enable == IsUp(events, e)
    ensures forall e | e in s && e.level == 0 :: e.enable == LastWord(events, e)
    ensures forall e | e in s && e.level > 0 && e.children == [] :: !e.enable
    ensures forall e | e in s :: e.enable <==> ServiceBelow(s, top, e)
  {
    hide Shape, Owned, ServiceBelow, Fine, FineBut, AllFine, HasEnabled, Agrees;
    StartSound(s, top);
    var i := 0;
    while i < |events|
      invariant 0 <= i <= |events| && Sound(s, top) && Agrees(events[..i], s)
    {
      Happen(events, i, s, top);
      i := i + 1;
    }
    assert events[..i] == events;
    forall e | e in s ensures (e.enable <==> ServiceBelow(s, top, e)) && e.enable == IsUp(events, e) {
      FlagsTellServices(s, top, e);
      FlagsTellEvents(events, s, top, e);
    }
    AgreesMeans(events, s);
  }

  lemma AgreesMeans(events: seq<Event>, s: set<Element>)
    requires Agrees(events, s)
    ensures forall e | e in s :: e.children == Kids(events, e) && (e.parent != null <==> Adopted(events, e))
    ensures forall e | e in s && e.level == 0 :: e.enable == LastWord(events, e)
  {
  }

  method Happen(events: seq<Event>, i: nat, ghost s: set<Element>, ghost top: nat)
    requires Sound(s, top) && i < |events| && Concerns(events[i], s) && Agrees(events[..i], s)
    requires if events[i].Add? then events[i].child.level < events[i].parent.level else events[i].service.level == 0
    modifies s
    ensures Sound(s, top) && Agrees(events[..i + 1], s)
  {
    hide Shape, Owned, Fine, HasEnabled, Kids, Adopted, IsUp, LastWord, Added;
    ghost var past := events[..i];
    EventsMore(events, i);
    match events[i]
    case Add(p, c) =>
      FlagsTellEvents(past, s, top, p);
      FlagsTellEvents(past, s, top, c);
      AddedIs(past, events[i]);
      ServicesAreLeaves(s, top);
      if c.parent == null && (c.enable ==> p.enable) {
        p.AddChild(c, s, top);
      }
    case Switch(service, up) =>
      AllBut(s, top, service);
      NoServiceChildren(s, top, service);
      NoChildren(service);
      if up {
        service.Enable(s, top);
      } else {
        service.Disable(s, top);
      }
  }

  /** What one more event does to the tree that the events determine. */
  lemma EventsMore(events: seq<Event>, i: nat)
    requires i < |events|
    ensures var past, more, last := events[..i], events[..i + 1], events[i];
            && (forall e :: Kids(more, e)
                  == Kids(past, e) + if last.Add? && last.parent == e && Added(past, last) then [last.child] else [])
            && (forall e :: Adopted(more, e)
                  <==> Adopted(past, e) || (last.Add? && last.child == e && Added(past, last)))
            && (forall e :: LastWord(more, e)
                  == if last.Switch? && last.service == e then last.up else LastWord(past, e))
  {
    assert events[..i + 1][..i] == events[..i];
  }

  lemma AddedIs(past: seq<Event>, add: Event)
    requires add.Add?
    ensures Added(past, add) <==> !Adopted(past, add.child) && (IsUp(past, add.child) ==> IsUp(past, add.parent))
  {
  }

  lemma AllBut(s: set<Element>, top: nat, e: Element)
    requires Shape(s, top) && AllFine(s, top)
    ensures FineBut(s, top, e)
  {
  }

  lemma NoServiceChildren(s: set<Element>, top: nat, e: Element)
    requires Shape(s, top) && e in s
    ensures e.children != [] ==> e.level > 0
  {
    if e.children != [] {
      assert e.children[0].level < e.level;
    }
  }

  lemma ServicesAreLeaves(s: set<Element>, top: nat)
    requires Shape(s, top)
    ensures forall e | e in s && e.level == 0 :: e.children == []
  {
    forall e | e in s && e.level == 0 ensures e.children == [] {
      NoServiceChildren(s, top, e);
    }
  }

  lemma StartSound(s: set<Element>, top: nat)
    requires JustBuilt(s, top)
    ensures Sound(s, top) && Agrees([], s)
  {
  }

  /** An enabled child under a disabled element, or a disabled first child under an enabled one. */
  method AdditionThatBreaks(up: bool) returns (p: Element, c: Element)
    ensures p.children == [c] && c.parent == p && c.enable == up && p.enable == !up
    ensures Shape({p, c}, 1) && Owned({p, c}, 1) && !AllFine({p, c}, 1)
  {
    hide *;
    p := new Element(1);
    c := new Element(0);
    ghost var s := {p, c};
    PairBuilt(p, c, s);
    if up {
      c.Enable(s, 1);
    } else {
      p.Enable(s, 1);
    }
    p.AddChild(c, s, 1);
  }

  lemma PairBuilt(p: Element, c: Element, s: set<Element>)
    requires JustBuilt(s, 1) && s == {p, c}
    ensures Shape(s, 1) && Owned(s, 1) && AllFine(s, 1) && FineBut(s, 1, p) && FineBut(s, 1, c)
  {
  }
}
