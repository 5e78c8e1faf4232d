/**
 * What the `Tabs` container computes, as values: its tab items, the initial
 * internal selection, the enabled ids, and where a key press moves the
 * selection (`handleKeyDown`). The two do-while loops of the arrow keys are
 * the methods `StepBackward` and `StepForward`, proved against `ArrowIndex`.
 */
module TabsNavigation {
  import opened Wrappers
  import Badge

  /** A tab of the list, as the caller supplies it. */
  datatype TabItem = TabItem(
    id: string,
    labelText: string,
    badgeLabel: Option<string>,
    badgeVariant: Option<Badge.BadgeVariant>,
    isDisabled: Option<bool>)
  {
    /** `!tab.isDisabled`: an absent flag counts as enabled. */
    predicate IsEnabled() { !isDisabled.GetOr(false) }
  }

  /** Where a handled key sends the selection; `None` is `undefined`. */
  datatype KeyOutcome = Ignored | Handled(target: Option<string>)

  /** No id occurs twice. */
  predicate UniqueIds(ids: seq<string>) {
    ids == [] || (ids[0] !in ids[1..] && UniqueIds(ids[1..]))
  }

  /** Distinct positions of a list without repeats hold distinct ids. */
  lemma {:induction false} UniqueIdsAt(ids: seq<string>, i: nat, j: nat)
    requires UniqueIds(ids) && i < j < |ids|
    ensures ids[i] != ids[j]
  {
    if i == 0 {
      assert ids[j] == ids[1..][j - 1];
    } else {
      UniqueIdsAt(ids[1..], i - 1, j - 1);
    }
  }

  /** Either order of two distinct positions. */
  lemma DistinctAt(ids: seq<string>, i: nat, j: nat)
    requires UniqueIds(ids) && i < |ids| && j < |ids| && i != j
    ensures ids[i] != ids[j]
  {
    if i < j { UniqueIdsAt(ids, i, j); } else { UniqueIdsAt(ids, j, i); }
  }

  /**
   * `defaultSelectedId || tabs[0]?.id || ""`: a non-empty default wins;
   * otherwise the first tab's id, or "" for an empty list. An empty default
   * is falsy and so falls through like an absent one.
   */
  function InitialSelection(defaultSelectedId: Option<string>, tabs: seq<TabItem>): (r: string)
    ensures defaultSelectedId.Some? && defaultSelectedId.value != "" ==> r == defaultSelectedId.value
    ensures defaultSelectedId.GetOr("") == "" && tabs != [] ==> r == tabs[0].id
    ensures defaultSelectedId.GetOr("") == "" && tabs == [] ==> r == ""
  {
    if defaultSelectedId.Some? && defaultSelectedId.value != "" then defaultSelectedId.value
    else if tabs != [] && tabs[0].id != "" then tabs[0].id
    else ""
  }

  /**
   * `tabs.filter((tab) => !tab.isDisabled).map((tab) => tab.id)`: the ids of
   * the enabled tabs, in order, and nothing else.
   */
  function EnabledIds(tabs: seq<TabItem>): (ids: seq<string>)
    ensures |ids| <= |tabs|
    ensures forall id :: id in ids <==> exists i :: 0 <= i < |tabs| && tabs[i].IsEnabled() && tabs[i].id == id
  {
    if tabs == [] then []
    else
      var rest := EnabledIds(tabs[1..]);
      assert forall i :: 0 < i < |tabs| ==> tabs[i] == tabs[1..][i - 1];
      if tabs[0].IsEnabled() then [tabs[0].id] + rest else rest
  }

  /** The filter keeps order: the enabled ids of a concatenation are those of each part, in turn. */
  lemma {:induction false} EnabledIdsAppend(a: seq<TabItem>, b: seq<TabItem>)
    ensures EnabledIds(a + b) == EnabledIds(a) + EnabledIds(b)
  {
    if a == [] {
      assert a + b == b;
    } else {
      assert (a + b)[1..] == a[1..] + b;
      EnabledIdsAppend(a[1..], b);
    }
  }

  /** One tab contributes its id exactly when it is enabled. */
  lemma EnabledIdsSingle(t: TabItem)
    ensures EnabledIds([t]) == if t.IsEnabled() then [t.id] else []
  {
    assert [t][1..] == [];
  }

  /** Only disabled tabs: no enabled id. */
  lemma {:induction false} EnabledIdsNone(tabs: seq<TabItem>)
    requires forall j :: 0 <= j < |tabs| ==> !tabs[j].IsEnabled()
    ensures EnabledIds(tabs) == []
  {
    if tabs != [] {
      assert forall j :: 0 <= j < |tabs[1..]| ==> tabs[1..][j] == tabs[j + 1];
      EnabledIdsNone(tabs[1..]);
    }
  }

  /**
   * `ids.indexOf(x)`: the first position holding `x` (strict equality, so
   * `undefined` is never found), or -1.
   */
  function IndexOf(ids: seq<string>, x: Option<string>): (k: int)
    ensures -1 <= k < |ids|
    ensures k >= 0 ==> Some(ids[k]) == x && forall j :: 0 <= j < k ==> Some(ids[j]) != x
    ensures k == -1 ==> forall j :: 0 <= j < |ids| ==> Some(ids[j]) != x
  {
    if ids == [] then -1
    else if Some(ids[0]) == x then 0
    else
      var k := IndexOf(ids[1..], x);
      if k < 0 then -1 else k + 1
  }

  /** With distinct ids, the index of an id is its position. */
  lemma IndexOfUnique(ids: seq<string>, k: nat)
    requires UniqueIds(ids) && k < |ids|
    ensures IndexOf(ids, Some(ids[k])) == k
  {
    var r := IndexOf(ids, Some(ids[k]));
    if r < k {
      UniqueIdsAt(ids, r, k);
    }
  }

  /** The position `d` steps from `k` on a ring of `n` positions. */
  function Pos(n: nat, k: nat, d: nat, forward: bool): (r: nat)
    requires k < n && d <= n
    ensures r < n
  {
    if forward then (if k + d < n then k + d else k + d - n)
    else (if d <= k then k - d else k - d + n)
  }

  /**
   * JavaScript's `%` on the non-negative operands the loops use agrees with
   * Dafny's; a value below `2n` wraps at most once.
   */
  lemma ModWrap(a: int, n: int)
    requires 0 < n && 0 <= a < 2 * n
    ensures a % n == if a < n then a else a - n
  {
    if a >= n {
      assert a - n == a % n by {
        assert a == n * 1 + (a - n);
      }
    }
  }

  /** d + 1 steps are d steps and then one more. */
  lemma PosSucc(n: nat, k: nat, d: nat, forward: bool)
    requires k < n && d < n
    ensures Pos(n, k, d + 1, forward) == Pos(n, Pos(n, k, d, forward), 1, forward)
  {
  }

  /** One step of either loop moves one position round the ring. */
  lemma PosStep(n: nat, k: nat, d: nat, forward: bool)
    requires k < n && d < n
    ensures forward ==> Pos(n, k, d + 1, true) == (Pos(n, k, d, true) + 1) % n
    ensures !forward ==> Pos(n, k, d + 1, false) == (Pos(n, k, d, false) - 1 + n) % n
  {
    ModWrap(Pos(n, k, d, forward) + 1, n);
    ModWrap(Pos(n, k, d, forward) - 1 + n, n);
  }

  /**
   * The number of steps from `k` (at least `d`) to the first position
   * whose id differs from `x`, or `n` when every position holds `x`: the
   * do-while condition `i !== currentIndex && ids[i] === current`.
   */
  function FirstMismatch(ids: seq<string>, x: Option<string>, k: nat, forward: bool, d: nat): (r: nat)
    requires k < |ids| && 1 <= d <= |ids|
    ensures d <= r <= |ids|
    ensures r == |ids| || Some(ids[Pos(|ids|, k, r, forward)]) != x
    ensures forall e :: d <= e < r ==> Some(ids[Pos(|ids|, k, e, forward)]) == x
    decreases |ids| - d
  {
    if d == |ids| then d
    else if Some(ids[Pos(|ids|, k, d, forward)]) != x then d
    else FirstMismatch(ids, x, k, forward, d + 1)
  }

  /**
   * The index an arrow key selects among `n > 1` enabled ids: from the
   * current index, the first position round the ring that holds a different
   * id (the current index itself if there is none). When the current id is
   * not enabled the loop starts from -1, which gives index 0 forward and
   * index n - 2 (not n - 1) backward.
   */
  function ArrowIndex(ids: seq<string>, current: Option<string>, forward: bool): (r: int)
    requires |ids| > 1
    ensures 0 <= r < |ids|
  {
    var n := |ids|;
    var k := IndexOf(ids, current);
    if k < 0 then (if forward then 0 else n - 2)
    else Pos(n, k, FirstMismatch(ids, current, k, forward, 1), forward)
  }

  predicate IsBackwardKey(key: string) { key == "ArrowLeft" || key == "ArrowUp" }
  predicate IsForwardKey(key: string) { key == "ArrowRight" || key == "ArrowDown" }
  predicate IsArrowKey(key: string) { IsBackwardKey(key) || IsForwardKey(key) }
  predicate IsNavigationKey(key: string) { IsArrowKey(key) || key == "Home" || key == "End" }

  /** The six key names fall into exactly one case each of the key switch. */
  lemma KeyCases(key: string)
    ensures IsForwardKey(key) ==> !IsBackwardKey(key)
    ensures key == "Home" ==> !IsArrowKey(key) && key != "End"
    ensures key == "End" ==> !IsArrowKey(key)
  {
    if key == "ArrowDown" {
      assert key[5] != "ArrowLeft"[5];
    }
  }

  /** `nextIndex` of `handleKeyDown` for a handled key. */
  function NavIndex(ids: seq<string>, current: Option<string>, key: string): (r: int)
    requires ids != [] && IsNavigationKey(key)
    ensures -1 <= r < |ids|
    ensures r == -1 <==> IsArrowKey(key) && |ids| == 1 && IndexOf(ids, current) == -1
  {
    var k := IndexOf(ids, current);
    if IsBackwardKey(key) then (if |ids| > 1 then ArrowIndex(ids, current, false) else k)
    else if IsForwardKey(key) then (if |ids| > 1 then ArrowIndex(ids, current, true) else k)
    else if key == "Home" then 0
    else |ids| - 1
  }

  /**
   * `handleKeyDown` over the enabled ids: with no enabled id, or a key other
   * than the six navigation keys, the event is left alone; otherwise the key
   * is handled and yields the id at `nextIndex` (undefined at index -1).
   */
  function KeyDownOn(ids: seq<string>, current: Option<string>, key: string): (out: KeyOutcome)
    ensures out.Ignored? <==> ids == [] || !IsNavigationKey(key)
  {
    if ids == [] || !IsNavigationKey(key) then Ignored
    else
      var i := NavIndex(ids, current, key);
      Handled(if i < 0 then None else Some(ids[i]))
  }

  /**
   * `handleKeyDown` as a value: it depends on the tabs only through their
   * enabled ids. Home targets the first enabled id and End the last.
   */
  function KeyDown(tabs: seq<TabItem>, current: Option<string>, key: string): (out: KeyOutcome)
    ensures out.Ignored? <==> EnabledIds(tabs) == [] || !IsNavigationKey(key)
    ensures EnabledIds(tabs) != [] && key == "Home" ==> out == Handled(Some(EnabledIds(tabs)[0]))
    ensures EnabledIds(tabs) != [] && key == "End" ==> out == Handled(Some(EnabledIds(tabs)[|EnabledIds(tabs)| - 1]))
  {
    KeyDownOn(EnabledIds(tabs), current, key)
  }

  /** The enabled ids around an enabled tab `i`: those before it, its id, those after it. */
  lemma EnabledIdsAround(tabs: seq<TabItem>, i: nat)
    requires i < |tabs| && tabs[i].IsEnabled()
    ensures EnabledIds(tabs) == EnabledIds(tabs[..i]) + [tabs[i].id] + EnabledIds(tabs[i + 1..])
  {
    assert tabs == tabs[..i] + [tabs[i]] + tabs[i + 1..];
    EnabledIdsAppend(tabs[..i] + [tabs[i]], tabs[i + 1..]);
    EnabledIdsAppend(tabs[..i], [tabs[i]]);
    EnabledIdsSingle(tabs[i]);
  }

  /** Home targets the id of the first enabled tab of the list. */
  lemma HomeTargetsFirstEnabled(tabs: seq<TabItem>, current: Option<string>, i: nat)
    requires i < |tabs| && tabs[i].IsEnabled()
    requires forall j :: 0 <= j < i ==> !tabs[j].IsEnabled()
    ensures KeyDown(tabs, current, "Home") == Handled(Some(tabs[i].id))
  {
    EnabledIdsAround(tabs, i);
    EnabledIdsNone(tabs[..i]);
  }

  /** End targets the id of the last enabled tab of the list. */
  lemma EndTargetsLastEnabled(tabs: seq<TabItem>, current: Option<string>, i: nat)
    requires i < |tabs| && tabs[i].IsEnabled()
    requires forall j :: i < j < |tabs| ==> !tabs[j].IsEnabled()
    ensures KeyDown(tabs, current, "End") == Handled(Some(tabs[i].id))
  {
    EnabledIdsAround(tabs, i);
    var after := tabs[i + 1..];
    assert forall j :: 0 <= j < |after| ==> after[j] == tabs[i + 1 + j];
    EnabledIdsNone(after);
  }

  /**
   * The selection after a key press when the component is uncontrolled: the
   * target of a handled key (stored when it differs, already current when
   * it does not), the current selection otherwise.
   */
  function AfterKey(ids: seq<string>, current: Option<string>, key: string): Option<string> {
    match KeyDownOn(ids, current, key)
    case Ignored => current
    case Handled(target) => target
  }

  /** `m` successive applications of `step`, starting from `c`. */
  function Iterate(step: Option<string> -> Option<string>, c: Option<string>, m: nat): Option<string> {
    if m == 0 then c else step(Iterate(step, c, m - 1))
  }

  /** The selection after `m` presses of `key` in uncontrolled mode. */
  function Presses(ids: seq<string>, current: Option<string>, key: string, m: nat): Option<string> {
    Iterate(x => AfterKey(ids, x, key), current, m)
  }

  /**
   * The backward do-while loop (`ArrowLeft`, `ArrowUp`): step back round the
   * ring from the current index until reaching an id other than the current
   * one, or the current index again.
   */
  method StepBackward(ids: seq<string>, current: Option<string>, currentIndex: int) returns (nextIndex: int)
    requires |ids| > 1 && currentIndex == IndexOf(ids, current)
    ensures nextIndex == ArrowIndex(ids, current, false)
  {
    var n := |ids|;
    var i := currentIndex;
    // The do-while body runs once before its condition is first evaluated.
    ModWrap(i - 1 + n, n);
    i := (i - 1 + n) % n;
    ghost var steps := 1;
    if currentIndex >= 0 {
      PosStep(n, currentIndex, 0, false);
    }
    while i != currentIndex && Some(ids[i]) == current
      invariant 0 <= i < n && 1 <= steps <= n
      invariant currentIndex < 0 ==> i == n - 2
      invariant currentIndex >= 0 ==> i == Pos(n, currentIndex, steps, false)
      invariant currentIndex >= 0 ==>
        FirstMismatch(ids, current, currentIndex, false, steps) == FirstMismatch(ids, current, currentIndex, false, 1)
      decreases n - steps
    {
      PosStep(n, currentIndex, steps, false);
      i := (i - 1 + n) % n;
      steps := steps + 1;
    }
    nextIndex := i;
  }

  /**
   * The forward do-while loop (`ArrowRight`, `ArrowDown`): step forward round
   * the ring from the current index until reaching an id other than the
   * current one, or the current index again.
   */
  method StepForward(ids: seq<string>, current: Option<string>, currentIndex: int) returns (nextIndex: int)
    requires |ids| > 1 && currentIndex == IndexOf(ids, current)
    ensures nextIndex == ArrowIndex(ids, current, true)
  {
    var n := |ids|;
    var i := currentIndex;
    // The do-while body runs once before its condition is first evaluated.
    ModWrap(i + 1, n);
    i := (i + 1) % n;
    ghost var steps := 1;
    if currentIndex >= 0 {
      PosStep(n, currentIndex, 0, true);
    }
    while i != currentIndex && Some(ids[i]) == current
      invariant 0 <= i < n && 1 <= steps <= n
      invariant currentIndex < 0 ==> i == 0
      invariant currentIndex >= 0 ==> i == Pos(n, currentIndex, steps, true)
      invariant currentIndex >= 0 ==>
        FirstMismatch(ids, current, currentIndex, true, steps) == FirstMismatch(ids, current, currentIndex, true, 1)
      decreases n - steps
    {
      PosStep(n, currentIndex, steps, true);
      i := (i + 1) % n;
      steps := steps + 1;
    }
    nextIndex := i;
  }

  /** The ids of all tabs, enabled or not. */
  function AllIds(tabs: seq<TabItem>): seq<string> {
    seq(|tabs|, i requires 0 <= i < |tabs| => tabs[i].id)
  }

  /** With distinct ids, an arrow moves exactly one place from the current index. */
  lemma ArrowIndexUnique(ids: seq<string>, k: nat, forward: bool)
    requires UniqueIds(ids) && 2 <= |ids| && k < |ids|
    ensures ArrowIndex(ids, Some(ids[k]), forward) == Pos(|ids|, k, 1, forward)
  {
    IndexOfUnique(ids, k);
    DistinctAt(ids, Pos(|ids|, k, 1, forward), k);
  }

  /**
   * With distinct enabled ids, the arrows move one place round the ring of
   * enabled tabs: forward (`ArrowRight`, `ArrowDown`) to index (k + 1) mod n,
   * backward (`ArrowLeft`, `ArrowUp`) to (k - 1 + n) mod n.
   */
  lemma ArrowWithUniqueIds(tabs: seq<TabItem>, k: nat, key: string)
    requires UniqueIds(EnabledIds(tabs)) && 2 <= |EnabledIds(tabs)| && k < |EnabledIds(tabs)|
    requires IsArrowKey(key)
    ensures var ids := EnabledIds(tabs); var n := |ids|;
      KeyDown(tabs, Some(ids[k]), key)
      == Handled(Some(ids[if IsForwardKey(key) then (k + 1) % n else (k - 1 + n) % n]))
  {
    var ids := EnabledIds(tabs);
    var n := |ids|;
    var forward := IsForwardKey(key);
    KeyCases(key);
    ArrowIndexUnique(ids, k, forward);
    PosStep(n, k, 0, forward);
    assert NavIndex(ids, Some(ids[k]), key) == if forward then (k + 1) % n else (k - 1 + n) % n;
  }

  /**
   * When the current selection is not an enabled id, "next" goes to the
   * first enabled id and "previous" to the second-to-last; with a single
   * enabled id both arrows target `undefined`.
   */
  lemma ArrowFromNotFound(tabs: seq<TabItem>, current: Option<string>, key: string)
    requires EnabledIds(tabs) != [] && IndexOf(EnabledIds(tabs), current) == -1 && IsArrowKey(key)
    ensures var ids := EnabledIds(tabs); var n := |ids|;
      && (n >= 2 && IsForwardKey(key) ==> KeyDown(tabs, current, key) == Handled(Some(ids[0])))
      && (n >= 2 && IsBackwardKey(key) ==> KeyDown(tabs, current, key) == Handled(Some(ids[n - 2])))
      && (n == 1 ==> KeyDown(tabs, current, key) == Handled(None))
  {
  }

  /**
   * Every id a key targets belongs to an enabled tab, and the target is
   * `undefined` exactly for an arrow key with one enabled tab that is not the
   * current one. When all tab ids are distinct, the targeted tab is enabled.
   */
  lemma TargetIsEnabled(tabs: seq<TabItem>, current: Option<string>, key: string)
    ensures KeyDown(tabs, current, key).Handled? && KeyDown(tabs, current, key).target.Some? ==>
      var id := KeyDown(tabs, current, key).target.value;
      && (exists i :: 0 <= i < |tabs| && tabs[i].IsEnabled() && tabs[i].id == id)
      && (UniqueIds(AllIds(tabs)) ==> forall i :: 0 <= i < |tabs| && tabs[i].id == id ==> tabs[i].IsEnabled())
    ensures KeyDown(tabs, current, key) == Handled(None) <==>
      IsArrowKey(key) && |EnabledIds(tabs)| == 1 && IndexOf(EnabledIds(tabs), current) == -1
  {
    var out := KeyDown(tabs, current, key);
    if out.Handled? && out.target.Some? {
      var id := out.target.value;
      assert id in EnabledIds(tabs);
      var j :| 0 <= j < |tabs| && tabs[j].IsEnabled() && tabs[j].id == id;
      if UniqueIds(AllIds(tabs)) {
        forall i | 0 <= i < |tabs| && tabs[i].id == id
          ensures tabs[i].IsEnabled()
        {
          if i != j {
            DistinctAt(AllIds(tabs), i, j);
          }
        }
      }
    }
  }

  /** One arrow press in uncontrolled mode, distinct enabled ids: one place round the ring. */
  lemma ArrowStep(ids: seq<string>, j: nat, key: string)
    requires UniqueIds(ids) && 2 <= |ids| && j < |ids| && IsArrowKey(key)
    ensures AfterKey(ids, Some(ids[j]), key) == Some(ids[Pos(|ids|, j, 1, IsForwardKey(key))])
  {
    KeyCases(key);
    ArrowIndexUnique(ids, j, IsForwardKey(key));
  }

  /**
   * A step that moves every id of the ring one place moves the id at `k`
   * `m` places in `m` steps.
   */
  lemma {:induction false} IterateRound(
    step: Option<string> -> Option<string>, ids: seq<string>, k: nat, forward: bool, m: nat)
    requires 2 <= |ids| && k < |ids| && m <= |ids|
    requires forall j :: 0 <= j < |ids| ==> step(Some(ids[j])) == Some(ids[Pos(|ids|, j, 1, forward)])
    ensures Iterate(step, Some(ids[k]), m) == Some(ids[Pos(|ids|, k, m, forward)])
  {
    if m > 0 {
      IterateRound(step, ids, k, forward, m - 1);
      PosSucc(|ids|, k, m - 1, forward);
    }
  }

  /**
   * With distinct enabled ids and an enabled current tab, `m` presses of an
   * arrow key in uncontrolled mode move `m` places round the ring.
   */
  lemma PressesGoRound(ids: seq<string>, k: nat, key: string, m: nat)
    requires UniqueIds(ids) && 2 <= |ids| && k < |ids| && IsArrowKey(key) && m <= |ids|
    ensures Presses(ids, Some(ids[k]), key, m) == Some(ids[Pos(|ids|, k, m, IsForwardKey(key))])
  {
    var step := x => AfterKey(ids, x, key);
    forall j | 0 <= j < |ids|
      ensures step(Some(ids[j])) == Some(ids[Pos(|ids|, j, 1, IsForwardKey(key))])
    {
      ArrowStep(ids, j, key);
    }
    IterateRound(step, ids, k, IsForwardKey(key), m);
  }

  /**
   * n presses of one arrow key, n the number of enabled tabs, return to the
   * starting tab when the enabled ids are distinct and the start is enabled.
   */
  lemma FullCircle(tabs: seq<TabItem>, k: nat, key: string)
    requires UniqueIds(EnabledIds(tabs)) && 2 <= |EnabledIds(tabs)| && k < |EnabledIds(tabs)|
    requires IsArrowKey(key)
    ensures var ids := EnabledIds(tabs); Presses(ids, Some(ids[k]), key, |ids|) == Some(ids[k])
  {
    PressesGoRound(EnabledIds(tabs), k, key, |EnabledIds(tabs)|);
  }

  /**
   * A second Home (or End) targets the id the first one selected: the
   * selection stays put, but the key is handled again and so notifies again.
   */
  lemma RepeatedHomeOrEnd(tabs: seq<TabItem>, current: Option<string>, key: string)
    requires EnabledIds(tabs) != [] && (key == "Home" || key == "End")
    ensures var first := KeyDown(tabs, current, key);
      && first.Handled? && first.target.Some?
      && KeyDown(tabs, first.target, key) == first
      && var ids := EnabledIds(tabs);
         AfterKey(ids, AfterKey(ids, current, key), key) == AfterKey(ids, current, key)
  {
  }

  /** Tabs A, B (disabled), C with A selected: both arrows skip B and land on C. */
  lemma SkipsDisabledTab()
    ensures var tabs := [
        TabItem("A", "A", None, None, None),
        TabItem("B", "B", None, None, Some(true)),
        TabItem("C", "C", None, None, None)];
      && KeyDown(tabs, Some("A"), "ArrowRight") == Handled(Some("C"))
      && KeyDown(tabs, Some("A"), "ArrowLeft") == Handled(Some("C"))
  {
    var tabs := [
        TabItem("A", "A", None, None, None),
        TabItem("B", "B", None, None, Some(true)),
        TabItem("C", "C", None, None, None)];
    assert tabs[1..][1..][1..] == [];
    assert EnabledIds(tabs) == ["A", "C"];
    assert "A" != "C";
    ArrowWithUniqueIds(tabs, 0, "ArrowRight");
    ArrowWithUniqueIds(tabs, 0, "ArrowLeft");
  }
}
