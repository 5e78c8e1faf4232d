# Tabs, Tab and Badge: a verified model

This project models the logic of three React components of a small UI
library.

- `Tabs` is a tab list. It either owns the selected id (uncontrolled) or
  reports changes to a caller who owns it (controlled). It selects a tab
  on click, and it moves the selection with the arrow keys and with
  Home/End.
- `Tab` is one tab. It has a click guard, a class list and ARIA flags, and
  it shows an optional badge.
- `Badge` is a label whose class string is trimmed.

The modules are:

- `Wrappers` holds `Option`. `None` stands for JavaScript's `undefined`.
- `ClassList` models the `[...].filter(Boolean).join(" ")` idiom that `Tab`
  and `Tabs` use (src/components/Tab/Tab.tsx:72-80,
  src/components/Tabs/Tabs.tsx:81-87). It also models how a browser splits the resulting
  attribute back into class tokens (`Words`).
- `Badge` models the class string `` `badge badge--${variant} ${className}`.trim() ``.
  `trim()` is modelled with ECMAScript's whitespace set.
- `Tab` models `handleClick`, `tabClasses` and the rendered attributes, as
  functions.
- `TabsNavigation` models the value-level parts of `Tabs`: the initial
  selection, the enabled ids, `indexOf`, and the target of a key press.
  The two `do … while` loops of the arrow keys are the methods
  `StepBackward` and `StepForward`. Each keeps its loop and its `%`
  arithmetic and is proved equal to `ArrowIndex`, a recursive
  specification. Both loops end within n iterations: their invariants
  bound the step count by n, and `n - steps` is their termination measure.
- `Tabs` models the container as a class, `TabsInstance`. Its fields are
  the current props and `internalSelectedId`. Two ghost logs record every
  call to `onTabChange` and every id that a deferred `focus()` was
  scheduled for. `HandleTabSelect`, `ClickTab` and `HandleKeyDown` change
  that state as the handlers do. Each states its whole new state in terms
  of the value-level functions.

The model keeps these behaviours of the code as they are:

- A handled key reports its target even when it is already the current
  id. The click path does not.
- From a current id that is not enabled, "next" goes to enabled index 0
  and "previous" to index n − 2, not n − 1.
- With exactly one enabled tab that is not current, both arrows target
  `undefined`. That value is reported, and it is stored when the component
  is uncontrolled.
- An empty `defaultSelectedId` falls through `||` to the first tab's id.

Pressing Home (or End) twice notifies twice: the keyboard path calls
`onTabChange` without comparing the target with the current id
(src/components/Tabs/Tabs.tsx:151), unlike the click path
(src/components/Tabs/Tabs.tsx:90). `RepeatedHomeOrEnd` states that the
second press is handled with the same target, and `HandleKeyDown` then
appends that target to the notification log again.

## Model

| member | source | states |
|---|---|---|
| ClassList.Truthy | src/components/Tab/Tab.tsx:72-79 | `filter(Boolean)` keeps exactly the non-empty entries (`false` and `""` are dropped) and never adds any |
| ClassList.TruthyAppend | src/components/Tab/Tab.tsx:72-79 | filtering a concatenation is the concatenation of the filtered parts |
| ClassList.JoinSpace | src/components/Tab/Tab.tsx:80 | definition of `join(" ")`; `WordsOfJoin` and `JoinSingleSpaced` state what it produces |
| ClassList.Compose | src/components/Tab/Tab.tsx:72-80 | definition of `filter(Boolean).join(" ")`; `EmptyEntryAddsNothing`, `ComposeWords` and `ComposeSingleSpaced` state its properties |
| ClassList.EmptyEntryAddsNothing | src/components/Tab/Tab.tsx:77-80 | an empty trailing class name leaves the joined class attribute unchanged |
| ClassList.WordsOfJoin | src/components/Tab/Tab.tsx:79-80 | non-empty, whitespace-free tokens joined with single spaces read back as exactly those tokens |
| ClassList.JoinSingleSpaced | src/components/Tab/Tab.tsx:79-80 | joining non-empty single-spaced tokens gives no leading, trailing or doubled space |
| ClassList.ComposeWords | src/components/Tab/Tab.tsx:72-80 | when no entry contains whitespace, the class attribute reads back as exactly the non-empty entries, in order |
| ClassList.ComposeSingleSpaced | src/components/Tab/Tab.tsx:72-80 | the class attribute of single-spaced entries has no leading, trailing or doubled space |
| Badge.TrimStart | src/components/Badge/Badge.tsx:27 | the result is a suffix of the input, starts with a non-whitespace character (or is empty), and only whitespace was removed |
| Badge.TrimEnd | src/components/Badge/Badge.tsx:27 | the result is a prefix of the input, ends with a non-whitespace character (or is empty), and only whitespace was removed |
| Badge.TrimEndAppend | src/components/Badge/Badge.tsx:27 | trailing whitespace is removed from the left part of a concatenation only when the right part is all whitespace |
| Badge.TrimJoined | src/components/Badge/Badge.tsx:27 | trimming `head + " " + className` keeps the head, and keeps the space and `className` minus its trailing whitespace unless `className` is all whitespace |
| Badge.HeadIsTrimmed | src/components/Badge/Badge.tsx:26-27 | `badge badge--{variant}` neither starts nor ends with whitespace |
| Badge.Trim | src/components/Badge/Badge.tsx:27 | definition of `trim()` as `TrimEnd` after `TrimStart`; the contracts of those two and `TrimJoined` state what it removes |
| Badge.Classes | src/components/Badge/Badge.tsx:26-27 | the class string starts with `badge badge--{variant}`, with the variant defaulting to `neutral`; it is that head alone when `className` is all whitespace, and otherwise the head, one space and `className` without its trailing whitespace |
| Badge.ClassesWithExtraClass | src/components/Badge/Badge.tsx:27 | a class name that does not end in whitespace is appended after exactly one space |
| Badge.ClassesWithoutClassName | src/components/Badge/Badge.tsx:26-27 | with no class name or an empty one, the class string is exactly `badge badge--{variant}` with no trailing space |
| Tab.HandleClick | src/components/Tab/Tab.tsx:66-70 | `onClick` is called iff the tab is not disabled and a handler is present, and it is called with the tab's own id |
| Tab.ClassEntries | src/components/Tab/Tab.tsx:72-78 | definition of the array given to `filter(Boolean)`, with `false` written as `""`; `ClassTokens` states what survives the filter |
| Tab.Classes | src/components/Tab/Tab.tsx:72-80 | definition of `tabClasses`; `ClassTokens`, `TokenFlags`, `ClassesReadBack` and `ClassesSingleSpaced` state its properties |
| Tab.ClassTokens | src/components/Tab/Tab.tsx:72-80 | the filtered class list is `tab`, then `tab--{variant}`, then `tab--selected` iff selected, then `tab--disabled` iff disabled, then the extra class iff it is non-empty |
| Tab.TokenFlags | src/components/Tab/Tab.tsx:72-80 | the first two tokens are `tab` and `tab--{variant}` (variant defaulting to `pill`); `tab--selected` is present iff the tab is selected, and `tab--disabled` iff it is disabled, unless the extra class is that very name |
| Tab.ClassesReadBack | src/components/Tab/Tab.tsx:72-80 | read back as tokens, the class attribute is exactly the filtered list, so the facts of `TokenFlags` hold of the attribute itself |
| Tab.ClassesSingleSpaced | src/components/Tab/Tab.tsx:72-80 | the class attribute starts with `tab tab--{variant}` and has no leading, trailing or doubled space |
| Tab.Render | src/components/Tab/Tab.tsx:82-98 | the class attribute is `tabClasses`; role is `tab`; `aria-selected` is the selected flag; `aria-disabled` and `disabled` are the disabled flag; a badge is shown iff the badge label is non-empty, with its variant defaulting to `neutral` and the class `tab__badge` appended |
| TabsNavigation.InitialSelection | src/components/Tabs/Tabs.tsx:74-76 | the initial selection is a non-empty `defaultSelectedId`, else the first tab's id, else `""` |
| TabsNavigation.TabItem.IsEnabled | src/components/Tabs/Tabs.tsx:99 | definition of `!tab.isDisabled`, an absent flag counting as enabled; `EnabledIds` and `TabPropsFor` state how it is used |
| TabsNavigation.EnabledIds | src/components/Tabs/Tabs.tsx:99 | an id is among the enabled ids iff some enabled tab has it; there are no more of them than tabs |
| TabsNavigation.EnabledIdsAppend | src/components/Tabs/Tabs.tsx:99 | the filter keeps order: the enabled ids of a concatenation are those of the first part followed by those of the second |
| TabsNavigation.EnabledIdsSingle | src/components/Tabs/Tabs.tsx:99 | one tab contributes its id iff it is enabled, and nothing else |
| TabsNavigation.EnabledIdsNone | src/components/Tabs/Tabs.tsx:99 | a list of disabled tabs has no enabled id |
| TabsNavigation.EnabledIdsAround | src/components/Tabs/Tabs.tsx:99 | around an enabled tab, the enabled ids are those before it, its own id, then those after it |
| TabsNavigation.IndexOf | src/components/Tabs/Tabs.tsx:102 | the result is the first position holding the id, or -1 iff no position holds it; `undefined` is never found |
| TabsNavigation.IndexOfUnique | src/components/Tabs/Tabs.tsx:102 | with distinct ids, the index of the id at position k is k |
| TabsNavigation.PosStep | src/components/Tabs/Tabs.tsx:113-126 | one step round the ring is `(i + 1) % n` forward and `(i - 1 + n) % n` backward, as the loops compute it |
| TabsNavigation.FirstMismatch | src/components/Tabs/Tabs.tsx:111-128 | the loop condition stops at the first step whose position holds a different id, or after n steps; every earlier step held the current id |
| TabsNavigation.ArrowIndex | src/components/Tabs/Tabs.tsx:107-131 | with more than one enabled id, an arrow key always selects a valid index |
| TabsNavigation.KeyCases | src/components/Tabs/Tabs.tsx:106-146 | the six key names fall into exactly one case of the key switch |
| TabsNavigation.NavIndex | src/components/Tabs/Tabs.tsx:102-144 | `nextIndex` is a valid index or -1, and it is -1 iff the key is an arrow, there is one enabled id, and the current id is not enabled |
| TabsNavigation.KeyDownOn | src/components/Tabs/Tabs.tsx:98-149 | the key is ignored iff there is no enabled id or the key is not one of the six navigation keys |
| TabsNavigation.KeyDown | src/components/Tabs/Tabs.tsx:98-149 | the key is ignored iff there is no enabled tab or the key is not a navigation key; Home targets the first enabled id and End the last |
| TabsNavigation.AfterKey | src/components/Tabs/Tabs.tsx:149-154 | definition of the uncontrolled selection after a key: the handled target, or the old selection for an ignored key; `HandleKeyDown` ensures the stored state equals it, and `ArrowStep`, `PressesGoRound` and `RepeatedHomeOrEnd` state its properties |
| TabsNavigation.HomeTargetsFirstEnabled | src/components/Tabs/Tabs.tsx:133-138 | Home targets the id of the first enabled tab in list order |
| TabsNavigation.EndTargetsLastEnabled | src/components/Tabs/Tabs.tsx:139-144 | End targets the id of the last enabled tab in list order |
| TabsNavigation.StepBackward | src/components/Tabs/Tabs.tsx:110-116 | the backward do-while loop ends, and it ends at `ArrowIndex(ids, current, false)` |
| TabsNavigation.StepForward | src/components/Tabs/Tabs.tsx:123-129 | the forward do-while loop ends, and it ends at `ArrowIndex(ids, current, true)` |
| TabsNavigation.ArrowIndexUnique | src/components/Tabs/Tabs.tsx:107-131 | with distinct ids and the current id at index k, an arrow moves exactly one position round the ring |
| TabsNavigation.ArrowWithUniqueIds | src/components/Tabs/Tabs.tsx:106-131 | with distinct enabled ids, n ≥ 2 and the current id at enabled index k, next targets index (k + 1) mod n and previous targets (k − 1 + n) mod n |
| TabsNavigation.ArrowFromNotFound | src/components/Tabs/Tabs.tsx:110-128 | from a current id that is not enabled, next targets enabled index 0 and previous index n − 2; with one enabled id both target `undefined` |
| TabsNavigation.TargetIsEnabled | src/components/Tabs/Tabs.tsx:99-149 | every targeted id belongs to an enabled tab, and with distinct tab ids every tab with that id is enabled; the target is `undefined` iff the key is an arrow, one tab is enabled, and it is not current |
| TabsNavigation.ArrowStep | src/components/Tabs/Tabs.tsx:149-154 | in uncontrolled mode, one arrow press moves the selection one place round the ring of enabled ids |
| TabsNavigation.IterateRound | src/components/Tabs/Tabs.tsx:120-131 | a step that moves every enabled id one place round the ring moves a start id m places in m steps |
| TabsNavigation.PressesGoRound | src/components/Tabs/Tabs.tsx:120-154 | with distinct enabled ids, m presses of one arrow key in uncontrolled mode move the selection m places round the ring |
| TabsNavigation.FullCircle | src/components/Tabs/Tabs.tsx:120-154 | n successive presses of one arrow key, n the number of enabled tabs, return to the starting tab |
| TabsNavigation.RepeatedHomeOrEnd | src/components/Tabs/Tabs.tsx:133-152 | a second Home (or End) is handled again with the same target, and the selection does not move |
| TabsNavigation.SkipsDisabledTab | src/components/Tabs/Tabs.tsx:99-131 | with tabs A, B (disabled) and C and A selected, both ArrowRight and ArrowLeft target C |
| Tabs.ContainerClasses | src/components/Tabs/Tabs.tsx:81-87 | definition of `tabsClasses`; `ContainerClassesReadBack` states how it reads back |
| Tabs.ContainerClassesReadBack | src/components/Tabs/Tabs.tsx:81-87 | the container's class attribute reads back as `tabs` and `tabs--{variant}` (variant defaulting to `pill`), plus the extra class iff it is non-empty |
| Tabs.TabPropsFor | src/components/Tabs/Tabs.tsx:171-186 | each tab gets its own id, label, badge label and badge variant, the container's click handler and variant, and no extra class name; it is selected iff its id is the current selection and disabled iff the item is disabled |
| Tabs.AtMostOneSelected | src/components/Tabs/Tabs.tsx:179 | with distinct tab ids at most one tab is selected, and the tab whose id is current is selected |
| Tabs.TabsInstance.IsControlled | src/components/Tabs/Tabs.tsx:73 | definition: controlled iff `selectedId` is present, whatever its value; `HandleTabSelect` and `HandleKeyDown` ensure a controlled component never writes its internal state |
| Tabs.TabsInstance.CurrentSelectedId | src/components/Tabs/Tabs.tsx:78 | definition: `selectedId` when controlled, the internal selection otherwise; the handlers' contracts are stated over it |
| Tabs.TabsInstance.constructor | src/components/Tabs/Tabs.tsx:73-78 | the internal selection starts at the initial selection, and nothing has been notified or focused |
| Tabs.TabsInstance.Rerender | src/components/Tabs/Tabs.tsx:74-76 | new props replace the old ones, but the internal selection is kept: the initial value is read only on the first render |
| Tabs.TabsInstance.RenderedTabs | src/components/Tabs/Tabs.tsx:171-186 | one `Tab` per item, in order, each with the props of `TabPropsFor` for the current selection |
| Tabs.TabsInstance.HandleTabSelect | src/components/Tabs/Tabs.tsx:89-96 | selecting the current id changes nothing and notifies nothing; any other id is notified exactly once (when a callback is given) and stored only when uncontrolled; a controlled component never writes its internal state |
| Tabs.TabsInstance.ClickTab | src/components/Tabs/Tabs.tsx:184 | a click on a disabled tab changes nothing; a click on an enabled tab acts as `handleTabSelect` with that tab's id |
| Tabs.TabsInstance.HandleKeyDown | src/components/Tabs/Tabs.tsx:98-161 | the event is intercepted iff `KeyDown` handles it; a handled key always notifies its target, even the current id; focus is requested and (uncontrolled only) the selection stored iff the target differs; otherwise nothing changes; uncontrolled, the new selection is `AfterKey` of the old one |

## Left out

- JSX rendering, `React.forwardRef` and the `useState`/`useRef` hooks. The state hook is the field `internalSelectedId`, and a re-render is `Rerender`.
- Moving focus through `tabRefs` and `setTimeout` is asynchronous DOM work. The model records only the id that focus was requested for, in the ghost log `focusRequests`. The `tabRefs` map is not modelled.
- `event.preventDefault()` is the boolean that `HandleKeyDown` returns.
- The `onTabChange` and `onClick` callbacks are outside code. The model records whether each is present and logs the calls to `onTabChange`.
- CSS imports, stories, the example usage file, the test files and the build configuration are outside the logic.
- The rendering of the tab label and the badge children is not modelled: they are passed through unchanged.
- Variants are closed datatypes, so a variant string outside the declared TypeScript union cannot be expressed.
- `Words` splits on ASCII whitespace, as a browser reads a class attribute. Characters are Unicode scalar values, while JavaScript strings are UTF-16 code units. No whitespace character is a surrogate, so `trim()` removes the same characters in both.
- The handlers are stated over the props of one render. A callback that re-renders the component in the middle of a handler is not modelled.
- The read-back lemmas (`ClassList.ComposeWords`, `Tab.ClassesReadBack`, `Tabs.ContainerClassesReadBack`) assume a `className` that is a single class name with no whitespace. For a `className` holding several classes, such as `"foo bar"`, the model does not state how the attribute reads back. The single-spacing lemmas do cover such names.
