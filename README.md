# Help overlay of the TUI bottom pane, in Dafny

This project models `HelpModalView`, the help screen that the terminal UI's
bottom pane shows until the user dismisses it
(`codex-rs/tui/src/bottom_pane/help_modal_view.rs`). The source has three
pieces of logic, and the model proves properties of each:

- **Completion machine.** The view has one field, `is_complete`. It starts
  false. Esc, `q` and `Q` set it to true, and every other key leaves it
  alone. Complete is therefore an absorbing state.
- **Required height.** The view asks for the command count plus 4 rows,
  whatever area it is offered. The count is cast to `u16` and the addition
  is done in `u16`.
- **Content.** `render` builds a list of lines before drawing:
  - three header lines;
  - one `"/name – description"` line per slash-command, sorted by `"/name"`;
  - a blank line and the "Keyboard shortcuts" header;
  - five fixed shortcut lines.

The project has three modules, one per file:

- `StrOrder` (`str_order.dfy`). Rust's order on strings (`String::cmp`),
  which the sort uses as its comparator. `Cmp` compares characters
  lexicographically, and a proper prefix sorts first. UTF-8 preserves the
  order of code points, so this equals Rust's byte-wise comparison.
- `CommandSort` (`command_sort.dfy`). The `(String, String)` pairs of
  `commands` and the stable sort `sort_by(|a, b| a.0.cmp(&b.0))` on them.
  - `Sort` is the specification: an insertion sort written as a function.
  - `SortByCommand` sorts an array in place, as `sort_by` sorts the `Vec`,
    and is proved to leave `Sort` of the old contents.
  - The lemmas prove three things about `Sort`: it orders by key, it is a
    permutation, and it keeps equal keys in input order. They also prove
    that only one sequence has all three properties. So Rust's own stable
    sort, whatever its algorithm, gives the same result as the insertion
    sort here.
- `HelpModal` (`help_modal.dfy`). The view itself.
  - The class `HelpModalView` has the field `isComplete`. Its members are
    `HandleKeyEvent` (a `modifies this` method), `IsComplete`,
    `CalculateRequiredHeight` and `Render`.
  - `HandleKeys` feeds a sequence of key codes to a view one
    `HandleKeyEvent` call at a time. It is proved to leave `IsComplete()`
    equal to the function `AfterKeys`, which the key-sequence lemmas are
    about.
  - `Render` has no `modifies` clause. Like `render(&self, ..)` in Rust, it
    cannot change the completion flag.
  - `Render` collects the commands into a new array (`CollectCommands`),
    sorts it in place (`SortByCommand`), pushes one formatted line per
    entry and then the shortcut block (`PushShortcuts`). It returns
    `Content(registry)`. The registry is passed in as a
    sequence of `(name, description)` values, in whatever order the hash
    map yields them.
  - When the names in the registry are distinct, the key-sorted, stable
    result does not depend on that order. The lemma
    `ContentIgnoresRegistryOrder` states this. In that case every call
    renders the same lines for the same set of commands, even though each
    call fetches the map afresh. `DuplicateNamesFollowOrder` shows that the distinct
    names are needed: two commands with the same name keep their listed
    order.

Three details of the code that are easy to misread:

- The section header is written `Slash‑commands`, with a non-breaking
  hyphen (U+2011), not an ASCII hyphen.
- The key is `"/" + name` as returned by the command's `command()` method.
  The code removes no leading slash.
- The lines are sorted by their `"/name"` key, not by their whole text. The
  lemma `LinesFollowKeysNotText` gives two commands whose lines are out of
  string order even though their keys are sorted.

## Model

| member | source | states |
|---|---|---|
| `StrOrder.Cmp` | codex-rs/tui/src/bottom_pane/help_modal_view.rs:55 | The key comparison `a.0.cmp(&b.0)` answers Equal exactly when the two keys are the same string |
| `CommandSort.CompareEntries` | codex-rs/tui/src/bottom_pane/help_modal_view.rs:55 | The comparator `a.0.cmp(&b.0)`, which looks at the keys alone; `Cmp`'s contract gives Equal exactly when the keys are equal |
| `CommandSort.Insert` | codex-rs/tui/src/bottom_pane/help_modal_view.rs:55 | One insertion step of the stable sort. It adds exactly one entry (`InsertPermutes`), and a sorted input stays sorted (`InsertSorted`) |
| `CommandSort.Sort` | codex-rs/tui/src/bottom_pane/help_modal_view.rs:55 | The result of `commands.sort_by(...)`, the same length as the input; its meaning is fixed by the `Sort…` lemmas below |
| `StrOrder.CmpReverse` | codex-rs/tui/src/bottom_pane/help_modal_view.rs:55 | Comparing the keys the other way round gives the reversed answer |
| `StrOrder.LeTransitive` | codex-rs/tui/src/bottom_pane/help_modal_view.rs:55 | "Sorts no later than" is transitive |
| `StrOrder.LeAntisymmetric` | codex-rs/tui/src/bottom_pane/help_modal_view.rs:55 | Two keys that each sort no later than the other are equal |
| `StrOrder.LeTotal` | codex-rs/tui/src/bottom_pane/help_modal_view.rs:55 | Any two keys are ordered one way or the other |
| `CommandSort.SortPermutes` | codex-rs/tui/src/bottom_pane/help_modal_view.rs:55 | The sorted commands are a permutation of the collected ones: same entries, same multiplicities |
| `CommandSort.SortSorted` | codex-rs/tui/src/bottom_pane/help_modal_view.rs:55 | The sorted commands are in non-decreasing order of their `"/name"` keys |
| `CommandSort.SortStable` | codex-rs/tui/src/bottom_pane/help_modal_view.rs:55 | For every key, the entries with that key appear in the same relative order as before the sort (`sort_by` is stable) |
| `CommandSort.SortedUnique` | codex-rs/tui/src/bottom_pane/help_modal_view.rs:55 | Two sequences that are sorted by key and have the same entries for every key, in the same order, are equal |
| `CommandSort.StableSortIsSort` | codex-rs/tui/src/bottom_pane/help_modal_view.rs:55 | Any result that is sorted by key and stable is exactly `Sort` of the input, so the model gives what Rust's stable sort gives |
| `CommandSort.SortIgnoresOrder` | codex-rs/tui/src/bottom_pane/help_modal_view.rs:51-55 | When no two entries share a key, `Sort` depends only on which entries there are, not on their input order |
| `CommandSort.WithKeyDistinct` | codex-rs/tui/src/bottom_pane/help_modal_view.rs:51-55 | When no two entries share a key, each key selects at most one entry |
| `CommandSort.InsertInPlace` | codex-rs/tui/src/bottom_pane/help_modal_view.rs:55 | One insertion pass on the array: the first i+1 slots become the entry at i inserted into the old prefix; later slots are unchanged |
| `CommandSort.SortByCommand` | codex-rs/tui/src/bottom_pane/help_modal_view.rs:55 | Sorting `commands` in place leaves the array holding `Sort` of its old contents |
| `HelpModal.IsDismissKey` | codex-rs/tui/src/bottom_pane/help_modal_view.rs:24-27 | The key codes that complete the view: `Esc`, `Char('q')` and `Char('Q')`, and nothing else |
| `HelpModal.AfterKeys` | codex-rs/tui/src/bottom_pane/help_modal_view.rs:22-29 | The flag after a run of `handle_key_event` calls: each code sets it when it is a dismiss key and otherwise keeps it |
| `HelpModal.ToEntry` | codex-rs/tui/src/bottom_pane/help_modal_view.rs:53 | The pair `(format!("/{}", cmd.command()), cmd.description())` |
| `HelpModal.ToEntryParts` | codex-rs/tui/src/bottom_pane/help_modal_view.rs:53 | The key is `/` followed by the command's name, so the name can be read back from it, and the description is carried unchanged |
| `HelpModal.Entries` | codex-rs/tui/src/bottom_pane/help_modal_view.rs:51-54 | One entry per registry value, in the registry's own order |
| `HelpModal.Format` | codex-rs/tui/src/bottom_pane/help_modal_view.rs:57 | The line `format!("{cmd} – {desc}")`: the key, a space, an en dash (U+2013), a space and the description |
| `HelpModal.FormatParts` | codex-rs/tui/src/bottom_pane/help_modal_view.rs:57 | A formatted line cuts back into its key, the three-character separator and its description, so no information is lost |
| `HelpModal.HeaderLines` | codex-rs/tui/src/bottom_pane/help_modal_view.rs:44-48 | The three header lines `Available commands`, an empty line and `Slash‑commands`, the last with U+2011 |
| `HelpModal.ShortcutLines` | codex-rs/tui/src/bottom_pane/help_modal_view.rs:60-66 | The empty line, `Keyboard shortcuts` and the five shortcut lines, with the source's text, U+2013 and U+2715 |
| `HelpModal.Content` | codex-rs/tui/src/bottom_pane/help_modal_view.rs:44-66 | The lines `render` lays out: the header, the formatted sorted commands, then the shortcut block. `ContentLayout` and the lemmas after it state its properties |
| `HelpModal.HelpModalView.constructor` | codex-rs/tui/src/bottom_pane/help_modal_view.rs:16-18 | A new view is not complete |
| `HelpModal.HelpModalView.HandleKeyEvent` | codex-rs/tui/src/bottom_pane/help_modal_view.rs:22-29 | After Esc, `q` or `Q` the view is complete; any other key code leaves the flag exactly as it was |
| `HelpModal.HelpModalView.IsComplete` | codex-rs/tui/src/bottom_pane/help_modal_view.rs:31-33 | The query reports the completion flag and reads nothing else |
| `HelpModal.HelpModalView.CalculateRequiredHeight` | codex-rs/tui/src/bottom_pane/help_modal_view.rs:35-38 | Whenever count + 4 fits in `u16`, the height is count + 4 for every area. Otherwise the count is first truncated to 16 bits, and the addition overflows exactly when the truncated count exceeds 65531 |
| `HelpModal.HelpModalView.Render` | codex-rs/tui/src/bottom_pane/help_modal_view.rs:40-66 | The lines built by pushing the header, the sorted and formatted commands and the shortcut block are exactly `Content(registry)`; the view's state is not modified |
| `HelpModal.CollectCommands` | codex-rs/tui/src/bottom_pane/help_modal_view.rs:51-54 | `.values().map(..).collect()` fills a new buffer with exactly `Entries(registry)`, one entry per registry value in registry order |
| `HelpModal.PushShortcuts` | codex-rs/tui/src/bottom_pane/help_modal_view.rs:60-66 | The seven `lines.push` calls after the command list append exactly `ShortcutLines()` |
| `HelpModal.HandleKeys` | codex-rs/tui/src/bottom_pane/help_modal_view.rs:22-33 | Calling `HandleKeyEvent` once per code leaves `IsComplete()` equal to `AfterKeys` of the flag before, so the two lemmas below hold of the view |
| `HelpModal.CompleteIsAbsorbing` | codex-rs/tui/src/bottom_pane/help_modal_view.rs:22-29 | Once complete, `AfterKeys` stays true after any further sequence of key codes; by `HandleKeys`, so does the view |
| `HelpModal.AfterKeysComplete` | codex-rs/tui/src/bottom_pane/help_modal_view.rs:22-29 | After a sequence of key codes, `AfterKeys` (and by `HandleKeys` the view) is complete if and only if it was already complete or one of the codes is Esc, `q` or `Q` |
| `HelpModal.TabThenEsc` | codex-rs/tui/src/bottom_pane/help_modal_view.rs:16-33 | On a new `HelpModalView`, `IsComplete()` is false after `HandleKeyEvent(Tab)` and true after a following `HandleKeyEvent(Esc)` |
| `HelpModal.ContentLayout` | codex-rs/tui/src/bottom_pane/help_modal_view.rs:44-66 | The content has n + 10 lines. The first 3 are the fixed header lines and the last 7 are the blank line, the shortcuts header and the five shortcuts, in source order, for any command set |
| `HelpModal.ContentCommandsSorted` | codex-rs/tui/src/bottom_pane/help_modal_view.rs:51-58 | Line i + 3 is the formatted i-th entry of a key-sorted, stable rearrangement of the registry's entries |
| `HelpModal.SortKeepsLines` | codex-rs/tui/src/bottom_pane/help_modal_view.rs:55-58 | Sorting does not change which formatted lines there are, nor how often each occurs |
| `HelpModal.ContentCommandsPermute` | codex-rs/tui/src/bottom_pane/help_modal_view.rs:51-58 | The n command lines are a permutation of the registry's formatted entries: each pair yields exactly one `"/name – desc"` line |
| `HelpModal.ContentIgnoresRegistryOrder` | codex-rs/tui/src/bottom_pane/help_modal_view.rs:51-58 | Two registries holding the same commands with distinct names, in any order, render the same lines. This is why the unordered map is sorted |
| `HelpModal.DuplicateNamesFollowOrder` | codex-rs/tui/src/bottom_pane/help_modal_view.rs:51-58 | Two commands with the same name, listed both ways round, render differently, because the stable sort keeps their listed order |
| `HelpModal.HeightVersusContent` | codex-rs/tui/src/bottom_pane/help_modal_view.rs:35-66 | When the count fits, the requested height is the number of content lines minus 6 (the shortcut block is not counted) |
| `HelpModal.NoCommands` | codex-rs/tui/src/bottom_pane/help_modal_view.rs:35-66 | With no commands the height is 4 and the content is still the header followed by the shortcut block |
| `HelpModal.TwoCommands` | codex-rs/tui/src/bottom_pane/help_modal_view.rs:44-66 | Commands `help` then `clear` render as the header, `/clear – Clear screen`, `/help – Show help`, then the shortcut block |
| `HelpModal.LinesFollowKeysNotText` | codex-rs/tui/src/bottom_pane/help_modal_view.rs:55-57 | The order is by key only: for the keys `/a` and `/a` + tab, the keys are in order but their formatted lines are not in string order |

## Left out

- Drawing is not modelled (lines 68-78). This covers `Paragraph`, `Block`,
  the rounded border, the title "Press esc or q to close" and
  `paragraph.render(area, buf)`. ratatui's layout and clipping code is a
  foreign library, so `Render` returns the lines and takes no `area`.
- Styles are not modelled (lines 41-42, and the bold spans at lines 45, 47
  and 61). The colours and the bold modifier are presentation only, so
  lines are plain strings.
- crossterm's `KeyEvent` is reduced to its key code (line 24). The
  modifiers and the event kind are never inspected. Key codes other than
  Esc and characters become `Enter`, `Tab`, `Backspace` or `Other`. They
  all behave alike.
- The `BottomPane` argument of `handle_key_event` (line 22) is not
  modelled, and neither is the `BottomPaneView` trait dispatch. The
  container owns both and this logic never uses them.
- The global registry `built_in_slash_commands()` (lines 36 and 51) is an
  input sequence of (name, description) values. Its order stands for the
  hash map's unspecified iteration order. The operations do not assume the
  names are distinct. Only `ContentIgnoresRegistryOrder` requires it. The
  definition of the map (`slash_command.rs`) is not part of this model, so
  the model does not show that the names there are distinct.
- `HelpModal.HelpModalView.CalculateRequiredHeight`: `None` stands for an
  overflow of `n + 4`. A debug build panics on that overflow. The
  wrap-around of a release build is not modelled.
- `CommandSort.SortByCommand`: Rust's `sort_by` is a stable sort whose
  algorithm and memory use differ from the model's in-place insertion
  sort. Both are stable sorts by the same key, and `StableSortIsSort` shows
  they give the same sequence. The comparisons made and the memory used
  are not modelled.
- The model does not claim that the height covers the content. The code
  does not promise it, and `count + 4` is kept as written.
  `HeightVersusContent` states the exact shortfall instead.
