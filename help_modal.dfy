/**
  The help overlay of the terminal UI's bottom pane (`HelpModalView`): a
  two-state completion machine driven by key codes, the height it asks the
  pane for, and the text lines it renders: a fixed header, one line per
  slash-command sorted by "/name", and a fixed block of keyboard shortcuts.
 */
module HelpModal {
  import opened StrOrder
  import opened CommandSort

  /** Rust's `u16`. */
  newtype u16 = x: int | 0 <= x < 0x1_0000

  /** ratatui's `Rect`: the region the pane offers the view. */
  datatype Rect = Rect(x: u16, y: u16, width: u16, height: u16)

  datatype Option<T> = None | Some(value: T)

  /** The key codes of crossterm's `KeyCode` the view can tell apart: Esc, characters, and the rest. */
  datatype KeyCode = Esc | Char(c: char) | Enter | Tab | Backspace | Other

  /** One value of the slash-command registry: the command's name, without the slash, and its description. */
  datatype SlashCommand = SlashCommand(command: string, description: string)

  /** The keys that dismiss the overlay: Esc, `q` and `Q`. */
  predicate IsDismissKey(code: KeyCode) {
    code == Esc || code == Char('q') || code == Char('Q')
  }

  /**
    The completion flag after the pane has forwarded `codes` one at a time,
    starting from `complete`; each step is one call of `HandleKeyEvent`.
   */
  function AfterKeys(complete: bool, codes: seq<KeyCode>): bool
    decreases |codes|
  {
    if codes == [] then complete
    else AfterKeys(complete || IsDismissKey(codes[0]), codes[1..])
  }

  /** Once complete, the view stays complete whatever keys follow. */
  lemma {:induction false} CompleteIsAbsorbing(codes: seq<KeyCode>)
    ensures AfterKeys(true, codes)
    decreases |codes|
  {
    if codes != [] {
      CompleteIsAbsorbing(codes[1..]);
    }
  }

  /** A run of keys leaves the view complete exactly when it was already complete or one of the keys dismisses it. */
  lemma {:induction false} AfterKeysComplete(complete: bool, codes: seq<KeyCode>)
    ensures AfterKeys(complete, codes) <==>
            complete || exists i :: 0 <= i < |codes| && IsDismissKey(codes[i])
    decreases |codes|
  {
    if codes != [] {
      AfterKeysComplete(complete || IsDismissKey(codes[0]), codes[1..]);
      if exists i :: 0 <= i < |codes[1..]| && IsDismissKey(codes[1..][i]) {
        var i :| 0 <= i < |codes[1..]| && IsDismissKey(codes[1..][i]);
        assert IsDismissKey(codes[i + 1]);
      }
      if exists i :: 0 <= i < |codes| && IsDismissKey(codes[i]) {
        var i :| 0 <= i < |codes| && IsDismissKey(codes[i]);
        if i > 0 {
          assert IsDismissKey(codes[1..][i - 1]);
        }
      }
    }
  }

  /** The key of a registry entry: `format!("/{}", cmd.command())`, paired with the description. */
  function ToEntry(c: SlashCommand): Entry {
    Entry("/" + c.command, c.description)
  }

  /** The name can be read back from the key, after its leading slash; the description is carried unchanged. */
  lemma ToEntryParts(c: SlashCommand)
    ensures ToEntry(c).key != [] && ToEntry(c).key[0] == '/' && ToEntry(c).key[1..] == c.command
    ensures ToEntry(c).desc == c.description
  {
  }

  /** The registry's values turned into `commands`, in the order the registry yields them. */
  function Entries(registry: seq<SlashCommand>): (es: seq<Entry>)
    ensures |es| == |registry|
  {
    seq(|registry|, i requires 0 <= i < |registry| => ToEntry(registry[i]))
  }

  /** `format!("{cmd} – {desc}")`, with an en dash (U+2013). */
  function Format(e: Entry): string {
    e.key + " \U{2013} " + e.desc
  }

  /** A line splits back into the key, the separator " – " and the description. */
  lemma FormatParts(e: Entry)
    ensures |Format(e)| == |e.key| + 3 + |e.desc|
    ensures Format(e)[..|e.key|] == e.key && Format(e)[|e.key| + 3..] == e.desc
    ensures Format(e)[|e.key|..|e.key| + 3] == " \U{2013} "
  {
  }

  /** One formatted line per entry, in the same order. */
  function CommandLines(es: seq<Entry>): (ls: seq<string>)
    ensures |ls| == |es|
  {
    seq(|es|, i requires 0 <= i < |es| => Format(es[i]))
  }

  /** The three lines above the command list; the header uses a non-breaking hyphen (U+2011). */
  function HeaderLines(): seq<string> {
    ["Available commands", "", "Slash\U{2011}commands"]
  }

  /** The seven lines below the command list: a blank, the shortcuts header and the five shortcuts. */
  function ShortcutLines(): seq<string> {
    [ "",
      "Keyboard shortcuts",
      "Enter \U{2013} send message",
      "Ctrl+J \U{2013} insert newline",
      "Up/Down \U{2013} scroll prompt history",
      "Esc(\U{2715}2) \U{2013} interrupt current action",
      "Ctrl+C \U{2013} quit Codex" ]
  }

  /** The text `render` lays out, line by line, before any styling or drawing. */
  function Content(registry: seq<SlashCommand>): seq<string> {
    HeaderLines() + CommandLines(Sort(Entries(registry))) + ShortcutLines()
  }

  /** Formatting distributes over concatenation. */
  lemma CommandLinesAppend(p: seq<Entry>, q: seq<Entry>)
    ensures CommandLines(p + q) == CommandLines(p) + CommandLines(q)
  {
  }

  /** Inserting an entry adds exactly its line to the formatted lines. */
  lemma {:induction false} InsertAddsOneLine(x: Entry, t: seq<Entry>)
    ensures multiset(CommandLines(Insert(x, t))) == multiset(CommandLines(t)) + multiset{Format(x)}
    decreases |t|
  {
    if t == [] {
    } else if CompareEntries(t[|t| - 1], x) == Greater {
      var f, l := t[..|t| - 1], t[|t| - 1];
      InsertAddsOneLine(x, f);
      CommandLinesAppend(Insert(x, f), [l]);
      CommandLinesAppend(f, [l]);
      assert f + [l] == t;
    } else {
      CommandLinesAppend(t, [x]);
    }
  }

  /** Sorting does not change which lines are printed, nor how often. */
  lemma {:induction false} SortKeepsLines(es: seq<Entry>)
    ensures multiset(CommandLines(Sort(es))) == multiset(CommandLines(es))
  {
    if es != [] {
      var f, l := es[..|es| - 1], es[|es| - 1];
      SortKeepsLines(f);
      InsertAddsOneLine(l, Sort(f));
      CommandLinesAppend(f, [l]);
      assert f + [l] == es;
    }
  }

  /** The content has ten fixed lines around the command list: the three header lines first, the seven shortcut lines last. */
  lemma ContentLayout(registry: seq<SlashCommand>)
    ensures |Content(registry)| == |registry| + 10
    ensures Content(registry)[..3] == HeaderLines()
    ensures Content(registry)[|registry| + 3..] == ShortcutLines()
  {
  }

  /**
    The command lines are the registry's entries sorted by "/name", one line
    each, with commands under the same "/name" in registry order.
   */
  lemma ContentCommandsSorted(registry: seq<SlashCommand>)
    ensures var es := Sort(Entries(registry));
      && Sorted(es)
      && Stable(Entries(registry), es)
      && forall i :: 0 <= i < |registry| ==> Content(registry)[i + 3] == Format(es[i])
  {
    SortSorted(Entries(registry));
    SortStable(Entries(registry));
  }

  /** Every registry entry yields exactly one command line, and there are no others. */
  lemma ContentCommandsPermute(registry: seq<SlashCommand>)
    ensures multiset(Content(registry)[3..|registry| + 3]) == multiset(CommandLines(Entries(registry)))
  {
    var es := Sort(Entries(registry));
    assert Content(registry)[3..|registry| + 3] == CommandLines(es);
    SortKeepsLines(Entries(registry));
  }

  /** No two commands of the registry share a name. */
  predicate DistinctNames(registry: seq<SlashCommand>) {
    forall i, j :: 0 <= i < j < |registry| ==> registry[i].command != registry[j].command
  }

  /** Distinct names give distinct "/name" keys. */
  lemma EntriesDistinct(registry: seq<SlashCommand>)
    requires DistinctNames(registry)
    ensures DistinctKeys(Entries(registry))
  {
    forall i, j | 0 <= i < j < |registry|
      ensures Entries(registry)[i].key != Entries(registry)[j].key
    {
      ToEntryParts(registry[i]);
      ToEntryParts(registry[j]);
    }
  }

  /** Every entry collected from `r1` is also collected from `r2` when the two hold the same commands. */
  lemma EntriesCovered(r1: seq<SlashCommand>, r2: seq<SlashCommand>, e: Entry)
    requires multiset(r1) == multiset(r2)
    requires e in Entries(r1)
    ensures e in Entries(r2)
  {
    var i :| 0 <= i < |r1| && Entries(r1)[i] == e;
    assert r1[i] in multiset(r2);
    var j :| 0 <= j < |r2| && r2[j] == r1[i];
    assert Entries(r2)[j] == e;
  }

  /**
    The reason for the sort: the registry is a hash map whose iteration
    order is unspecified, and its names are distinct, so whatever order it
    yields its commands in, the content is the same.
   */
  lemma ContentIgnoresRegistryOrder(r1: seq<SlashCommand>, r2: seq<SlashCommand>)
    requires multiset(r1) == multiset(r2)
    requires DistinctNames(r1) && DistinctNames(r2)
    ensures Content(r1) == Content(r2)
  {
    EntriesDistinct(r1);
    EntriesDistinct(r2);
    forall e ensures e in Entries(r1) <==> e in Entries(r2) {
      if e in Entries(r1) {
        EntriesCovered(r1, r2, e);
      }
      if e in Entries(r2) {
        EntriesCovered(r2, r1, e);
      }
    }
    SortIgnoresOrder(Entries(r1), Entries(r2));
  }

  /** The content of a two-command registry. */
  lemma ContentOfPair(a: SlashCommand, b: SlashCommand)
    ensures Content([a, b]) == HeaderLines() + CommandLines(Sort([ToEntry(a), ToEntry(b)])) + ShortcutLines()
  {
    assert Entries([a, b]) == [ToEntry(a), ToEntry(b)];
  }

  /** Sorting two entries swaps them exactly when the first key is greater. */
  lemma SortPair(p: Entry, q: Entry)
    ensures Sort([p, q]) == if CompareEntries(p, q) == Greater then [q, p] else [p, q]
  {
    assert [p, q][..1] == [p] && [p][..0] == [];
    assert Sort([p]) == [p];
    assert Sort([p, q]) == Insert(q, [p]);
    assert [p][..0] == [] && [] + [p] == [p];
  }

  /**
    Without distinct names the order would show: two commands named `a`,
    listed both ways round, keep their listed order and render differently.
   */
  lemma DuplicateNamesFollowOrder()
    ensures Content([SlashCommand("a", "x"), SlashCommand("a", "y")]) !=
            Content([SlashCommand("a", "y"), SlashCommand("a", "x")])
  {
    var x, y := SlashCommand("a", "x"), SlashCommand("a", "y");
    var p, q := ToEntry(x), ToEntry(y);
    ContentOfPair(x, y);
    ContentOfPair(y, x);
    SortPair(p, q);
    SortPair(q, p);
    assert Content([x, y])[3] == Format(p);
    assert Content([y, x])[3] == Format(q);
    assert Format(p)[|Format(p)| - 1] == 'x';
  }

  /** The overlay of the help screen. Its one field is the completion flag. */
  class HelpModalView {
    var isComplete: bool

    /** `HelpModalView::new`: a fresh view is not complete. */
    constructor ()
      ensures !isComplete
    {
      isComplete := false;
    }

    /** Esc, `q` and `Q` complete the view; any other key changes nothing. Modifiers are not looked at. */
    method HandleKeyEvent(code: KeyCode)
      modifies this
      ensures IsDismissKey(code) ==> isComplete
      ensures !IsDismissKey(code) ==> isComplete == old(isComplete)
    {
      match code
      case Esc => isComplete := true;
      case Char(c) =>
        if c == 'q' || c == 'Q' {
          isComplete := true;
        }
      case _ =>
    }

    /** Whether the pane should remove the view. */
    function IsComplete(): (b: bool)
      reads this
      ensures b == isComplete
    {
      isComplete
    }

    /**
      The rows the view asks for: the number of commands plus 4, whatever
      `area` is. `len() as u16` keeps the low 16 bits of the count; the `u16`
      addition then overflows, which panics in a debug build (`None`), when
      the truncated count is above 65531.
     */
    function CalculateRequiredHeight(registry: seq<SlashCommand>, area: Rect): (h: Option<u16>)
      ensures |registry| + 4 < 0x1_0000 ==> h == Some((|registry| + 4) as u16)
      ensures h.Some? <==> |registry| % 0x1_0000 < 0x1_0000 - 4
      ensures h.Some? ==> h.value as int == |registry| % 0x1_0000 + 4
    {
      var n := (|registry| % 0x1_0000) as u16;
      if n as int + 4 < 0x1_0000 then Some(n + 4) else None
    }

    /**
      The line-building part of `render`: the header, the commands collected
      from the registry, sorted in place by "/name" and formatted one per
      line, then the shortcuts. It has no `modifies` clause: like `&self`,
      it cannot change the completion flag.
     */
    method Render(registry: seq<SlashCommand>) returns (lines: seq<string>)
      ensures lines == Content(registry)
    {
      lines := ["Available commands", "", "Slash\U{2011}commands"];
      var commands := CollectCommands(registry);
      SortByCommand(commands);
      ghost var sorted := commands[..];
      assert sorted == Sort(Entries(registry));
      for i := 0 to commands.Length
        invariant lines == HeaderLines() + CommandLines(commands[..i])
        invariant commands[..] == sorted
      {
        assert commands[..i + 1] == commands[..i] + [commands[i]];
        CommandLinesAppend(commands[..i], [commands[i]]);
        assert CommandLines([commands[i]]) == [Format(commands[i])];
        lines := lines + [Format(commands[i])];
      }
      assert commands[..commands.Length] == commands[..];
      assert lines == HeaderLines() + CommandLines(Sort(Entries(registry)));
      lines := PushShortcuts(lines);
    }
  }

  /** `built_in_slash_commands().values().map(..).collect()`: a fresh buffer of entries, in registry order. */
  method CollectCommands(registry: seq<SlashCommand>) returns (commands: array<Entry>)
    ensures fresh(commands)
    ensures commands[..] == Entries(registry)
  {
    commands := new Entry[|registry|];
    for i := 0 to |registry|
      invariant forall k :: 0 <= k < i ==> commands[k] == ToEntry(registry[k])
    {
      commands[i] := ToEntry(registry[i]);
    }
  }

  /** The seven pushes after the command list: a blank line, the shortcuts header and the five shortcuts. */
  method PushShortcuts(lines: seq<string>) returns (r: seq<string>)
    ensures r == lines + ShortcutLines()
  {
    r := lines + [""];
    r := r + ["Keyboard shortcuts"];
    r := r + ["Enter \U{2013} send message"];
    r := r + ["Ctrl+J \U{2013} insert newline"];
    r := r + ["Up/Down \U{2013} scroll prompt history"];
    r := r + ["Esc(\U{2715}2) \U{2013} interrupt current action"];
    r := r + ["Ctrl+C \U{2013} quit Codex"];
  }

  /**
    The pane forwarding `codes` to `view` one call of `HandleKeyEvent` at a
    time: the flag afterwards is `AfterKeys` of the flag before, so the
    lemmas about `AfterKeys` hold of the view itself.
   */
  method HandleKeys(view: HelpModalView, codes: seq<KeyCode>)
    modifies view
    ensures view.IsComplete() == AfterKeys(old(view.IsComplete()), codes)
  {
    var i := 0;
    while i < |codes|
      invariant 0 <= i <= |codes|
      invariant AfterKeys(view.isComplete, codes[i..]) == AfterKeys(old(view.isComplete), codes)
    {
      view.HandleKeyEvent(codes[i]);
      assert codes[i..][1..] == codes[i + 1..];
      i := i + 1;
    }
  }

  /** A new view stays active after Tab; the Esc that follows completes it. */
  method TabThenEsc() returns (afterTab: bool, afterEsc: bool)
    ensures !afterTab && afterEsc
  {
    var view := new HelpModalView();
    view.HandleKeyEvent(Tab);
    afterTab := view.IsComplete();
    view.HandleKeyEvent(Esc);
    afterEsc := view.IsComplete();
  }

  /**
    The height does not cover the content: when the count fits, it is six
    rows fewer than the number of lines (the shortcut block is not counted).
   */
  lemma HeightVersusContent(view: HelpModalView, registry: seq<SlashCommand>, area: Rect)
    requires |registry| + 4 < 0x1_0000
    ensures view.CalculateRequiredHeight(registry, area) == Some((|Content(registry)| - 6) as u16)
  {
    ContentLayout(registry);
  }

  /** With no commands the view asks for 4 rows and still shows the header and the shortcuts. */
  lemma NoCommands(view: HelpModalView, area: Rect)
    ensures view.CalculateRequiredHeight([], area) == Some(4)
    ensures Content([]) == HeaderLines() + ShortcutLines()
  {
    assert Sort(Entries([])) == [];
  }

  /** The formatted lines of the two commands used below. */
  lemma TwoCommandsText()
    ensures Format(Entry("/clear", "Clear screen")) == "/clear \U{2013} Clear screen"
    ensures Format(Entry("/help", "Show help")) == "/help \U{2013} Show help"
  {
  }

  /** Two commands given in reverse order come out sorted by "/name". */
  lemma TwoCommands()
    ensures Content([SlashCommand("help", "Show help"), SlashCommand("clear", "Clear screen")]) ==
            HeaderLines() + ["/clear \U{2013} Clear screen", "/help \U{2013} Show help"] + ShortcutLines()
  {
    var hc, cc := SlashCommand("help", "Show help"), SlashCommand("clear", "Clear screen");
    var h, c := ToEntry(hc), ToEntry(cc);
    assert h == Entry("/help", "Show help") && c == Entry("/clear", "Clear screen");
    ContentOfPair(hc, cc);
    assert CompareEntries(h, c) == Greater;
    SortPair(h, c);
    TwoCommandsText();
    assert CommandLines([c, h]) == [Format(c), Format(h)];
  }

  /**
    The order is by "/name" alone: the formatted lines themselves need not be
    in string order. A name that continues with a character below the space
    (here a tab) sorts after its prefix, yet its line sorts before.
   */
  lemma LinesFollowKeysNotText()
    ensures var es := Sort(Entries([SlashCommand("a", "x"), SlashCommand("a\t", "y")]));
      && |es| == 2
      && Cmp(es[0].key, es[1].key) == Less
      && Cmp(Format(es[0]), Format(es[1])) == Greater
  {
    var p, q := Entry("/a", "x"), Entry("/a\t", "y");
    assert "/" + "a" == "/a" && "/" + "a\t" == "/a\t";
    assert Entries([SlashCommand("a", "x"), SlashCommand("a\t", "y")]) == [p, q];
    assert [p, q][..1] == [p] && [p][..0] == [];
    assert Cmp(p.key, q.key) == Less;
    assert Sort([p, q]) == [p, q];
    assert Format(p) == "/a \U{2013} x" && Format(q) == "/a\t \U{2013} y";
    assert Cmp(Format(p)[2..], Format(q)[2..]) == Greater;
  }
}
