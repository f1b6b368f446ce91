/** The override manager's application state (Go's `App`) and what each key
    press does to it: two lists (available and applied overrides) with a
    cursor each, one of them focused, and at most one overlay (help, the
    new-override input, the delete confirmation, the rename input) open on
    top of them.

    The widgets are reduced to the state the program reads back from them:
    the focused panel and each list's current item. The filesystem, the
    editor and the YAML library are answers passed in with each operation. */
module LazyHydra {
  import opened Wrappers
  import opened GoStrings
  import opened Seqs
  import opened Paths
  import opened Registry
  import opened Builder
  import opened Persist

  /** The panels the focus cycles through: the available list, then the
      applied list. */
  const PanelCount: int := 2
  const AvailablePanel: int := 0
  const AppliedPanel: int := 1

  /** apply.md as a new override starts it: empty type and block. */
  const ApplyTemplate: string := Delimiter + TemplateFrontmatter + Delimiter + "\n"

  /** The front matter of the template apply.md. */
  const TemplateFrontmatter: string := "\ntype: \"\"\nblock: \"\"\n"

  function NextPanelIndex(i: int): (r: int)
    requires 0 <= i < PanelCount
    ensures 0 <= r < PanelCount && r != i
  {
    (i + 1) % PanelCount
  }

  function PrevPanelIndex(i: int): (r: int)
    requires 0 <= i < PanelCount
    ensures 0 <= r < PanelCount && r != i
  {
    (i - 1 + PanelCount) % PanelCount
  }

  /** prevPanel undoes nextPanel, and the other way round. */
  lemma PanelCycleInverse(i: int)
    requires 0 <= i < PanelCount
    ensures PrevPanelIndex(NextPanelIndex(i)) == i
    ensures NextPanelIndex(PrevPanelIndex(i)) == i
  {
  }

  /** A list cursor that points at an item, or is 0 on an empty list
      (tview's current item). */
  predicate CursorFits(cursor: int, count: int)
  {
    0 <= cursor && (cursor == 0 || cursor < count)
  }

  /** Where refreshAll leaves a list's cursor once the list holds `count`
      items: where it was while that is still an item, else on the last
      item, and at 0 on an empty list. */
  function Clamped(cursor: int, count: int): (r: int)
    requires 0 <= cursor && 0 <= count
    ensures CursorFits(r, count) && r <= cursor
    ensures cursor < count ==> r == cursor
    ensures 0 < count <= cursor ==> r == count - 1
  {
    if cursor < count then cursor
    else if count > 0 then count - 1
    else 0
  }

  /** The environment file after savePersistedState: the saved lines when
      the write succeeds, the old file otherwise. */
  function AfterSave(file: EnvFile, envVar: string, s: seq<Override>, applied: set<string>, writeOk: bool): EnvFile
  {
    if writeOk then Present(SavedLines(file, envVar, s, applied)) else file
  }

  /** The override renameSelectedOverride makes of `t`: the new name, the
      folder of that name beside the old one, every other field kept. */
  function Renamed(t: Override, newName: ByteString): (r: Override)
    ensures r.name == newName
    ensures r.(name := t.name, folderPath := t.folderPath) == t
  {
    t.(name := newName, folderPath := JoinPath(Dir(t.folderPath), newName))
  }

  /** The entries of the list after a rename: the one equal to the target
      replaced by the renamed override, when there is one. */
  function RenamedMultiset(s: seq<Override>, t: Override, newName: ByteString): multiset<Override>
  {
    if t in s then multiset(s) - multiset{t} + multiset{Renamed(t, newName)} else multiset(s)
  }

  /** The list renameSelectedOverride leaves: `t` replaced by its renamed
      copy, sorted again by name. */
  method RenameInList(s: seq<Override>, t: Override, newName: ByteString) returns (r: seq<Override>)
    ensures SortedByName(r)
    ensures multiset(r) == RenamedMultiset(s, t, newName)
  {
    var list := ReplaceEqual(s, t, Renamed(t, newName));
    r := SortByName(list);
  }

  /** The renamed target is in the list the rename leaves. */
  lemma RenamedIsListed(s: seq<Override>, t: Override, newName: ByteString, r: seq<Override>)
    requires t in multiset(s) && multiset(r) == RenamedMultiset(s, t, newName)
    ensures Renamed(t, newName) in multiset(r)
  {
    assert t in s;
  }

  /** One more entry of the list adds its fragment when it is applied. */
  lemma AppliedFragmentsSnoc(s: seq<Override>, i: int, applied: set<string>)
    requires 0 <= i < |s|
    ensures Fragments(AppliedOf(s[..i + 1], applied)) ==
            Fragments(AppliedOf(s[..i], applied)) + (if s[i].name in applied then [Fragment(s[i])] else [])
  {
    PrefixSnoc(s, i);
    var before := AppliedOf(s[..i], applied);
    if s[i].name in applied {
      assert AppliedOf(s[..i + 1], applied) == before + [s[i]];
      SnocPrefix(before, s[i]);
    }
  }

  /** At most one of the overlays is open. */
  predicate AtMostOne(a: bool, b: bool, c: bool, d: bool)
  {
    (a ==> !b && !c && !d) && (b ==> !c && !d) && (c ==> !d)
  }

  /** The override createNewOverride adds: only the name, the folder and the
      template apply.md; empty type, block, module fields and content. */
  function NewOverride(name: ByteString, path: string): (r: Override)
    ensures r.name == name && r.folderPath == path && r.applyInfo == ApplyTemplate
  {
    Override(name, "", "", "", "", "", "", ApplyTemplate, path)
  }

  /** The keys the program itself handles; every other key (arrows up and
      down, typing into an input field, ...) is `OtherKey`. */
  datatype Key = Rune(c: char) | Esc | Enter | Tab | Backtab | Left | Right | OtherKey

  /** What is shown on top of the two lists. */
  datatype Overlay = NoOverlay | HelpOverlay | NewOverrideInput | DeleteConfirm | RenameInput(target: Override)

  /** The outside world's answers during one key press: the text in the
      open input field, whether creating the folder, renaming it and
      writing the environment file succeed, whether an editor ran on the
      file, and what the override's files hold afterwards. */
  datatype World = World(
    fieldText: ByteString,
    mkdirOk: bool,
    renameOk: bool,
    writeOk: bool,
    editorRuns: bool,
    applyMd: Option<string>,
    overrideYaml: Option<string>)

  /** The panel focused after a key on the main screen: `1` and `2` jump,
      `l`, Tab and Right go to the next panel, `h`, Backtab and Left to the
      previous one. */
  function PanelAfter(idx: int, key: Key): (r: int)
    requires 0 <= idx < PanelCount
    ensures 0 <= r < PanelCount
    ensures key == Rune('1') ==> r == AvailablePanel
    ensures key == Rune('2') ==> r == AppliedPanel
    ensures key in {Tab, Right, Rune('l')} ==> PrevPanelIndex(r) == idx
    ensures key in {Backtab, Left, Rune('h')} ==> NextPanelIndex(r) == idx
  {
    match key
    case Rune(c) =>
      if c == '1' then AvailablePanel
      else if c == '2' then AppliedPanel
      else if c == 'h' then PrevPanelIndex(idx)
      else if c == 'l' then NextPanelIndex(idx)
      else idx
    case Tab => NextPanelIndex(idx)
    case Right => NextPanelIndex(idx)
    case Backtab => PrevPanelIndex(idx)
    case Left => PrevPanelIndex(idx)
    case _ => idx
  }

  /** The overlay after a key, given the one open before and the override
      selected before. */
  function NextOverlay(m: Overlay, key: Key, selected: Option<Override>): (r: Overlay)
    ensures key == Esc ==> r == NoOverlay
    ensures m != NoOverlay ==> r == NoOverlay || r == m
    ensures m == NoOverlay && r.RenameInput? ==> selected == Some(r.target)
    ensures m == NoOverlay && r == DeleteConfirm ==> selected.Some?
  {
    match m
    case NoOverlay =>
      if key == Rune('?') then HelpOverlay
      else if key == Rune('n') then NewOverrideInput
      else if key == Rune('d') && selected.Some? then DeleteConfirm
      else if key == Rune('r') && selected.Some? then RenameInput(selected.value)
      else NoOverlay
    case HelpOverlay =>
      if key == Esc || key == Rune('q') then NoOverlay else m
    case NewOverrideInput =>
      if key in {Esc, Enter, Tab, Backtab} then NoOverlay else m
    case DeleteConfirm =>
      if key == Esc || key == Rune('q') || key == Enter then NoOverlay else m
    case RenameInput(_) =>
      if key in {Esc, Enter, Tab, Backtab} then NoOverlay else m
  }

  /** Without an overlay, only `?` and `n`, and with a selection `d` and
      `r`, open one. */
  lemma OpensOverlay(key: Key, selected: Option<Override>)
    ensures NextOverlay(NoOverlay, key, selected) != NoOverlay <==>
      key == Rune('?') || key == Rune('n') || (selected.Some? && (key == Rune('d') || key == Rune('r')))
  {
  }

  /** Applying the override under the cursor of the available list moves it
      to the applied list, and every override of that name with it. */
  lemma ApplyMovesOverride(s: seq<Override>, applied: set<string>, i: int)
    requires 0 <= i < |AvailableOf(s, applied)|
    ensures var o := AvailableOf(s, applied)[i];
      o.name !in applied &&
      o in AppliedOf(s, applied + {o.name}) &&
      forall p | p in AvailableOf(s, applied + {o.name}) :: p.name != o.name
  {
    var o := AvailableOf(s, applied)[i];
    Partition(s, applied, o);
    Partition(s, applied + {o.name}, o);
    forall p | p in AvailableOf(s, applied + {o.name})
      ensures p.name != o.name
    {
      Partition(s, applied + {o.name}, p);
    }
  }

  /** Removing the override under the cursor of the applied list moves it
      back to the available list, and every override of that name with it. */
  lemma RemoveMovesOverride(s: seq<Override>, applied: set<string>, i: int)
    requires 0 <= i < |AppliedOf(s, applied)|
    ensures var o := AppliedOf(s, applied)[i];
      o.name in applied &&
      o in AvailableOf(s, applied - {o.name}) &&
      forall p | p in AppliedOf(s, applied - {o.name}) :: p.name != o.name
  {
    var o := AppliedOf(s, applied)[i];
    Partition(s, applied, o);
    Partition(s, applied - {o.name}, o);
    forall p | p in AppliedOf(s, applied - {o.name})
      ensures p.name != o.name
    {
      Partition(s, applied - {o.name}, p);
    }
  }

  /** The applied set after a rename: the new name takes the old one's
      place when the old one was applied. The new name is then applied
      exactly when the old one was (or it already was), the old one no
      longer is, and no other name changes. */
  function RenameApplied(applied: set<string>, oldName: string, newName: string): (r: set<string>)
    ensures newName in r <==> oldName in applied || newName in applied
    ensures oldName != newName ==> oldName !in r
    ensures r - {oldName, newName} == applied - {oldName, newName}
  {
    if oldName in applied then applied - {oldName} + {newName} else applied
  }

  lemma TemplateHasFrontmatter()
    ensures Frontmatter(ApplyTemplate) == Some(TemplateFrontmatter)
  {
    var y := TemplateFrontmatter;
    assert '-' !in y;
    forall i | 0 <= i < |y|
      ensures !HasPrefix(y[i..] + Delimiter, Delimiter)
    {
      assert (y[i..] + Delimiter)[0] == y[i];
    }
    FrontmatterOfDelimited(y, "\n");
  }

  /** A folder createNewOverride made reads back, on the next start, as the
      override it added, when the YAML library reads the template's front
      matter as empty fields. */
  lemma CreatedOverrideLoads(dir: string, name: ByteString, parse: string -> Option<Meta>)
    requires parse(TemplateFrontmatter) == Some(Meta("", "", "", "", ""))
    ensures LoadEntry(dir, DirEntry(name, true, Some(ApplyTemplate), Some("")), parse)
            == Some(NewOverride(name, JoinPath(dir, name)))
  {
    TemplateHasFrontmatter();
  }

  class App {
    // configuration, fixed for the run
    const envVarName: string
    const overridesDir: string
    const home: string
    const projectRoot: string
    /** The YAML library: front matter text to its fields, None on error. */
    const parseMeta: string -> Option<Meta>
    /** The same library decoding into reloadOverride's three-field struct. */
    const parseReload: string -> Option<ReloadMeta>

    // the registry and its persisted form
    var overrides: seq<Override>
    var applied: set<string>
    var envFile: EnvFile

    // the screen
    var currentPanelIdx: int
    var availableCursor: int
    var appliedCursor: int
    var helpOpen: bool
    var inputOpen: bool
    var deleteOpen: bool
    var renameOpen: bool
    var renameTarget: Option<Override>
    var stopped: bool

    /** The folder override folders live in. */
    function OverridesPath(): string
    {
      ExpandPath(overridesDir, home, projectRoot)
    }

    function Available(): seq<Override>
      reads this
    {
      AvailableOf(overrides, applied)
    }

    function AppliedView(): seq<Override>
      reads this
    {
      AppliedOf(overrides, applied)
    }

    /** Everything but the cursors, which refreshAll puts back in range. */
    ghost predicate Consistent()
      reads this
    {
      0 <= currentPanelIdx < PanelCount &&
      0 <= availableCursor && 0 <= appliedCursor &&
      SortedByName(overrides) &&
      AtMostOne(helpOpen, inputOpen, deleteOpen, renameOpen) &&
      (renameOpen <==> renameTarget.Some?)
    }

    /** The rename target is an entry of the list, as Go's pointer into it
        is. Only the rename input needs it, so the key handlers keep it
        apart from Valid. */
    ghost predicate TargetListed()
      reads this
    {
      renameTarget.Some? ==> renameTarget.value in multiset(overrides)
    }

    ghost predicate Valid()
      reads this
    {
      Consistent() &&
      CursorFits(availableCursor, |Available()|) &&
      CursorFits(appliedCursor, |AppliedView()|)
    }

    function OpenOverlay(): Overlay
      reads this
    {
      if helpOpen then HelpOverlay
      else if inputOpen then NewOverrideInput
      else if deleteOpen then DeleteConfirm
      else if renameOpen && renameTarget.Some? then RenameInput(renameTarget.value)
      else NoOverlay
    }

    twostate predicate SameRegistry()
      reads this
    {
      overrides == old(overrides) && applied == old(applied) && envFile == old(envFile)
    }

    twostate predicate SameCursors()
      reads this
    {
      currentPanelIdx == old(currentPanelIdx) &&
      availableCursor == old(availableCursor) && appliedCursor == old(appliedCursor)
    }

    twostate predicate SameOverlays()
      reads this
    {
      helpOpen == old(helpOpen) && inputOpen == old(inputOpen) &&
      deleteOpen == old(deleteOpen) && renameOpen == old(renameOpen)
    }

    twostate predicate SameMode()
      reads this
    {
      helpOpen == old(helpOpen) && inputOpen == old(inputOpen) &&
      deleteOpen == old(deleteOpen) && renameOpen == old(renameOpen) &&
      renameTarget == old(renameTarget) && stopped == old(stopped)
    }

    /** The cursors stay where they were; the focus may move. */
    twostate predicate SameItems()
      reads this
    {
      availableCursor == old(availableCursor) && appliedCursor == old(appliedCursor)
    }

    /** What toggleOverride does: with an item under the focused cursor,
        its name joins the applied set (available panel) or leaves it
        (applied panel), the file is saved and both cursors are put back
        in range; with none, nothing changes. The list and the focus stay. */
    twostate predicate Toggled(writeOk: bool)
      requires old(Consistent())
      reads this
    {
      overrides == old(overrides) && currentPanelIdx == old(currentPanelIdx) &&
      if old(CanToggle()) then
        applied == (if old(currentPanelIdx) == AvailablePanel
                    then old(applied) + {old(Available()[availableCursor]).name}
                    else old(applied) - {old(AppliedView()[appliedCursor]).name}) &&
        envFile == AfterSave(old(envFile), envVarName, overrides, applied, writeOk) &&
        availableCursor == Clamped(old(availableCursor), |Available()|) &&
        appliedCursor == Clamped(old(appliedCursor), |AppliedView()|)
      else SameRegistry() && SameCursors()
    }

    /** What cursorDown does: the focused list's cursor goes one item down
        unless it is on the last one; nothing else changes. */
    twostate predicate MovedDown()
      reads this
    {
      SameRegistry() && currentPanelIdx == old(currentPanelIdx) &&
      availableCursor ==
        (if currentPanelIdx == AvailablePanel && old(availableCursor) < |Available()| - 1
         then old(availableCursor) + 1 else old(availableCursor)) &&
      appliedCursor ==
        (if currentPanelIdx == AppliedPanel && old(appliedCursor) < |AppliedView()| - 1
         then old(appliedCursor) + 1 else old(appliedCursor))
    }

    /** What cursorUp does: the focused list's cursor goes one item up
        unless it is on the first one; nothing else changes. */
    twostate predicate MovedUp()
      reads this
    {
      SameRegistry() && currentPanelIdx == old(currentPanelIdx) &&
      availableCursor ==
        (if currentPanelIdx == AvailablePanel && old(availableCursor) > 0
         then old(availableCursor) - 1 else old(availableCursor)) &&
      appliedCursor ==
        (if currentPanelIdx == AppliedPanel && old(appliedCursor) > 0
         then old(appliedCursor) - 1 else old(appliedCursor))
    }

    /** What openInEditor does: when something was selected and the editor
        ran, the first override of its name is replaced by its reload;
        otherwise the list stays. The applied set, the file, the focus and
        the cursors stay. */
    twostate predicate Edited(editorRuns: bool, applyMd: Option<string>, overrideYaml: Option<string>)
      reads this
    {
      SameCursors() && applied == old(applied) && envFile == old(envFile) &&
      if old(SelectedOverride()).Some? && editorRuns then
        var i := IndexOfName(old(overrides), old(SelectedOverride()).value.name);
        0 <= i &&
        overrides == old(overrides)[i := Reloaded(old(overrides)[i], applyMd, overrideYaml, parseReload)]
      else overrides == old(overrides)
    }

    /** What deleteSelectedOverride does: the selected override's name is
        no longer applied, the first override of that name leaves the list,
        the file is saved and both cursors are put back in range; with
        nothing selected, nothing changes. The focus stays. */
    twostate predicate Deleted(writeOk: bool)
      requires old(Consistent())
      reads this
    {
      currentPanelIdx == old(currentPanelIdx) &&
      if old(SelectedOverride()).Some? then
        var name := old(SelectedOverride()).value.name;
        var i := IndexOfName(old(overrides), name);
        0 <= i &&
        applied == old(applied) - {name} &&
        overrides == RemoveFirstNamed(old(overrides), name) &&
        multiset(overrides) == multiset(old(overrides)) - multiset{old(overrides)[i]} &&
        availableCursor == Clamped(old(availableCursor), |Available()|) &&
        appliedCursor == Clamped(old(appliedCursor), |AppliedView()|) &&
        envFile == AfterSave(old(envFile), envVarName, overrides, applied, writeOk)
      else SameRegistry() && SameCursors()
    }

    /** What createNewOverride does: when the folder can be made, the new
        override joins the list and both cursors are put back in range;
        otherwise nothing changes. The applied set, the file and the focus
        stay. */
    twostate predicate Created(name: ByteString, mkdirOk: bool)
      requires old(Consistent())
      reads this
    {
      applied == old(applied) && envFile == old(envFile) && currentPanelIdx == old(currentPanelIdx) &&
      if mkdirOk then
        multiset(overrides) == multiset(old(overrides)) + multiset{NewOverride(name, JoinPath(OverridesPath(), name))} &&
        availableCursor == Clamped(old(availableCursor), |Available()|) &&
        appliedCursor == Clamped(old(appliedCursor), |AppliedView()|)
      else overrides == old(overrides) && SameCursors()
    }

    /** What a successful renameSelectedOverride does to the registry: the
        target `t` becomes the override renamed to `newName`, the applied
        set follows the name, the file is saved and both cursors are put
        back in range. The focus stays. */
    twostate predicate RenameCommitted(t: Override, newName: ByteString, writeOk: bool)
      requires old(Consistent())
      reads this
    {
      currentPanelIdx == old(currentPanelIdx) &&
      applied == RenameApplied(old(applied), t.name, newName) &&
      multiset(overrides) == RenamedMultiset(old(overrides), t, newName) &&
      availableCursor == Clamped(old(availableCursor), |Available()|) &&
      appliedCursor == Clamped(old(appliedCursor), |AppliedView()|) &&
      envFile == AfterSave(old(envFile), envVarName, overrides, applied, writeOk)
    }

    /** What a key of the main screen does to the registry and the cursors
        (the focus, the overlay and the stop flag are stated apart): Enter
        and Space toggle, j and k move the cursor, e and E edit and reload,
        and every other key keeps the list, the applied set, the file and
        both cursors. */
    twostate predicate MainKeyDone(key: Key, w: World)
      requires old(Consistent())
      reads this
    {
      if key == Enter || key == Rune(' ') then Toggled(w.writeOk)
      else if key == Rune('j') then MovedDown()
      else if key == Rune('k') then MovedUp()
      else if key == Rune('e') || key == Rune('E') then Edited(w.editorRuns, w.applyMd, w.overrideYaml)
      else SameRegistry() && SameItems()
    }

    /** What a key does to the registry and the cursors while overlay `m`
        is open: Enter in the new-override input creates the override named
        by the trimmed text when that is not blank, Enter in the delete
        confirmation deletes the selected override, and Enter in the rename
        input renames the target when the trimmed text is not blank, is not
        its name and the folder rename succeeds. Every other key keeps the
        registry, the focus and the cursors. */
    twostate predicate OverlayKeyDone(m: Overlay, key: Key, w: World)
      requires old(Consistent())
      reads this
    {
      var n := TrimSpace(w.fieldText);
      match m
      case NewOverrideInput =>
        if key == Enter && n != "" then Created(n, w.mkdirOk) else SameRegistry() && SameCursors()
      case DeleteConfirm =>
        if key == Enter then Deleted(w.writeOk) else SameRegistry() && SameCursors()
      case RenameInput(t) =>
        if key == Enter && n != "" && n != t.name && w.renameOk
        then RenameCommitted(t, n, w.writeOk) else SameRegistry() && SameCursors()
      case _ => SameRegistry() && SameCursors()
    }

    /** A fresh App as main builds it: nothing loaded, nothing applied,
        the available panel focused, no overlay. */
    constructor (envVarName: string, overridesDir: string, home: string, projectRoot: string,
                 parseMeta: string -> Option<Meta>, parseReload: string -> Option<ReloadMeta>, envFile: EnvFile)
      ensures this.envVarName == envVarName && this.overridesDir == overridesDir
      ensures this.home == home && this.projectRoot == projectRoot
      ensures this.parseMeta == parseMeta && this.parseReload == parseReload
      ensures overrides == [] && applied == {} && this.envFile == envFile
      ensures currentPanelIdx == AvailablePanel && availableCursor == 0 && appliedCursor == 0
      ensures OpenOverlay() == NoOverlay && !stopped
      ensures Valid()
    {
      this.envVarName := envVarName;
      this.overridesDir := overridesDir;
      this.home := home;
      this.projectRoot := projectRoot;
      this.parseMeta := parseMeta;
      this.parseReload := parseReload;
      overrides := [];
      applied := {};
      this.envFile := envFile;
      currentPanelIdx := AvailablePanel;
      availableCursor := 0;
      appliedCursor := 0;
      helpOpen := false;
      inputOpen := false;
      deleteOpen := false;
      renameOpen := false;
      renameTarget := None;
      stopped := false;
    }

    /** loadOverrides: appends an override for each folder of the listing
        that has an apply.md, then sorts the list by name. A listing that
        cannot be read (None) is an error and changes nothing. */
    method LoadOverrides(entries: Option<seq<DirEntry>>) returns (ok: bool)
      modifies this
      ensures ok <==> entries.Some?
      ensures !ok ==> overrides == old(overrides)
      ensures ok ==> SortedByName(overrides)
      ensures ok ==> multiset(overrides) == multiset(old(overrides)) + multiset(Loaded(OverridesPath(), entries.value, parseMeta))
      ensures applied == old(applied) && envFile == old(envFile) && SameCursors() && SameMode()
    {
      if entries.None? {
        return false;
      }
      var loaded := LoadAll(OverridesPath(), entries.value, parseMeta);
      overrides := SortByName(overrides + loaded);
      return true;
    }

    /** loadPersistedState: adds the names stored in the environment file
        to the applied set. On an error (the file cannot be read, the value
        is not base64) the set is left as it was. */
    method LoadPersistedState() returns (err: Option<LoadError>)
      modifies this
      ensures LoadNames(envFile, envVarName).Ok? ==>
        err == None && applied == old(applied) + LoadNames(envFile, envVarName).value
      ensures LoadNames(envFile, envVarName).Err? ==>
        err == Some(LoadNames(envFile, envVarName).error) && applied == old(applied)
      ensures overrides == old(overrides) && envFile == old(envFile) && SameCursors() && SameMode()
    {
      if envFile.Missing? {
        return None;
      } else if envFile.Unreadable? {
        return Some(ReadFailed);
      }
      var r := ReadNames(envFile.lines, envVarName);
      if r.Err? {
        return Some(r.error);
      }
      applied := applied + r.value;
      return None;
    }

    /** getAvailableOverrides */
    method GetAvailableOverrides() returns (list: seq<Override>)
      ensures list == Available()
    {
      list := [];
      var i := 0;
      while i < |overrides|
        invariant 0 <= i <= |overrides|
        invariant list == AvailableOf(overrides[..i], applied)
      {
        PrefixSnoc(overrides, i);
        if overrides[i].name !in applied {
          list := list + [overrides[i]];
        }
        i := i + 1;
      }
      TakeAll(overrides);
    }

    /** getAppliedOverrides */
    method GetAppliedOverrides() returns (list: seq<Override>)
      ensures list == AppliedView()
    {
      list := [];
      var i := 0;
      while i < |overrides|
        invariant 0 <= i <= |overrides|
        invariant list == AppliedOf(overrides[..i], applied)
      {
        PrefixSnoc(overrides, i);
        if overrides[i].name in applied {
          list := list + [overrides[i]];
        }
        i := i + 1;
      }
      TakeAll(overrides);
    }

    /** buildOverrideString: one fragment per applied override, in registry
        order, joined by newlines. */
    method BuildOverrideString() returns (str: string)
      ensures str == OverrideString(overrides, applied)
    {
      var parts: seq<string> := [];
      var i := 0;
      while i < |overrides|
        invariant 0 <= i <= |overrides|
        invariant parts == Fragments(AppliedOf(overrides[..i], applied))
      {
        AppliedFragmentsSnoc(overrides, i, applied);
        if overrides[i].name in applied {
          var modulePath := overrides[i].modulePath;
          if modulePath == "" {
            modulePath := DefaultModuleDir + overrides[i].name;
          }
          var moduleName := overrides[i].moduleName;
          if moduleName == "" {
            moduleName := DefaultModule;
          }
          var fragment := overrides[i].overrideType + modulePath + "@" + overrides[i].block + "=" + moduleName;
          assert fragment == Fragment(overrides[i]) by {
            assert modulePath == ModulePathOf(overrides[i]) && moduleName == ModuleOf(overrides[i]);
          }
          parts := parts + [fragment];
        }
        i := i + 1;
      }
      TakeAll(overrides);
      str := Join(parts, "\n");
    }

    /** savePersistedState: rewrites the environment file with the user's
        own lines, the applied names and the override string. When the
        write fails the file stays as it was. */
    method SavePersistedState(writeOk: bool)
      modifies this
      ensures envFile == AfterSave(old(envFile), envVarName, overrides, applied, writeOk)
      ensures overrides == old(overrides) && applied == old(applied)
      ensures SameCursors() && SameMode()
    {
      var str := BuildOverrideString();
      var lines := AssembleSaved(envFile, envVarName, overrides, applied, str);
      if writeOk {
        envFile := Present(lines);
      }
    }

    /** getSelectedOverride: the item under the focused list's cursor, or,
        when that list is empty, the first override of the registry. */
    function SelectedOverride(): (r: Option<Override>)
      reads this
      ensures r.Some? <==> |overrides| > 0
      ensures r.Some? ==> r.value in overrides
      ensures currentPanelIdx == AvailablePanel && 0 <= availableCursor < |Available()| ==>
        r == Some(Available()[availableCursor])
      ensures currentPanelIdx == AppliedPanel && 0 <= appliedCursor < |AppliedView()| ==>
        r == Some(AppliedView()[appliedCursor])
    {
      if currentPanelIdx == AvailablePanel && 0 <= availableCursor < |Available()| then
        var o := Available()[availableCursor];
        Partition(overrides, applied, o);
        Some(o)
      else if currentPanelIdx == AppliedPanel && 0 <= appliedCursor < |AppliedView()| then
        var o := AppliedView()[appliedCursor];
        Partition(overrides, applied, o);
        Some(o)
      else if |overrides| > 0 then Some(overrides[0])
      else None
    }

    /** refreshAll: refills both lists from the registry; each cursor stays
        on its item while there is one, else moves to the last item. */
    method RefreshAll()
      requires Consistent()
      modifies this
      ensures Valid()
      ensures availableCursor == Clamped(old(availableCursor), |Available()|)
      ensures appliedCursor == Clamped(old(appliedCursor), |AppliedView()|)
      ensures SameRegistry() && SameMode() && currentPanelIdx == old(currentPanelIdx)
    {
      var available := GetAvailableOverrides();
      var a := availableCursor;
      if a >= |available| {
        a := |available| - 1;
      }
      if a < 0 {
        a := 0;
      }
      var appliedList := GetAppliedOverrides();
      var b := appliedCursor;
      if b >= |appliedList| {
        b := |appliedList| - 1;
      }
      if b < 0 {
        b := 0;
      }
      availableCursor, appliedCursor := a, b;
    }

    /** savePersistedState followed by refreshAll, as every change to the
        applied set ends. */
    method SaveAndRefresh(writeOk: bool)
      requires Consistent()
      modifies this
      ensures Valid()
      ensures envFile == AfterSave(old(envFile), envVarName, overrides, applied, writeOk)
      ensures overrides == old(overrides) && applied == old(applied)
      ensures availableCursor == Clamped(old(availableCursor), |Available()|)
      ensures appliedCursor == Clamped(old(appliedCursor), |AppliedView()|)
      ensures SameMode() && currentPanelIdx == old(currentPanelIdx)
    {
      SavePersistedState(writeOk);
      RefreshAll();
    }

    /** cursorDown: one item down in the focused list, stopping at the
        last item. */
    method CursorDown()
      requires Valid()
      modifies this
      ensures Valid() && SameMode() && MovedDown()
    {
      if currentPanelIdx == AvailablePanel {
        var count := |Available()|;
        if availableCursor < count - 1 {
          availableCursor := availableCursor + 1;
        }
      } else if currentPanelIdx == AppliedPanel {
        var count := |AppliedView()|;
        if appliedCursor < count - 1 {
          appliedCursor := appliedCursor + 1;
        }
      }
    }

    /** cursorUp: one item up in the focused list, stopping at the first. */
    method CursorUp()
      requires Valid()
      modifies this
      ensures Valid() && SameMode() && MovedUp()
    {
      if currentPanelIdx == AvailablePanel {
        if availableCursor > 0 {
          availableCursor := availableCursor - 1;
        }
      } else if currentPanelIdx == AppliedPanel {
        if appliedCursor > 0 {
          appliedCursor := appliedCursor - 1;
        }
      }
    }

    /** focusPanel: focuses panel `idx` when there is one; any other index
        is ignored. */
    method FocusPanel(idx: int)
      requires Valid()
      modifies this
      ensures Valid() && SameRegistry() && SameMode()
      ensures availableCursor == old(availableCursor) && appliedCursor == old(appliedCursor)
      ensures currentPanelIdx == if 0 <= idx < PanelCount then idx else old(currentPanelIdx)
    {
      if 0 <= idx < PanelCount {
        currentPanelIdx := idx;
      }
    }

    /** nextPanel: the focus moves on, wrapping from the last panel to the
        first. */
    method NextPanel()
      requires Valid()
      modifies this
      ensures Valid() && SameRegistry() && SameMode()
      ensures availableCursor == old(availableCursor) && appliedCursor == old(appliedCursor)
      ensures currentPanelIdx == NextPanelIndex(old(currentPanelIdx))
    {
      currentPanelIdx := (currentPanelIdx + 1) % PanelCount;
    }

    /** prevPanel: the focus moves back, wrapping from the first panel to
        the last. */
    method PrevPanel()
      requires Valid()
      modifies this
      ensures Valid() && SameRegistry() && SameMode()
      ensures availableCursor == old(availableCursor) && appliedCursor == old(appliedCursor)
      ensures currentPanelIdx == PrevPanelIndex(old(currentPanelIdx))
    {
      currentPanelIdx := (currentPanelIdx - 1 + PanelCount) % PanelCount;
    }

    /** Whether toggleOverride finds an item under the focused cursor. */
    function CanToggle(): bool
      reads this
    {
      (currentPanelIdx == AvailablePanel && 0 <= availableCursor < |Available()|) ||
      (currentPanelIdx == AppliedPanel && 0 <= appliedCursor < |AppliedView()|)
    }

    /** toggleOverride: applies the override under the cursor of the
        available list, or removes the one under the cursor of the applied
        list, then saves and refreshes. With nothing under the cursor it
        does nothing. */
    method ToggleOverride(writeOk: bool)
      requires Valid()
      modifies this
      ensures Valid() && SameMode() && Toggled(writeOk)
    {
      if currentPanelIdx == AvailablePanel {
        var idx := availableCursor;
        var available := GetAvailableOverrides();
        if 0 <= idx < |available| {
          applied := applied + {available[idx].name};
          SaveAndRefresh(writeOk);
        }
      } else if currentPanelIdx == AppliedPanel {
        var idx := appliedCursor;
        var appliedList := GetAppliedOverrides();
        if 0 <= idx < |appliedList| {
          applied := applied - {appliedList[idx].name};
          SaveAndRefresh(writeOk);
        }
      }
    }

    /** reloadOverride: re-reads the files of the first override with that
        name; the list keeps its names, so its order and both views keep
        their sizes. */
    method ReloadOverride(name: string, applyMd: Option<string>, overrideYaml: Option<string>)
      requires Valid()
      modifies this
      ensures Valid() && SameMode() && SameCursors()
      ensures applied == old(applied) && envFile == old(envFile)
      ensures var i := IndexOfName(old(overrides), name);
        overrides == if i < 0 then old(overrides)
                     else old(overrides)[i := Reloaded(old(overrides)[i], applyMd, overrideYaml, parseReload)]
    {
      var i := FindName(overrides, name);
      if 0 <= i {
        var o := Reloaded(overrides[i], applyMd, overrideYaml, parseReload);
        ReplaceSameNameKeepsSorted(overrides, i, o);
        ReplaceSameNameViews(overrides, i, o, applied);
        overrides := overrides[i := o];
      }
    }

    /** openInEditor: when something is selected and an editor could be
        run on the file, the selected override is reloaded afterwards. */
    method OpenInEditor(editorRuns: bool, applyMd: Option<string>, overrideYaml: Option<string>)
      requires Valid()
      modifies this
      ensures Valid() && SameMode() && Edited(editorRuns, applyMd, overrideYaml)
    {
      var selected := SelectedOverride();
      if selected.None? || !editorRuns {
        return;
      }
      ReloadOverride(selected.value.name, applyMd, overrideYaml);
    }

    /** showHelp */
    method ShowHelp()
      requires Valid() && OpenOverlay() == NoOverlay
      modifies this
      ensures Valid() && SameRegistry() && SameCursors()
      ensures OpenOverlay() == HelpOverlay && stopped == old(stopped)
    {
      helpOpen := true;
    }

    /** closeHelp */
    method CloseHelp()
      requires Valid()
      modifies this
      ensures Valid() && SameRegistry() && SameCursors() && stopped == old(stopped)
      ensures !helpOpen && inputOpen == old(inputOpen) && deleteOpen == old(deleteOpen)
      ensures renameOpen == old(renameOpen) && renameTarget == old(renameTarget)
    {
      helpOpen := false;
    }

    /** showNewOverrideInput */
    method ShowNewOverrideInput()
      requires Valid() && OpenOverlay() == NoOverlay
      modifies this
      ensures Valid() && SameRegistry() && SameCursors()
      ensures OpenOverlay() == NewOverrideInput && stopped == old(stopped)
    {
      inputOpen := true;
    }

    /** closeInput */
    method CloseInput()
      requires Valid()
      modifies this
      ensures Valid() && SameRegistry() && SameCursors() && stopped == old(stopped)
      ensures !inputOpen && helpOpen == old(helpOpen) && deleteOpen == old(deleteOpen)
      ensures renameOpen == old(renameOpen) && renameTarget == old(renameTarget)
    {
      inputOpen := false;
    }

    /** showDeleteConfirmation: only when something is selected. */
    method ShowDeleteConfirmation()
      requires Valid() && OpenOverlay() == NoOverlay
      modifies this
      ensures Valid() && SameRegistry() && SameCursors() && stopped == old(stopped)
      ensures OpenOverlay() == if SelectedOverride().Some? then DeleteConfirm else NoOverlay
    {
      var selected := SelectedOverride();
      if selected.None? {
        return;
      }
      deleteOpen := true;
    }

    /** closeDeleteConfirmation */
    method CloseDeleteConfirmation()
      requires Valid()
      modifies this
      ensures Valid() && SameRegistry() && SameCursors() && stopped == old(stopped)
      ensures !deleteOpen && helpOpen == old(helpOpen) && inputOpen == old(inputOpen)
      ensures renameOpen == old(renameOpen) && renameTarget == old(renameTarget)
    {
      deleteOpen := false;
    }

    /** showRenameInput: only when something is selected, which becomes
        the rename target. */
    method ShowRenameInput()
      requires Valid() && OpenOverlay() == NoOverlay
      modifies this
      ensures TargetListed()
      ensures Valid() && SameRegistry() && SameCursors() && stopped == old(stopped)
      ensures OpenOverlay() == match SelectedOverride()
                               case Some(o) => RenameInput(o)
                               case None => NoOverlay
    {
      var selected := SelectedOverride();
      if selected.None? {
        return;
      }
      renameOpen := true;
      renameTarget := selected;
    }

    /** closeRenameInput: also forgets the rename target. */
    method CloseRenameInput()
      requires Consistent()
      modifies this
      ensures Consistent() && SameRegistry() && SameCursors() && stopped == old(stopped)
      ensures Valid() <==> old(Valid())
      ensures !renameOpen && renameTarget == None
      ensures helpOpen == old(helpOpen) && inputOpen == old(inputOpen) && deleteOpen == old(deleteOpen)
    {
      renameOpen := false;
      renameTarget := None;
    }

    /** deleteSelectedOverride: the selected override's name is no longer
        applied, the first override of that name leaves the list (its
        folder is removed from disk), then the state is saved and the lists
        refreshed. */
    method DeleteSelectedOverride(writeOk: bool)
      requires Valid()
      modifies this
      ensures Valid() && SameMode() && Deleted(writeOk)
    {
      var selected := SelectedOverride();
      if selected.None? {
        return;
      }
      var name := selected.value.name;
      applied := applied - {name};
      var rest := RemoveNamed(overrides, name);
      RemoveFirstNamedSpec(overrides, name);
      overrides := rest;
      SaveAndRefresh(writeOk);
    }

    /** renameSelectedOverride: when the folder rename succeeds, the target
        takes the new name and the folder of that name beside the old one,
        the applied set follows the name, the list is sorted again, saved
        and refreshed. */
    method RenameSelectedOverride(newName: ByteString, renameOk: bool, writeOk: bool)
      requires Valid() && TargetListed()
      modifies this
      ensures Valid() && TargetListed() && currentPanelIdx == old(currentPanelIdx) && stopped == old(stopped)
      ensures helpOpen == old(helpOpen) && inputOpen == old(inputOpen)
      ensures deleteOpen == old(deleteOpen) && renameOpen == old(renameOpen)
      ensures old(renameTarget).None? || !renameOk ==>
        SameRegistry() && SameCursors() && renameTarget == old(renameTarget)
      ensures old(renameTarget).Some? && renameOk ==>
        renameTarget == Some(Renamed(old(renameTarget).value, newName)) &&
        RenameCommitted(old(renameTarget).value, newName, writeOk)
    {
      if renameTarget.None? {
        return;
      }
      if !renameOk {
        return;
      }
      CommitRename(renameTarget.value, newName, writeOk);
    }

    /** The part of renameSelectedOverride after the folder was renamed:
        the target is found in the list by value and the entry equal to it
        replaced by the renamed override. */
    method CommitRename(t: Override, newName: ByteString, writeOk: bool)
      requires Valid() && renameTarget == Some(t) && t in multiset(overrides)
      modifies this
      ensures Valid() && TargetListed() && currentPanelIdx == old(currentPanelIdx) && stopped == old(stopped)
      ensures helpOpen == old(helpOpen) && inputOpen == old(inputOpen)
      ensures deleteOpen == old(deleteOpen) && renameOpen == old(renameOpen)
      ensures renameTarget == Some(Renamed(t, newName)) && RenameCommitted(t, newName, writeOk)
    {
      var sorted := RenameInList(overrides, t, newName);
      RenamedIsListed(overrides, t, newName, sorted);
      StoreRename(sorted, RenameApplied(applied, t.name, newName), Renamed(t, newName));
      SaveAndRefresh(writeOk);
    }

    /** The renamed list, applied set and target take their places; the
        cursors wait for the refresh. */
    method StoreRename(list: seq<Override>, newApplied: set<string>, target: Override)
      requires Consistent() && renameOpen
      requires SortedByName(list) && target in multiset(list)
      modifies this
      ensures Consistent() && TargetListed() && SameCursors() && envFile == old(envFile)
      ensures overrides == list && applied == newApplied && renameTarget == Some(target)
      ensures SameOverlays() && stopped == old(stopped)
    {
      overrides, applied, renameTarget := list, newApplied, Some(target);
    }

    /** createNewOverride: when the folder can be made, an override of that
        name with the template apply.md joins the list, which is sorted
        again and refreshed. The state is not saved: the new override is
        not applied. */
    method CreateNewOverride(name: ByteString, mkdirOk: bool)
      requires Valid()
      modifies this
      ensures Valid() && SameMode() && Created(name, mkdirOk)
    {
      var dir := OverridesPath();
      var overridePath := JoinPath(dir, name);
      if !mkdirOk {
        return;
      }
      var o := NewOverride(name, overridePath);
      var list := SortByName(overrides + [o]);
      overrides := list;
      RefreshAll();
    }

    /** The new-override input's done handler: Enter creates an override
        named by the trimmed text when that is not blank; every key that
        ends the input closes it. */
    method NewOverrideDone(key: Key, text: ByteString, mkdirOk: bool)
      requires Valid() && OpenOverlay() == NewOverrideInput
      modifies this
      ensures Valid() && OpenOverlay() == NoOverlay && stopped == old(stopped)
      ensures if key == Enter && TrimSpace(text) != "" then Created(TrimSpace(text), mkdirOk)
              else SameRegistry() && SameCursors()
    {
      if key == Enter {
        TrimSpaceBytes(text);
        var name: ByteString := TrimSpace(text);
        if name != "" {
          CreateNewOverride(name, mkdirOk);
        }
      }
      CloseInput();
    }

    /** The rename input's done handler: Enter renames the target to the
        trimmed text when that is not blank and differs from its name;
        every key that ends the input closes it. */
    method RenameDone(key: Key, text: ByteString, renameOk: bool, writeOk: bool)
      requires Valid() && TargetListed() && OpenOverlay().RenameInput?
      modifies this
      ensures Valid() && OpenOverlay() == NoOverlay && stopped == old(stopped)
      ensures var t := old(renameTarget).value; var n := TrimSpace(text);
        if key == Enter && n != "" && n != t.name && renameOk then RenameCommitted(t, n, writeOk)
        else SameRegistry() && SameCursors()
    {
      if key == Enter {
        TrimSpaceBytes(text);
        var newName: ByteString := TrimSpace(text);
        if newName != "" && newName != renameTarget.value.name {
          RenameSelectedOverride(newName, renameOk, writeOk);
        }
      }
      CloseRenameInput();
    }

    /** The key handler: an open overlay sees the keys first and the main
        screen only the keys no overlay is open for. */
    method HandleKey(key: Key, w: World)
      requires Valid() && TargetListed()
      modifies this
      ensures Valid() && TargetListed()
      ensures OpenOverlay() == NextOverlay(old(OpenOverlay()), key, old(SelectedOverride()))
      ensures stopped == (old(stopped) || (old(OpenOverlay()) == NoOverlay && key in {Esc, Rune('q')}))
      ensures currentPanelIdx ==
        if old(OpenOverlay()) == NoOverlay then PanelAfter(old(currentPanelIdx), key) else old(currentPanelIdx)
      ensures old(OpenOverlay()) == NoOverlay ==> MainKeyDone(key, w)
      ensures old(OpenOverlay()) != NoOverlay ==> OverlayKeyDone(old(OpenOverlay()), key, w)
      ensures applied != old(applied) || envFile != old(envFile) ==> key in {Enter, Rune(' ')}
      ensures overrides != old(overrides) ==> key in {Enter, Rune('e'), Rune('E')}
    {
      if OpenOverlay() == NoOverlay {
        HandleMainKey(key, w);
      } else {
        HandleOverlayKey(key, w);
      }
    }

    /** The keys an open overlay sees: the help and the delete confirmation
        close on Esc and q (Enter deletes first), the inputs end on Esc,
        Enter, Tab and Backtab. */
    method HandleOverlayKey(key: Key, w: World)
      requires Valid() && TargetListed() && OpenOverlay() != NoOverlay
      modifies this
      ensures Valid() && TargetListed()
      ensures OpenOverlay() == NextOverlay(old(OpenOverlay()), key, old(SelectedOverride()))
      ensures stopped == old(stopped) && currentPanelIdx == old(currentPanelIdx)
      ensures OverlayKeyDone(old(OpenOverlay()), key, w)
    {
      if helpOpen || inputOpen {
        HandleHelpOrInputKey(key, w);
      } else {
        HandleDeleteOrRenameKey(key, w);
      }
    }

    /** The help closes on Esc and q; the new-override input ends on Esc,
        Enter, Tab and Backtab. */
    method HandleHelpOrInputKey(key: Key, w: World)
      requires Valid() && TargetListed() && (helpOpen || inputOpen)
      modifies this
      ensures Valid() && TargetListed()
      ensures OpenOverlay() == NextOverlay(old(OpenOverlay()), key, old(SelectedOverride()))
      ensures stopped == old(stopped) && currentPanelIdx == old(currentPanelIdx)
      ensures OverlayKeyDone(old(OpenOverlay()), key, w)
    {
      if helpOpen {
        if key == Esc || key == Rune('q') {
          CloseHelp();
        }
      } else {
        if key == Esc {
          CloseInput();
        } else if key in {Enter, Tab, Backtab} {
          NewOverrideDone(key, w.fieldText, w.mkdirOk);
        }
      }
    }

    /** The delete confirmation closes on Esc and q, and on Enter after
        deleting; the rename input ends on Esc, Enter, Tab and Backtab. */
    method HandleDeleteOrRenameKey(key: Key, w: World)
      requires Valid() && TargetListed() && (deleteOpen || renameOpen)
      modifies this
      ensures Valid() && TargetListed()
      ensures OpenOverlay() == NextOverlay(old(OpenOverlay()), key, old(SelectedOverride()))
      ensures stopped == old(stopped) && currentPanelIdx == old(currentPanelIdx)
      ensures OverlayKeyDone(old(OpenOverlay()), key, w)
    {
      if deleteOpen {
        HandleDeleteKey(key, w.writeOk);
      } else {
        HandleRenameKey(key, w);
      }
    }

    /** The delete confirmation closes on Esc and q, and on Enter after
        deleting. */
    method HandleDeleteKey(key: Key, writeOk: bool)
      requires Valid() && deleteOpen
      modifies this
      ensures Valid() && renameTarget == None && OpenOverlay() == NextOverlay(DeleteConfirm, key, None)
      ensures stopped == old(stopped) && currentPanelIdx == old(currentPanelIdx)
      ensures if key == Enter then Deleted(writeOk) else SameRegistry() && SameCursors()
    {
      if key == Esc || key == Rune('q') {
        CloseDeleteConfirmation();
      } else if key == Enter {
        DeleteSelectedOverride(writeOk);
        CloseDeleteConfirmation();
      }
    }

    /** The rename input ends on Esc, Enter, Tab and Backtab. */
    method HandleRenameKey(key: Key, w: World)
      requires Valid() && TargetListed() && renameOpen
      modifies this
      ensures Valid() && TargetListed()
      ensures OpenOverlay() == NextOverlay(old(OpenOverlay()), key, None)
      ensures stopped == old(stopped) && currentPanelIdx == old(currentPanelIdx)
      ensures OverlayKeyDone(old(OpenOverlay()), key, w)
    {
      if key == Esc {
        CloseRenameInput();
      } else if key in {Enter, Tab, Backtab} {
        RenameDone(key, w.fieldText, w.renameOk, w.writeOk);
      }
    }

    /** The keys of the main screen. */
    method HandleMainKey(key: Key, w: World)
      requires Valid() && OpenOverlay() == NoOverlay
      modifies this
      ensures Valid() && TargetListed()
      ensures OpenOverlay() == NextOverlay(NoOverlay, key, old(SelectedOverride()))
      ensures stopped == (old(stopped) || key in {Esc, Rune('q')})
      ensures currentPanelIdx == PanelAfter(old(currentPanelIdx), key)
      ensures MainKeyDone(key, w)
    {
      if key.Rune? {
        if key.c in {'q', '1', '2', 'h', 'l', 'j', 'k'} {
          HandleMoveRune(key.c, w);
        } else {
          HandleActionRune(key.c, w);
        }
      } else {
        HandleSpecialKey(key, w);
      }
    }

    /** The main screen's keys that are not characters: Enter toggles. */
    method HandleSpecialKey(key: Key, w: World)
      requires Valid() && OpenOverlay() == NoOverlay && !key.Rune?
      modifies this
      ensures Valid() && OpenOverlay() == NoOverlay == NextOverlay(NoOverlay, key, old(SelectedOverride()))
      ensures stopped == (old(stopped) || key == Esc)
      ensures currentPanelIdx == PanelAfter(old(currentPanelIdx), key)
      ensures MainKeyDone(key, w)
    {
      if key == Enter {
        OpensOverlay(key, SelectedOverride());
        ToggleOverride(w.writeOk);
      } else {
        HandleFocusKey(key);
      }
    }

    /** Tab and Right focus the next panel, Backtab and Left the previous
        one, and Esc quits. */
    method HandleFocusKey(key: Key)
      requires Valid() && OpenOverlay() == NoOverlay && !key.Rune? && key != Enter
      modifies this
      ensures Valid() && OpenOverlay() == NoOverlay == NextOverlay(NoOverlay, key, old(SelectedOverride()))
      ensures stopped == (old(stopped) || key == Esc)
      ensures currentPanelIdx == PanelAfter(old(currentPanelIdx), key)
      ensures SameRegistry() && SameItems()
    {
      OpensOverlay(key, SelectedOverride());
      match key
      case Tab => NextPanel();
      case Backtab => PrevPanel();
      case Left => PrevPanel();
      case Right => NextPanel();
      case Esc => stopped := true;
      case OtherKey =>
    }

    /** The main screen's keys that quit, move the focus or move a cursor:
        j and k move the cursor. */
    method HandleMoveRune(c: char, w: World)
      requires Valid() && OpenOverlay() == NoOverlay
      requires c in {'q', '1', '2', 'h', 'l', 'j', 'k'}
      modifies this
      ensures Valid() && OpenOverlay() == NoOverlay == NextOverlay(NoOverlay, Rune(c), old(SelectedOverride()))
      ensures stopped == (old(stopped) || c == 'q')
      ensures currentPanelIdx == PanelAfter(old(currentPanelIdx), Rune(c))
      ensures MainKeyDone(Rune(c), w)
    {
      OpensOverlay(Rune(c), SelectedOverride());
      if c == 'j' {
        CursorDown();
      } else if c == 'k' {
        CursorUp();
      } else {
        HandleFocusRune(c);
      }
    }

    /** q quits, 1 and 2 focus a panel, h and l the previous and the next
        one. */
    method HandleFocusRune(c: char)
      requires Valid() && OpenOverlay() == NoOverlay
      requires c in {'q', '1', '2', 'h', 'l'}
      modifies this
      ensures Valid() && OpenOverlay() == NoOverlay
      ensures stopped == (old(stopped) || c == 'q')
      ensures currentPanelIdx == PanelAfter(old(currentPanelIdx), Rune(c))
      ensures SameRegistry() && SameItems()
    {
      if c == 'q' {
        stopped := true;
      } else if c == '1' {
        FocusPanel(AvailablePanel);
      } else if c == '2' {
        FocusPanel(AppliedPanel);
      } else if c == 'h' {
        PrevPanel();
      } else {
        NextPanel();
      }
    }

    /** The main screen's keys that act on overrides or open an overlay. */
    method HandleActionRune(c: char, w: World)
      requires Valid() && OpenOverlay() == NoOverlay
      requires c !in {'q', '1', '2', 'h', 'l', 'j', 'k'}
      modifies this
      ensures Valid() && TargetListed()
      ensures OpenOverlay() == NextOverlay(NoOverlay, Rune(c), old(SelectedOverride()))
      ensures stopped == old(stopped) && currentPanelIdx == old(currentPanelIdx)
      ensures MainKeyDone(Rune(c), w)
    {
      if c == ' ' || c == 'e' || c == 'E' {
        HandleEditRune(c, w);
      } else {
        HandleOverlayRune(c);
      }
    }

    /** Space toggles the selected override; e and E open it in the editor
        and reload it. */
    method HandleEditRune(c: char, w: World)
      requires Valid() && OpenOverlay() == NoOverlay
      requires c in {' ', 'e', 'E'}
      modifies this
      ensures Valid() && OpenOverlay() == NoOverlay && renameTarget == None
      ensures stopped == old(stopped) && currentPanelIdx == old(currentPanelIdx)
      ensures if c == ' ' then Toggled(w.writeOk) else Edited(w.editorRuns, w.applyMd, w.overrideYaml)
    {
      if c == ' ' {
        ToggleOverride(w.writeOk);
      } else {
        OpenInEditor(w.editorRuns, w.applyMd, w.overrideYaml);
      }
    }

    /** ? opens the help, n the new-override input, and d and r the delete
        confirmation and the rename input when something is selected. */
    method HandleOverlayRune(c: char)
      requires Valid() && OpenOverlay() == NoOverlay
      requires c !in {'q', '1', '2', 'h', 'l', 'j', 'k', ' ', 'e', 'E'}
      modifies this
      ensures Valid() && TargetListed()
      ensures OpenOverlay() == NextOverlay(NoOverlay, Rune(c), old(SelectedOverride()))
      ensures SameRegistry() && SameCursors() && stopped == old(stopped)
    {
      if c == '?' {
        ShowHelp();
      } else if c == 'n' {
        ShowNewOverrideInput();
      } else if c == 'd' {
        ShowDeleteConfirmation();
      } else if c == 'r' {
        ShowRenameInput();
      }
    }
  }

  /** main: the App is built, the override folders loaded (a listing that
      cannot be read ends the program), the persisted state loaded (an
      error there is only a warning) and both lists filled. */
  method Launch(envVarName: string, overridesDir: string, home: string, projectRoot: string,
                parseMeta: string -> Option<Meta>, parseReload: string -> Option<ReloadMeta>,
                entries: Option<seq<DirEntry>>, envFile: EnvFile)
    returns (app: App?, warning: Option<LoadError>)
    ensures entries.None? <==> app == null
    ensures app != null ==>
      fresh(app) && app.Valid() && app.TargetListed() && app.OpenOverlay() == NoOverlay && !app.stopped &&
      app.currentPanelIdx == AvailablePanel && app.availableCursor == 0 && app.appliedCursor == 0 &&
      app.envFile == envFile &&
      multiset(app.overrides) == multiset(Loaded(app.OverridesPath(), entries.value, parseMeta)) &&
      app.applied == (match LoadNames(envFile, envVarName) case Ok(ns) => ns case Err(_) => {}) &&
      warning == (match LoadNames(envFile, envVarName) case Ok(_) => None case Err(e) => Some(e))
  {
    app := new App(envVarName, overridesDir, home, projectRoot, parseMeta, parseReload, envFile);
    var ok := app.LoadOverrides(entries);
    if !ok {
      return null, None;
    }
    warning := app.LoadPersistedState();
    app.RefreshAll();
  }
}
