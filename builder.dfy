/** The override string: one Hydra override per applied override, in
    registry order, `<type><module path>@<block>=<module>`, one per line. */
module Builder {
  import opened GoStrings
  import opened Seqs
  import opened Registry

  const DefaultModuleDir: string := "overrides/"
  const DefaultModule: string := "override"

  /** The config group path: the override's own module_path, or
      `overrides/<name>` when it has none. */
  function ModulePathOf(o: Override): string
  {
    if o.modulePath == "" then DefaultModuleDir + o.name else o.modulePath
  }

  /** The option name: the override's own module, or `override`. */
  function ModuleOf(o: Override): (r: string)
    ensures r != ""
  {
    if o.moduleName == "" then DefaultModule else o.moduleName
  }

  /** The Hydra override for one override: key `<type><path>@<block>`,
      value `<module>`. */
  function Fragment(o: Override): string
  {
    o.overrideType + ModulePathOf(o) + "@" + o.block + "=" + ModuleOf(o)
  }

  /** The fragments of a list, in its order. */
  function Fragments(s: seq<Override>): (r: seq<string>)
    ensures |r| == |s|
    ensures forall i | 0 <= i < |s| :: r[i] == Fragment(s[i])
    decreases |s|
  {
    if s == [] then [] else Fragments(s[..|s| - 1]) + [Fragment(s[|s| - 1])]
  }

  /** buildOverrideString: the fragments of the applied overrides, in
      registry order, joined by newlines. */
  function OverrideString(s: seq<Override>, applied: set<string>): string
  {
    Join(Fragments(AppliedOf(s, applied)), "\n")
  }

  /** A field that holds none of the separators the override syntax uses. */
  predicate Plain(f: string)
  {
    '@' !in f && '=' !in f && '\n' !in f
  }

  /** The fragment reads back as its fields: split at `=` it gives the key
      and the module, and the key split at `@` gives the config group
      (type and path) and the package (block). */
  lemma FragmentFields(o: Override)
    requires Plain(o.overrideType) && Plain(ModulePathOf(o)) && Plain(o.block) && Plain(ModuleOf(o))
    ensures var key := o.overrideType + ModulePathOf(o) + "@" + o.block;
      Split(Fragment(o), '=') == [key, ModuleOf(o)] &&
      Split(key, '@') == [o.overrideType + ModulePathOf(o), o.block]
  {
    var group := o.overrideType + ModulePathOf(o);
    var key := group + "@" + o.block;
    assert '@' !in group;
    assert '=' !in key;
    assert Join([key, ModuleOf(o)], "=") == Fragment(o);
    SplitJoin([key, ModuleOf(o)], '=');
    assert Join([group, o.block], "@") == key;
    SplitJoin([group, o.block], '@');
  }

  /** The override string is empty exactly when no override of the
      registry is applied. */
  lemma OverrideStringEmpty(s: seq<Override>, applied: set<string>)
    ensures OverrideString(s, applied) == "" <==> forall i | 0 <= i < |s| :: s[i].name !in applied
  {
    var a := AppliedOf(s, applied);
    if a != [] {
      Partition(s, applied, a[0]);
      assert a[0] in a;
      assert |Fragment(a[0])| > 0;
      JoinStartsWithFirst(Fragments(a), "\n");
    } else {
      forall i | 0 <= i < |s|
        ensures s[i].name !in applied
      {
        Partition(s, applied, s[i]);
      }
    }
  }

  /** When no field holds a newline, the lines of the override string are
      the fragments of the applied overrides, one each, in registry order. */
  lemma OverrideStringLines(s: seq<Override>, applied: set<string>)
    requires forall i | 0 <= i < |s| :: '\n' !in Fragment(s[i])
    requires exists i | 0 <= i < |s| :: s[i].name in applied
    ensures Split(OverrideString(s, applied), '\n') == Fragments(AppliedOf(s, applied))
  {
    var a := AppliedOf(s, applied);
    OverrideStringEmpty(s, applied);
    assert a != [];
    forall i | 0 <= i < |a|
      ensures '\n' !in Fragments(a)[i]
    {
      Partition(s, applied, a[i]);
      assert a[i] in a;
    }
    SplitJoin(Fragments(a), '\n');
  }

  /** The override string depends only on which names of the registry are
      applied, not on how the applied set came about (toggle order, names
      applied that have no override). */
  lemma OverrideStringOfSameNames(s: seq<Override>, a: set<string>, b: set<string>)
    requires forall i | 0 <= i < |s| :: (s[i].name in a <==> s[i].name in b)
    ensures OverrideString(s, a) == OverrideString(s, b)
  {
    FilterCongruent(s, (o: Override) => o.name in a, (o: Override) => o.name in b);
  }

  /** Two applied overrides without module fields, in registry order: one
      line each, with the default module path and module, joined by a
      newline, whatever order they were applied in. */
  lemma TwoAppliedDefaults(a: Override, b: Override, applied: set<string>)
    requires a.name in applied && b.name in applied
    requires a.modulePath == "" && a.moduleName == "" && b.modulePath == "" && b.moduleName == ""
    ensures OverrideString([a, b], applied) ==
      (a.overrideType + ("overrides/" + a.name) + "@" + a.block + "=" + "override") + "\n" +
      (b.overrideType + ("overrides/" + b.name) + "@" + b.block + "=" + "override")
  {
    AppliedPair(a, b, applied);
    FragmentsPair(a, b);
  }

  lemma AppliedPair(a: Override, b: Override, applied: set<string>)
    requires a.name in applied && b.name in applied
    ensures AppliedOf([a, b], applied) == [a, b]
  {
    var s := [a, b];
    assert s[..1] == [a];
    assert [a][..0] == [];
    assert AppliedOf([], applied) == [];
    assert AppliedOf([a], applied) == [a];
  }

  lemma FragmentsPair(a: Override, b: Override)
    ensures Fragments([a, b]) == [Fragment(a), Fragment(b)]
  {
  }
}
