/** The in-memory override registry: the Override record, the two views of
    it (available and applied), loading an override folder, re-reading one
    after an edit, and keeping the list sorted by name. */
module Registry {
  import opened Wrappers
  import opened GoStrings
  import opened Seqs
  import opened Paths

  /** One override folder. `overrideType` is Go's `Type` ("+", "++", "~"
      or ""), `moduleName` Go's `Module`. Empty modulePath and moduleName
      mean the defaults of the override string. */
  datatype Override = Override(
    name: ByteString,
    overrideType: string,
    block: string,
    file: string,
    modulePath: string,
    moduleName: string,
    content: string,
    applyInfo: string,
    folderPath: string)

  /** The fields the YAML front matter of apply.md can set. The YAML library
      itself is a parameter of the model: a partial function from the front
      matter text to these fields, None where it reports an error. Keys that
      are absent read as "". */
  datatype Meta = Meta(overrideType: string, block: string, file: string, modulePath: string, moduleName: string)

  /** The fields reloadOverride decodes the front matter into: a struct of
      only Type, Block and File. The YAML library ignores keys a struct has
      no field for, so this decode is a second parameter of the model, not
      a projection of the first. */
  datatype ReloadMeta = ReloadMeta(overrideType: string, block: string, file: string)

  /** The one relation between the two decodes: wherever the five-field
      decode succeeds, the three-field one succeeds with the same three
      fields. The converse fails: a `module` or `module_path` of the wrong
      YAML type is an error for the five-field struct and is ignored by the
      three-field one. */
  ghost predicate DecodersAgree(parse: string -> Option<Meta>, parse3: string -> Option<ReloadMeta>)
  {
    forall y :: parse(y).Some? ==>
      parse3(y) == Some(ReloadMeta(parse(y).value.overrideType, parse(y).value.block, parse(y).value.file))
  }

  /** What the disk holds for one entry of the overrides directory: whether
      it is a folder, and the text of its apply.md and override.yaml (None
      when the file cannot be read). */
  datatype DirEntry = DirEntry(name: ByteString, isDir: bool, applyMd: Option<string>, overrideYaml: Option<string>)

  const ApplyFile: string := "apply.md"
  const OverrideFile: string := "override.yaml"
  const Delimiter: string := "---"

  /** The list is in non-decreasing order of name (Go's `<` on strings). */
  predicate SortedByName(s: seq<Override>)
  {
    forall i, j | 0 <= i < j < |s| :: !Less(s[j].name, s[i].name)
  }

  /** The overrides whose name is not applied, in registry order. */
  function AvailableOf(s: seq<Override>, applied: set<string>): seq<Override>
  {
    Filter(s, (o: Override) => o.name !in applied)
  }

  /** The overrides whose name is applied, in registry order. */
  function AppliedOf(s: seq<Override>, applied: set<string>): seq<Override>
  {
    Filter(s, (o: Override) => o.name in applied)
  }

  /** Every override of the registry is in exactly one of the two views,
      and each view keeps the registry's order. */
  lemma Partition(s: seq<Override>, applied: set<string>, o: Override)
    ensures o in AvailableOf(s, applied) <==> o in s && o.name !in applied
    ensures o in AppliedOf(s, applied) <==> o in s && o.name in applied
    ensures IsSubsequence(AvailableOf(s, applied), s)
    ensures IsSubsequence(AppliedOf(s, applied), s)
  {
    FilterMembership(s, (o: Override) => o.name !in applied, o);
    FilterMembership(s, (o: Override) => o.name in applied, o);
    FilterIsSubsequence(s, (o: Override) => o.name !in applied);
    FilterIsSubsequence(s, (o: Override) => o.name in applied);
  }

  /** Together the two views hold every entry of the registry exactly once. */
  lemma PartitionCounts(s: seq<Override>, applied: set<string>)
    ensures multiset(AvailableOf(s, applied)) + multiset(AppliedOf(s, applied)) == multiset(s)
    ensures |AvailableOf(s, applied)| + |AppliedOf(s, applied)| == |s|
  {
    FilterSplit(s, (o: Override) => o.name !in applied, (o: Override) => o.name in applied);
  }

  /** The front matter of apply.md: when the text starts with `---`, the
      text after it up to the next `---` (or to the end); otherwise none. */
  function Frontmatter(content: string): Option<string>
  {
    if HasPrefix(content, Delimiter) then Some(BeforeFirst(content[|Delimiter|..], Delimiter))
    else None
  }

  /** A front matter written as `---` y `---` body reads back as y, when y
      holds no `---` of its own (not even one that runs into the closing
      delimiter). */
  lemma FrontmatterOfDelimited(y: string, body: string)
    requires forall i | 0 <= i < |y| :: !HasPrefix(y[i..] + Delimiter, Delimiter)
    ensures Frontmatter(Delimiter + y + Delimiter + body) == Some(y)
  {
    var c := Delimiter + y + Delimiter + body;
    assert HasPrefix(c, Delimiter) by { assert c[..3] == Delimiter; }
    var s := c[3..];
    assert s == y + Delimiter + body;
    forall i | 0 <= i < |y|
      ensures !HasPrefix(s[i..], Delimiter)
    {
      assert s[i..] == (y[i..] + Delimiter) + body;
      assert s[i..][..3] == (y[i..] + Delimiter)[..3];
    }
    assert s[|y|..] == Delimiter + body;
    BeforeFirstAt(s, Delimiter, |y|);
    assert s[..|y|] == y;
  }

  /** An override as loadOverrides builds it from a directory entry: only
      folders that hold a readable apply.md; Type, Block, File, ModulePath and
      Module from the front matter when it parses; Content from
      override.yaml when it can be read. */
  function LoadEntry(dir: string, e: DirEntry, parse: string -> Option<Meta>): (r: Option<Override>)
    ensures r.Some? <==> e.isDir && e.applyMd.Some?
    ensures r.Some? ==> r.value.name == e.name && r.value.folderPath == JoinPath(dir, e.name)
    ensures r.Some? ==> r.value.applyInfo == e.applyMd.value
  {
    if !e.isDir || e.applyMd.None? then None
    else
      var text := e.applyMd.value;
      var base := Override(e.name, "", "", "", "", "", "", text, JoinPath(dir, e.name));
      var withMeta :=
        match Frontmatter(text)
        case None => base
        case Some(y) =>
          match parse(y)
          case None => base
          case Some(m) => base.(overrideType := m.overrideType, block := m.block, file := m.file,
                                modulePath := m.modulePath, moduleName := m.moduleName);
      var loaded := if e.overrideYaml.Some? then withMeta.(content := e.overrideYaml.value) else withMeta;
      Some(loaded)
  }

  /** The overrides loadOverrides appends, in directory order. */
  function Loaded(dir: string, entries: seq<DirEntry>, parse: string -> Option<Meta>): seq<Override>
    decreases |entries|
  {
    if entries == [] then []
    else
      var last := entries[|entries| - 1];
      Loaded(dir, entries[..|entries| - 1], parse) +
        (match LoadEntry(dir, last, parse) case None => [] case Some(o) => [o])
  }

  /** The loop of loadOverrides over the directory listing. */
  method LoadAll(dir: string, es: seq<DirEntry>, parse: string -> Option<Meta>) returns (list: seq<Override>)
    ensures list == Loaded(dir, es, parse)
  {
    list := [];
    var i := 0;
    while i < |es|
      invariant 0 <= i <= |es|
      invariant list == Loaded(dir, es[..i], parse)
    {
      var loaded := LoadEntry(dir, es[i], parse);
      PrefixSnoc(es, i);
      if loaded.Some? {
        list := list + [loaded.value];
      }
      i := i + 1;
    }
    TakeAll(es);
  }

  /** Every override loaded comes from one entry of the directory. */
  lemma {:induction false} LoadedFrom(dir: string, entries: seq<DirEntry>, parse: string -> Option<Meta>, o: Override)
    returns (k: nat)
    requires o in Loaded(dir, entries, parse)
    ensures k < |entries| && LoadEntry(dir, entries[k], parse) == Some(o)
    decreases |entries|
  {
    var n := |entries| - 1;
    var init := entries[..n];
    if o in Loaded(dir, init, parse) {
      k := LoadedFrom(dir, init, parse, o);
      assert init[k] == entries[k];
    } else {
      k := n;
    }
  }

  /** Every entry LoadEntry accepts is loaded. */
  lemma {:induction false} LoadedHas(dir: string, entries: seq<DirEntry>, parse: string -> Option<Meta>, k: nat)
    requires k < |entries| && LoadEntry(dir, entries[k], parse).Some?
    ensures LoadEntry(dir, entries[k], parse).value in Loaded(dir, entries, parse)
    decreases |entries|
  {
    var n := |entries| - 1;
    if k < n {
      var init := entries[..n];
      assert init[k] == entries[k];
      LoadedHas(dir, init, parse, k);
    }
  }

  /** Loading keeps exactly the folders that have a readable apply.md, under
      their own name and inside the overrides directory. */
  lemma LoadedMembership(dir: string, entries: seq<DirEntry>, parse: string -> Option<Meta>, o: Override)
    ensures o in Loaded(dir, entries, parse) ==>
            exists k | 0 <= k < |entries| :: entries[k].isDir && entries[k].applyMd.Some? &&
              o.name == entries[k].name && o.folderPath == JoinPath(dir, o.name)
    ensures forall k | 0 <= k < |entries| && entries[k].isDir && entries[k].applyMd.Some? ::
              exists p | p in Loaded(dir, entries, parse) :: p.name == entries[k].name
  {
    if o in Loaded(dir, entries, parse) {
      var k := LoadedFrom(dir, entries, parse, o);
    }
    forall k | 0 <= k < |entries| && entries[k].isDir && entries[k].applyMd.Some?
      ensures exists p | p in Loaded(dir, entries, parse) :: p.name == entries[k].name
    {
      LoadedHas(dir, entries, parse, k);
    }
  }

  /** What reloadOverride makes of an override after an edit: a readable
      apply.md replaces ApplyInfo, and a front matter that the three-field
      decode accepts replaces Type, Block and File only; a readable
      override.yaml replaces Content. The name, the folder and the module
      fields stay. */
  function Reloaded(o: Override, applyMd: Option<string>, overrideYaml: Option<string>,
                    parse3: string -> Option<ReloadMeta>): (r: Override)
    ensures r.name == o.name && r.folderPath == o.folderPath
    ensures r.modulePath == o.modulePath && r.moduleName == o.moduleName
    ensures r.content == if overrideYaml.Some? then overrideYaml.value else o.content
    ensures r.applyInfo == if applyMd.Some? then applyMd.value else o.applyInfo
    ensures applyMd.Some? && Frontmatter(applyMd.value).Some? &&
            parse3(Frontmatter(applyMd.value).value).Some? ==>
      var m := parse3(Frontmatter(applyMd.value).value).value;
      r.overrideType == m.overrideType && r.block == m.block && r.file == m.file
    ensures applyMd.None? || Frontmatter(applyMd.value).None? ||
            parse3(Frontmatter(applyMd.value).value).None? ==>
      r.overrideType == o.overrideType && r.block == o.block && r.file == o.file
  {
    var withApply :=
      match applyMd
      case None => o
      case Some(text) =>
        var o1 := o.(applyInfo := text);
        match Frontmatter(text)
        case None => o1
        case Some(y) =>
          match parse3(y)
          case None => o1
          case Some(m) => o1.(overrideType := m.overrideType, block := m.block, file := m.file);
    if overrideYaml.Some? then withApply.(content := overrideYaml.value) else withApply
  }

  /** The front matter of `text`, if any, gets the same verdict from both
      decodes: either the five-field decode accepts it or the three-field
      one rejects it too. */
  predicate SameVerdict(text: string, parse: string -> Option<Meta>, parse3: string -> Option<ReloadMeta>)
  {
    match Frontmatter(text)
    case None => true
    case Some(y) => parse(y).Some? || parse3(y).None?
  }

  /** Reloading a folder whose files did not change gives what loading it
      gave, when the two decodes agree on its front matter. */
  lemma ReloadOfUnchanged(dir: string, e: DirEntry, parse: string -> Option<Meta>,
                          parse3: string -> Option<ReloadMeta>, o: Override)
    requires DecodersAgree(parse, parse3)
    requires LoadEntry(dir, e, parse) == Some(o)
    ensures SameVerdict(e.applyMd.value, parse, parse3) ==>
            Reloaded(o, e.applyMd, e.overrideYaml, parse3) == o
  {
    var text := e.applyMd.value;
    match Frontmatter(text)
    case None =>
    case Some(y) =>
      if parse(y).Some? {
        assert parse3(y) == Some(ReloadMeta(parse(y).value.overrideType, parse(y).value.block, parse(y).value.file));
      }
  }

  /** Where the decodes disagree, a reload of an unchanged folder does not
      give what loading it gave: the load left Type, Block and File empty,
      and the reload sets them from the three-field decode. */
  lemma ReloadOfRejectedFrontmatter(dir: string, e: DirEntry, parse: string -> Option<Meta>,
                                    parse3: string -> Option<ReloadMeta>, o: Override, y: string)
    requires LoadEntry(dir, e, parse) == Some(o)
    requires Frontmatter(e.applyMd.value) == Some(y) && parse(y).None? && parse3(y).Some?
    ensures o.overrideType == "" && o.block == "" && o.file == ""
    ensures Reloaded(o, e.applyMd, e.overrideYaml, parse3) ==
            o.(overrideType := parse3(y).value.overrideType, block := parse3(y).value.block,
               file := parse3(y).value.file)
  {
  }

  /** Inserting into a sorted list: after the entries whose name is not
      above x.name, before the others. */
  method InsertByName(sorted: seq<Override>, x: Override) returns (r: seq<Override>)
    requires SortedByName(sorted)
    ensures SortedByName(r)
    ensures multiset(r) == multiset(sorted) + multiset{x}
  {
    var j := 0;
    while j < |sorted| && !Less(x.name, sorted[j].name)
      invariant 0 <= j <= |sorted|
      invariant forall k | 0 <= k < j :: !Less(x.name, sorted[k].name)
    {
      j := j + 1;
    }
    r := sorted[..j] + [x] + sorted[j..];
    assert sorted == sorted[..j] + sorted[j..];
    InsertKeepsSorted(sorted, j, x);
  }

  /** Putting x after the entries not above it and before the first one
      above it keeps the list sorted. */
  lemma InsertKeepsSorted(s: seq<Override>, j: int, x: Override)
    requires SortedByName(s) && 0 <= j <= |s|
    requires forall k | 0 <= k < j :: !Less(x.name, s[k].name)
    requires j < |s| ==> Less(x.name, s[j].name)
    ensures SortedByName(s[..j] + [x] + s[j..])
  {
    var r := s[..j] + [x] + s[j..];
    forall a, b | 0 <= a < b < |r|
      ensures !Less(r[b].name, r[a].name)
    {
      InsertedPair(s, j, x, a, b);
    }
  }

  /** One pair of positions of the list InsertKeepsSorted builds. */
  lemma InsertedPair(s: seq<Override>, j: int, x: Override, a: int, b: int)
    requires SortedByName(s) && 0 <= j <= |s|
    requires forall k | 0 <= k < j :: !Less(x.name, s[k].name)
    requires j < |s| ==> Less(x.name, s[j].name)
    requires 0 <= a < b <= |s|
    ensures !Less((s[..j] + [x] + s[j..])[b].name, (s[..j] + [x] + s[j..])[a].name)
  {
    var r := s[..j] + [x] + s[j..];
    if b == j {
      assert r[a] == s[a] && r[b] == x;
    } else if a == j {
      assert r[a] == x && r[b] == s[b - 1];
      if b - 1 == j {
        LessIrreflexive(s[j].name);
      }
      NotBelow(x.name, s[j].name, s[b - 1].name);
    } else {
      var a' := if a < j then a else a - 1;
      var b' := if b < j then b else b - 1;
      assert r[a] == s[a'] && r[b] == s[b'];
    }
  }

  /** sort.Slice by name: sorted, and the same entries. sort.Slice is not
      stable, so nothing is promised about the order of equal names. */
  method SortByName(s: seq<Override>) returns (r: seq<Override>)
    ensures SortedByName(r)
    ensures multiset(r) == multiset(s)
  {
    r := [];
    var i := 0;
    while i < |s|
      invariant 0 <= i <= |s|
      invariant SortedByName(r)
      invariant multiset(r) == multiset(s[..i])
    {
      r := InsertByName(r, s[i]);
      assert s[..i + 1] == s[..i] + [s[i]];
      i := i + 1;
    }
    assert s[..|s|] == s;
  }

  /** Taking one entry out of a sorted list leaves it sorted, with that
      entry gone and the rest kept. */
  lemma RemoveAtKeepsSorted(s: seq<Override>, i: int)
    requires 0 <= i < |s| && SortedByName(s)
    ensures SortedByName(s[..i] + s[i + 1..])
    ensures multiset(s[..i] + s[i + 1..]) == multiset(s) - multiset{s[i]}
  {
    var r := s[..i] + s[i + 1..];
    forall a, b | 0 <= a < b < |r|
      ensures !Less(r[b].name, r[a].name)
    {
      var a' := if a < i then a else a + 1;
      var b' := if b < i then b else b + 1;
      assert r[a] == s[a'] && r[b] == s[b'];
    }
    assert s == s[..i] + [s[i]] + s[i + 1..];
  }

  /** Below x and not below y: an order fact InsertByName uses. */
  lemma NotBelow(x: string, y: string, z: string)
    requires Less(x, y) && !Less(z, y)
    ensures !Less(z, x)
  {
    if Less(z, x) {
      LessTransitive(z, x, y);
    }
  }

  /** Putting back an entry under the same name keeps the list sorted. */
  lemma ReplaceSameNameKeepsSorted(s: seq<Override>, i: int, o: Override)
    requires 0 <= i < |s| && SortedByName(s) && o.name == s[i].name
    ensures SortedByName(s[i := o])
  {
  }

  /** The position of the first override named `n`, or -1. */
  function IndexOfName(s: seq<Override>, n: string): (i: int)
    ensures -1 <= i < |s|
    ensures i >= 0 ==> s[i].name == n
    ensures forall k | 0 <= k < |s| && (i < 0 || k < i) :: s[k].name != n
    decreases |s|
  {
    if s == [] then -1
    else if s[0].name == n then 0
    else
      var j := IndexOfName(s[1..], n);
      if j < 0 then -1 else j + 1
  }

  /** The loop reloadOverride and deleteSelectedOverride run to find the
      first override named `n`: its index, or -1. */
  method FindName(s: seq<Override>, n: string) returns (i: int)
    ensures i == IndexOfName(s, n)
  {
    i := 0;
    while i < |s| && s[i].name != n
      invariant 0 <= i <= |s|
      invariant forall k | 0 <= k < i :: s[k].name != n
    {
      i := i + 1;
    }
    if i == |s| {
      i := -1;
    }
  }

  /** The list without its first override named `n`. */
  function RemoveFirstNamed(s: seq<Override>, n: string): seq<Override>
  {
    var i := IndexOfName(s, n);
    if i < 0 then s else s[..i] + s[i + 1..]
  }

  /** deleteSelectedOverride's loop: the list without the first override
      named `n`. */
  method RemoveNamed(s: seq<Override>, n: string) returns (r: seq<Override>)
    ensures r == RemoveFirstNamed(s, n)
  {
    var i := FindName(s, n);
    if i < 0 {
      r := s;
    } else {
      r := s[..i] + s[i + 1..];
    }
  }

  /** Removing the first override of a name keeps the list sorted and
      takes out exactly that one entry. */
  lemma RemoveFirstNamedSpec(s: seq<Override>, n: string)
    requires SortedByName(s)
    ensures SortedByName(RemoveFirstNamed(s, n))
    ensures var i := IndexOfName(s, n);
      i >= 0 ==> multiset(RemoveFirstNamed(s, n)) == multiset(s) - multiset{s[i]} &&
                 |RemoveFirstNamed(s, n)| == |s| - 1
    ensures IndexOfName(s, n) < 0 ==> RemoveFirstNamed(s, n) == s
  {
    var i := IndexOfName(s, n);
    if i >= 0 {
      RemoveAtKeepsSorted(s, i);
    }
  }

  /** Replacing an entry by one of the same name changes neither view's
      size. */
  lemma ReplaceSameNameViews(s: seq<Override>, i: int, o: Override, applied: set<string>)
    requires 0 <= i < |s| && o.name == s[i].name
    ensures |AvailableOf(s[i := o], applied)| == |AvailableOf(s, applied)|
    ensures |AppliedOf(s[i := o], applied)| == |AppliedOf(s, applied)|
  {
    FilterPointwise(s[i := o], s, (x: Override) => x.name !in applied);
    FilterPointwise(s[i := o], s, (x: Override) => x.name in applied);
  }

  /** The entry equal to `t` (the first one) replaced by `x`; the list as
      it is when there is none. */
  method ReplaceEqual(s: seq<Override>, t: Override, x: Override) returns (r: seq<Override>)
    ensures t in s ==> multiset(r) == multiset(s) - multiset{t} + multiset{x}
    ensures t !in s ==> r == s
  {
    var i := 0;
    while i < |s| && s[i] != t
      invariant 0 <= i <= |s|
      invariant t !in s[..i]
    {
      assert s[..i + 1] == s[..i] + [s[i]];
      i := i + 1;
    }
    if i < |s| {
      r := s[i := x];
      ReplaceMultiset(s, i, x);
    } else {
      assert s[..i] == s;
      r := s;
    }
  }

  lemma ReplaceMultiset(s: seq<Override>, i: int, x: Override)
    requires 0 <= i < |s|
    ensures multiset(s[i := x]) == multiset(s) - multiset{s[i]} + multiset{x}
  {
    assert s == s[..i] + [s[i]] + s[i + 1..];
    assert s[i := x] == s[..i] + [x] + s[i + 1..];
  }
}
