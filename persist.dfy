/** The applied overrides as they are kept in the project's environment
    file (.envrc): one line `export <EnvVarName>="<base64 of the names,
    comma-separated>"` and one line `export HYDRA_OVERRIDE_STR="<override
    string on one line>"`; every other line of the file is the user's and is
    kept. The file is seen line by line, as Go's line scanner hands it out. */
module Persist {
  import opened Wrappers
  import opened GoStrings
  import opened Seqs
  import opened Base64
  import opened Registry
  import opened Builder

  /** The environment file as opening it finds it. */
  datatype EnvFile = Missing | Unreadable | Present(lines: seq<string>)

  /** Why loading the persisted state failed: the file could not be opened,
      or the stored value is not base64. */
  datatype LoadError = ReadFailed | Corrupt

  const OverrideStrVar: string := "HYDRA_OVERRIDE_STR"
  const Quotes: string := "\"'"
  const NameSeparator: char := ','

  function ExportPrefix(key: string): string
  {
    "export " + key + "="
  }

  /** `export <key>="<value>"` */
  function ExportLine(key: string, value: string): string
  {
    ExportPrefix(key) + ("\"" + value + "\"")
  }

  /** A line the manager owns: it sets the applied-names variable or the
      override string. */
  predicate IsManaged(line: string, envVar: string)
  {
    HasPrefix(line, ExportPrefix(envVar)) || HasPrefix(line, ExportPrefix(OverrideStrVar))
  }

  function Keep(envVar: string): string -> bool
  {
    (line: string) => !IsManaged(line, envVar)
  }

  /** The lines savePersistedState keeps from the existing file: all lines
      it does not own, in their order. A file that cannot be opened gives
      none. */
  function KeptLines(file: EnvFile, envVar: string): seq<string>
  {
    match file
    case Present(lines) => Filter(lines, Keep(envVar))
    case _ => []
  }

  /** The names of a list of overrides, in its order. */
  function Names(s: seq<Override>): (r: seq<ByteString>)
    ensures |r| == |s|
    ensures forall i | 0 <= i < |s| :: r[i] == s[i].name
    decreases |s|
  {
    if s == [] then [] else Names(s[..|s| - 1]) + [s[|s| - 1].name]
  }

  /** The line that stores the applied names: base64 of the names joined
      by commas. */
  function AppliedLine(envVar: string, names: seq<ByteString>): string
  {
    ExportLine(envVar, StoredValue(names))
  }

  /** The stored value: base64 of the names joined by commas. */
  function StoredValue(names: seq<ByteString>): string
  {
    var joined: ByteString := Join(names, [NameSeparator]);
    Encode(joined)
  }

  /** The line that stores the override string, its newlines turned into
      spaces. */
  function OverrideStrLine(s: seq<Override>, applied: set<string>): string
  {
    ExportLine(OverrideStrVar, ReplaceNewlines(OverrideString(s, applied)))
  }

  /** The lines savePersistedState writes: the kept lines, the applied
      names line when some override of the registry is applied, and always
      the override string line last. */
  function SavedLines(file: EnvFile, envVar: string, s: seq<Override>, applied: set<string>): seq<string>
  {
    var names := Names(AppliedOf(s, applied));
    KeptLines(file, envVar)
      + (if names != [] then [AppliedLine(envVar, names)] else [])
      + [OverrideStrLine(s, applied)]
  }

  /** The first line that sets `envVar`, if any. */
  function FirstAssignment(lines: seq<string>, envVar: string): (r: Option<string>)
    ensures r.Some? ==> r.value in lines && HasPrefix(r.value, ExportPrefix(envVar))
    ensures r.None? ==> forall i | 0 <= i < |lines| :: !HasPrefix(lines[i], ExportPrefix(envVar))
    decreases |lines|
  {
    if lines == [] then None
    else if HasPrefix(lines[0], ExportPrefix(envVar)) then Some(lines[0])
    else FirstAssignment(lines[1..], envVar)
  }

  /** The value of an assignment line, without its quotes. */
  function AssignedValue(line: string, envVar: string): string
  {
    Trim(TrimPrefix(line, ExportPrefix(envVar)), Quotes)
  }

  /** The non-blank names of a comma-separated list, trimmed. */
  function NameSet(parts: seq<string>): set<string>
  {
    set p | p in parts && TrimSpace(p) != "" :: TrimSpace(p)
  }

  /** An empty value means no override is applied; anything else must be
      base64 of the comma-separated names. */
  function DecodeValue(value: string): (r: Result<set<string>, LoadError>)
    ensures value == "" ==> r == Ok({})
    ensures value != "" && Decode(value).None? ==> r == Err(Corrupt)
  {
    if value == "" then Ok({})
    else
      match Decode(value)
      case None => Err(Corrupt)
      case Some(d) => Ok(NameSet(Split(d, NameSeparator)))
  }

  /** loadPersistedState: the names stored in the first line that sets
      `envVar`. A missing file, or one without such a line, stores none. */
  function LoadNames(file: EnvFile, envVar: string): (r: Result<set<string>, LoadError>)
    ensures file.Missing? ==> r == Ok({})
    ensures file.Unreadable? ==> r == Err(ReadFailed)
    ensures r.Err? && r.error == Corrupt ==> file.Present? && FirstAssignment(file.lines, envVar).Some?
  {
    match file
    case Missing => Ok({})
    case Unreadable => Err(ReadFailed)
    case Present(lines) =>
      match FirstAssignment(lines, envVar)
      case None => Ok({})
      case Some(line) => DecodeValue(AssignedValue(line, envVar))
  }

  /** One more piece adds its trimmed text, unless that is blank. */
  lemma NameSetSnoc(parts: seq<string>, p: string)
    ensures NameSet(parts + [p]) == NameSet(parts) + (if TrimSpace(p) != "" then {TrimSpace(p)} else {})
  {
    var t := parts + [p];
    forall n | n in NameSet(t)
      ensures n in NameSet(parts) + (if TrimSpace(p) != "" then {TrimSpace(p)} else {})
    {
      var q :| q in t && TrimSpace(q) != "" && n == TrimSpace(q);
      if q != p {
        assert q in parts;
      }
    }
    forall n | n in NameSet(parts)
      ensures n in NameSet(t)
    {
      var q :| q in parts && TrimSpace(q) != "" && n == TrimSpace(q);
      assert q in t;
    }
    if TrimSpace(p) != "" {
      assert p in t;
    }
  }

  /** A name the comma-separated list can carry through unchanged. */
  predicate IsPlainName(n: string)
  {
    n != "" && NameSeparator !in n && TrimSpace(n) == n
  }

  /** A variable name the assignment lines can tell apart from the
      override string's. */
  predicate IsKey(k: string)
  {
    '=' !in k && k != OverrideStrVar
  }

  /** The names a list holds, as a set. */
  function Elements(names: seq<string>): set<string>
  {
    set n | n in names
  }

  /** The names applied to overrides of the registry. */
  function AppliedNameSet(s: seq<Override>, applied: set<string>): set<string>
  {
    set o | o in s && o.name in applied :: o.name
  }

  lemma OverrideStrVarIsKey()
    ensures '=' !in OverrideStrVar
  {
    assert forall i | 0 <= i < |OverrideStrVar| :: OverrideStrVar[i] != '=';
  }

  /** No assignment line of one key starts like one of another key. */
  lemma KeyPrefixesDisjoint(k1: string, k2: string, w: string)
    requires k1 != k2 && '=' !in k1 && '=' !in k2
    ensures !HasPrefix(ExportPrefix(k2) + w, ExportPrefix(k1))
  {
    var a := ExportPrefix(k1);
    var b := ExportPrefix(k2) + w;
    if |a| <= |b| {
      var n := |"export "|;
      if |k1| < |k2| {
        assert a[n + |k1|] == '=';
        assert b[n + |k1|] == k2[|k1|];
        assert b[..|a|][n + |k1|] != a[n + |k1|];
      } else if |k1| > |k2| {
        assert b[n + |k2|] == '=';
        assert a[n + |k2|] == k1[|k2|];
        assert b[..|a|][n + |k2|] != a[n + |k2|];
      } else {
        var j :| 0 <= j < |k1| && k1[j] != k2[j];
        assert a[n + j] == k1[j];
        assert b[n + j] == k2[j];
        assert b[..|a|][n + j] != a[n + j];
      }
    }
  }

  /** Lines that set nothing in front of the rest do not change which line
      is found. */
  lemma {:induction false} FirstAssignmentSkip(pre: seq<string>, rest: seq<string>, envVar: string)
    requires forall i | 0 <= i < |pre| :: !HasPrefix(pre[i], ExportPrefix(envVar))
    ensures FirstAssignment(pre + rest, envVar) == FirstAssignment(rest, envVar)
    decreases |pre|
  {
    if pre == [] {
      assert pre + rest == rest;
    } else {
      assert (pre + rest)[0] == pre[0];
      assert (pre + rest)[1..] == pre[1..] + rest;
      FirstAssignmentSkip(pre[1..], rest, envVar);
    }
  }

  /** No kept line is a managed one. */
  lemma KeptAreUnmanaged(file: EnvFile, envVar: string)
    ensures forall i | 0 <= i < |KeptLines(file, envVar)| :: !IsManaged(KeptLines(file, envVar)[i], envVar)
  {
    if file.Present? {
      var kept := KeptLines(file, envVar);
      forall i | 0 <= i < |kept|
        ensures !IsManaged(kept[i], envVar)
      {
        FilterMembership(file.lines, Keep(envVar), kept[i]);
      }
    }
  }

  /** The user's lines survive a save: the saved file starts with exactly
      the lines the manager does not own, in their old order. */
  lemma SaveKeepsOtherLines(file: EnvFile, envVar: string, s: seq<Override>, applied: set<string>, line: string)
    requires file.Present?
    ensures var kept := KeptLines(file, envVar);
      SavedLines(file, envVar, s, applied)[..|kept|] == kept &&
      IsSubsequence(kept, file.lines) &&
      (line in kept <==> line in file.lines && !IsManaged(line, envVar))
  {
    FilterMembership(file.lines, Keep(envVar), line);
    FilterIsSubsequence(file.lines, Keep(envVar));
  }

  /** An assignment line of a key starts with that key's prefix, and with no
      other plain key's. */
  lemma ExportLinePrefixes(key: string, other: string, v: string)
    requires key != other
    requires key == OverrideStrVar || '=' !in key
    requires other == OverrideStrVar || '=' !in other
    ensures HasPrefix(ExportLine(key, v), ExportPrefix(key))
    ensures !HasPrefix(ExportLine(key, v), ExportPrefix(other))
  {
    OverrideStrVarIsKey();
    TrimPrefixOfConcat(ExportPrefix(key), "\"" + v + "\"");
    KeyPrefixesDisjoint(other, key, "\"" + v + "\"");
  }

  /** The shape of a saved file, on its own: user lines, at most one line
      setting the variable, then the override string line. */
  lemma ManagedShape(kept: seq<string>, extra: seq<string>, str: string, envVar: string)
    requires forall i | 0 <= i < |kept| :: !IsManaged(kept[i], envVar)
    requires forall i | 0 <= i < |extra| ::
      HasPrefix(extra[i], ExportPrefix(envVar)) && !HasPrefix(extra[i], ExportPrefix(OverrideStrVar))
    requires !HasPrefix(str, ExportPrefix(envVar))
    ensures var saved := kept + extra + [str];
      saved[|saved| - 1] == str &&
      (forall i | 0 <= i < |saved| - 1 :: !HasPrefix(saved[i], ExportPrefix(OverrideStrVar))) &&
      ((exists i | 0 <= i < |saved| :: HasPrefix(saved[i], ExportPrefix(envVar))) <==> extra != [])
  {
    var saved := kept + extra + [str];
    assert forall i | 0 <= i < |kept| :: saved[i] == kept[i];
    assert forall i | 0 <= i < |extra| :: saved[|kept| + i] == extra[i];
    if extra != [] {
      assert HasPrefix(saved[|kept|], ExportPrefix(envVar));
    }
  }

  /** The managed lines of a saved file: the override string line is last
      and is the only one that sets HYDRA_OVERRIDE_STR; a line that sets
      the applied-names variable is there exactly when some override of the
      registry is applied. */
  lemma SaveManagedLines(file: EnvFile, envVar: string, s: seq<Override>, applied: set<string>)
    requires IsKey(envVar)
    ensures var saved := SavedLines(file, envVar, s, applied);
      saved[|saved| - 1] == OverrideStrLine(s, applied) &&
      (forall i | 0 <= i < |saved| - 1 :: !HasPrefix(saved[i], ExportPrefix(OverrideStrVar))) &&
      ((exists i | 0 <= i < |saved| :: HasPrefix(saved[i], ExportPrefix(envVar))) <==>
       (exists i | 0 <= i < |s| :: s[i].name in applied))
  {
    var kept := KeptLines(file, envVar);
    var names := Names(AppliedOf(s, applied));
    var extra := if names != [] then [AppliedLine(envVar, names)] else [];
    var str := OverrideStrLine(s, applied);
    KeptAreUnmanaged(file, envVar);
    ExportLinePrefixes(OverrideStrVar, envVar, ReplaceNewlines(OverrideString(s, applied)));
    if names != [] {
      ExportLinePrefixes(envVar, OverrideStrVar, StoredValue(names));
    }
    ManagedShape(kept, extra, str, envVar);
    AppliedIffAny(s, applied);
    assert SavedLines(file, envVar, s, applied) == kept + extra + [str];
  }

  /** Some override of the registry is applied exactly when the applied
      view is not empty. */
  lemma AppliedIffAny(s: seq<Override>, applied: set<string>)
    ensures AppliedOf(s, applied) != [] <==> exists i | 0 <= i < |s| :: s[i].name in applied
  {
    var a := AppliedOf(s, applied);
    if a != [] {
      Partition(s, applied, a[0]);
      assert a[0] in a;
      var i :| 0 <= i < |s| && s[i] == a[0];
    } else {
      forall i | 0 <= i < |s|
        ensures s[i].name !in applied
      {
        Partition(s, applied, s[i]);
      }
    }
  }

  /** The names of the applied view are the applied names of the registry. */
  lemma NamesOfApplied(s: seq<Override>, applied: set<string>)
    ensures var names := Names(AppliedOf(s, applied));
      Elements(names) == AppliedNameSet(s, applied)
  {
    var a := AppliedOf(s, applied);
    var names := Names(a);
    forall n | n in names
      ensures n in AppliedNameSet(s, applied)
    {
      var i :| 0 <= i < |names| && names[i] == n;
      Partition(s, applied, a[i]);
      assert a[i] in a;
    }
    forall n | n in AppliedNameSet(s, applied)
      ensures n in names
    {
      var o :| o in s && o.name in applied && o.name == n;
      Partition(s, applied, o);
      var i :| 0 <= i < |a| && a[i] == o;
      assert names[i] == n;
    }
  }

  /** The applied view's names are plain when every applied name of the
      registry is. */
  lemma AppliedNamesPlain(s: seq<Override>, applied: set<string>, names: seq<ByteString>)
    requires forall i | 0 <= i < |s| && s[i].name in applied :: IsPlainName(s[i].name)
    requires names == Names(AppliedOf(s, applied))
    ensures forall i | 0 <= i < |names| :: IsPlainName(names[i])
  {
    var a := AppliedOf(s, applied);
    forall i | 0 <= i < |a|
      ensures IsPlainName(a[i].name)
    {
      Partition(s, applied, a[i]);
      assert a[i] in a;
      var k :| 0 <= k < |s| && s[k] == a[i];
    }
  }

  /** Trimmed, non-blank names are their own name set. */
  lemma NameSetOfPlain(names: seq<string>)
    requires forall i | 0 <= i < |names| :: IsPlainName(names[i])
    ensures NameSet(names) == Elements(names)
  {
    forall n | n in names
      ensures n in NameSet(names)
    {
      var i :| 0 <= i < |names| && names[i] == n;
      assert TrimSpace(n) == n;
    }
  }

  /** A quoted value without quotes of its own reads back as itself. */
  lemma QuotedValue(envVar: string, v: string)
    requires forall i | 0 <= i < |v| :: v[i] != '"' && v[i] != '\''
    ensures AssignedValue(ExportLine(envVar, v), envVar) == v
  {
    TrimPrefixOfConcat(ExportPrefix(envVar), "\"" + v + "\"");
    if v != "" {
      TrimWrapped("\"", v, "\"", c => c in Quotes);
    } else {
      TrimQuotesOfEmpty();
    }
  }

  lemma TrimQuotesOfEmpty()
    ensures Trim("\"" + "" + "\"", Quotes) == ""
  {
    assert "\"" + "" + "\"" == "\"\"";
    assert TrimLeftBy("\"\"", c => c in Quotes) == "";
  }

  /** A non-empty value that decodes is read as the name set of the
      decoded text. */
  lemma DecodeValueOf(v: string, d: ByteString)
    requires v != "" && Decode(v) == Some(d)
    ensures DecodeValue(v) == Ok(NameSet(Split(d, NameSeparator)))
  {
  }

  /** Splitting plain names joined by commas gives back their set. */
  lemma NameSetOfJoined(names: seq<ByteString>)
    requires names != []
    requires forall i | 0 <= i < |names| :: IsPlainName(names[i])
    ensures NameSet(Split(Join(names, [NameSeparator]), NameSeparator)) == Elements(names)
  {
    SplitJoin(names, NameSeparator);
    NameSetOfPlain(names);
  }

  /** The stored value of plain names decodes to exactly those names. */
  lemma DecodeStoredNames(names: seq<ByteString>)
    requires names != []
    requires forall i | 0 <= i < |names| :: IsPlainName(names[i])
    ensures forall i | 0 <= i < |StoredValue(names)| :: StoredValue(names)[i] != '"' && StoredValue(names)[i] != '\''
    ensures DecodeValue(StoredValue(names)) == Ok(Elements(names))
  {
    var joined: ByteString := JoinedNames(names);
    EncodeHasNoQuotes(joined);
    DecodeEncodedText(joined);
    NameSetOfJoined(names);
  }

  /** Plain names joined by commas: a non-empty byte string. */
  lemma JoinedNames(names: seq<ByteString>) returns (joined: ByteString)
    requires names != [] && names[0] != ""
    ensures joined == Join(names, [NameSeparator]) && joined != ""
  {
    joined := Join(names, [NameSeparator]);
    JoinStartsWithFirst(names, [NameSeparator]);
  }

  /** A non-empty text, encoded, reads back as the name set of the text. */
  lemma DecodeEncodedText(t: ByteString)
    requires t != ""
    ensures DecodeValue(Encode(t)) == Ok(NameSet(Split(t, NameSeparator)))
  {
    EncodeHasNoQuotes(t);
    DecodeEncode(t);
    DecodeValueOf(Encode(t), t);
  }

  /** Reading a saved file finds the applied-names line when there is one,
      and no line otherwise. */
  lemma FirstAssignmentOfSaved(kept: seq<string>, extra: seq<string>, str: string, envVar: string)
    requires forall i | 0 <= i < |kept| :: !IsManaged(kept[i], envVar)
    requires |extra| <= 1 && forall i | 0 <= i < |extra| :: HasPrefix(extra[i], ExportPrefix(envVar))
    requires !HasPrefix(str, ExportPrefix(envVar))
    ensures FirstAssignment(kept + extra + [str], envVar) == if extra == [] then None else Some(extra[0])
  {
    assert kept + extra + [str] == kept + (extra + [str]);
    FirstAssignmentSkip(kept, extra + [str], envVar);
    if extra == [] {
      assert extra + [str] == [str];
    } else {
      assert (extra + [str])[0] == extra[0];
    }
  }

  /** Loading a file of the saved shape gives back the stored names. */
  lemma LoadOfSavedShape(kept: seq<string>, names: seq<ByteString>, str: string, envVar: string)
    requires IsKey(envVar)
    requires forall i | 0 <= i < |kept| :: !IsManaged(kept[i], envVar)
    requires !HasPrefix(str, ExportPrefix(envVar))
    requires forall i | 0 <= i < |names| :: IsPlainName(names[i])
    ensures var extra := if names != [] then [AppliedLine(envVar, names)] else [];
      LoadNames(Present(kept + extra + [str]), envVar) == Ok(Elements(names))
  {
    if names == [] {
      FirstAssignmentOfSaved(kept, [], str, envVar);
      assert Elements(names) == {};
    } else {
      LoadOfAppliedLine(kept, names, str, envVar);
    }
  }

  /** The file holds the applied-names line: its value is read back. */
  lemma LoadOfAppliedLine(kept: seq<string>, names: seq<ByteString>, str: string, envVar: string)
    requires IsKey(envVar) && names != []
    requires forall i | 0 <= i < |kept| :: !IsManaged(kept[i], envVar)
    requires !HasPrefix(str, ExportPrefix(envVar))
    requires forall i | 0 <= i < |names| :: IsPlainName(names[i])
    ensures LoadNames(Present(kept + [AppliedLine(envVar, names)] + [str]), envVar) == Ok(Elements(names))
  {
    var enc := StoredValue(names);
    var al := AppliedLine(envVar, names);
    ExportLinePrefixes(envVar, OverrideStrVar, enc);
    FirstAssignmentOfSaved(kept, [al], str, envVar);
    ValueOfAppliedLine(envVar, names);
  }

  /** The applied-names line carries the stored names. */
  lemma ValueOfAppliedLine(envVar: string, names: seq<ByteString>)
    requires names != []
    requires forall i | 0 <= i < |names| :: IsPlainName(names[i])
    ensures DecodeValue(AssignedValue(AppliedLine(envVar, names), envVar)) == Ok(Elements(names))
  {
    DecodeStoredNames(names);
    QuotedValue(envVar, StoredValue(names));
  }

  /** Saving and loading back recovers exactly the applied names of the
      registry, when every such name is non-blank, holds no comma and has
      no surrounding white space, and the variable name is a plain key.
      Names applied that belong to no override are not saved. */
  lemma SaveLoadRoundTrip(file: EnvFile, envVar: string, s: seq<Override>, applied: set<string>)
    requires IsKey(envVar)
    requires forall i | 0 <= i < |s| && s[i].name in applied :: IsPlainName(s[i].name)
    ensures LoadNames(Present(SavedLines(file, envVar, s, applied)), envVar) == Ok(AppliedNameSet(s, applied))
  {
    var kept := KeptLines(file, envVar);
    var names := Names(AppliedOf(s, applied));
    var extra := if names != [] then [AppliedLine(envVar, names)] else [];
    var str := OverrideStrLine(s, applied);
    assert SavedLines(file, envVar, s, applied) == kept + extra + [str];
    KeptAreUnmanaged(file, envVar);
    ExportLinePrefixes(OverrideStrVar, envVar, ReplaceNewlines(OverrideString(s, applied)));
    AppliedNamesPlain(s, applied, names);
    LoadOfSavedShape(kept, names, str, envVar);
    NamesOfApplied(s, applied);
  }

  /** A value made only of quotes is the empty value: nothing is applied
      and no error is reported. */
  lemma LoadEmptyValue(pre: seq<string>, post: seq<string>, envVar: string, q: string)
    requires forall i | 0 <= i < |pre| :: !HasPrefix(pre[i], ExportPrefix(envVar))
    requires forall i | 0 <= i < |q| :: q[i] in Quotes
    ensures LoadNames(Present(pre + [ExportPrefix(envVar) + q] + post), envVar) == Ok({})
  {
    var line := ExportPrefix(envVar) + q;
    assert pre + [line] + post == pre + ([line] + post);
    FirstAssignmentSkip(pre, [line] + post, envVar);
    assert HasPrefix(line, ExportPrefix(envVar));
    assert TrimPrefix(line, ExportPrefix(envVar)) == q;
  }

  /** A stored value that is not base64 is reported as corrupt, and nothing
      is applied. */
  lemma LoadCorruptValue(pre: seq<string>, post: seq<string>, envVar: string, v: string)
    requires forall i | 0 <= i < |pre| :: !HasPrefix(pre[i], ExportPrefix(envVar))
    requires Trim(v, Quotes) != "" && Decode(Trim(v, Quotes)).None?
    ensures LoadNames(Present(pre + [ExportPrefix(envVar) + v] + post), envVar) == Err(Corrupt)
  {
    var line := ExportPrefix(envVar) + v;
    assert pre + [line] + post == pre + ([line] + post);
    FirstAssignmentSkip(pre, [line] + post, envVar);
    assert HasPrefix(line, ExportPrefix(envVar));
    assert TrimPrefix(line, ExportPrefix(envVar)) == v;
  }

  /** The scan of loadPersistedState: the position of the first line that
      sets `envVar`, or |lines| when there is none. */
  method FindAssignment(lines: seq<string>, envVar: string) returns (i: int)
    ensures 0 <= i <= |lines|
    ensures i < |lines| ==> FirstAssignment(lines, envVar) == Some(lines[i])
    ensures i == |lines| ==> FirstAssignment(lines, envVar) == None
  {
    var prefix := ExportPrefix(envVar);
    i := 0;
    while i < |lines| && !HasPrefix(lines[i], prefix)
      invariant 0 <= i <= |lines|
      invariant FirstAssignment(lines[i..], envVar) == FirstAssignment(lines, envVar)
    {
      DropFirst(lines, i);
      i := i + 1;
    }
  }

  /** The loop of loadPersistedState over the decoded pieces: the trimmed,
      non-blank ones. */
  method CollectNames(parts: seq<string>) returns (found: set<string>)
    ensures found == NameSet(parts)
  {
    found := {};
    var k := 0;
    while k < |parts|
      invariant 0 <= k <= |parts|
      invariant found == NameSet(parts[..k])
    {
      var name := TrimSpace(parts[k]);
      NameSetSnoc(parts[..k], parts[k]);
      PrefixSnoc(parts, k);
      if name != "" {
        found := found + {name};
      }
      k := k + 1;
    }
    TakeAll(parts);
  }

  /** The first loop of savePersistedState: the lines it does not own. */
  method KeepUnmanaged(lines: seq<string>, envVar: string) returns (kept: seq<string>)
    ensures kept == Filter(lines, Keep(envVar))
  {
    kept := [];
    var i := 0;
    while i < |lines|
      invariant 0 <= i <= |lines|
      invariant kept == Filter(lines[..i], Keep(envVar))
    {
      PrefixSnoc(lines, i);
      if !HasPrefix(lines[i], ExportPrefix(envVar)) && !HasPrefix(lines[i], ExportPrefix(OverrideStrVar)) {
        kept := kept + [lines[i]];
      }
      i := i + 1;
    }
    TakeAll(lines);
  }

  /** The second loop of savePersistedState: the applied names, in
      registry order. */
  method CollectAppliedNames(s: seq<Override>, applied: set<string>) returns (names: seq<ByteString>)
    ensures names == Names(AppliedOf(s, applied))
  {
    names := [];
    var i := 0;
    while i < |s|
      invariant 0 <= i <= |s|
      invariant names == Names(AppliedOf(s[..i], applied))
    {
      PrefixSnoc(s, i);
      if s[i].name in applied {
        ghost var before := AppliedOf(s[..i], applied);
        assert AppliedOf(s[..i + 1], applied) == before + [s[i]];
        assert Names(before + [s[i]]) == Names(before) + [s[i].name] by {
          SnocPrefix(before, s[i]);
        }
        names := names + [s[i].name];
      }
      i := i + 1;
    }
    TakeAll(s);
  }

  /** loadPersistedState on the lines of a file it could open: find the
      first assignment, take its value, decode it, collect the names. */
  method ReadNames(lines: seq<string>, envVar: string) returns (r: Result<set<string>, LoadError>)
    ensures r == LoadNames(Present(lines), envVar)
  {
    var i := FindAssignment(lines, envVar);
    LoadNamesAt(lines, envVar, i);
    if i == |lines| {
      return Ok({});
    }
    var value := Trim(TrimPrefix(lines[i], ExportPrefix(envVar)), Quotes);
    if value == "" {
      return Ok({});
    }
    var decoded := Decode(value);
    if decoded.None? {
      return Err(Corrupt);
    }
    var found := CollectNames(Split(decoded.value, NameSeparator));
    return Ok(found);
  }

  /** savePersistedState's assembly of the new file: the kept lines, the
      applied names line when there are applied names, the override string
      line, given the override string already built. */
  method AssembleSaved(file: EnvFile, envVar: string, s: seq<Override>, applied: set<string>, str: string)
    returns (lines: seq<string>)
    requires str == OverrideString(s, applied)
    ensures lines == SavedLines(file, envVar, s, applied)
  {
    var kept: seq<string> := [];
    if file.Present? {
      kept := KeepUnmanaged(file.lines, envVar);
    }
    var appliedNames := CollectAppliedNames(s, applied);
    var namesLine: seq<string> := [];
    if |appliedNames| > 0 {
      namesLine := [AppliedLine(envVar, appliedNames)];
    }
    lines := kept + namesLine + [ExportLine(OverrideStrVar, ReplaceNewlines(str))];
  }

  /** LoadNames reads the value of the line the scan stopped at. */
  lemma LoadNamesAt(lines: seq<string>, envVar: string, i: int)
    requires 0 <= i <= |lines|
    requires i < |lines| ==> FirstAssignment(lines, envVar) == Some(lines[i])
    requires i == |lines| ==> FirstAssignment(lines, envVar) == None
    ensures i == |lines| ==> LoadNames(Present(lines), envVar) == Ok({})
    ensures i < |lines| ==> LoadNames(Present(lines), envVar) == DecodeValue(AssignedValue(lines[i], envVar))
  {
  }
}
