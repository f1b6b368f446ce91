# LazyHydra override manager, modelled in Dafny

LazyHydra is a terminal program for managing Hydra CLI overrides. Each override is a folder under an overrides directory. The folder holds an `apply.md`, whose YAML front matter gives the type, block, module path and module, and an `override.yaml`.

The program keeps the overrides in a list sorted by name, plus a set of applied names. It shows two lists: the available overrides and the applied ones. The applied names are persisted in the project's `.envrc` as two lines:

- the base64 of the comma-joined names;
- the Hydra override string built from them, one fragment `<type><module path>@<block>=<module>` per applied override.

Keys move the focus and the cursors, apply and remove overrides, and open overlays for help, creating, deleting and renaming an override.

This project models the core of `main.go`:

- the registry;
- loading the override folders;
- the override string;
- the `.envrc` codec, including RFC 4648 base64 (section 4, standard alphabet, `=` padding);
- `filepath.Clean`, `Join` and `Dir` on Unix, and `expandPath`;
- the `App` state with its cursors, panels and overlays, and the key dispatch.

## Modules

| file | module | what it is |
|---|---|---|
| `wrappers.dfy` | `Wrappers` | `Option` and `Result` |
| `seqs.dfy` | `Seqs` | order-keeping filter, the shape of every append loop in the program |
| `go_strings.dfy` | `GoStrings` | the `strings` functions used, and Go's `<` on strings |
| `base64.dfy` | `Base64` | `base64.StdEncoding` encode and decode |
| `paths.dfy` | `Paths` | `filepath.Clean`, `Join`, `Dir`, and `expandPath` |
| `registry.dfy` | `Registry` | `Override`, the two views, loading, reloading, sorting, finding and removing by name |
| `builder.dfy` | `Builder` | `buildOverrideString` |
| `persist.dfy` | `Persist` | `loadPersistedState` and `savePersistedState` on the lines of `.envrc` |
| `app.dfy` | `LazyHydra` | the `App` class, its methods and the key handler, and `main`'s start-up |

## Modelling decisions

- **Strings.** A Go string is a byte sequence. It is modelled as a Dafny `string` with one character per byte; `ByteString` is the subtype whose characters are below 256. Override names are `ByteString`s because they go through base64.
- **Sorting.** `sort.Slice` is not stable, so `SortByName` promises only a sorted permutation. `SortedByName` is non-decreasing order under Go's byte-wise `<`.
- **The App.** It is a class whose fields the methods update: the override list, the applied set, the `.envrc` contents, the focused panel, the two list cursors, the four overlay flags, the rename target and whether the program was stopped.
  - tview's widgets are reduced to the state the program reads back from them.
  - A list cursor is an integer. `Clear` resets it to 0, and the clamping of `refreshAll` is applied to it.
  - What each operation does to the registry and the cursors is a two-state predicate named after it: `Toggled`, `MovedDown`, `MovedUp`, `Edited`, `Deleted`, `Created` and `RenameCommitted`. The operation ensures its predicate. `MainKeyDone` and `OverlayKeyDone` say which of them a key triggers, and the key handlers ensure those up to `HandleKey`.
- **Outside effects become values.** The filesystem, the editor and the YAML library are answers passed in:
  - a directory listing is a sequence of `DirEntry` values, each with the text of its files or `None` when a file cannot be read;
  - `.envrc` is `EnvFile` (`Missing`, `Unreadable` or `Present(lines)`);
  - a key press carries a `World` with the outcome of `MkdirAll`, `Rename`, the `.envrc` write and the editor run, and the files' text afterwards;
  - the YAML library is two parameters, because the program decodes front matter into two different structs:
    - `parse: string -> Option<Meta>` decodes into the five-field struct of `loadOverrides`;
    - `parse3: string -> Option<ReloadMeta>` decodes into the three-field struct of `reloadOverride`.
  - `Registry.DecodersAgree` states the one relation between the two decodes: where the five-field decode succeeds, the three-field decode succeeds with the same type, block and file. The converse does not hold, because the YAML library ignores keys a struct has no field for.
- **References.** Go's `*Override` references are values here.
  - `renameTarget` holds the record, and the rename replaces the first list entry equal to it. `TargetListed` states that the target is an entry of the list, as Go's pointer into the list is. The key handlers require it and keep it.
  - `reloadOverride` updates the first entry of the name in place.
- **Behaviour of the code that a reader might not expect, which the model follows:**
  - Names are not assumed unique. Creating an override whose name exists adds a second entry.
  - Deleting removes only the first entry of that name.
  - A created override is available only when its name is not already in the applied set. The applied set can hold names with no override, left over from `.envrc`.
  - Reloading after the editor can change an override whose files did not change. This happens when its front matter has a `module` or `module_path` of the wrong YAML type. The load rejected the whole front matter, but the reload reads type, block and file from it (`Registry.ReloadOfRejectedFrontmatter`).

## Model

| member | source | states |
|---|---|---|
| Seqs.FilterMembership | main.go:845-863 | an element is kept by the order-keeping filter exactly when it is in the input and satisfies the condition |
| Seqs.FilterIsSubsequence | main.go:845-863 | the filter's result is a subsequence of its input (order kept) |
| Seqs.FilterSplit | main.go:845-863 | filtering by a condition and by its negation splits the input: multisets add up to the input's, lengths add up to its length |
| Seqs.FilterPermutation | main.go:305-307 | filtering two permutations of each other gives permutations of each other |
| Seqs.FilterCongruent | main.go:401-404 | conditions that agree on every element keep the same elements |
| Seqs.FilterPointwise | main.go:845-863 | equal-length sequences whose elements agree on the condition position by position keep equally many |
| Seqs.FilterAppend | main.go:845-863 | filtering distributes over concatenation |
| Seqs.FilterRemoveAt | main.go:1094-1099 | filtering with one element removed keeps what filtering the whole keeps, minus that element when it satisfies the condition |
| Seqs.SubsequenceOfPrefix | main.go:845-863 | a subsequence of a prefix stays a subsequence after the sequence grows |
| Seqs.SubsequenceShrink | main.go:845-863 | dropping an element from the end of a subsequence keeps it one |
| GoStrings.TrimPrefix | main.go:329 | `strings.TrimPrefix`: with the prefix present, prefix + result is the input; otherwise the input unchanged |
| GoStrings.TrimPrefixOfConcat | main.go:329 | a string starts with each of its prefixes, and trimming one off gives the rest |
| GoStrings.Trim | main.go:330 | `strings.Trim` with a cut set: no longer than the input, and neither end of the result is in the cut set |
| GoStrings.TrimSpace | main.go:343 | `strings.TrimSpace`: no longer than the input, and neither end of the result is white space |
| GoStrings.TrimLeftBy | main.go:330 | the result is a suffix of the input, every removed leading character is cut, and the result does not start with a cut character |
| GoStrings.TrimRightBy | main.go:343 | the result is a prefix of the input, every removed trailing character is cut, and the result does not end with a cut character |
| GoStrings.TrimByUntouched | main.go:343 | a string that neither starts nor ends with a cut character is not changed by trimming |
| GoStrings.TrimWrapped | main.go:330 | trimming a value wrapped in cut characters gives the value back when it neither starts nor ends with one |
| GoStrings.TrimLeftWrapped | main.go:330 | a leading run of cut characters before a kept one is exactly what the left trim removes |
| GoStrings.TrimRightWrapped | main.go:330 | a trailing run of cut characters after a kept one is exactly what the right trim removes |
| GoStrings.TrimSpaceOfTrimmed | main.go:343 | `strings.TrimSpace` leaves a string without surrounding white space as it is |
| GoStrings.TrimSpaceBytes | main.go:1025 | trimming keeps a byte string a byte string |
| GoStrings.IndexOf | main.go:341 | the position of the first occurrence: the character is there and not before |
| GoStrings.LastIndexOf | main.go:1158 | the position of the last occurrence, or -1: the character is there and not after it |
| GoStrings.Join | main.go:380 | `strings.Join`: a single part is returned as is; parts and separator of bytes give bytes |
| GoStrings.Split | main.go:341 | `strings.Split` on one character: at least one piece, no piece holds the separator, and joining the pieces gives the input back |
| GoStrings.JoinStartsWithFirst | main.go:423 | a join is at least as long as its first part |
| GoStrings.SplitJoin | main.go:341 | splitting a join of separator-free pieces gives the pieces back |
| GoStrings.SplitCons | main.go:341 | split cuts at the first separator |
| GoStrings.ReplaceNewlines | main.go:387 | `strings.ReplaceAll(s, "\n", " ")`: same length, no newline left, every newline a space and every other character kept |
| GoStrings.BeforeFirst | main.go:280 | first piece of `strings.SplitN(s, sep, 2)`: a prefix of `s` with no occurrence of `sep` starting inside it, ending at the first one or at the end |
| GoStrings.BeforeFirstAt | main.go:280 | the first piece ends exactly at the first occurrence of the separator |
| GoStrings.LessIrreflexive | main.go:305-307 | Go's `<` on strings is irreflexive |
| GoStrings.LessTransitive | main.go:305-307 | Go's `<` on strings is transitive |
| GoStrings.LessTotal | main.go:305-307 | any two strings are equal or ordered one way or the other |
| Base64.CharOf | main.go:380 | a 6-bit value maps to a character of the standard alphabet |
| Base64.ValueOf | main.go:336 | an alphabet character maps to a 6-bit value |
| Base64.ValueOfCharOf | main.go:336 | reading back a value's character gives the value |
| Base64.CharOfValueOf | main.go:380 | writing a character's value gives the character |
| Base64.GroupRoundTrip | main.go:336 | the four 6-bit values of three bytes give the three bytes back |
| Base64.PairRoundTrip | main.go:336 | the three 6-bit values of a last group of two bytes give the bytes back |
| Base64.Encode | main.go:380 | the encoding has 4 characters per started group of 3 bytes, each an alphabet character or `=` |
| Base64.Group | main.go:380 | a group of three bytes is four alphabet characters |
| Base64.GroupBytesOfGroup | main.go:336 | the bytes of the four characters written for three bytes are those bytes |
| Base64.LastGroupOfOne | main.go:336 | the padded group written for one last byte decodes to it |
| Base64.EncodeOfTwo | main.go:380 | the group written for two last bytes is three alphabet characters and one `=` |
| Base64.DecodeOfPadded | main.go:336 | three alphabet characters and `=` decode to the two bytes their values make |
| Base64.PairCharsRoundTrip | main.go:336 | the characters written for two bytes give those bytes back |
| Base64.LastGroupOfTwo | main.go:336 | two bytes survive encoding and decoding |
| Base64.DecodeCons | main.go:336 | a leading group of four alphabet characters decodes on its own, in front of the rest's bytes |
| Base64.DecodeEncodeOne | main.go:336 | one byte survives encoding and decoding |
| Base64.DecodeEncodeTwo | main.go:336 | two bytes survive encoding and decoding |
| Base64.DecodeEncodeThree | main.go:336 | three bytes survive encoding and decoding |
| Base64.DecodeLastOfFullGroup | main.go:336 | an unpadded last group decodes to its three bytes |
| Base64.DecodeEncode | main.go:336 | round trip: decoding the encoding of any byte string gives it back |
| Base64.DecodeEncodeStep | main.go:336 | the first group, then the rest, decode to the first three bytes, then the rest's |
| Base64.DecodeHeadGroup | main.go:336 | the first group in front of a decodable rest decodes to its bytes in front of the rest's |
| Base64.DecodeGroupThen | main.go:336 | a full group in front of a decodable rest decodes to its bytes in front of the rest's bytes |
| Base64.EncodeHead | main.go:380 | encoding more than three bytes writes the first group, then the rest's encoding |
| Base64.GroupBytesOfHead | main.go:336 | the first group of an encoding decodes to the first three bytes |
| Base64.EncodeHasNoQuotes | main.go:380-381 | the encoding of non-empty input is non-empty and holds no quote character, so the quotes around it can be trimmed |
| Base64.DecodeRejectsLength | main.go:336-338 | input that is not whole groups of four characters is rejected |
| Base64.Decode | main.go:336 | `StdEncoding.DecodeString`: its round trip with `Encode` is `Base64.DecodeEncode`, and its rejection of partial groups is `Base64.DecodeRejectsLength` |
| Base64.DecodeLast | main.go:336 | the last group: two, three or four alphabet characters with `=` padding; its results are stated by `Base64.LastGroupOfOne`, `Base64.DecodeOfPadded` and `Base64.DecodeLastOfFullGroup` |
| Paths.StepClean | main.go:237 | pushing one path component keeps the component stack clean |
| Paths.ResolveClean | main.go:237 | resolving any components keeps the stack clean |
| Paths.ResolveOfClean | main.go:237 | resolving components that are already clean changes nothing |
| Paths.CleanShape | main.go:237 | the components Clean resolves form a clean stack |
| Paths.CleanIdempotent | main.go:237 | `filepath.Clean` is idempotent |
| Paths.CleanOfRootedStack | main.go:237 | a clean absolute path is its own Clean |
| Paths.CleanOfRelativeStack | main.go:237 | a clean relative path is its own Clean |
| Paths.CleanOfDot | main.go:237 | Clean(".") is "." |
| Paths.CleanOfRoot | main.go:237 | Clean("/") is "/" |
| Paths.CleanRooted | main.go:237 | Clean never gives "" and its result is absolute exactly when the input is |
| Paths.JoinRooted | main.go:237 | `filepath.Join` onto an absolute directory gives an absolute path |
| Paths.ExpandRooted | main.go:235-248 | `expandPath` leaves an absolute path as it is |
| Paths.ExpandPathIdempotent | main.go:235-248 | with an absolute home and project root, expanding an expanded path changes nothing |
| Paths.ExpandPathCases | main.go:235-248 | a path with neither `~/` nor `$PROJECT_ROOT` is returned as is; with one of them it becomes absolute |
| Paths.ExpandPath | main.go:235-248 | `expandPath`: its three cases are stated by `Paths.ExpandPathCases`, `Paths.ExpandRooted` and `Paths.ExpandPathIdempotent` |
| Paths.Clean | main.go:238 | `filepath.Clean`, which `filepath.Join` applies: its properties are stated by `Paths.CleanIdempotent`, `Paths.CleanRooted` and `Paths.CleanShape` |
| Paths.JoinPath | main.go:262-265 | `filepath.Join` of two paths: its absoluteness is stated by `Paths.JoinRooted` |
| Paths.Dir | main.go:1158 | `filepath.Dir`: the path up to its last `/`, cleaned |
| Registry.Partition | main.go:845-863 | an override is in the available view exactly when it is in the list and not applied, and in the applied view exactly when it is in the list and applied; both views are subsequences of the list |
| Registry.PartitionCounts | main.go:845-863 | together the two views hold every entry of the list exactly once |
| Registry.FrontmatterOfDelimited | main.go:279-281 | `---` y `---` body yields front matter y when y holds no `---` of its own |
| Registry.Frontmatter | main.go:279-281 | the text after a leading `---` up to the next `---`; what it recovers is stated by `Registry.FrontmatterOfDelimited` |
| Registry.LoadEntry | main.go:257-301 | an entry is loaded exactly when it is a folder with a readable `apply.md`, under its own name, in the folder joined onto the directory, with `ApplyInfo` the text of `apply.md` |
| Registry.LoadAll | main.go:257-303 | the loop over the listing appends the loaded entries, in listing order |
| Registry.LoadedFrom | main.go:257-303 | every loaded override comes from one entry of the listing |
| Registry.LoadedHas | main.go:257-303 | every entry that loads is in the loaded list |
| Registry.LoadedMembership | main.go:257-303 | loading keeps exactly the folders with a readable `apply.md`, under their own name and path |
| Registry.Loaded | main.go:257-303 | the overrides `loadOverrides` appends, in listing order; what it holds is stated by `Registry.LoadedMembership`, `Registry.LoadedFrom` and `Registry.LoadedHas` |
| Registry.Reloaded | main.go:805-843 | a reload keeps the name, the folder and the module fields; a readable apply.md becomes ApplyInfo and a readable override.yaml Content; when apply.md's front matter decodes with the three-field decode, type, block and file are the decoded ones, and otherwise they stay; a file that cannot be read leaves its fields as they were |
| Registry.ReloadOfUnchanged | main.go:805-843 | reloading unchanged files gives what loading them gave, when the two decodes give the same verdict on the front matter |
| Registry.ReloadOfRejectedFrontmatter | main.go:282-289 | when the five-field decode rejected the front matter and the three-field decode accepts it, the load left type, block and file empty and the reload sets them from the three-field decode |
| Registry.InsertByName | main.go:305-307 | inserting into a sorted list keeps it sorted and adds exactly that entry |
| Registry.InsertKeepsSorted | main.go:305-307 | the insertion point chosen keeps the list sorted |
| Registry.InsertedPair | main.go:305-307 | each pair of positions of the list after insertion is in order |
| Registry.SortByName | main.go:305-308 | `sort.Slice` by name: the result is sorted and a permutation of the input |
| Registry.RemoveAtKeepsSorted | main.go:1094-1099 | splicing out one entry keeps the list sorted and removes exactly that entry |
| Registry.NotBelow | main.go:305-307 | an order fact on names: below y and z not below y means z not below x |
| Registry.ReplaceSameNameKeepsSorted | main.go:805-843 | putting back an entry under the same name keeps the list sorted |
| Registry.IndexOfName | main.go:806-810 | the first position of the name, or -1 when no entry has it |
| Registry.FindName | main.go:806-810 | the search loop returns the first position of the name, or -1 |
| Registry.RemoveNamed | main.go:1094-1099 | the splice loop removes the first entry of the name |
| Registry.RemoveFirstNamedSpec | main.go:1094-1099 | removing the first entry of a name keeps the list sorted and takes out exactly that entry, or changes nothing when there is none |
| Registry.ReplaceSameNameViews | main.go:805-843 | replacing an entry by one of the same name keeps both views' sizes |
| Registry.ReplaceEqual | main.go:1166-1167 | the entry equal to the target is replaced: the multiset loses the target and gains the new entry; without the target the list is unchanged |
| Registry.ReplaceMultiset | main.go:1166-1167 | replacing one position swaps one element of the multiset |
| Builder.ModuleOf | main.go:413-416 | the module is never empty |
| Builder.Fragments | main.go:401-420 | one fragment per override, in order |
| Builder.FragmentFields | main.go:418-420 | a fragment splits at `=` into key and module, and the key splits at `@` into group and block, when no field holds a separator |
| Builder.OverrideStringEmpty | main.go:399-424 | the override string is empty exactly when no override of the list is applied |
| Builder.OverrideStringLines | main.go:399-424 | the lines of the override string are the fragments of the applied overrides, in registry order |
| Builder.OverrideString | main.go:399-424 | `buildOverrideString`; its lines are stated by `Builder.OverrideStringLines` and its emptiness by `Builder.OverrideStringEmpty` |
| Builder.Fragment | main.go:401-420 | one override's fragment; how it parses back into its fields is stated by `Builder.FragmentFields` |
| Builder.OverrideStringOfSameNames | main.go:399-424 | the override string depends only on which names of the list are applied, not on the order they were toggled in |
| Builder.TwoAppliedDefaults | main.go:399-424 | two applied overrides with no module fields give `<type>overrides/<name>@<block>=override` each, in list order, joined by a newline |
| Builder.AppliedPair | main.go:845-863 | two applied overrides are both in the applied view, in order |
| Builder.FragmentsPair | main.go:401-420 | the fragments of two overrides are their fragments in order |
| Persist.Names | main.go:373-378 | the names of a list, position by position |
| Persist.FirstAssignment | main.go:325-328 | the first line that sets the variable is in the file and sets it; none means no line sets it |
| Persist.DecodeValue | main.go:332-339 | an empty value is the empty set; a value that is not base64 is `Corrupt` |
| Persist.LoadNames | main.go:313-353 | a missing file gives no names and no error; an unreadable one is `ReadFailed`; `Corrupt` only comes from a line that sets the variable |
| Persist.NameSetSnoc | main.go:341-347 | one more piece adds its trimmed text unless it is blank |
| Persist.KeyPrefixesDisjoint | main.go:362-363 | no assignment line of one key starts like one of another key |
| Persist.OverrideStrVarIsKey | main.go:363 | `HYDRA_OVERRIDE_STR` holds no `=` |
| Persist.FirstAssignmentSkip | main.go:325-328 | lines that set nothing do not change which line is found |
| Persist.KeptAreUnmanaged | main.go:358-371 | no kept line is a managed one |
| Persist.SaveKeepsOtherLines | main.go:358-371 | the saved file starts with exactly the lines the program does not own, verbatim and in their order |
| Persist.KeptLines | main.go:358-371 | the lines of `.envrc` that set neither managed variable, in order; stated by `Persist.KeptAreUnmanaged` |
| Persist.SavedLines | main.go:355-388 | the file `savePersistedState` writes; its shape is stated by `Persist.SaveKeepsOtherLines`, `Persist.SaveManagedLines` and `Persist.SaveLoadRoundTrip` |
| Persist.ExportLinePrefixes | main.go:380-388 | an assignment line starts with its own key's prefix and with no other key's |
| Persist.ManagedShape | main.go:380-388 | user lines, at most one applied-names line, then the override-string line: the last line is the only one setting the override string, and a names line is there exactly when one was added |
| Persist.SaveManagedLines | main.go:355-388 | the override-string line is last and the only one of its kind; an applied-names line is there exactly when some override of the list is applied |
| Persist.AppliedIffAny | main.go:373-382 | the applied view is non-empty exactly when some override of the list is applied |
| Persist.NamesOfApplied | main.go:373-378 | the saved names are exactly the applied names of the list |
| Persist.AppliedNamesPlain | main.go:373-378 | the saved names are plain when every applied name of the list is |
| Persist.NameSetOfPlain | main.go:341-347 | trimmed, non-blank names are their own name set |
| Persist.QuotedValue | main.go:329-330 | a quoted value with no quotes of its own reads back as itself |
| Persist.TrimQuotesOfEmpty | main.go:330-333 | `""` trims to the empty value |
| Persist.DecodeValueOf | main.go:336-347 | a non-empty value that decodes gives the name set of the decoded text |
| Persist.NameSetOfJoined | main.go:341-347 | splitting plain names joined by commas gives back their set |
| Persist.DecodeStoredNames | main.go:336-347 | the stored value of plain names holds no quotes and decodes to exactly those names |
| Persist.JoinedNames | main.go:380 | plain names joined by commas are a non-empty byte string |
| Persist.DecodeEncodedText | main.go:336-347 | a non-empty text, encoded, decodes to the name set of the text |
| Persist.FirstAssignmentOfSaved | main.go:325-328 | reading a saved file finds the applied-names line when there is one, and none otherwise |
| Persist.LoadOfSavedShape | main.go:313-353 | loading a file of the saved shape gives back the stored names |
| Persist.LoadOfAppliedLine | main.go:313-353 | the applied-names line is found and its value read back |
| Persist.ValueOfAppliedLine | main.go:329-347 | the applied-names line carries the stored names |
| Persist.SaveLoadRoundTrip | main.go:355-388 | saving and loading back recovers exactly the applied names of the list, when each is non-blank, comma-free and trimmed |
| Persist.LoadEmptyValue | main.go:332-334 | a value of quotes only loads as no names and no error |
| Persist.LoadCorruptValue | main.go:336-338 | a value that is not base64 is reported `Corrupt` |
| Persist.FindAssignment | main.go:325-328 | the scan stops at the first line that sets the variable, or at the end when none does |
| Persist.CollectNames | main.go:341-347 | the loop collects the trimmed, non-blank pieces |
| Persist.KeepUnmanaged | main.go:358-371 | the loop keeps the lines the program does not own, in order |
| Persist.CollectAppliedNames | main.go:373-378 | the loop collects the applied names in registry order |
| Persist.ReadNames | main.go:325-353 | reading the lines gives what `LoadNames` specifies |
| Persist.AssembleSaved | main.go:358-388 | the assembled lines are the saved lines `SavedLines` specifies |
| Persist.LoadNamesAt | main.go:325-339 | the result is read from the line the scan stopped at |
| LazyHydra.NextPanelIndex | main.go:698-699 | the next panel is a different panel in range |
| LazyHydra.PrevPanelIndex | main.go:705-706 | the previous panel is a different panel in range |
| LazyHydra.PanelCycleInverse | main.go:698-710 | `prevPanel` undoes `nextPanel` and the other way round |
| LazyHydra.Clamped | main.go:895-900 | the cursor after a refresh fits the list, stays while it is in range, else moves to the last item |
| LazyHydra.Renamed | main.go:1156-1167 | the renamed override has the new name and differs from the old one only in name and folder |
| LazyHydra.RenameInList | main.go:1166-1178 | the list after a rename is sorted and holds the renamed entry in place of the target |
| LazyHydra.RenamedIsListed | main.go:1166-1178 | the renamed target is in the list the rename leaves, so the rename target stays an entry of the list |
| LazyHydra.AppliedFragmentsSnoc | main.go:401-422 | one more entry of the list adds its fragment to the applied fragments exactly when its name is applied |
| LazyHydra.NewOverride | main.go:1208-1214 | the created override has the name, the folder and the template `apply.md` |
| LazyHydra.PanelAfter | main.go:568-637 | `1` and `2` jump to their panels, `l`, Tab and Right move to the next, `h`, Backtab and Left to the previous, and the index stays in range |
| LazyHydra.NextOverlay | main.go:526-566 | Esc closes any overlay; an open overlay only stays or closes; rename and delete open only with a selection, rename on it |
| LazyHydra.OpensOverlay | main.go:601-618 | without an overlay only `?` and `n` open one, and `d` and `r` when something is selected |
| LazyHydra.ApplyMovesOverride | main.go:739-747 | applying the item under the available cursor moves it and every override of its name to the applied view |
| LazyHydra.RemoveMovesOverride | main.go:748-756 | removing the item under the applied cursor moves it and every override of its name back to the available view |
| LazyHydra.RenameApplied | main.go:1169-1173 | after a rename the new name is applied exactly when the old one was or it already was; the old name is not; no other name changes |
| LazyHydra.TemplateHasFrontmatter | main.go:1200-1204 | the template `apply.md` has front matter |
| LazyHydra.CreatedOverrideLoads | main.go:1194-1214 | a created folder loads back as the override created, when the YAML reads the template's front matter as empty fields |
| LazyHydra.App.constructor | main.go:144-148 | a new App has nothing loaded or applied, the first panel focused, no overlay |
| LazyHydra.App.LoadOverrides | main.go:250-311 | an unreadable listing is an error and changes nothing; otherwise the loaded overrides join the list, which is sorted |
| LazyHydra.App.LoadPersistedState | main.go:313-353 | the stored names join the applied set; on an error the set is unchanged and the error returned |
| LazyHydra.App.GetAvailableOverrides | main.go:845-853 | the loop returns the available view |
| LazyHydra.App.GetAppliedOverrides | main.go:855-863 | the loop returns the applied view |
| LazyHydra.App.BuildOverrideString | main.go:399-424 | the loop returns the override string |
| LazyHydra.App.SavePersistedState | main.go:355-392 | the file becomes the saved lines when the write succeeds and is unchanged otherwise; nothing else changes |
| LazyHydra.App.SelectedOverride | main.go:865-885 | the item under the focused cursor, else the first override, else none |
| LazyHydra.App.RefreshAll | main.go:887-918 | each cursor is clamped to its list; nothing else changes |
| LazyHydra.App.SaveAndRefresh | main.go:1104-1106 | save, then refresh: the file saved, the cursors clamped, the registry unchanged |
| LazyHydra.App.CursorDown | main.go:643-659 | `MovedDown`: the focused cursor moves down one unless on the last item; the registry and the focus do not change |
| LazyHydra.App.CursorUp | main.go:661-675 | `MovedUp`: the focused cursor moves up one unless on the first item; the registry and the focus do not change |
| LazyHydra.App.FocusPanel | main.go:689-696 | an index in range is focused, any other ignored |
| LazyHydra.App.NextPanel | main.go:698-703 | the focus moves to the next panel, wrapping |
| LazyHydra.App.PrevPanel | main.go:705-710 | the focus moves to the previous panel, wrapping |
| LazyHydra.App.ToggleOverride | main.go:737-758 | `Toggled`: the name under the available cursor is added to the applied set, or the name under the applied cursor removed from it, then the state is saved and both cursors end where `Clamped` puts them; the list and the focus do not change; with nothing under the cursor nothing changes |
| LazyHydra.App.ReloadOverride | main.go:805-843 | the first override of the name is replaced by its reloaded form, read with the three-field decode `parseReload`; without one nothing changes |
| LazyHydra.App.OpenInEditor | main.go:760-803 | `Edited`: with a selection and an editor run, the first override of the selected name is replaced by its reload; otherwise the list does not change; the applied set, the file, the focus and the cursors never change |
| LazyHydra.App.ShowHelp | main.go:965-1006 | the help overlay opens |
| LazyHydra.App.CloseHelp | main.go:1008-1013 | the help overlay closes; nothing else changes |
| LazyHydra.App.ShowNewOverrideInput | main.go:1015-1040 | the new-override input opens |
| LazyHydra.App.CloseInput | main.go:1042-1047 | the input closes; nothing else changes |
| LazyHydra.App.ShowDeleteConfirmation | main.go:1049-1075 | the confirmation opens only when something is selected |
| LazyHydra.App.CloseDeleteConfirmation | main.go:1077-1082 | the confirmation closes; nothing else changes |
| LazyHydra.App.ShowRenameInput | main.go:1109-1141 | the rename input opens on the selection only when there is one |
| LazyHydra.App.CloseRenameInput | main.go:1143-1149 | the rename input closes and the target is forgotten |
| LazyHydra.App.DeleteSelectedOverride | main.go:1084-1107 | `Deleted`: the selected name is unapplied and the first override of that name spliced out, then the state is saved. Both cursors end where `Clamped` puts them for the new list sizes. Without a selection nothing changes. |
| LazyHydra.App.RenameSelectedOverride | main.go:1151-1183 | without a target or when the folder rename fails nothing changes; otherwise `RenameCommitted`: the target is renamed, the applied set follows the name, the list is sorted and the state saved. Both cursors end where `Clamped` puts them for the new list sizes. |
| LazyHydra.App.CommitRename | main.go:1165-1183 | `RenameCommitted`: the renamed target replaces the old one, the applied set follows the name, the list is sorted and the state saved. Both cursors end where `Clamped` puts them for the new list sizes. The new target is in the list. |
| LazyHydra.App.StoreRename | main.go:1166-1175 | the renamed list, applied set and target replace the old ones; the cursors, the file and the overlays do not change, and the target is in the list |
| LazyHydra.App.CreateNewOverride | main.go:1185-1223 | `Created`: when the folder can be made, exactly one new override joins the list, which stays sorted, and both cursors end where `Clamped` puts them for the new list sizes; otherwise nothing changes. The applied set, the file and the focus never change. |
| LazyHydra.App.NewOverrideDone | main.go:1023-1031 | Enter with a non-blank trimmed name does what `CreateNewOverride` does with that name (`Created`); every other key leaves the registry, the focus and the cursors as they were; the input closes in every case |
| LazyHydra.App.RenameDone | main.go:1124-1132 | Enter with a non-blank trimmed name different from the target's, when the folder rename succeeds, renames the target (`RenameCommitted`); every other case leaves the registry, the focus and the cursors as they were; the input closes in every case |
| LazyHydra.App.HandleKey | main.go:526-640 | an open overlay takes the key first; the overlay, the stop flag and the focus follow `NextOverlay` and `PanelAfter`; without an overlay the key does what `MainKeyDone` says, with one what `OverlayKeyDone` says; hence only Enter and Space change the applied set or the file, and only Enter, `e` and `E` the list |
| LazyHydra.App.HandleOverlayKey | main.go:526-566 | the overlay follows `NextOverlay` and the key does what `OverlayKeyDone` says: Enter creates in the new-override input, deletes in the confirmation and renames in the rename input; every other key, and every key in the help, keeps the registry, the focus and the cursors |
| LazyHydra.App.HandleHelpOrInputKey | main.go:527-543 | help and new-override input: the overlay follows `NextOverlay`; Enter in the input creates the override named by the trimmed text (`Created`); every other key keeps the registry, the focus and the cursors |
| LazyHydra.App.HandleDeleteOrRenameKey | main.go:545-566 | delete confirmation and rename input: the overlay follows `NextOverlay`; Enter deletes the selected override (`Deleted`) or renames the target (`RenameCommitted`); every other key keeps the registry, the focus and the cursors |
| LazyHydra.App.HandleDeleteKey | main.go:1049-1082 | Esc and `q` close the confirmation; Enter deletes the selected override (`Deleted`) and closes it; every key but Enter keeps the registry, the focus and the cursors |
| LazyHydra.App.HandleRenameKey | main.go:1124-1141 | Esc closes the rename input, and Enter, Tab and Backtab end it; Enter renames the target as `RenameDone` states; every other key keeps the registry, the focus and the cursors |
| LazyHydra.App.HandleMainKey | main.go:568-639 | overlay, stop flag and focus as `NextOverlay` and `PanelAfter` say; `MainKeyDone`: Enter and Space toggle (`Toggled`), `j` and `k` move the cursor (`MovedDown`, `MovedUp`), `e` and `E` edit and reload (`Edited`), and every other key keeps the registry and both cursors |
| LazyHydra.App.HandleSpecialKey | main.go:620-637 | no overlay opens; Enter toggles (`Toggled`); Tab, Backtab, Left and Right move the focus as `PanelAfter` says and Esc stops, keeping the registry and both cursors |
| LazyHydra.App.HandleMoveRune | main.go:571-591 | `j` moves the cursor down (`MovedDown`), `k` up (`MovedUp`); `q` stops and `1`, `2`, `h`, `l` move the focus as `PanelAfter` says, keeping the registry and both cursors |
| LazyHydra.App.HandleFocusKey | main.go:620-637 | Tab and Right focus the next panel, Backtab and Left the previous one, Esc stops; the registry and both cursors do not change and no overlay opens |
| LazyHydra.App.HandleFocusRune | main.go:571-585 | `q` stops, `1` and `2` focus a panel, `h` and `l` the previous and the next one; the registry and both cursors do not change |
| LazyHydra.App.HandleActionRune | main.go:598-618 | Space toggles (`Toggled`), `e` and `E` edit and reload (`Edited`), `?`, `n`, `d`, `r` open the overlay `NextOverlay` names and keep the registry and both cursors |
| LazyHydra.App.HandleEditRune | main.go:598-610 | Space toggles the item under the cursor (`Toggled`); `e` and `E` open the selection in the editor and reload it (`Edited`); no overlay opens |
| LazyHydra.App.HandleOverlayRune | main.go:598-618 | `?`, `n`, `d` and `r` open the overlay `NextOverlay` names; the registry and the cursors do not change |
| LazyHydra.Launch | main.go:138-159 | an unreadable listing ends the program; otherwise the App holds the loaded overrides, the stored names (none and a warning on an error), the first panel focused and both cursors at 0 |

## Left out

- UI construction and rendering are not modelled, because they are widget layout with no state the program reads back. This covers `setupUI`, `updateBorderColors`, `updateContentAndInfo`, `updateStatusBar`, `modal`, the help and confirmation texts, `init` and `highlightCode`.
- `scrollContentDown` and `scrollContentUp` (keys `J` and `K`) are not modelled. They move only the content view's scroll offset, and that view is not modelled.
- `loadConfig` and the YAML library are not modelled. The configuration values come in as constructor parameters. Front-matter decoding is the two parameters `parse` and `parse3`.
- Filesystem calls become values passed in. `os.ReadDir`, `ReadFile`, `WriteFile`, `MkdirAll`, `RemoveAll`, `Rename` and `os.Open` are answers in `DirEntry`, `EnvFile` and `World`. Files that `createNewOverride` and `deleteSelectedOverride` write or remove are not tracked.
- `os.UserHomeDir`, `os.Getenv` and `os.Getwd` are not modelled. The home directory and the project root are parameters, so `getProjectRoot` is not modelled.
- `direnv allow`, run after a save, is not modelled because it is an external process. Its error is ignored, as in the program.
- The editor lookup in `openInEditor` (`$EDITOR`, `$VISUAL`, then `vim`, `vi`, `nano`, `emacs`) and the `os.Stat` check of the file are not modelled. They are reduced to the boolean `editorRuns`.
- `main`'s command-line flags (`--help`, `--list`, `--print`) and their printing are not modelled, because they are output plumbing.
- `bufio.Scanner` is not modelled. The file is given as the lines the scanner returns, so a scanner error (a line over 64 KiB) is not modelled, and a failed write is all-or-nothing. The scanner also drops a `\r` before each line end, so a `.envrc` with CRLF line ends is written back with LF ends: the lines `Persist.SaveKeepsOtherLines` keeps verbatim are the scanned lines, not the bytes of the file.
- Partial writes are not modelled.
- LazyHydra.App.HandleKey: keys the program passes on to tview change nothing in the model. Examples are arrow keys inside a list, and typing or Backspace inside an input field.
- The input field's text arrives as `World.fieldText` when the input ends.
- Base64.Decode: it does not skip the `\r` and `\n` characters that Go's decoder ignores inside the input.
- GoStrings.TrimSpace: only ASCII white space is trimmed. Go also trims multi-byte Unicode spaces such as U+00A0 and U+2000 to U+200A.
- Aliasing between the list and `renameTarget` is not modelled. The record is found by value instead, and `TargetListed` keeps it an entry of the list.
- The source gives no stability guarantee, so `SortByName` does not fix the order of equal names.
- Terminal concurrency and tview's event loop are not modelled. A key press is one atomic method call.
