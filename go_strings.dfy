/** The pieces of Go's `strings` package, and Go's `<` on strings, that the
    override manager relies on.

    A Go string is a sequence of bytes. The model writes it as a Dafny
    `string` with one character per byte, so a character code is below 256
    wherever bytes matter (`ByteString`). Whitespace is the ASCII white space
    that `unicode.IsSpace` accepts. */
module GoStrings {

  predicate IsByteString(s: string)
  {
    forall i | 0 <= i < |s| :: s[i] as int < 256
  }

  /** A Go string: one character per byte. */
  type ByteString = s: string | IsByteString(s)

  predicate HasPrefix(s: string, prefix: string)
  {
    |prefix| <= |s| && s[..|prefix|] == prefix
  }

  /** strings.TrimPrefix */
  function TrimPrefix(s: string, prefix: string): (r: string)
    ensures HasPrefix(s, prefix) ==> prefix + r == s
    ensures !HasPrefix(s, prefix) ==> r == s
  {
    if HasPrefix(s, prefix) then s[|prefix|..] else s
  }

  /** A string starts with each of its prefixes, and trimming one off
      gives the rest. */
  lemma TrimPrefixOfConcat(a: string, b: string)
    ensures HasPrefix(a + b, a) && TrimPrefix(a + b, a) == b
  {
    assert (a + b)[..|a|] == a;
    assert (a + b)[|a|..] == b;
  }

  /** The characters `unicode.IsSpace` accepts below 128. */
  predicate IsSpace(c: char)
  {
    c == ' ' || c == '\t' || c == '\n' || c == '\r' || c == '\U{0B}' || c == '\U{0C}'
  }

  /** `s` without its leading characters that satisfy `cut`. */
  function TrimLeftBy(s: string, cut: char -> bool): (r: string)
    ensures |r| <= |s| && r == s[|s| - |r|..]
    ensures forall i | 0 <= i < |s| - |r| :: cut(s[i])
    ensures r != [] ==> !cut(r[0])
    decreases |s|
  {
    if s != [] && cut(s[0]) then TrimLeftBy(s[1..], cut) else s
  }

  /** `s` without its trailing characters that satisfy `cut`. */
  function TrimRightBy(s: string, cut: char -> bool): (r: string)
    ensures |r| <= |s| && r == s[..|r|]
    ensures forall i | |r| <= i < |s| :: cut(s[i])
    ensures r != [] ==> !cut(r[|r| - 1])
    decreases |s|
  {
    if s != [] && cut(s[|s| - 1]) then TrimRightBy(s[..|s| - 1], cut) else s
  }

  function TrimBy(s: string, cut: char -> bool): string
  {
    TrimRightBy(TrimLeftBy(s, cut), cut)
  }

  /** strings.Trim(s, cutset): no longer than `s`, and neither end of the
      result is in the cut set. */
  function Trim(s: string, cutset: string): (r: string)
    ensures |r| <= |s|
    ensures r != [] ==> r[0] !in cutset && r[|r| - 1] !in cutset
  {
    TrimBy(s, c => c in cutset)
  }

  /** strings.TrimSpace: no longer than `s`, and neither end of the result
      is white space. */
  function TrimSpace(s: string): (r: string)
    ensures |r| <= |s|
    ensures r != [] ==> !IsSpace(r[0]) && !IsSpace(r[|r| - 1])
  {
    TrimBy(s, IsSpace)
  }

  /** A string that starts and ends with a character `cut` rejects is left
      as it is by TrimBy. */
  lemma TrimByUntouched(s: string, cut: char -> bool)
    requires s != [] ==> !cut(s[0]) && !cut(s[|s| - 1])
    ensures TrimBy(s, cut) == s
  {
  }

  /** Trimming a value wrapped in characters of the cut set gives the value
      back, when the value neither starts nor ends with one of them. */
  lemma TrimWrapped(left: string, v: string, right: string, cut: char -> bool)
    requires v != [] && !cut(v[0]) && !cut(v[|v| - 1])
    requires forall i | 0 <= i < |left| :: cut(left[i])
    requires forall i | 0 <= i < |right| :: cut(right[i])
    ensures TrimBy(left + v + right, cut) == v
  {
    assert left + v + right == left + (v + right);
    assert (v + right)[0] == v[0];
    TrimLeftWrapped(left, v + right, cut);
    TrimRightWrapped(v, right, cut);
  }

  /** The left trim removes exactly a leading run of cut characters that is
      followed by one it keeps. */
  lemma TrimLeftWrapped(left: string, rest: string, cut: char -> bool)
    requires rest != [] && !cut(rest[0])
    requires forall i | 0 <= i < |left| :: cut(left[i])
    ensures TrimLeftBy(left + rest, cut) == rest
  {
    var s := left + rest;
    assert forall i | 0 <= i < |left| :: s[i] == left[i];
    assert s[|left|] == rest[0];
    assert s[|left|..] == rest;
  }

  /** The right trim removes exactly a trailing run of cut characters that
      follows one it keeps. */
  lemma TrimRightWrapped(init: string, right: string, cut: char -> bool)
    requires init != [] && !cut(init[|init| - 1])
    requires forall i | 0 <= i < |right| :: cut(right[i])
    ensures TrimRightBy(init + right, cut) == init
  {
    var s := init + right;
    assert forall i | |init| <= i < |s| :: s[i] == right[i - |init|];
    assert s[|init| - 1] == init[|init| - 1];
    assert s[..|init|] == init;
  }

  /** Trimming keeps a byte string a byte string. */
  lemma TrimSpaceBytes(s: string)
    requires IsByteString(s)
    ensures IsByteString(TrimSpace(s))
  {
    var l := TrimLeftBy(s, IsSpace);
    SliceBytes(s, |s| - |l|, |s|);
    var r := TrimRightBy(l, IsSpace);
    SliceBytes(l, 0, |r|);
  }

  /** A slice of a byte string is one. */
  lemma SliceBytes(s: string, i: int, j: int)
    requires IsByteString(s) && 0 <= i <= j <= |s|
    ensures IsByteString(s[i..j]) && (j == |s| ==> IsByteString(s[i..])) && (i == 0 ==> IsByteString(s[..j]))
  {
    assert forall k | 0 <= k < j - i :: s[i..j][k] == s[i + k];
  }

  /** TrimSpace on a string with no surrounding white space changes nothing. */
  lemma TrimSpaceOfTrimmed(s: string)
    requires s != [] ==> !IsSpace(s[0]) && !IsSpace(s[|s| - 1])
    ensures TrimSpace(s) == s
  {
    TrimByUntouched(s, IsSpace);
  }

  /** The position of the first `c` in `s`. */
  function IndexOf(s: string, c: char): (i: nat)
    requires c in s
    ensures i < |s| && s[i] == c && c !in s[..i]
  {
    if s[0] == c then 0 else 1 + IndexOf(s[1..], c)
  }

  /** The position of the last `c` in `s`, or -1 (strings.LastIndexByte). */
  function LastIndexOf(s: string, c: char): (i: int)
    ensures -1 <= i < |s|
    ensures i >= 0 ==> s[i] == c
    ensures forall k | i < k < |s| :: s[k] != c
    decreases |s|
  {
    if s == [] then -1
    else if s[|s| - 1] == c then |s| - 1
    else LastIndexOf(s[..|s| - 1], c)
  }

  /** strings.Join */
  function Join(parts: seq<string>, sep: string): (r: string)
    ensures IsByteString(sep) && (forall i | 0 <= i < |parts| :: IsByteString(parts[i])) ==> IsByteString(r)
    ensures |parts| == 1 ==> r == parts[0]
  {
    if |parts| == 0 then ""
    else if |parts| == 1 then parts[0]
    else parts[0] + sep + Join(parts[1..], sep)
  }

  /** A join is at least as long as its first part. */
  lemma JoinStartsWithFirst(parts: seq<string>, sep: string)
    requires |parts| >= 1
    ensures |Join(parts, sep)| >= |parts[0]|
  {
  }

  /** strings.Split with a one-character separator: the pieces between the
      separators, one more piece than there are separators. */
  function Split(s: string, sep: char): (parts: seq<string>)
    ensures |parts| >= 1
    ensures forall i | 0 <= i < |parts| :: sep !in parts[i]
    ensures Join(parts, [sep]) == s
    ensures IsByteString(s) ==> forall i | 0 <= i < |parts| :: IsByteString(parts[i])
    decreases |s|
  {
    if sep !in s then [s]
    else
      var i := IndexOf(s, sep);
      var rest := Split(s[i + 1..], sep);
      assert s == s[..i] + [sep] + s[i + 1..];
      [s[..i]] + rest
  }

  /** Splitting a joined list gives the list back when no piece holds the
      separator. */
  lemma {:induction false} SplitJoin(parts: seq<string>, sep: char)
    requires |parts| >= 1
    requires forall i | 0 <= i < |parts| :: sep !in parts[i]
    ensures Split(Join(parts, [sep]), sep) == parts
    decreases |parts|
  {
    if |parts| > 1 {
      var rest := Join(parts[1..], [sep]);
      assert Join(parts, [sep]) == parts[0] + [sep] + rest;
      SplitCons(parts[0], sep, rest);
      SplitJoin(parts[1..], sep);
    }
  }

  /** A piece without the separator, then the separator: Split cuts there. */
  lemma SplitCons(a: string, sep: char, rest: string)
    requires sep !in a
    ensures Split(a + [sep] + rest, sep) == [a] + Split(rest, sep)
  {
    var s := a + [sep] + rest;
    assert s[|a|] == sep;
    var i := IndexOf(s, sep);
    assert forall j | 0 <= j < |a| :: s[j] == a[j];
    assert i == |a|;
    assert s[..i] == a;
    assert s[i + 1..] == rest;
  }

  /** strings.ReplaceAll(s, "\n", " ") */
  function ReplaceNewlines(s: string): (r: string)
    ensures |r| == |s| && '\n' !in r
    ensures forall i | 0 <= i < |s| :: r[i] == (if s[i] == '\n' then ' ' else s[i])
    decreases |s|
  {
    if s == [] then ""
    else ReplaceNewlines(s[..|s| - 1]) + [if s[|s| - 1] == '\n' then ' ' else s[|s| - 1]]
  }

  /** The text before the first occurrence of `sep` in `s`, or all of `s`:
      the first element of strings.SplitN(s, sep, 2). */
  function BeforeFirst(s: string, sep: string): (r: string)
    requires sep != ""
    ensures HasPrefix(s, r)
    ensures forall i | 0 <= i < |r| :: !HasPrefix(s[i..], sep)
    ensures r == s || HasPrefix(s[|r|..], sep)
    decreases |s|
  {
    if HasPrefix(s, sep) || s == "" then ""
    else
      var r := [s[0]] + BeforeFirst(s[1..], sep);
      assert forall i | 1 <= i < |r| :: s[i..] == s[1..][i - 1..];
      r
  }

  /** BeforeFirst stops at the first occurrence of `sep`. */
  lemma BeforeFirstAt(s: string, sep: string, k: int)
    requires sep != "" && 0 <= k <= |s|
    requires HasPrefix(s[k..], sep)
    requires forall i | 0 <= i < k :: !HasPrefix(s[i..], sep)
    ensures BeforeFirst(s, sep) == s[..k]
  {
    var r := BeforeFirst(s, sep);
    assert |r| <= k;
  }

  /** Go's `a < b` on strings: byte-wise lexicographic order. */
  predicate Less(a: string, b: string)
    decreases |a|
  {
    if a == [] then b != []
    else if b == [] then false
    else if a[0] != b[0] then a[0] < b[0]
    else Less(a[1..], b[1..])
  }

  lemma {:induction false} LessIrreflexive(a: string)
    ensures !Less(a, a)
    decreases |a|
  {
    if a != [] {
      LessIrreflexive(a[1..]);
    }
  }

  lemma {:induction false} LessTransitive(a: string, b: string, c: string)
    requires Less(a, b) && Less(b, c)
    ensures Less(a, c)
    decreases |a|
  {
    if a != [] && b != [] && c != [] && a[0] == b[0] == c[0] {
      LessTransitive(a[1..], b[1..], c[1..]);
    }
  }

  lemma {:induction false} LessTotal(a: string, b: string)
    ensures Less(a, b) || a == b || Less(b, a)
    decreases |a|
  {
    if a != [] && b != [] && a[0] == b[0] {
      LessTotal(a[1..], b[1..]);
      if a[1..] == b[1..] {
        assert a == [a[0]] + a[1..] && b == [b[0]] + b[1..];
      }
    }
  }
}
