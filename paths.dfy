/** Slash-separated paths as Go's `path/filepath` treats them on Unix
    (`Clean`, `Join` of two elements, `Dir`), and the override manager's
    `expandPath`, which rewrites a leading `~/` or `$PROJECT_ROOT`. */
module Paths {
  import opened GoStrings

  /** A list of path components in the shape Clean leaves them: no empty
      component, no `.`, no `/` inside one, and `..` only at the front of a
      relative path (a rooted path has none). */
  ghost predicate IsCleanStack(st: seq<string>, rooted: bool)
  {
    forall i | 0 <= i < |st| ::
      st[i] != "" && st[i] != "." && '/' !in st[i] &&
      (st[i] == ".." ==> !rooted && forall j | 0 <= j < i :: st[j] == "..")
  }

  /** One component pushed on the stack: `..` takes back the last real
      component; at the root it is dropped, in a relative path it is kept. */
  function Step(st: seq<string>, part: string, rooted: bool): seq<string>
  {
    if part == "" || part == "." then st
    else if part == ".." then
      if st != [] && st[|st| - 1] != ".." then st[..|st| - 1]
      else if rooted then st
      else st + [".."]
    else st + [part]
  }

  /** The components left after pushing `parts`, left to right, on `st`. */
  function Resolve(st: seq<string>, parts: seq<string>, rooted: bool): (r: seq<string>)
    decreases |parts|
  {
    if parts == [] then st
    else Resolve(Step(st, parts[0], rooted), parts[1..], rooted)
  }

  /** filepath.Clean */
  function Clean(p: string): (r: string)
  {
    if p == "" then "."
    else
      var rooted := p[0] == '/';
      var st := Resolve([], Split(p, '/'), rooted);
      if rooted then "/" + Join(st, "/")
      else if st == [] then "."
      else Join(st, "/")
  }

  /** filepath.Join(a, b): the elements from the first non-empty one,
      joined by `/` and cleaned; "" when both are empty. */
  function JoinPath(a: string, b: string): string
  {
    if a != "" then Clean(a + "/" + b)
    else if b != "" then Clean(b)
    else ""
  }

  /** filepath.Dir: everything up to the last `/`, cleaned. */
  function Dir(p: string): string
  {
    Clean(p[..LastIndexOf(p, '/') + 1])
  }

  const HomePrefix: string := "~/"
  const RootVar: string := "$PROJECT_ROOT"

  /** expandPath, with the home directory and the project root passed in. */
  function ExpandPath(path: string, home: string, root: string): string
  {
    if HasPrefix(path, HomePrefix) then JoinPath(home, path[|HomePrefix|..])
    else if HasPrefix(path, RootVar) then JoinPath(root, path[|RootVar|..])
    else path
  }

  /** Pushing a component keeps the stack clean. */
  lemma StepClean(st: seq<string>, part: string, rooted: bool)
    requires IsCleanStack(st, rooted) && '/' !in part
    ensures IsCleanStack(Step(st, part, rooted), rooted)
  {
    var r := Step(st, part, rooted);
    if part == ".." && st != [] && st[|st| - 1] != ".." {
      assert forall i | 0 <= i < |r| :: r[i] == st[i];
    } else if part == ".." && !rooted {
      // every component on the stack is already `..`
      assert forall i | 0 <= i < |st| :: st[i] == ".." by {
        if st != [] {
          assert st[|st| - 1] == "..";
        }
      }
    }
  }

  lemma {:induction false} ResolveClean(st: seq<string>, parts: seq<string>, rooted: bool)
    requires IsCleanStack(st, rooted)
    requires forall i | 0 <= i < |parts| :: '/' !in parts[i]
    ensures IsCleanStack(Resolve(st, parts, rooted), rooted)
    decreases |parts|
  {
    if parts != [] {
      StepClean(st, parts[0], rooted);
      ResolveClean(Step(st, parts[0], rooted), parts[1..], rooted);
    }
  }

  /** Resolving components that are already clean changes nothing. */
  lemma {:induction false} ResolveOfClean(st: seq<string>, parts: seq<string>, rooted: bool)
    requires IsCleanStack(st + parts, rooted)
    ensures Resolve(st, parts, rooted) == st + parts
    decreases |parts|
  {
    if parts != [] {
      var st' := st + [parts[0]];
      assert (st + parts)[|st|] == parts[0];
      if parts[0] == ".." && st != [] {
        assert (st + parts)[|st| - 1] == st[|st| - 1];
      }
      assert Step(st, parts[0], rooted) == st';
      assert st' + parts[1..] == st + parts;
      ResolveOfClean(st', parts[1..], rooted);
    }
  }

  /** The components of a cleaned path are what Clean resolved. */
  lemma CleanShape(p: string)
    requires p != ""
    ensures var rooted := p[0] == '/';
      var st := Resolve([], Split(p, '/'), rooted);
      IsCleanStack(st, rooted)
  {
    ResolveClean([], Split(p, '/'), p[0] == '/');
  }

  lemma SplitLeadingSlash(s: string)
    ensures Split("/" + s, '/') == [""] + Split(s, '/')
  {
    var t := "/" + s;
    assert '/' in t by { assert t[0] == '/'; }
    assert IndexOf(t, '/') == 0;
    assert t[1..] == s;
  }

  lemma JoinNonEmptyStart(st: seq<string>)
    requires st != [] && st[0] != "" && '/' !in st[0]
    ensures var j := Join(st, "/"); j != "" && j[0] == st[0][0]
  {
  }

  /** Clean gives a path that Clean leaves as it is. */
  lemma CleanIdempotent(p: string)
    ensures Clean(Clean(p)) == Clean(p)
  {
    if p != "" {
      var rooted := p[0] == '/';
      var st := Resolve([], Split(p, '/'), rooted);
      CleanShape(p);
      if st != [] {
        if rooted {
          CleanOfRootedStack(st);
        } else {
          CleanOfRelativeStack(st);
        }
      } else if rooted {
        CleanOfRoot();
      } else {
        assert Clean(p) == ".";
        CleanOfDot();
      }
    } else {
      CleanOfDot();
    }
  }

  /** A clean rooted stack, written out, is its own Clean. */
  lemma CleanOfRootedStack(st: seq<string>)
    requires st != [] && IsCleanStack(st, true)
    ensures Clean("/" + Join(st, "/")) == "/" + Join(st, "/")
  {
    var j := Join(st, "/");
    assert forall i | 0 <= i < |st| :: '/' !in st[i];
    SplitJoin(st, '/');
    SplitLeadingSlash(j);
    ResolveOfClean([], st, true);
    assert [] + st == st;
    assert ([""] + st)[1..] == st;
    assert Resolve([], Split("/" + j, '/'), true) == st;
  }

  /** A clean relative stack, written out, is its own Clean. */
  lemma CleanOfRelativeStack(st: seq<string>)
    requires st != [] && IsCleanStack(st, false)
    ensures Clean(Join(st, "/")) == Join(st, "/")
  {
    assert forall i | 0 <= i < |st| :: '/' !in st[i];
    SplitJoin(st, '/');
    ResolveOfClean([], st, false);
    assert [] + st == st;
    JoinNonEmptyStart(st);
  }

  lemma CleanOfDot()
    ensures Clean(".") == "."
  {
    assert Split(".", '/') == ["."];
  }

  lemma CleanOfRoot()
    ensures Clean("/") == "/"
  {
    assert Split("/", '/') == ["", ""] by {
      SplitLeadingSlash("");
    }
  }

  /** A cleaned path starts with `/` exactly when the input did. */
  lemma CleanRooted(p: string)
    ensures Clean(p) != ""
    ensures Clean(p)[0] == '/' <==> p != "" && p[0] == '/'
  {
    if p != "" && p[0] != '/' {
      var st := Resolve([], Split(p, '/'), false);
      CleanShape(p);
      if st != [] {
        JoinNonEmptyStart(st);
      }
    }
  }

  /** An absolute path is left as it is. */
  lemma ExpandRooted(e: string, home: string, root: string)
    requires e != "" && e[0] == '/'
    ensures ExpandPath(e, home, root) == e
  {
    assert !HasPrefix(e, HomePrefix) by { assert HomePrefix[0] != e[0]; }
    assert !HasPrefix(e, RootVar) by { assert RootVar[0] != e[0]; }
  }

  /** Joining onto an absolute directory gives an absolute path. */
  lemma JoinRooted(a: string, b: string)
    requires a != "" && a[0] == '/'
    ensures var j := JoinPath(a, b); j != "" && j[0] == '/'
  {
    CleanRooted(a + "/" + b);
  }

  /** With an absolute home directory and project root, expanding an
      expanded path changes nothing more: the result never starts with `~/`
      or `$PROJECT_ROOT` again. */
  lemma ExpandPathIdempotent(path: string, home: string, root: string)
    requires home != "" && home[0] == '/'
    requires root != "" && root[0] == '/'
    ensures var e := ExpandPath(path, home, root);
      ExpandPath(e, home, root) == e
  {
    var e := ExpandPath(path, home, root);
    if HasPrefix(path, HomePrefix) {
      JoinRooted(home, path[|HomePrefix|..]);
      ExpandRooted(e, home, root);
    } else if HasPrefix(path, RootVar) {
      JoinRooted(root, path[|RootVar|..]);
      ExpandRooted(e, home, root);
    }
  }

  /** A path with neither prefix is returned as it is; `~/x` and
      `$PROJECT_ROOT/x` become absolute when home and root are. */
  lemma ExpandPathCases(path: string, home: string, root: string)
    requires home != "" && home[0] == '/'
    requires root != "" && root[0] == '/'
    ensures !HasPrefix(path, HomePrefix) && !HasPrefix(path, RootVar) ==> ExpandPath(path, home, root) == path
    ensures HasPrefix(path, HomePrefix) || HasPrefix(path, RootVar) ==>
      var e := ExpandPath(path, home, root); e != "" && e[0] == '/'
  {
    if HasPrefix(path, HomePrefix) {
      JoinRooted(home, path[|HomePrefix|..]);
    } else if HasPrefix(path, RootVar) {
      JoinRooted(root, path[|RootVar|..]);
    }
  }
}
