/** Path strings: the cached path, fs_getcwd and fs_resolve_path. */
module FsPaths {
  import opened Options
  import opened CStrings
  import opened FsModel
  import opened FsTree
  import opened FsText
  import opened FsView

  const SLASH: set<char> := {'/'}

  /** fs_resolve_path takes paths that its strncpy can store. */
  predicate ResolveFits(path: string)
  {
    |path| < MAX_PATH - 1
  }

  /** fs_resolve_path */
  function Resolve(fs: Fs, path: string): Option<nat>
  {
    if path == "" then None
    else Walk(fs.files, if path[0] == '/' then 0 else fs.cwd, Tokens(path, SLASH))
  }

  predicate GoodName(n: string)
  {
    n != "" && NoneIn(n, SLASH)
  }

  predicate GoodPath(p: Path)
  {
    forall i | 0 <= i < |p| :: GoodName(p[i])
  }

  // ----- the cached path -----

  /** The cached path, the path that would be recomputed and the one fs_getcwd builds are the same, and
      they fit the buffer of the cached path. */
  lemma CachedPathAgrees(fs: Fs)
    requires Inv(fs)
    ensures fs.path == Rebuilt(fs.files, fs.cwd) == Getcwd(fs) && |fs.path| < MAX_PATH
  {
    if fs.cwd != 0 {
      JoinSlashed(Names(fs.files, fs.cwd, MAX_DEPTH));
    }
  }

  // ----- the loops that climb to the root -----

  function Reversed(s: seq<string>): (r: seq<string>)
    ensures |r| == |s|
  {
    if s == [] then [] else [s[|s| - 1]] + Reversed(s[..|s| - 1])
  }

  lemma {:induction false} ReversedAt(s: seq<string>, k: nat)
    requires k < |s|
    ensures Reversed(s)[k] == s[|s| - 1 - k]
    decreases |s|
  {
    if k > 0 { ReversedAt(s[..|s| - 1], k - 1); }
  }

  /** Climbing from entry d has reached curr with these names collected, innermost first. */
  ghost predicate Climbed(files: seq<Entry>, d: nat, curr: nat, stack: seq<string>)
  {
    && curr < |files| && |stack| <= MAX_DEPTH
    && Names(files, d, MAX_DEPTH) == Names(files, curr, MAX_DEPTH - |stack|) + Reversed(stack)
  }

  lemma ClimbStart(files: seq<Entry>, d: nat)
    requires d < |files|
    ensures Climbed(files, d, d, [])
  {
  }

  lemma ShiftName(a: Path, x: string, b: Path)
    ensures a + [x] + b == a + ([x] + b)
  {
  }

  lemma ClimbStep(files: seq<Entry>, d: nat, curr: nat, stack: seq<string>)
    requires Climbed(files, d, curr, stack) && curr != 0 && |stack| < MAX_DEPTH && Parented(files, curr)
    ensures Climbed(files, d, files[curr].parent, stack + [files[curr].name])
  {
    var x, longer := files[curr].name, stack + [files[curr].name];
    var above := Names(files, files[curr].parent, MAX_DEPTH - |longer|);
    assert longer[..|longer| - 1] == stack;
    assert Reversed(longer) == [x] + Reversed(stack);
    ShiftName(above, x, Reversed(stack));
  }

  /** At the root, or with 32 names, the stack holds the names in reverse. */
  lemma ClimbDone(files: seq<Entry>, d: nat, curr: nat, stack: seq<string>)
    requires Climbed(files, d, curr, stack) && (curr == 0 || |stack| == MAX_DEPTH)
    ensures Names(files, d, MAX_DEPTH) == Reversed(stack)
  {
  }

  /** What rebuild_current_path has written after m of the names. */
  function PartlyJoined(names: seq<string>, m: nat): string
    requires m <= |names|
  {
    "/" + (Join(names[..m]) + if 0 < m < |names| then "/" else "")
  }

  lemma JoinStep(names: seq<string>, m: nat)
    requires m < |names|
    ensures PartlyJoined(names, m + 1)
            == PartlyJoined(names, m) + names[m] + if m + 1 < |names| then "/" else ""
  {
    assert names[..m + 1][..m] == names[..m];
    var j, x := Join(names[..m]), names[m];
    if m > 0 {
      assert Join(names[..m + 1]) == j + ("/" + x);
      assert "/" + (j + "/") + x == "/" + (j + ("/" + x));
    }
  }

  lemma SlashedStep(names: seq<string>, m: nat)
    requires m < |names|
    ensures Slashed(names[..m + 1]) == Slashed(names[..m]) + "/" + names[m]
  {
    assert names[..m + 1][..m] == names[..m];
    assert Slashed(names[..m]) + ("/" + names[m]) == Slashed(names[..m]) + "/" + names[m];
  }

  // ----- tokens of a path string -----

  function Separators(n: nat): seq<string>
  {
    if n == 0 then [""] else ["/"] + Separators(n - 1)
  }

  lemma {:induction false} SeparatorsAre(n: nat)
    ensures |Separators(n)| == n + 1
    ensures forall i | 0 <= i < n :: Separators(n)[i] == "/"
    ensures Separators(n)[n] == ""
  {
    if n > 0 { SeparatorsAre(n - 1); }
  }

  lemma {:induction false} SlashedFront(q: Path)
    requires q != []
    ensures Slashed(q) == "/" + (q[0] + Slashed(q[1..]))
    decreases |q|
  {
    var init, last := q[..|q| - 1], "/" + q[|q| - 1];
    if |q| == 1 {
      assert Slashed(init) == "" && Slashed(q[1..]) == "";
      assert last == "/" + (q[0] + "");
    } else {
      SlashedFront(init);
      var mid := Slashed(init[1..]);
      assert q[1..][..|q| - 2] == init[1..];
      assert Slashed(q[1..]) == mid + last;
      assert "/" + (q[0] + mid) + last == "/" + (q[0] + (mid + last));
    }
  }

  lemma {:induction false} SlashedIsWeave(q: Path)
    ensures |Separators(|q|)| == |q| + 1
    ensures Slashed(q) == Weave(Separators(|q|), q)
    decreases |q|
  {
    if q != [] {
      SeparatorsAre(|q| - 1);
      SlashedFront(q);
      SlashedIsWeave(q[1..]);
      WeaveFront("/", Separators(|q| - 1), q);
    }
  }

  lemma WeaveFront(sep: string, seps: seq<string>, q: Path)
    requires q != [] && |seps| == |q|
    ensures Weave([sep] + seps, q) == sep + (q[0] + Weave(seps, q[1..]))
  {
    assert ([sep] + seps)[1..] == seps;
  }

  lemma SlashedTokens(q: Path)
    requires GoodPath(q)
    ensures Tokens(Slashed(q), SLASH) == q
  {
    hide Slashed;
    SlashedIsWeave(q);
    SeparatorsAre(|q|);
    forall i | 0 <= i < |q| ensures q[i] != "" && NoneIn(q[i], SLASH) {
      assert GoodName(q[i]);
    }
    TokensOfRuns(Separators(|q|), q, SLASH);
  }

  lemma TokensAreGood(s: string)
    ensures GoodPath(Tokens(s, SLASH))
  {
    var seps := RunsExist(s, SLASH);
  }

  // ----- walking down -----

  lemma ShiftPath(c: Path, x: string, rest: Path)
    ensures c + [x] + rest == c + ([x] + rest)
  {
  }

  /** An entry lies below every directory that its path goes through. */
  lemma {:induction false} DirectoryAbove(files: seq<Entry>, d: nat, p: Path, n: nat) returns (k: nat)
    requires Tree(files) && IsPath(files, d, p) && n <= |p|
    ensures IsPath(files, k, p[..n]) && (n < |p| ==> files[k].ftype == Directory)
    decreases |p|
  {
    if n == |p| {
      k := d;
      assert p[..n] == p;
    } else {
      assert Parented(files, d);
      k := DirectoryAbove(files, files[d].parent, Up(p), n);
      assert Up(p)[..n] == p[..n];
      if n == |p| - 1 {
        assert p[..n] == Up(p);
        EntryUnique(files, k, files[d].parent, Up(p));
      }
    }
  }

  /** The first step of a walk: the entry of that name, which is the one at that path. */
  lemma FirstStep(files: seq<Entry>, dir: nat, c: Path, x: string)
    requires Tree(files) && IsPath(files, dir, c) && GoodName(x)
    ensures Find(files, dir, x).Some? ==> IsPath(files, Find(files, dir, x).value, c + [x])
    ensures Find(files, dir, x).None? ==> !Hits(files, c + [x])
  {
    assert x != "/" by { assert "/"[0] == '/'; }
    if Find(files, dir, x).Some? { FoundPath(files, dir, c, x); } else { NotFoundPath(files, dir, c, x); }
  }

  /** Walking down good names from the directory at c leads to d exactly if d is the directory whose
      path is c followed by the names. */
  lemma {:induction false} WalkExact(files: seq<Entry>, dir: nat, c: Path, toks: Path, d: nat)
    requires Tree(files) && IsPath(files, dir, c) && files[dir].ftype == Directory && GoodPath(toks)
    ensures Walk(files, dir, toks) == Some(d)
            <==> IsPath(files, d, c + toks) && files[d].ftype == Directory
    decreases |toks|
  {
    if toks == [] {
      assert c + toks == c;
      if IsPath(files, d, c) { EntryUnique(files, d, dir, c); }
    } else {
      var x, rest := toks[0], toks[1..];
      ShiftPath(c, x, rest);
      assert toks == [x] + rest && GoodName(toks[0]);
      FirstStep(files, dir, c, x);
      assert forall i | 0 <= i < |rest| :: rest[i] == toks[i + 1] && GoodName(toks[i + 1]);
      var r := Find(files, dir, x);
      if r.Some? && files[r.value].ftype == Directory {
        WalkExact(files, r.value, c + [x], rest, d);
      } else if IsPath(files, d, c + toks) {
        OffTheWay(files, d, c, x, rest, r);
      }
    }
  }

  /** No directory lies behind a name that is missing or that names no directory. */
  lemma OffTheWay(files: seq<Entry>, d: nat, c: Path, x: string, rest: Path, r: Option<nat>)
    requires Tree(files) && IsPath(files, d, c + [x] + rest)
    requires match r
             case None => !Hits(files, c + [x])
             case Some(k) => IsPath(files, k, c + [x]) && files[k].ftype != Directory
    ensures files[d].ftype != Directory
  {
    var p := c + [x] + rest;
    var k := DirectoryAbove(files, d, p, |c| + 1);
    assert p[..|c| + 1] == c + [x];
    if r.Some? { EntryUnique(files, k, r.value, c + [x]); }
    if rest == [] {
      assert p == c + [x];
      if r.Some? { EntryUnique(files, d, r.value, p); }
    }
  }

  /** Where a path string starts: at the root or in the working directory. */
  ghost function StartPath(fs: Fs, path: string): Path
    requires Inv(fs)
  {
    if path != "" && path[0] == '/' then [] else CwdPath(fs)
  }

  /** fs_resolve_path on every string: it gives the directory whose path is the starting point's path
      followed by the names between the slashes, and nothing else. */
  lemma ResolveExact(fs: Fs, path: string, d: nat)
    requires Inv(fs)
    ensures Resolve(fs, path) == Some(d)
            <==> path != "" && IsPath(fs.files, d, StartPath(fs, path) + Tokens(path, SLASH))
                 && fs.files[d].ftype == Directory
  {
    if path != "" {
      TokensAreGood(path);
      WalkExact(fs.files, if path[0] == '/' then 0 else fs.cwd, StartPath(fs, path), Tokens(path, SLASH), d);
    }
  }

  // ----- the round trip -----

  lemma {:induction false} SlashedStart(q: Path)
    requires q != []
    ensures Slashed(q) != "" && Slashed(q)[0] == '/'
  {
    SlashedFront(q);
  }

  lemma RootToken()
    ensures Tokens("/", SLASH) == []
  {
    TokensOfRuns(["/"], [], SLASH);
  }

  /** The names come back from their text exactly if they are good and no more than 32. */
  lemma LastNamesBack(p: Path)
    ensures Tokens(Slashed(LastNames(p)), SLASH) == p <==> |p| <= MAX_DEPTH && GoodPath(p)
  {
    TokensAreGood(Slashed(LastNames(p)));
    if GoodPath(p) { SlashedTokens(LastNames(p)); }
  }

  /** fs_resolve_path can store the text, and it leads to directory d. */
  predicate ResolvesTo(fs: Fs, path: string, d: nat)
  {
    ResolveFits(path) && Resolve(fs, path) == Some(d)
  }

  /** Where an absolute path that consists of the names in q leads. */
  lemma AbsoluteWalk(files: seq<Entry>, toks: Path, d: nat, p: Path)
    requires Tree(files) && IsPath(files, d, p) && files[d].ftype == Directory && GoodPath(toks)
    ensures Walk(files, 0, toks) == Some(d) <==> toks == p
  {
    WalkExact(files, 0, [], toks, d);
    assert [] + toks == toks;
    if IsPath(files, d, toks) { PathUnique(files, d, toks, p); }
  }

  /** Resolving the fs_getcwd string of the working directory gives the working directory back if and
      only if it lies at most 32 levels deep, every name on its path is non-empty and free of "/", and
      the names and their slashes take up at most 254 characters. */
  lemma PathRoundTrip(fs: Fs, p: Path)
    requires Tree(fs.files) && IsPath(fs.files, fs.cwd, p) && fs.files[fs.cwd].ftype == Directory
    ensures ResolvesTo(fs, Getcwd(fs), fs.cwd)
            <==> |p| <= MAX_DEPTH && GoodPath(p) && PathLength(p) < MAX_PATH - 1
  {
    hide Names, Slashed, Tree, Tokens;
    if p == [] {
      RootToken();
      assert Getcwd(fs) == "/";
    } else {
      var s := Slashed(LastNames(p));
      NamesOfPath(fs.files, fs.cwd, p, MAX_DEPTH);
      assert Getcwd(fs) == s;
      SlashedLength(LastNames(p));
      SlashedStart(LastNames(p));
      TokensAreGood(s);
      AbsoluteWalk(fs.files, Tokens(s, SLASH), fs.cwd, p);
      LastNamesBack(p);
    }
  }

  // ----- the buffer of the cached path -----

  /** Entering a directory fits the buffer exactly if the last 32 names on its path, with their
      slashes, take up at most 255 characters. */
  lemma CdFitsExactly(fs: Fs, name: string)
    requires Inv(fs) && FindHere(fs, name).Some? && name != "." && name != ".."
    requires fs.files[FindHere(fs, name).value].ftype == Directory
    ensures CdFits(fs, name) <==> PathLength(LastNames(Target(Abs(fs), name))) < MAX_PATH
  {
    FindTarget(fs, name);
    CachedPathLength(fs.files, FindHere(fs, name).value, Target(Abs(fs), name));
  }

  /** Going up always fits, in every state that operations which fit lead to. */
  lemma UpAlwaysFits(fs: Fs)
    requires Inv(fs)
    ensures CdFits(fs, "..") && PathFits(fs.files, fs.files[fs.cwd].parent)
  {
    var p := CwdPath(fs);
    if p == [] {
      assert fs.files[0].parent == 0;
    } else {
      WayUp(p);
      RoomyAt(fs.files, fs.files[fs.cwd].parent, Up(p));
    }
  }
}
