/** Runs into deep directories: where the limits on names and paths are met, replayed from fs_init. */
module FsDeep {
  import opened Options
  import opened FsModel
  import opened FsTree
  import opened FsText
  import opened FsView
  import opened FsRuns
  import opened FsPaths
  import opened FsLimits

  /** Making and entering one directory after the other. */
  function Down(names: Path): seq<Op>
  {
    if names == [] then [] else [OpMkdir(names[0]), OpCd(names[0])] + Down(names[1..])
  }

  predicate DirName(x: string) { 0 < |x| < MAX_FILENAME && x != "." && x != ".." }

  predicate DirNames(names: Path)
  {
    forall i | 0 <= i < |names| :: DirName(names[i])
  }

  /** The path text stays short on the whole way down. */
  lemma FirstIsShort(c: Path, names: Path)
    requires names != [] && |c| + |names| <= MAX_DEPTH && PathLength(c + names) < MAX_PATH
    ensures PathLength(LastNames(c + [names[0]])) < MAX_PATH
  {
    PathLengthGrows(c + names, |c| + 1);
    assert (c + names)[..|c| + 1] == c + [names[0]];
  }

  /** One directory made and entered: it is empty, and its path is the old one with its name. */
  lemma DownOne(fs: Fs, x: string) returns (fs': Fs)
    requires Inv(fs) && FindHere(fs, x) == None && |fs.files| < MAX_FILES && fs.nextId < MAX_FILES
    requires DirName(x) && PathLength(LastNames(CwdPath(fs) + [x])) < MAX_PATH
    ensures Reaches(fs, [OpMkdir(x), OpCd(x)], fs') && Inv(fs') && CwdPath(fs') == CwdPath(fs) + [x]
    ensures |fs'.files| == |fs.files| + 1 && fs'.nextId == fs.nextId + 1
    ensures forall y :: FindHere(fs', y) == None
  {
    hide Rebuilt, Step;
    var n, e := |fs.files|, DirEntry(fs, x);
    GrowPathNew(fs.files, e, CwdPath(fs));
    CachedPathLength(fs.files + [e], n, CwdPath(fs) + [x]);
    fs' := MakeAndEnter(fs, x);
    CwdIs(fs', CwdPath(fs) + [x]);
    forall y ensures FindHere(fs', y) == None {
      forall j | 0 <= j <= n ensures !Matches(fs'.files, j, n, y) {
        if j < n { assert Parented(fs.files, j); }
      }
    }
  }

  /** Making and entering the directories of a path that fits succeeds and leads there. */
  lemma {:induction false} Descend(fs: Fs, names: Path) returns (fs': Fs)
    requires Inv(fs) && DirNames(names) && (names != [] ==> FindHere(fs, names[0]) == None)
    requires |fs.files| + |names| <= MAX_FILES && fs.nextId + |names| <= MAX_FILES
    requires |CwdPath(fs)| + |names| <= MAX_DEPTH && PathLength(CwdPath(fs) + names) < MAX_PATH
    ensures Reaches(fs, Down(names), fs') && Inv(fs') && CwdPath(fs') == CwdPath(fs) + names
    ensures |fs'.files| == |fs.files| + |names| && fs'.nextId == fs.nextId + |names|
    ensures names != [] ==> forall y :: FindHere(fs', y) == None
    decreases |names|
  {
    hide Inv, Up, Step;
    var c := CwdPath(fs);
    if names == [] {
      fs' := fs;
      assert c + names == c;
    } else {
      var x, rest := names[0], names[1..];
      FirstIsShort(c, names);
      var fs1 := DownOne(fs, x);
      ShiftPath(c, x, rest);
      assert names == [x] + rest;
      assert forall i | 0 <= i < |rest| :: DirName(rest[i]) by {
        forall i | 0 <= i < |rest| ensures DirName(rest[i]) { assert DirName(names[i + 1]); }
      }
      fs' := Descend(fs1, rest);
      ReachesThen(fs, [OpMkdir(x), OpCd(x)], fs1, Down(rest), fs');
      if rest == [] { assert fs' == fs1; }
    }
  }

  /** From fs_init down a path whose first name is not one of the system directories. */
  lemma DescendFromInit(data: seq<char>, names: Path) returns (fs: Fs)
    requires |data| == DATA_SIZE && 0 < |names| <= MAX_DEPTH && DirNames(names) && |names[0]| > 4
    requires PathLength(names) < MAX_PATH
    ensures Reaches(Formatted(data), Down(names), fs) && Inv(fs) && CwdPath(fs) == names
    ensures |fs.files| == 4 + |names| && fs.nextId == 4 + |names|
    ensures forall y :: FindHere(fs, y) == None
  {
    UnusedName(data, names[0]);
    assert [] + names == names;
    fs := Descend(Formatted(data), names);
  }

  lemma UnusedName(data: seq<char>, name: string)
    requires |data| == DATA_SIZE && |name| > 4
    ensures var fs := Formatted(data);
            Inv(fs) && CwdPath(fs) == [] && |fs.files| == 4 && fs.nextId == 4 && FindHere(fs, name) == None
  {
    hide AbsTree;
    var fs := Formatted(data);
    FormattedState(data);
    FindTarget(fs, name);
    if FindHere(fs, name).Some? { AbsAt(fs, FindHere(fs, name).value, Target(Abs(fs), name)); }
  }

  function Times(x: string, k: nat): Path
  {
    if k == 0 then [] else Times(x, k - 1) + [x]
  }

  lemma {:induction false} TimesLength(x: string, k: nat)
    ensures |Times(x, k)| == k && PathLength(Times(x, k)) == k * (1 + |x|)
    ensures forall i | 0 <= i < k :: Times(x, k)[i] == x
    decreases k
  {
    hide Base, Up;
    if k > 0 {
      TimesLength(x, k - 1);
      PathLengthSnoc(Times(x, k - 1), x);
    }
  }

  /** Depth and names alone do not make the round trip.  After three directories of 63 characters and
      one of 62 have been made and entered, the cached path just fits its buffer, with 255 characters,
      and fs_getcwd gives it; but fs_resolve_path cannot take it. */
  lemma LongPathFails(data: seq<char>, a: string, b: string) returns (fs: Fs)
    requires |data| == DATA_SIZE && |a| == 63 && |b| == 62 && GoodName(a) && GoodName(b)
    ensures var p := Times(a, 3) + [b];
            && Reaches(Formatted(data), Down(p), fs) && Inv(fs) && CwdPath(fs) == p
            && |p| <= MAX_DEPTH && GoodPath(p) && |Getcwd(fs)| == 255
            && !ResolvesTo(fs, Getcwd(fs), fs.cwd)
  {
    hide Step, Fits;
    var p := Times(a, 3) + [b];
    TimesLength(a, 3);
    PathLengthSnoc(Times(a, 3), b);
    forall i | 0 <= i < |p| ensures DirName(p[i]) && GoodName(p[i]) {
      assert p[i] == if i < 3 then a else b;
    }
    fs := DescendFromInit(data, p);
    PathRoundTrip(fs, p);
    NamesOfPath(fs.files, fs.cwd, p, MAX_DEPTH);
    SlashedLength(p);
  }

  /** Four levels of 62 characters fit the cached path, and the step into a fifth, which fs_make_directory
      grants, overruns it. */
  lemma FifthLevelOverruns(data: seq<char>, n: string) returns (fs: Fs)
    requires |data| == DATA_SIZE && |n| == 62
    ensures Reaches(Formatted(data), Down(Times(n, 4)) + [OpMkdir(n)], fs) && Inv(fs)
    ensures FindHere(fs, n).Some? && fs.files[FindHere(fs, n).value].ftype == Directory && !CdFits(fs, n)
  {
    hide Inv;
    var p := Times(n, 4);
    TimesLength(n, 4);
    forall i | 0 <= i < |p| ensures DirName(p[i]) { assert p[i] == n; }
    var mid := DescendFromInit(data, p);
    fs := MakeOne(mid, n);
    ReachesThen(Formatted(data), Down(p), mid, [OpMkdir(n)], fs);
    FindIs(fs.files, |mid.files|, mid.cwd, n);
    GrowPath(mid.files, DirEntry(mid, n), mid.cwd, p);
    CwdIs(fs, p);
    CdFitsExactly(fs, n);
    PathLengthSnoc(p, n);
  }
}
