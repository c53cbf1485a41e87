/** The editor's buffer is a flat text with a cursor; what the keys do to it; what saving keeps. */
module EditorLaws {
  import opened CStrings
  import opened StringLib
  import opened EditorModel

  // ----- the flat text -----

  /** The lines, each with its newline. */
  function Head(lines: seq<string>): string
  {
    if lines == [] then "" else Head(lines[..|lines| - 1]) + (lines[|lines| - 1] + [NL])
  }

  /** The lines, each after a newline. */
  function Tail(lines: seq<string>): string
  {
    if lines == [] then "" else [NL] + (lines[0] + Tail(lines[1..]))
  }

  /** The lines with newlines between them. */
  function Flat(lines: seq<string>): string
    requires lines != []
  {
    Head(lines[..|lines| - 1]) + lines[|lines| - 1]
  }

  function FlatPos(e: Ed): nat
    requires e.row < |e.lines|
  {
    |Head(e.lines[..e.row])| + e.col
  }

  /** The text seen from line k. */
  lemma {:induction false} FlatAround(lines: seq<string>, k: nat)
    requires k < |lines|
    ensures Flat(lines) == Head(lines[..k]) + (lines[k] + Tail(lines[k + 1..]))
    decreases |lines| - k
  {
    if k == |lines| - 1 {
      assert lines[k] + "" == lines[k];
    } else {
      FlatAround(lines, k + 1);
      assert lines[..k + 1][..k] == lines[..k];
      assert lines[k + 1..][1..] == lines[k + 2..];
      var h, x, t := Head(lines[..k]), lines[k], lines[k + 1] + Tail(lines[k + 2..]);
      assert h + (x + [NL]) + t == h + (x + ([NL] + t));
    }
  }

  /** Replacing line k replaces that stretch of the text and nothing else. */
  lemma FlatReplace(lines: seq<string>, k: nat, line: string)
    requires k < |lines|
    ensures Flat(lines[k := line]) == Head(lines[..k]) + (line + Tail(lines[k + 1..]))
  {
    var l := lines[k := line];
    FlatAround(l, k);
    assert l[..k] == lines[..k] && l[k + 1..] == lines[k + 1..];
  }

  lemma TextInsert(h: string, a: string, b: string, t: string, x: string)
    ensures var f, p := h + (a + b + t), |h| + |a|;
            p <= |f| && h + (a + (x + b) + t) == f[..p] + x + f[p..]
  {
    var f, p := h + (a + b + t), |h| + |a|;
    assert f == (h + a) + (b + t);
    assert f[..p] == h + a && f[p..] == b + t;
  }

  lemma TextSplit(h: string, a: string, b: string, t: string)
    ensures var f, p := h + (a + b + t), |h| + |a|;
            p <= |f| && h + (a + [NL] + b + t) == f[..p] + [NL] + f[p..]
    ensures |h + (a + [NL])| == |h| + |a| + 1
  {
    TextInsert(h, a, b, t, [NL]);
    Regroup(a, [NL], b);
  }

  lemma TextRemove(h: string, a: string, c: char, b: string, t: string)
    ensures var f, p := h + (a + ([c] + b) + t), |h| + |a|;
            p < |f| && f[p] == c && h + (a + b + t) == f[..p] + f[p + 1..]
  {
    Regroup(a, [c] + b, t);
    Regroup([c], b, t);
    Regroup(h, a, [c] + (b + t));
    Regroup(a, b, t);
    Regroup(h, a, b + t);
    CutAt(h + a, c, b + t);
  }

  lemma CutAt(a: string, c: char, b: string)
    ensures var f := a + ([c] + b); f[|a|] == c && f[..|a|] == a && f[|a| + 1..] == b
  {
  }

  // ----- what the editing keys do to the text -----

  lemma UpdateKeeps(lines: seq<string>, k: nat, line: string)
    requires k < |lines|
    ensures lines[k := line][..k] == lines[..k]
  {
  }

  lemma CutLineAt(line: string, col: nat)
    requires col <= |line|
    ensures line == line[..col] + line[col..]
  {
  }

  lemma CutLineAround(line: string, col: nat)
    requires col < |line|
    ensures line == line[..col] + ([line[col]] + line[col + 1..])
  {
  }

  /** editor_insert_char puts the character at the cursor, unless the line is full. */
  lemma InsertIsFlat(e: Ed, c: char)
    requires Inv(e) && |e.lines[e.row]| < MAX_LINE_LENGTH - 1
    ensures var e', f, p := InsertChar(e, c), Flat(e.lines), FlatPos(e);
            p <= |f| && Flat(e'.lines) == f[..p] + [c] + f[p..] && FlatPos(e') == p + 1
  {
    hide Flat, Head;
    var line, e' := e.lines[e.row], InsertChar(e, c);
    FlatAround(e.lines, e.row);
    FlatReplace(e.lines, e.row, e'.lines[e.row]);
    UpdateKeeps(e.lines, e.row, e'.lines[e.row]);
    CutLineAt(line, e.col);
    TextInsert(Head(e.lines[..e.row]), line[..e.col], line[e.col..], Tail(e.lines[e.row + 1..]), [c]);
  }

  lemma RemoveFlat(lines: seq<string>, k: nat, a: string, c: char, b: string)
    requires k < |lines| && lines[k] == a + ([c] + b)
    ensures var f, p, l := Flat(lines), |Head(lines[..k])| + |a|, lines[k := a + b];
            && p < |f| && f[p] == c && Flat(l) == f[..p] + f[p + 1..] && Head(l[..k]) == Head(lines[..k])
  {
    hide Flat, Tail, Head;
    FlatAround(lines, k);
    FlatReplace(lines, k, a + b);
    UpdateKeeps(lines, k, a + b);
    TextRemove(Head(lines[..k]), a, c, b, Tail(lines[k + 1..]));
  }

  /** editor_delete_char away from column 0 removes the character before the cursor. */
  lemma DeleteIsFlat(e: Ed)
    requires Inv(e) && e.col > 0
    ensures var e', f, p := DeleteChar(e), Flat(e.lines), FlatPos(e);
            0 < p <= |f| && Flat(e'.lines) == f[..p - 1] + f[p..] && FlatPos(e') == p - 1
  {
    hide Head, Flat, GoodLine;
    var line := e.lines[e.row];
    CutLineAround(line, e.col - 1);
    RemoveFlat(e.lines, e.row, line[..e.col - 1], line[e.col - 1], line[e.col..]);
  }

  /** The x key removes the character under the cursor. */
  lemma DeleteUnderIsFlat(e: Ed)
    requires Inv(e) && e.col < |e.lines[e.row]|
    ensures var e', f, p := DeleteUnder(e), Flat(e.lines), FlatPos(e);
            p < |f| && f[p] == e.lines[e.row][e.col]
            && Flat(e'.lines) == f[..p] + f[p + 1..] && FlatPos(e') == p
  {
    hide Head, Flat, GoodLine;
    var line := e.lines[e.row];
    CutLineAround(line, e.col);
    RemoveFlat(e.lines, e.row, line[..e.col], line[e.col], line[e.col + 1..]);
  }

  lemma SplitLines(lines: seq<string>, k: nat, a: string, b: string)
    requires k < |lines|
    ensures var l := lines[..k] + ([a, b] + lines[k + 1..]);
            && Flat(l) == Head(lines[..k]) + (a + [NL] + b + Tail(lines[k + 1..]))
            && Head(l[..k + 1]) == Head(lines[..k]) + (a + [NL])
  {
    var l, h, t := lines[..k] + ([a, b] + lines[k + 1..]), Head(lines[..k]), Tail(lines[k + 1..]);
    FlatAround(l, k + 1);
    assert l[..k + 1][..k] == lines[..k] && l[k + 2..] == lines[k + 1..];
    assert h + (a + [NL]) + (b + t) == h + (a + [NL] + b + t);
  }

  /** editor_new_line inserts a newline at the cursor, unless there are 999 lines. */
  lemma NewLineIsFlat(e: Ed)
    requires Inv(e) && |e.lines| < MAX_LINES - 1
    ensures var e', f, p := NewLine(e), Flat(e.lines), FlatPos(e);
            p <= |f| && Flat(e'.lines) == f[..p] + [NL] + f[p..] && FlatPos(e') == p + 1
  {
    hide Head, Flat, Tail;
    var line, k := e.lines[e.row], e.row;
    var a, b := line[..e.col], line[e.col..];
    FlatAround(e.lines, k);
    CutLineAt(line, e.col);
    SplitLines(e.lines, k, a, b);
    TextSplit(Head(e.lines[..k]), a, b, Tail(e.lines[k + 1..]));
  }

  /** Inserting a character and deleting it again changes nothing but the modified flag. */
  lemma InsertDelete(e: Ed, c: char)
    requires Inv(e) && |e.lines[e.row]| < MAX_LINE_LENGTH - 1
    ensures DeleteChar(InsertChar(e, c)) == e.(modified := true)
  {
    var line, e1 := e.lines[e.row], InsertChar(e, c);
    var l1 := e1.lines[e.row];
    assert l1[..e.col] == line[..e.col] && l1[e.col + 1..] == line[e.col..];
    assert line[..e.col] + line[e.col..] == line;
    assert e1.lines[e.row := line] == e.lines[e.row := line] == e.lines;
  }

  // ----- the text determines the lines -----

  /** Cutting a text at its newlines. */
  function Cut(text: string, cur: string): seq<string>
    decreases |text|
  {
    if text == "" then [cur]
    else if text[0] == NL then [cur] + Cut(text[1..], "")
    else Cut(text[1..], cur + [text[0]])
  }

  lemma {:induction false} CutLine(line: string, rest: string, cur: string)
    requires NL !in line
    ensures Cut(line + rest, cur) == Cut(rest, cur + line)
    decreases |line|
  {
    if line == "" {
      assert line + rest == rest && cur + line == cur;
    } else {
      assert (line + rest)[1..] == line[1..] + rest;
      assert cur + [line[0]] + line[1..] == cur + line;
      CutLine(line[1..], rest, cur + [line[0]]);
    }
  }

  lemma {:induction false} CutTail(lines: seq<string>, cur: string)
    requires forall i | 0 <= i < |lines| :: NL !in lines[i]
    ensures Cut(Tail(lines), cur) == [cur] + lines
    decreases |lines|
  {
    if lines != [] {
      var rest := lines[0] + Tail(lines[1..]);
      assert Tail(lines)[1..] == rest;
      CutLine(lines[0], Tail(lines[1..]), "");
      assert "" + lines[0] == lines[0];
      CutTail(lines[1..], lines[0]);
      assert [lines[0]] + lines[1..] == lines;
    }
  }

  /** Two different buffers never have the same text. */
  lemma FlatDetermines(lines: seq<string>)
    requires lines != [] && forall i | 0 <= i < |lines| :: NL !in lines[i]
    ensures Cut(Flat(lines), "") == lines
  {
    FlatAround(lines, 0);
    assert Head(lines[..0]) + (lines[0] + Tail(lines[1..])) == lines[0] + Tail(lines[1..]);
    CutLine(lines[0], Tail(lines[1..]), "");
    assert "" + lines[0] == lines[0];
    CutTail(lines[1..], lines[0]);
    assert [lines[0]] + lines[1..] == lines;
  }

  // ----- saving -----

  /** The save loop never writes past its buffer. */
  lemma {:induction false} SaveBound(lines: seq<string>, i: nat, buf: string)
    requires i <= |lines| && |buf| < MAX_TEXT
    ensures |SaveFrom(lines, i, buf)| < MAX_TEXT
    decreases |lines| - i
  {
    if i < |lines| && |buf| < MAX_TEXT - 1 {
      if |buf| + |lines[i]| + 1 < MAX_TEXT {
        SaveBound(lines, i + 1, buf + (lines[i] + if i < |lines| - 1 then [NL] else ""));
      } else {
        SaveBound(lines, i + 1, buf);
      }
    }
  }

  lemma HeadStep(lines: seq<string>, i: nat)
    requires i < |lines|
    ensures Head(lines[..i + 1]) == Head(lines[..i]) + (lines[i] + [NL])
  {
    assert lines[..i + 1][..i] == lines[..i];
  }

  lemma {:induction false} HeadGrows(lines: seq<string>, i: nat, j: nat)
    requires i <= j <= |lines|
    ensures |Head(lines[..i])| <= |Head(lines[..j])|
    decreases j - i
  {
    if i < j {
      HeadStep(lines, j - 1);
      HeadGrows(lines, i, j - 1);
    }
  }

  /** The text fits: the last line needs one spare byte unless it is empty. */
  predicate SaveFits(lines: seq<string>)
    requires lines != []
  {
    |Flat(lines)| < MAX_TEXT - 1 || (|Flat(lines)| == MAX_TEXT - 1 && lines[|lines| - 1] == "")
  }

  lemma {:induction false} SaveComplete(lines: seq<string>, i: nat)
    requires lines != [] && i < |lines| && SaveFits(lines)
    ensures SaveFrom(lines, i, Head(lines[..i])) == Flat(lines)
    decreases |lines| - i
  {
    var n, buf := |lines|, Head(lines[..i]);
    HeadGrows(lines, i, n - 1);
    if i == n - 1 {
      assert buf + lines[i] == Flat(lines);
      if |buf| < MAX_TEXT - 1 {
        assert lines[i] + "" == lines[i];
        assert SaveFrom(lines, n, buf + lines[i]) == buf + lines[i];
      }
    } else {
      HeadStep(lines, i);
      HeadGrows(lines, i + 1, n - 1);
      SaveComplete(lines, i + 1);
    }
  }

  lemma {:induction false} SaveDropsLast(lines: seq<string>, i: nat)
    requires lines != [] && i < |lines| && |Flat(lines)| == MAX_TEXT - 1 && lines[|lines| - 1] != ""
    ensures |SaveFrom(lines, i, Head(lines[..i]))| < MAX_TEXT - 1
    decreases |lines| - i
  {
    var n, buf := |lines|, Head(lines[..i]);
    HeadGrows(lines, i, n - 1);
    if i == n - 1 {
      assert SaveFrom(lines, n, buf) == buf;
    } else {
      HeadStep(lines, i);
      HeadGrows(lines, i + 1, n - 1);
      SaveDropsLast(lines, i + 1);
    }
  }

  /** editor_save_file writes the whole text if and only if it fits; otherwise lines are dropped
      and the save still counts as successful. */
  lemma SaveExact(lines: seq<string>)
    requires lines != []
    ensures SaveText(lines) == Flat(lines) <==> SaveFits(lines)
  {
    assert Head(lines[..0]) == "";
    SaveBound(lines, 0, "");
    if SaveFits(lines) {
      SaveComplete(lines, 0);
    } else if |Flat(lines)| == MAX_TEXT - 1 {
      SaveDropsLast(lines, 0);
    }
  }

  /** The lines that are kept of the first ones, each with a newline unless it is the last of all. */
  ghost function KeptText(lines: seq<string>, keep: seq<bool>): string
    requires |keep| <= |lines|
    decreases |keep|
  {
    if keep == [] then ""
    else
      var n := |keep| - 1;
      KeptText(lines, keep[..n]) + if keep[n] then lines[n] + (if n + 1 < |lines| then "\n" else "") else ""
  }

  /** A line is kept if and only if it fits behind what has been kept before it, with two bytes to spare. */
  ghost predicate Greedy(lines: seq<string>, keep: seq<bool>)
    requires |keep| <= |lines|
  {
    forall i | 0 <= i < |keep| :: keep[i] <==> |KeptText(lines, keep[..i])| + |lines[i]| + 1 < 4096
  }

  lemma GreedyMore(lines: seq<string>, keep: seq<bool>) returns (more: seq<bool>)
    requires |keep| < |lines| && Greedy(lines, keep)
    ensures |more| == |keep| + 1 && more[..|keep|] == keep && Greedy(lines, more)
    ensures var n := |keep|;
            && (more[n] <==> |KeptText(lines, keep)| + |lines[n]| + 1 < 4096)
            && KeptText(lines, more) == KeptText(lines, keep)
                 + if more[n] then lines[n] + (if n + 1 < |lines| then "\n" else "") else ""
  {
    var n := |keep|;
    more := keep + [|KeptText(lines, keep)| + |lines[n]| + 1 < 4096];
    assert more[..n] == keep;
    forall i | 0 <= i < |more| ensures more[i] <==> |KeptText(lines, more[..i])| + |lines[i]| + 1 < 4096 {
      assert more[..i] == keep[..i];
    }
  }

  lemma {:induction false} SaveContinues(lines: seq<string>, keep: seq<bool>) returns (all: seq<bool>)
    requires |keep| <= |lines| && Greedy(lines, keep)
    ensures |all| == |lines| && Greedy(lines, all)
    ensures SaveFrom(lines, |keep|, KeptText(lines, keep)) == KeptText(lines, all)
    decreases |lines| - |keep|
  {
    hide KeptText, Greedy;
    if |keep| == |lines| {
      all := keep;
    } else {
      var more := GreedyMore(lines, keep);
      all := SaveContinues(lines, more);
      if |KeptText(lines, keep)| >= MAX_TEXT - 1 { SaveStops(lines, |keep|, KeptText(lines, keep)); }
      assert KeptText(lines, keep) + "" == KeptText(lines, keep);
    }
  }

  lemma {:induction false} SaveStops(lines: seq<string>, i: nat, buf: string)
    requires i < |lines| && |buf| >= MAX_TEXT - 1
    ensures SaveFrom(lines, i, buf) == buf && SaveFrom(lines, i + 1, buf) == buf
  {
  }

  /** For every buffer the saved text consists of the lines that are kept, and exactly those are kept that
      fit behind the ones before. */
  lemma SaveGreedy(lines: seq<string>) returns (keep: seq<bool>)
    ensures |keep| == |lines| && Greedy(lines, keep) && SaveText(lines) == KeptText(lines, keep)
  {
    keep := SaveContinues(lines, []);
  }

  // ----- loading -----

  lemma {:induction false} LoadLine(text: string, i: nat, done: seq<string>, cur: string, line: string)
    requires i + |line| <= |text| && text[i..i + |line|] == line && |done| < MAX_LINES
    requires NL !in line && NUL !in line && |cur| + |line| < MAX_LINE_LENGTH
    ensures LoadFrom(text, i, done, cur) == LoadFrom(text, i + |line|, done, cur + line)
    decreases |line|
  {
    if line == "" {
      assert cur + line == cur;
    } else {
      assert text[i] == line[0] && line[0] in line;
      assert text[i + 1..i + |line|] == line[1..];
      assert cur + [line[0]] + line[1..] == cur + line;
      LoadLine(text, i + 1, done, cur + [line[0]], line[1..]);
    }
  }

  /** Loading a text of terminated lines and an unterminated rest gives the terminated lines. */
  lemma LoadTerminated(text: string, i: nat, done: seq<string>, line: string)
    requires i + |line| < |text| && text[i..i + |line|] == line && text[i + |line|] == NL
    requires |done| < MAX_LINES && GoodLine(line)
    ensures LoadFrom(text, i, done, "") == LoadFrom(text, i + |line| + 1, done + [line], "")
  {
    LoadLine(text, i, done, "", line);
    assert "" + line == line;
  }

  lemma LineInText(text: string, before: string, line: string, head: string, last: string)
    requires text == head + last && before + (line + [NL]) <= head
    ensures var i := |before|;
            i + |line| < |text| && text[i..i + |line|] == line && text[i + |line|] == NL
  {
    assert text[..|before| + |line| + 1] == before + (line + [NL]);
  }

  lemma {:induction false} LoadHead(text: string, lines: seq<string>, k: nat, last: string)
    requires k <= |lines| <= MAX_LINES && forall i | 0 <= i < |lines| :: GoodLine(lines[i])
    requires GoodLine(last) && text == Head(lines) + last
    requires |Head(lines[..k])| <= |text|
    ensures LoadFrom(text, |Head(lines[..k])|, lines[..k], "") == lines
    decreases |lines| - k
  {
    hide Head;
    var i := |Head(lines[..k])|;
    if k == |lines| {
      assert lines[..k] == lines;
      if k < MAX_LINES {
        assert text[i..i + |last|] == last;
        LoadLine(text, i, lines, "", last);
      }
    } else {
      HeadStep(lines, k);
      HeadPrefix(lines, k + 1);
      LineInText(text, Head(lines[..k]), lines[k], Head(lines), last);
      LoadTerminated(text, i, lines[..k], lines[k]);
      assert lines[..k] + [lines[k]] == lines[..k + 1];
      LoadHead(text, lines, k + 1, last);
    }
  }

  lemma {:induction false} HeadPrefix(lines: seq<string>, k: nat)
    requires k <= |lines|
    ensures Head(lines[..k]) <= Head(lines)
    decreases |lines| - k
  {
    if k == |lines| {
      assert lines[..k] == lines;
    } else {
      HeadStep(lines, k);
      HeadPrefix(lines, k + 1);
    }
  }

  /** Save, then load: every line but the last comes back, since only a newline completes a line and
      none is written behind the last one. */
  lemma SaveLoad(lines: seq<string>)
    requires 0 < |lines| <= MAX_LINES && forall i | 0 <= i < |lines| :: GoodLine(lines[i])
    requires SaveFits(lines)
    ensures Loaded(SaveText(lines)) == if |lines| == 1 then [""] else lines[..|lines| - 1]
  {
    SaveExact(lines);
    var init, last := lines[..|lines| - 1], lines[|lines| - 1];
    assert Head(init[..0]) == "" && init[..0] == [];
    LoadHead(Flat(lines), init, 0, last);
  }

  // ----- saving what need not fit -----

  /** The lines before the last that the save loop takes from line i on, with pos characters written: a
      line is passed over if it does not fit in what is left. */
  function KeptFrom(lines: seq<string>, i: nat, pos: nat): seq<string>
    requires i <= |lines|
    decreases |lines| - i
  {
    if i >= |lines| - 1 || pos >= MAX_TEXT - 1 then []
    else if pos + |lines[i]| + 1 < MAX_TEXT then [lines[i]] + KeptFrom(lines, i + 1, pos + |lines[i]| + 1)
    else KeptFrom(lines, i + 1, pos)
  }

  lemma {:induction false} KeptAreLines(lines: seq<string>, i: nat, pos: nat)
    requires i <= |lines| && forall k | 0 <= k < |lines| :: GoodLine(lines[k])
    ensures |KeptFrom(lines, i, pos)| <= |lines| - i
    ensures forall k | 0 <= k < |KeptFrom(lines, i, pos)| :: GoodLine(KeptFrom(lines, i, pos)[k])
    decreases |lines| - i
  {
    if i < |lines| - 1 && pos < MAX_TEXT - 1 {
      KeptAreLines(lines, i + 1, if pos + |lines[i]| + 1 < MAX_TEXT then pos + |lines[i]| + 1 else pos);
    }
  }

  lemma {:induction false} HeadCons(line: string, lines: seq<string>)
    ensures Head([line] + lines) == line + [NL] + Head(lines)
    decreases |lines|
  {
    if lines == [] {
      assert ([line] + lines)[..0] == [] && Head([]) == "";
      assert "" + (line + [NL]) == line + [NL] + "";
    } else {
      var init, last := lines[..|lines| - 1], lines[|lines| - 1];
      HeadCons(line, init);
      assert ([line] + lines)[..|lines|] == [line] + init;
      Regroup(line + [NL], Head(init), last + [NL]);
    }
  }

  lemma PieceThenRest(buf: string, line: string, head: string, tail: string)
    ensures buf + (line + [NL]) + (head + tail) == buf + (line + [NL] + head + tail)
  {
  }

  /** The saved text: the lines kept, each with its newline, and at most one unterminated line. */
  lemma {:induction false} SaveKept(lines: seq<string>, i: nat, buf: string) returns (tail: string)
    requires i <= |lines| && forall k | 0 <= k < |lines| :: GoodLine(lines[k])
    ensures GoodLine(tail) && SaveFrom(lines, i, buf) == buf + (Head(KeptFrom(lines, i, |buf|)) + tail)
    decreases |lines| - i
  {
    tail := "";
    if i == |lines| || |buf| >= MAX_TEXT - 1 {
      assert buf + ("" + "") == buf;
    } else if |buf| + |lines[i]| + 1 >= MAX_TEXT {
      tail := SaveKept(lines, i + 1, buf);
    } else if i == |lines| - 1 {
      tail := lines[i];
      assert buf + (tail + "") == buf + ("" + tail);
    } else {
      var line := lines[i];
      tail := SaveKept(lines, i + 1, buf + (line + [NL]));
      var kept := KeptFrom(lines, i + 1, |buf| + |line| + 1);
      HeadCons(line, kept);
      PieceThenRest(buf, line, Head(kept), tail);
    }
  }

  /** Save, then load, for every buffer: what comes back are the kept lines before the last. */
  lemma SaveLoadAny(lines: seq<string>)
    requires 0 < |lines| <= MAX_LINES && forall i | 0 <= i < |lines| :: GoodLine(lines[i])
    ensures var kept := KeptFrom(lines, 0, 0);
            Loaded(SaveText(lines)) == if kept == [] then [""] else kept
  {
    var kept := KeptFrom(lines, 0, 0);
    var tail := SaveKept(lines, 0, "");
    assert SaveText(lines) == Head(kept) + tail;
    KeptAreLines(lines, 0, 0);
    assert kept[..0] == [] && Head(kept[..0]) == "";
    LoadHead(SaveText(lines), kept, 0, tail);
  }

  lemma FlatOfHead(lines: seq<string>)
    requires lines != []
    ensures |Head(lines)| == |Flat(lines)| + 1
  {
  }

  /** What has been saved and loaded fits the next time. */
  lemma LoadedFits(lines: seq<string>)
    requires 0 < |lines| <= MAX_LINES && forall i | 0 <= i < |lines| :: GoodLine(lines[i])
    ensures var first := Loaded(SaveText(lines));
            0 < |first| <= MAX_LINES && SaveFits(first) && forall i | 0 <= i < |first| :: GoodLine(first[i])
  {
    var kept := KeptFrom(lines, 0, 0);
    SaveLoadAny(lines);
    KeptAreLines(lines, 0, 0);
    SaveBound(lines, 0, "");
    var tail := SaveKept(lines, 0, "");
    if kept != [] { FlatOfHead(kept); }
  }

  /** Saving and loading n times. */
  function Cycles(lines: seq<string>, n: nat): seq<string>
    decreases n
  {
    if n == 0 then lines else Cycles(Loaded(SaveText(lines)), n - 1)
  }

  /** A buffer that fits loses its last n lines in n rounds. */
  lemma {:induction false} FittingCycles(lines: seq<string>, n: nat)
    requires 0 < |lines| <= MAX_LINES && forall i | 0 <= i < |lines| :: GoodLine(lines[i])
    requires SaveFits(lines)
    ensures Cycles(lines, n) == if n == 0 || n < |lines| then lines[..|lines| - n] else [""]
    decreases n
  {
    if n == 0 {
      assert lines[..|lines|] == lines;
    } else {
      var first := if |lines| == 1 then [""] else lines[..|lines| - 1];
      SaveLoad(lines);
      LoadedFits(lines);
      FittingCycles(first, n - 1);
      if 1 <= n < |lines| { assert first[..|first| - (n - 1)] == lines[..|lines| - n]; }
    }
  }

  /** Opening a file and saving it unedited: the first round leaves the lines kept, each further round
      takes off one more, and in the end one empty line is left. */
  lemma CyclesLoseLines(lines: seq<string>, n: nat)
    requires 0 < |lines| <= MAX_LINES && forall i | 0 <= i < |lines| :: GoodLine(lines[i])
    ensures var kept := KeptFrom(lines, 0, 0);
            Cycles(lines, n + 1) == if n < |kept| then kept[..|kept| - n] else [""]
  {
    SaveLoadAny(lines);
    LoadedFits(lines);
    FittingCycles(Loaded(SaveText(lines)), n);
    var kept := KeptFrom(lines, 0, 0);
    assert kept[..|kept|] == kept && [""][..1] == [""];
  }

  function Newlines(text: string): nat
  {
    if text == "" then 0 else (if text[|text| - 1] == NL then 1 else 0) + Newlines(text[..|text| - 1])
  }

  lemma {:induction false} NewlinesConcat(a: string, b: string)
    ensures Newlines(a + b) == Newlines(a) + Newlines(b)
    decreases |b|
  {
    if b == "" {
      assert a + b == a;
    } else {
      assert (a + b)[..|a + b| - 1] == a + b[..|b| - 1];
      NewlinesConcat(a, b[..|b| - 1]);
    }
  }

  lemma {:induction false} NoNewlines(line: string)
    requires NL !in line
    ensures Newlines(line) == 0
    decreases |line|
  {
    if line != "" { NoNewlines(line[..|line| - 1]); }
  }

  lemma PieceNewlines(line: string, buf: string, ended: bool) returns (piece: string)
    requires GoodLine(line) && NUL !in buf
    ensures piece == line + if ended then [NL] else ""
    ensures Newlines(buf + piece) == Newlines(buf) + (if ended then 1 else 0) && NUL !in buf + piece
  {
    piece := line + if ended then [NL] else "";
    NewlinesConcat(buf, piece);
    NoNewlines(line);
    NewlinesConcat(line, if ended then [NL] else "");
    assert Newlines([NL]) == 1 + Newlines("");
  }

  lemma {:induction false} SaveNewlines(lines: seq<string>, i: nat, buf: string)
    requires i <= |lines| && forall k | 0 <= k < |lines| :: GoodLine(lines[k])
    requires NUL !in buf && Newlines(buf) <= i && (i == |lines| > 0 ==> Newlines(buf) < i)
    ensures lines != [] ==> Newlines(SaveFrom(lines, i, buf)) < |lines|
    ensures NUL !in SaveFrom(lines, i, buf)
    decreases |lines| - i
  {
    if i < |lines| && |buf| < MAX_TEXT - 1 {
      if |buf| + |lines[i]| + 1 < MAX_TEXT {
        var piece := PieceNewlines(lines[i], buf, i < |lines| - 1);
        SaveNewlines(lines, i + 1, buf + piece);
      } else {
        SaveNewlines(lines, i + 1, buf);
      }
    }
  }

  lemma {:induction false} LoadCounts(text: string, i: nat, done: seq<string>, cur: string)
    requires i <= |text| && NUL !in text && |done| == Newlines(text[..i])
    ensures |LoadFrom(text, i, done, cur)| <= Newlines(text)
    decreases |text| - i
  {
    assert text[..|text|] == text;
    if i < |text| && |done| < MAX_LINES {
      assert text[..i + 1][..i] == text[..i];
      if text[i] == NL {
        LoadCounts(text, i + 1, done + [cur], "");
      } else {
        assert text[i] in text;
        LoadCounts(text, i + 1, done, if |cur| < MAX_LINE_LENGTH - 1 then cur + [text[i]] else cur);
      }
    } else if i < |text| {
      NewlinesConcat(text[..i], text[i..]);
      assert text[..i] + text[i..] == text;
    }
  }

  /** The intended round trip through a file holds for the single empty line alone. */
  lemma SaveLoadExact(lines: seq<string>)
    requires 0 < |lines| <= MAX_LINES && forall i | 0 <= i < |lines| :: GoodLine(lines[i])
    ensures Loaded(SaveText(lines)) == lines <==> lines == [""]
  {
    var text := SaveText(lines);
    SaveNewlines(lines, 0, "");
    LoadCounts(text, 0, [], "");
    assert text[..0] == "";
    if lines == [""] {
      assert SaveFrom(lines, 1, "" + ("" + "")) == "";
    }
  }

  // ----- loading any text -----

  predicate Ends(c: char) { c == NL || c == NUL }

  /** The terminated lines of the text from i on, the current one having started at start. */
  function Pieces(text: string, start: nat, i: nat): seq<string>
    requires start <= i <= |text|
    decreases |text| - i
  {
    if i == |text| then []
    else if Ends(text[i]) then [text[start..i]] + Pieces(text, i + 1, i + 1)
    else Pieces(text, start, i + 1)
  }

  /** Where the unterminated rest of the text starts. */
  function RestStart(text: string, start: nat, i: nat): nat
    requires start <= i <= |text|
    decreases |text| - i
  {
    if i == |text| then start
    else RestStart(text, if Ends(text[i]) then i + 1 else start, i + 1)
  }

  /** The characters from i on that end a line. */
  function Enders(text: string, i: nat): string
    requires i <= |text|
    decreases |text| - i
  {
    if i == |text| then ""
    else if Ends(text[i]) then [text[i]] + Enders(text, i + 1)
    else Enders(text, i + 1)
  }

  /** Every piece with the character that ends it. */
  function Glue(pieces: seq<string>, ends: string): string
    requires |pieces| == |ends|
    decreases |pieces|
  {
    if pieces == [] then "" else pieces[0] + ([ends[0]] + Glue(pieces[1..], ends[1..]))
  }

  predicate Unended(s: string)
  {
    forall k | 0 <= k < |s| :: !Ends(s[k])
  }

  lemma GlueCons(line: string, c: char, pieces: seq<string>, ends: string, rest: string)
    requires |pieces| == |ends|
    ensures Glue([line] + pieces, [c] + ends) + rest == line + ([c] + (Glue(pieces, ends) + rest))
  {
    assert ([line] + pieces)[1..] == pieces && ([c] + ends)[1..] == ends;
    Regroup(line, [c] + Glue(pieces, ends), rest);
    Regroup([c], Glue(pieces, ends), rest);
  }

  lemma TextFrom(text: string, start: nat, i: nat)
    requires start <= i < |text|
    ensures text[start..] == text[start..i] + ([text[i]] + text[i + 1..])
    ensures text[start..i + 1] == text[start..i] + [text[i]]
  {
  }

  lemma GluePiece(text: string, start: nat, i: nat, pieces: seq<string>, ends: string, rest: string)
    requires start <= i < |text| && |pieces| == |ends| && text[i + 1..] == Glue(pieces, ends) + rest
    ensures text[start..] == Glue([text[start..i]] + pieces, [text[i]] + ends) + rest
  {
    TextFrom(text, start, i);
    GlueCons(text[start..i], text[i], pieces, ends, rest);
  }

  lemma UnendedMore(text: string, start: nat, i: nat)
    requires start <= i <= |text| && Unended(text[start..i])
    ensures i == |text| ==> Unended(text[start..]) && text[start..] == "" + text[start..]
    ensures i < |text| && !Ends(text[i]) ==> Unended(text[start..i + 1])
  {
    if i < |text| { TextFrom(text, start, i); } else { assert text[start..i] == text[start..]; }
  }

  /** The pieces are the text cut at its newlines and NULs, with nothing lost but the unterminated
      rest: glued together again they give the text. */
  lemma {:induction false} PiecesAreLines(text: string, start: nat, i: nat)
    requires start <= i <= |text| && Unended(text[start..i])
    ensures var r := RestStart(text, start, i);
            && start <= r <= |text| && Unended(text[r..])
            && |Pieces(text, start, i)| == |Enders(text, i)|
            && text[start..] == Glue(Pieces(text, start, i), Enders(text, i)) + text[r..]
    decreases |text| - i
  {
    UnendedMore(text, start, i);
    if i < |text| {
      if Ends(text[i]) {
        PiecesAreLines(text, i + 1, i + 1);
        GluePiece(text, start, i, Pieces(text, i + 1, i + 1), Enders(text, i + 1),
                  text[RestStart(text, i + 1, i + 1)..]);
      } else {
        PiecesAreLines(text, start, i + 1);
      }
    }
  }

  lemma {:induction false} PiecesUnended(text: string, start: nat, i: nat, k: nat)
    requires start <= i <= |text| && Unended(text[start..i]) && k < |Pieces(text, start, i)|
    ensures Unended(Pieces(text, start, i)[k])
    decreases |text| - i
  {
    UnendedMore(text, start, i);
    if !Ends(text[i]) {
      PiecesUnended(text, start, i + 1, k);
    } else if k > 0 {
      PiecesUnended(text, i + 1, i + 1, k - 1);
    }
  }

  /** A line as far as a row holds it. */
  function Clipped(line: string): string
  {
    if |line| < MAX_LINE_LENGTH then line else line[..MAX_LINE_LENGTH - 1]
  }

  lemma ClippedMore(line: string, c: char)
    ensures var cur := Clipped(line);
            Clipped(line + [c]) == if |cur| < MAX_LINE_LENGTH - 1 then cur + [c] else cur
  {
    if |line| >= MAX_LINE_LENGTH - 1 {
      assert (line + [c])[..MAX_LINE_LENGTH - 1] == line[..MAX_LINE_LENGTH - 1];
      assert line[..|line|] == line;
    }
  }

  function ClippedAll(lines: seq<string>): seq<string>
  {
    seq(|lines|, k requires 0 <= k < |lines| => Clipped(lines[k]))
  }

  function AtMost(lines: seq<string>, n: nat): seq<string>
  {
    if |lines| <= n then lines else lines[..n]
  }

  lemma ClippedCons(done: seq<string>, line: string, more: seq<string>)
    ensures done + [Clipped(line)] + ClippedAll(more) == done + ClippedAll([line] + more)
  {
  }

  lemma FullStays(done: seq<string>, more: seq<string>)
    ensures AtMost(done + more, |done|) == done
  {
    assert (done + more)[..|done|] == done;
  }

  lemma LoadStops(text: string, start: nat, i: nat, done: seq<string>)
    requires start <= i <= |text| && |done| <= MAX_LINES
    requires i == |text| || |done| == MAX_LINES
    ensures LoadFrom(text, i, done, Clipped(text[start..i]))
            == AtMost(done + ClippedAll(Pieces(text, start, i)), MAX_LINES)
  {
    if i == |text| {
      assert done + ClippedAll([]) == done;
    } else {
      FullStays(done, ClippedAll(Pieces(text, start, i)));
    }
  }

  lemma LoadEnder(text: string, start: nat, i: nat, done: seq<string>)
    requires start <= i < |text| && |done| < MAX_LINES && Ends(text[i])
    ensures var line := Clipped(text[start..i]);
            && LoadFrom(text, i, done, line)
               == LoadFrom(text, i + 1, done + [line], Clipped(text[i + 1..i + 1]))
            && done + [line] + ClippedAll(Pieces(text, i + 1, i + 1)) == done + ClippedAll(Pieces(text, start, i))
  {
    hide ClippedAll;
    assert text[i + 1..i + 1] == "";
    ClippedCons(done, text[start..i], Pieces(text, i + 1, i + 1));
  }

  lemma LoadMore(text: string, start: nat, i: nat, done: seq<string>)
    requires start <= i < |text| && |done| < MAX_LINES && !Ends(text[i])
    ensures LoadFrom(text, i, done, Clipped(text[start..i]))
            == LoadFrom(text, i + 1, done, Clipped(text[start..i + 1]))
    ensures Pieces(text, start, i) == Pieces(text, start, i + 1)
  {
    hide Clipped;
    assert text[start..i + 1] == text[start..i] + [text[i]];
    ClippedMore(text[start..i], text[i]);
  }

  lemma {:induction false} LoadsPieces(text: string, start: nat, i: nat, done: seq<string>)
    requires start <= i <= |text| && |done| <= MAX_LINES
    ensures LoadFrom(text, i, done, Clipped(text[start..i]))
            == AtMost(done + ClippedAll(Pieces(text, start, i)), MAX_LINES)
    decreases |text| - i
  {
    hide LoadFrom, Pieces, Clipped, ClippedAll, AtMost;
    if i == |text| || |done| == MAX_LINES {
      LoadStops(text, start, i, done);
    } else if Ends(text[i]) {
      LoadEnder(text, start, i, done);
      LoadsPieces(text, i + 1, i + 1, done + [Clipped(text[start..i])]);
    } else {
      LoadMore(text, start, i, done);
      LoadsPieces(text, start, i + 1, done);
    }
  }

  /** Loading any text gives its terminated lines, each cut to 255 characters, at most 1000 of them. */
  lemma LoadExact(text: string)
    ensures LoadFrom(text, 0, [], "") == AtMost(ClippedAll(Pieces(text, 0, 0)), MAX_LINES)
  {
    LoadsPieces(text, 0, 0, []);
    assert text[0..0] == "" && [] + ClippedAll(Pieces(text, 0, 0)) == ClippedAll(Pieces(text, 0, 0));
  }
}
