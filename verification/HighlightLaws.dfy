/** Highlighting is lossless and its markers alternate. */
module HighlightLaws {
  import opened Options
  import opened StringLib
  import opened HighlightModel

  /** The text of an output: what remains when the markers are erased. */
  function Erase(es: seq<Event>): string
  {
    if es == [] then ""
    else (if es[0].Ch? then [es[0].c] else "") + Erase(es[1..])
  }

  lemma {:induction false} EraseConcat(a: seq<Event>, b: seq<Event>)
    ensures Erase(a + b) == Erase(a) + Erase(b)
    decreases |a|
  {
    if a == [] {
      assert a + b == b;
    } else {
      assert (a + b)[1..] == a[1..] + b;
      EraseConcat(a[1..], b);
      var x := if a[0].Ch? then [a[0].c] else "";
      assert x + (Erase(a[1..]) + Erase(b)) == x + Erase(a[1..]) + Erase(b);
    }
  }

  lemma EraseOne(e: Event)
    ensures Erase([e]) == if e.Ch? then [e.c] else ""
  {
    assert [e][1..] == [];
  }

  lemma {:induction false} ErasePlain(text: string)
    ensures Erase(Plain(text)) == text
    decreases |text|
  {
    if text != "" {
      var init, last := text[..|text| - 1], text[|text| - 1];
      ErasePlain(init);
      EraseConcat(Plain(init), [Ch(last)]);
      EraseOne(Ch(last));
      assert init + [last] == text;
    }
  }

  lemma EraseShow(t: Tok)
    ensures Erase(Show(t)) == t.text
  {
    ErasePlain(t.text);
    if t.kind.Some? {
      var k := t.kind.value;
      var body, end := Plain(t.text), if t.closed then [Event.Close(k)] else [];
      EraseConcat([Event.Open(k)], body);
      EraseConcat([Event.Open(k)] + body, end);
      EraseOne(Event.Open(k));
      EraseOne(Event.Close(k));
      assert "" + t.text == t.text && t.text + "" == t.text;
    }
  }

  function Texts(ts: seq<Tok>): string
  {
    if ts == [] then "" else ts[0].text + Texts(ts[1..])
  }

  lemma {:induction false} EraseAll(ts: seq<Tok>)
    ensures Erase(ShowAll(ts)) == Texts(ts)
    decreases |ts|
  {
    if ts != [] {
      EraseAll(ts[1..]);
      EraseShow(ts[0]);
      EraseConcat(Show(ts[0]), ShowAll(ts[1..]));
    }
  }

  /** The tokens cut the line into consecutive stretches; only the last one may stay open. */
  ghost predicate Cuts(ts: seq<Tok>, line: string, i: nat, mayStayOpen: bool)
    requires i <= |line|
    decreases |ts|
  {
    if ts == [] then i == |line|
    else Covers(ts[0], line, i, mayStayOpen) && Cuts(ts[1..], line, i + |ts[0].text|, mayStayOpen)
  }

  lemma CutsCons(t: Tok, ts: seq<Tok>, line: string, i: nat, open: bool)
    requires Covers(t, line, i, open) && Cuts(ts, line, i + |t.text|, open)
    ensures Cuts([t] + ts, line, i, open)
  {
    assert ([t] + ts)[1..] == ts;
  }

  lemma ToksEnd(lang: Lang, line: string)
    ensures Toks(lang, line, |line|) == []
  {
  }

  lemma {:induction false} ToksCut(lang: Lang, line: string, i: nat)
    requires i <= |line|
    ensures Cuts(Toks(lang, line, i), line, i, lang.LangC?)
    decreases |line| - i
  {
    hide Toks, Covers;
    if i == |line| {
      ToksEnd(lang, line);
    } else {
      var t, j := ToksStep(lang, line, i);
      ToksCut(lang, line, j);
      CutsCons(t, Toks(lang, line, j), line, i, lang.LangC?);
    }
  }

  lemma {:induction false} CutsTexts(ts: seq<Tok>, line: string, i: nat, open: bool)
    requires i <= |line| && Cuts(ts, line, i, open)
    ensures Texts(ts) == line[i..]
    decreases |ts|
  {
    if ts != [] {
      var j := i + |ts[0].text|;
      CutsTexts(ts[1..], line, j, open);
      assert line[i..j] + line[j..] == line[i..];
    }
  }

  /** Erasing the markers gives the line number, the line itself and a newline. */
  lemma Lossless(lang: Lang, line: string, lineNum: nat)
    ensures Erase(Highlighted(lang, line, lineNum)) == Digits(lineNum + 1, 10) + ": " + line + "\n"
  {
    var head, body := Plain(Digits(lineNum + 1, 10) + ": "), ShowAll(Toks(lang, line, 0));
    ErasePlain(Digits(lineNum + 1, 10) + ": ");
    ToksCut(lang, line, 0);
    CutsTexts(Toks(lang, line, 0), line, 0, lang.LangC?);
    EraseAll(Toks(lang, line, 0));
    EraseConcat(head, body);
    EraseConcat(head + body, [Ch('\n')]);
    EraseOne(Ch('\n'));
    assert line[0..] == line;
  }

  // ----- markers -----

  /** The marker open after the events, None if markers do not alternate. */
  function Track(es: seq<Event>, open: Option<Kind>): Option<Option<Kind>>
    decreases |es|
  {
    if es == [] then Some(open)
    else match es[0]
      case Ch(_) => Track(es[1..], open)
      case Open(k) => if open == None then Track(es[1..], Some(k)) else None
      case Close(k) => if open == Some(k) then Track(es[1..], None) else None
  }

  lemma {:induction false} TrackConcat(a: seq<Event>, b: seq<Event>, open: Option<Kind>)
    requires Track(a, open).Some?
    ensures Track(a + b, open) == Track(b, Track(a, open).value)
    decreases |a|
  {
    if a == [] {
      assert a + b == b;
    } else {
      assert (a + b)[1..] == a[1..] + b;
      match a[0] {
        case Ch(_) => TrackConcat(a[1..], b, open);
        case Open(k) => TrackConcat(a[1..], b, Some(k));
        case Close(k) => TrackConcat(a[1..], b, None);
      }
    }
  }

  lemma TrackOne(e: Event, open: Option<Kind>)
    ensures Track([e], open) == match e
                                case Ch(_) => Some(open)
                                case Open(k) => if open == None then Some(Some(k)) else None
                                case Close(k) => if open == Some(k) then Some(None) else None
  {
    assert [e][1..] == [];
  }

  lemma {:induction false} TrackPlain(text: string, open: Option<Kind>)
    ensures Track(Plain(text), open) == Some(open)
    decreases |text|
  {
    if text != "" {
      var init, last := text[..|text| - 1], Ch(text[|text| - 1]);
      TrackPlain(init, open);
      TrackOne(last, open);
      TrackConcat(Plain(init), [last], open);
    }
  }

  lemma TrackShow(t: Tok)
    ensures Track(Show(t), None) == Some(if t.closed then None else t.kind)
  {
    TrackPlain(t.text, t.kind);
    if t.kind.Some? {
      var k := t.kind.value;
      var body := Plain(t.text);
      TrackOne(Event.Open(k), None);
      TrackConcat([Event.Open(k)], body, None);
      if t.closed {
        TrackOne(Event.Close(k), Some(k));
        TrackConcat([Event.Open(k)] + body, [Event.Close(k)], None);
      } else {
        assert [Event.Open(k)] + body + [] == [Event.Open(k)] + body;
      }
    }
  }

  /** The marker left open at the end of the line. */
  function LeftOpen(ts: seq<Tok>): Option<Kind>
  {
    if ts == [] || ts[|ts| - 1].closed then None else ts[|ts| - 1].kind
  }

  lemma {:induction false} TrackAll(ts: seq<Tok>, line: string, i: nat, open: bool)
    requires i <= |line| && Cuts(ts, line, i, open)
    ensures Track(ShowAll(ts), None) == Some(LeftOpen(ts))
    ensures LeftOpen(ts) == None || (open && LeftOpen(ts) in {Some(Comment), Some(Str)})
    decreases |ts|
  {
    hide Show;
    if ts != [] {
      var t, rest := ts[0], ts[1..];
      TrackAll(rest, line, i + |t.text|, open);
      TrackShow(t);
      assert !t.closed ==> rest == [];
      TrackConcat(Show(t), ShowAll(rest), None);
    }
  }

  /** Open and close markers strictly alternate with matching kinds.  Only a block comment or a
      string literal of C that the line does not finish stays open, and it is the last thing. */
  lemma MarkersAlternate(lang: Lang, line: string, lineNum: nat)
    ensures Track(Highlighted(lang, line, lineNum), None) == Some(LeftOpen(Toks(lang, line, 0)))
    ensures LeftOpen(Toks(lang, line, 0)) in {None, Some(Comment), Some(Str)}
    ensures !lang.LangC? ==> LeftOpen(Toks(lang, line, 0)) == None
  {
    var head, body := Plain(Digits(lineNum + 1, 10) + ": "), ShowAll(Toks(lang, line, 0));
    var open := LeftOpen(Toks(lang, line, 0));
    TrackPlain(Digits(lineNum + 1, 10) + ": ", None);
    ToksCut(lang, line, 0);
    TrackAll(Toks(lang, line, 0), line, 0, lang.LangC?);
    TrackConcat(head, body, None);
    TrackOne(Ch('\n'), open);
    TrackConcat(head + body, [Ch('\n')], None);
  }
}
