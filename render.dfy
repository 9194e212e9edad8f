/**
 * Rendering of the managed block: the fixed delimiters (wrappingComment,
 * startComment, finishComment), one line per entry (parsedOverridesAsHosts) and the
 * block itself (parsedOverridesForHosts).
 */
module Render {
  import opened Wrappers
  import opened Entries

  /** The row of 25 '#' above and below a delimiter's title line. */
  const Rule: string := "#########################"

  /** The program's name, which every delimiter's title line carries. */
  const Marker: string := "hosts-override"

  /** wrappingComment: a blank-line-framed title `# hosts-override <custom>` between two rules. */
  function WrappingComment(custom: string): (r: string)
    ensures |r| == 73 + |custom|
  {
    "\n\n" + Rule + "\n# " + Marker + " " + custom + "\n" + Rule + "\n\n"
  }

  /**
   * The layout of a delimiter that removal relies on: it opens and closes with a blank
   * line, the rules surround the title, the marker stands at offset 30 followed by the
   * custom word, and nothing before offset 30 can start the marker.
   */
  lemma WrappingLayout(custom: string)
    ensures var r := WrappingComment(custom);
      && r[..2] == "\n\n" && r[|r| - 2..] == "\n\n"
      && r[2..27] == Rule && r[|r| - 27..|r| - 2] == Rule
      && r[30..44] == Marker && r[45..45 + |custom|] == custom
      && Marker[0] !in r[..30]
  {
    var r := WrappingComment(custom);
    var lead := "\n\n" + Rule + "\n# ";
    var tail := "\n" + Rule + "\n\n";
    assert r == lead + Marker + " " + custom + tail;
    assert r[..30] == lead by {
      assert |lead| == 30;
    }
    assert Marker[0] !in lead;
    assert r[..2] == "\n\n" by {
      assert r[..30][..2] == r[..2];
    }
    assert r[2..27] == Rule by {
      assert r[..30][2..27] == r[2..27];
    }
    assert r[30..44] == Marker;
    assert r[45..45 + |custom|] == custom;
    assert r[|r| - 28..] == tail;
    assert r[|r| - 2..] == "\n\n" by {
      assert r[|r| - 28..][26..] == r[|r| - 2..];
    }
    assert r[|r| - 27..|r| - 2] == Rule by {
      assert r[|r| - 28..][1..26] == r[|r| - 27..|r| - 2];
    }
  }

  function StartComment(): (r: string)
    ensures |r| == 78
  {
    WrappingComment("START")
  }

  function FinishComment(): (r: string)
    ensures |r| == 79
  {
    WrappingComment("FINISH")
  }

  /** Text that opens with the start delimiter and closes with a later finish delimiter. */
  predicate Framed(t: string)
  {
    |t| >= |StartComment()| + |FinishComment()| &&
    t[..|StartComment()|] == StartComment() && t[|t| - |FinishComment()|..] == FinishComment()
  }

  /** Two framed texts one after the other still open and close with the delimiters. */
  lemma FramedConcat(t: string, u: string)
    requires Framed(t) && Framed(u)
    ensures Framed(t + u)
  {
    var tu := t + u;
    assert tu[..|StartComment()|] == t[..|StartComment()|];
    assert tu[|tu| - |FinishComment()|..] == u[|u| - |FinishComment()|..];
  }

  /** parsedOverridesAsHosts dereferences a nil ipResovledFrom: the program panics. */
  datatype RenderError = NilResolvedFrom(entry: Entry)

  /** The hosts line of an expanded entry. */
  function Line(e: Entry): (r: string)
    requires e.resolvedFrom.Some?
    ensures |r| > |e.ip| + |e.hostname| && r[|r| - 1] == '\n'
  {
    e.ip + " " + e.hostname + " # IP resolved from " + e.resolvedFrom.value + "\n"
  }

  /** A line starts with the entry's address followed by a space. */
  lemma LineShape(e: Entry)
    requires e.resolvedFrom.Some?
    ensures |Line(e)| > |e.ip| && Line(e)[..|e.ip|] == e.ip && Line(e)[|e.ip|] == ' '
  {
    var rest := " " + e.hostname + " # IP resolved from " + e.resolvedFrom.value + "\n";
    assert Line(e) == e.ip + rest;
  }

  /**
   * The specification of parsedOverridesAsHosts: the lines of all entries in order,
   * or the panic on the first entry without resolvedFrom.
   */
  function Lines(es: seq<Entry>): (r: Result<string, RenderError>)
    ensures r.Err? ==> r.error.entry in es && r.error.entry.resolvedFrom.None?
    decreases |es|
  {
    if es == [] then Ok("")
    else
      var e := es[|es| - 1];
      match Lines(es[..|es| - 1])
      case Err(err) => Err(err)
      case Ok(text) => if e.resolvedFrom.None? then Err(NilResolvedFrom(e)) else Ok(text + Line(e))
  }

  /** The lines are produced exactly when every entry carries resolvedFrom. */
  lemma {:induction false} LinesOk(es: seq<Entry>)
    ensures Lines(es).Ok? <==> forall i :: 0 <= i < |es| ==> es[i].resolvedFrom.Some?
    decreases |es|
  {
    if es != [] {
      var init, e := es[..|es| - 1], es[|es| - 1];
      LinesOk(init);
      assert forall i :: 0 <= i < |init| ==> es[i] == init[i];
    }
  }

  /** parsedOverridesAsHosts (main.go): the loop that concatenates the lines. */
  method ParsedOverridesAsHosts(es: seq<Entry>) returns (r: Result<string, RenderError>)
    ensures r == Lines(es)
  {
    var o := "";
    var i := 0;
    while i < |es|
      invariant 0 <= i <= |es|
      invariant Lines(es[..i]) == Ok(o)
    {
      var entry := es[i];
      assert es[..i + 1] == es[..i] + [entry];
      if entry.resolvedFrom.None? {
        LinesErrPrefix(es, i + 1);
        return Err(NilResolvedFrom(entry));
      }
      LinesSnoc(es[..i], entry);
      o := o + Line(entry);
      i := i + 1;
    }
    assert es[..i] == es;
    r := Ok(o);
  }

  /** The panic is on the first entry without resolvedFrom. */
  lemma {:induction false} LinesError(es: seq<Entry>)
    requires Lines(es).Err?
    ensures exists k :: (0 <= k < |es| && Lines(es).error == NilResolvedFrom(es[k]) &&
                         es[k].resolvedFrom.None? && forall j :: 0 <= j < k ==> es[j].resolvedFrom.Some?)
    decreases |es|
  {
    var init, last := es[..|es| - 1], es[|es| - 1];
    assert es == init + [last];
    LinesSnoc(init, last);
    if Lines(init).Err? {
      LinesError(init);
      var k :| 0 <= k < |init| && Lines(init).error == NilResolvedFrom(init[k]) &&
        init[k].resolvedFrom.None? && forall j :: 0 <= j < k ==> init[j].resolvedFrom.Some?;
      assert es[k] == init[k];
    } else {
      LinesOk(init);
      assert forall j :: 0 <= j < |init| ==> es[j] == init[j];
    }
  }

  /** Once a prefix panics, the whole list panics the same way. */
  lemma {:induction false} LinesErrPrefix(es: seq<Entry>, n: nat)
    requires n <= |es| && Lines(es[..n]).Err?
    ensures Lines(es) == Lines(es[..n])
    decreases |es| - n
  {
    if n == |es| {
      assert es[..n] == es;
    } else {
      var init := es[..|es| - 1];
      assert init[..n] == es[..n];
      LinesErrPrefix(init, n);
      assert es == init + [es[|es| - 1]];
      LinesSnoc(init, es[|es| - 1]);
    }
  }

  /** Proof helper: Lines unfolded once on a list that ends in `e`. */
  lemma LinesSnoc(es: seq<Entry>, e: Entry)
    ensures Lines(es + [e]) ==
      match Lines(es)
      case Err(err) => Err(err)
      case Ok(text) => if e.resolvedFrom.None? then Err(NilResolvedFrom(e)) else Ok(text + Line(e))
  {
    var ese := es + [e];
    assert ese[..|ese| - 1] == es;
  }

  /** The lines of two lists one after the other are the two lists' lines, in order. */
  lemma {:induction false} LinesAppend(a: seq<Entry>, b: seq<Entry>)
    requires Lines(a).Ok? && Lines(b).Ok?
    ensures Lines(a + b) == Ok(Lines(a).value + Lines(b).value)
    decreases |b|
  {
    if b == [] {
      assert a + b == a;
      assert Lines(a).value + "" == Lines(a).value;
    } else {
      var init, e := b[..|b| - 1], b[|b| - 1];
      assert b == init + [e];
      LinesSnoc(init, e);
      LinesAppend(a, init);
      LinesAppendStep(a, init, e);
    }
  }

  /** Proof helper: the step of LinesAppend, one more entry at the end of the second list. */
  lemma LinesAppendStep(a: seq<Entry>, init: seq<Entry>, e: Entry)
    requires Lines(a).Ok? && Lines(init + [e]).Ok?
    requires Lines(a + init) == Ok(Lines(a).value + Lines(init).value)
    ensures Lines(a + (init + [e])) == Ok(Lines(a).value + Lines(init + [e]).value)
  {
    var x, y := Lines(a).value, Lines(init).value;
    LinesSnoc(init, e);
    assert a + (init + [e]) == (a + init) + [e];
    LinesSnoc(a + init, e);
    AppendAssoc(x, y, Line(e));
  }

  lemma AppendAssoc<T>(x: seq<T>, y: seq<T>, z: seq<T>)
    ensures x + y + z == x + (y + z)
  {
  }

  /** How many times `c` occurs in `s`. */
  function Count(c: char, s: string): nat
    decreases |s|
  {
    if s == [] then 0 else Count(c, s[..|s| - 1]) + (if s[|s| - 1] == c then 1 else 0)
  }

  lemma {:induction false} CountAppend(c: char, s: string, t: string)
    ensures Count(c, s + t) == Count(c, s) + Count(c, t)
    decreases |t|
  {
    if t != [] {
      var st := s + t;
      assert st[..|st| - 1] == s + t[..|t| - 1];
      CountAppend(c, s, t[..|t| - 1]);
    } else {
      assert s + t == s;
    }
  }

  lemma {:induction false} CountAbsent(c: char, s: string)
    requires c !in s
    ensures Count(c, s) == 0
    decreases |s|
  {
    if s != [] {
      CountAbsent(c, s[..|s| - 1]);
    }
  }

  /** No field of the entry holds a line break. */
  predicate SingleLineFields(e: Entry)
  {
    '\n' !in e.ip && '\n' !in e.hostname && (e.resolvedFrom.Some? ==> '\n' !in e.resolvedFrom.value)
  }

  /** One line per entry: with single-line fields, the lines hold one break per entry. */
  lemma {:induction false} LinesCount(es: seq<Entry>)
    requires Lines(es).Ok?
    requires forall i :: 0 <= i < |es| ==> SingleLineFields(es[i])
    ensures Count('\n', Lines(es).value) == |es|
    decreases |es|
  {
    if es != [] {
      var init, e := es[..|es| - 1], es[|es| - 1];
      LinesCount(init);
      var body := e.ip + " " + e.hostname + " # IP resolved from " + e.resolvedFrom.value;
      assert Line(e) == body + "\n";
      assert '\n' !in body;
      CountAbsent('\n', body);
      CountAppend('\n', body, "\n");
      CountAppend('\n', Lines(init).value, Line(e));
    }
  }

  /** The specification of parsedOverridesForHosts: the lines between the delimiters. */
  function Block(es: seq<Entry>): (r: Result<string, RenderError>)
    ensures r.Ok? <==> Lines(es).Ok?
    ensures r.Err? ==> r == Lines(es)
    ensures r.Ok? ==> Framed(r.value)
    ensures r.Ok? ==> r.value[|StartComment()|..|r.value| - |FinishComment()|] == Lines(es).value
  {
    match Lines(es)
    case Err(err) => Err(err)
    case Ok(text) =>
      var block := StartComment() + text + FinishComment();
      assert block[..|StartComment()|] == StartComment();
      assert block[|block| - |FinishComment()|..] == FinishComment();
      assert block[|StartComment()|..|block| - |FinishComment()|] == text;
      Ok(block)
  }

  /** parsedOverridesForHosts (main.go): start delimiter, lines, finish delimiter. */
  method ParsedOverridesForHosts(es: seq<Entry>) returns (r: Result<string, RenderError>)
    ensures r == Block(es)
  {
    var o := StartComment();
    var lines := ParsedOverridesAsHosts(es);
    if lines.Err? {
      return Err(lines.error);
    }
    o := o + lines.value;
    o := o + FinishComment();
    r := Ok(o);
  }
}
