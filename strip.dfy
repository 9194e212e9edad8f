/**
 * Removal of the managed block (the replacement in removeOverrides, main.go). The
 * source replaces every match of the greedy pattern (?s)(START).*(FINISH). The match
 * begins at the first start delimiter and, `.*` being greedy, ends with the last
 * finish delimiter that begins at or after that start delimiter's end; no later match
 * can exist, so the replacement happens at most once. It is modelled here with
 * substring search, not with a regular-expression engine.
 */
module Removal {
  import opened Wrappers
  import opened Entries
  import opened Render

  /** `pat` occurs in `text` at position `i`. */
  predicate Occurs(pat: string, text: string, i: int)
  {
    0 <= i && i + |pat| <= |text| && text[i..i + |pat|] == pat
  }

  /** The first occurrence of `pat` in `text` at or after `from`. */
  function FindFirst(pat: string, text: string, from: nat): (r: Option<nat>)
    ensures r.Some? ==> from <= r.value && Occurs(pat, text, r.value)
    ensures forall j :: from <= j && (r.None? || j < r.value) ==> !Occurs(pat, text, j)
    decreases |text| - from
  {
    if from + |pat| > |text| then None
    else if text[from..from + |pat|] == pat then Some(from)
    else FindFirst(pat, text, from + 1)
  }

  /** The last occurrence of `pat` in `text` between `lo` and `hi`, both included. */
  function FindLast(pat: string, text: string, lo: nat, hi: int): (r: Option<nat>)
    ensures r.Some? ==> lo <= r.value <= hi && Occurs(pat, text, r.value)
    ensures forall j :: (if r.Some? then r.value < j else lo <= j) && j <= hi ==> !Occurs(pat, text, j)
    decreases hi + 1 - lo
  {
    if hi < lo then None
    else if Occurs(pat, text, hi) then Some(hi)
    else FindLast(pat, text, lo, hi - 1)
  }

  /** Some start delimiter is followed, at or after its end, by a finish delimiter. */
  ghost predicate HasBlock(text: string)
  {
    exists s, f :: Occurs(StartComment(), text, s) && s + |StartComment()| <= f && Occurs(FinishComment(), text, f)
  }

  /**
   * The match of the greedy pattern: the first start delimiter at `s` and the last
   * finish delimiter at `f`, which begins at or after the start delimiter's end.
   */
  ghost predicate MatchAt(text: string, s: int, f: int)
  {
    Occurs(StartComment(), text, s) && s + |StartComment()| <= f && Occurs(FinishComment(), text, f) &&
    (forall j :: 0 <= j < s ==> !Occurs(StartComment(), text, j)) &&
    (forall j :: f < j ==> !Occurs(FinishComment(), text, j))
  }

  /**
   * The text with the managed block cut out: everything from the first start
   * delimiter through the last finish delimiter after it goes, every other character
   * stays; text without such a pair comes back unchanged.
   */
  function Strip(text: string): (r: string)
    ensures !HasBlock(text) ==> r == text
  {
    match FindFirst(StartComment(), text, 0)
    case None => text
    case Some(s) =>
      match FindLast(FinishComment(), text, s + |StartComment()|, |text| - |FinishComment()|)
      case None => text
      case Some(f) =>
        text[..s] + text[f + |FinishComment()|..]
  }

  /** The positions of the match that Strip cuts out. */
  lemma StripMatch(text: string) returns (s: int, f: int)
    requires HasBlock(text)
    ensures MatchAt(text, s, f) && Strip(text) == text[..s] + text[f + |FinishComment()|..]
  {
    var s0, f0 :| Occurs(StartComment(), text, s0) && s0 + |StartComment()| <= f0 && Occurs(FinishComment(), text, f0);
    FindFirstFinds(StartComment(), text, 0, s0);
    s := FindFirst(StartComment(), text, 0).value;
    FindLastFinds(FinishComment(), text, s + |StartComment()|, |text| - |FinishComment()|, f0);
    f := FindLast(FinishComment(), text, s + |StartComment()|, |text| - |FinishComment()|).value;
    StripAt(text, s, f);
  }

  /** The first-occurrence search succeeds when there is an occurrence to find. */
  lemma FindFirstFinds(pat: string, text: string, from: nat, j: int)
    requires from <= j && Occurs(pat, text, j)
    ensures FindFirst(pat, text, from).Some?
  {
    var r := FindFirst(pat, text, from);
    assert r.None? ==> !Occurs(pat, text, j);
  }

  /** The last-occurrence search succeeds when there is an occurrence in the range. */
  lemma FindLastFinds(pat: string, text: string, lo: nat, hi: int, j: int)
    requires lo <= j <= hi && Occurs(pat, text, j)
    ensures FindLast(pat, text, lo, hi).Some?
  {
    var r := FindLast(pat, text, lo, hi);
    assert r.None? ==> !Occurs(pat, text, j);
  }

  /** Where both searches succeed, Strip cuts between the two positions they find. */
  lemma StripAt(text: string, s: nat, f: nat)
    requires FindFirst(StartComment(), text, 0) == Some(s)
    requires FindLast(FinishComment(), text, s + |StartComment()|, |text| - |FinishComment()|) == Some(f)
    ensures MatchAt(text, s, f) && Strip(text) == text[..s] + text[f + |FinishComment()|..]
  {
  }

  /** There is at most one match: its two ends are determined by the text. */
  lemma MatchUnique(text: string, s: int, f: int, s': int, f': int)
    requires MatchAt(text, s, f) && MatchAt(text, s', f')
    ensures s == s' && f == f'
  {
  }

  /** An occurrence wholly inside the kept prefix is an occurrence in the original. */
  lemma CutKeepsPrefix(pat: string, text: string, s: int, e: int, p: int)
    requires 0 <= s <= e <= |text|
    requires Occurs(pat, text[..s] + text[e..], p) && p + |pat| <= s
    ensures Occurs(pat, text, p)
  {
    var r := text[..s] + text[e..];
    assert r[p..p + |pat|] == text[p..p + |pat|];
  }

  /** An occurrence wholly inside the kept suffix is an occurrence in the original. */
  lemma CutKeepsSuffix(pat: string, text: string, s: int, e: int, q: int)
    requires 0 <= s <= e <= |text|
    requires Occurs(pat, text[..s] + text[e..], q) && s <= q
    ensures Occurs(pat, text, q + e - s)
  {
    var r := text[..s] + text[e..];
    assert r[q..q + |pat|] == text[q + e - s..q + e - s + |pat|];
  }

  /** What is left after cutting out the match holds no block. */
  lemma CutHasNoBlock(text: string, s: int, f: int)
    requires MatchAt(text, s, f)
    ensures !HasBlock(text[..s] + text[f + |FinishComment()|..])
  {
    var S, F := StartComment(), FinishComment();
    var r := text[..s] + text[f + |F|..];
    if HasBlock(r) {
      var p, q :| Occurs(S, r, p) && p + |S| <= q && Occurs(F, r, q);
      if p + |S| <= s {
        CutKeepsPrefix(S, text, s, f + |F|, p);
      } else {
        CutKeepsSuffix(F, text, s, f + |F|, q);
      }
    }
  }

  /**
   * Stripping is idempotent: nothing left after a strip forms a new block, so the
   * speculative strip at start-up is harmless.
   */
  lemma StripIdempotent(text: string)
    ensures Strip(Strip(text)) == Strip(text)
  {
    if HasBlock(text) {
      var s, f := StripMatch(text);
      CutHasNoBlock(text, s, f);
    }
  }

  /** Whatever the text, its strip holds no block. */
  lemma StripLeavesNoBlock(text: string)
    ensures !HasBlock(Strip(text))
  {
    if HasBlock(text) {
      var s, f := StripMatch(text);
      CutHasNoBlock(text, s, f);
    }
  }

  /** The marker does not occur anywhere in the text. */
  ghost predicate NoMarker(text: string)
  {
    forall i :: !Occurs(Marker, text, i)
  }

  /** Any stretch of an occurrence is the same stretch of the pattern. */
  lemma OccurrenceSlice(pat: string, text: string, i: int, a: int, b: int)
    requires Occurs(pat, text, i) && 0 <= a <= b <= |pat|
    ensures text[i + a..i + b] == pat[a..b]
  {
    forall j | 0 <= j < b - a
      ensures text[i + a..i + b][j] == pat[a..b][j]
    {
      assert text[i..i + |pat|][a + j] == text[i + a + j];
    }
  }

  /** Each delimiter carries the marker at offset 30. */
  lemma DelimiterHasMarker(custom: string, text: string, i: int)
    ensures Occurs(WrappingComment(custom), text, i) ==> Occurs(Marker, text, i + 30)
  {
    var w := WrappingComment(custom);
    WrappingLayout(custom);
    if Occurs(w, text, i) {
      OccurrenceSlice(w, text, i, 30, 44);
    }
  }

  /** Text without the marker holds no block, so stripping leaves it unchanged. */
  lemma StripNoMarker(text: string)
    requires NoMarker(text)
    ensures Strip(text) == text
  {
    if HasBlock(text) {
      var s, f :| Occurs(StartComment(), text, s) && s + |StartComment()| <= f && Occurs(FinishComment(), text, f);
      DelimiterHasMarker("START", text, s);
    }
  }

  /**
   * Appending text that opens with a delimiter to marker-free text creates no start
   * delimiter before the appended part: the marker would have to lie in the base, run
   * across the line break that opens the appended text, or start before offset 30 of
   * the delimiter, and none of these can happen.
   */
  lemma NoStartBefore(base: string, t: string, p: int)
    requires NoMarker(base)
    requires |t| >= |StartComment()| && t[..|StartComment()|] == StartComment()
    requires 0 <= p < |base|
    ensures !Occurs(StartComment(), base + t, p)
  {
    var text := base + t;
    var m := p + 30;
    DelimiterHasMarker("START", text, p);
    WrappingLayout("START");
    if m + 14 <= |text| {
      if m + 14 <= |base| {
        assert !Occurs(Marker, base, m);
        assert base[m..m + 14] == text[m..m + 14];
      } else if m < |base| {
        assert text[|base|] == t[..|StartComment()|][0] == WrappingComment("START")[..2][0];
        assert text[m..m + 14][|base| - m] == text[|base|];
        assert '\n' !in Marker;
      } else {
        var w, k := WrappingComment("START"), m - |base|;
        assert text[m] == t[..|StartComment()|][k] == w[..30][k];
        assert text[m..m + 14][0] == text[m];
        assert w[..30][k] in w[..30];
      }
    }
    assert !Occurs(Marker, text, m);
  }

  /**
   * The round trip: stripping marker-free content followed by framed text (one
   * rendered block, or several stacked ones) gives back exactly that content. The
   * entries inside the block do not matter: the match runs to the last finish
   * delimiter, which is the appended one.
   */
  lemma StripFramed(base: string, t: string)
    requires NoMarker(base) && Framed(t)
    ensures Strip(base + t) == base
  {
    var text := base + t;
    var S, F := StartComment(), FinishComment();
    var s, f := |base|, |text| - |F|;
    assert text[s..s + |S|] == t[..|S|];
    assert text[f..f + |F|] == t[|t| - |F|..];
    forall j | 0 <= j < s
      ensures !Occurs(S, text, j)
    {
      NoStartBefore(base, t, j);
    }
    assert MatchAt(text, s, f);
    var s', f' := StripMatch(text);
    MatchUnique(text, s, f, s', f');
    assert text[..s] == base;
  }

  /**
   * Start followed by exit restores marker-free content exactly: the speculative strip
   * keeps it, and the strip at exit removes the block that was appended.
   */
  lemma RoundTrip(content: string, es: seq<Entry>)
    requires NoMarker(content) && Block(es).Ok?
    ensures Strip(Strip(content) + Block(es).value) == content
  {
    StripNoMarker(content);
    StripFramed(content, Block(es).value);
  }
}
