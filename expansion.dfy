/**
 * Expansion of the parsed entries into the entries that are written
 * (parsedOverrides in main.go). The two library calls it makes are abstract inputs:
 * `isIP` answers whether net.ParseIP accepts a text (maybeIP returning a non-empty
 * string), and `lookup` is the answer net.LookupIP gives at the time of the call,
 * already rendered with IP.String().
 */
module Expansion {
  import opened Wrappers
  import opened Entries

  datatype Lookup = Resolved(addrs: seq<string>) | LookupFailed

  datatype Resolver = Resolver(isIP: string -> bool, lookup: string -> Lookup)

  /**
   * What parsedOverrides yields: the expanded list, nil (a lookup failed while
   * refreshing), or termination through os.Exit (a lookup failed otherwise).
   */
  datatype Outcome = Expanded(entries: seq<Entry>) | Abandoned | ExitProcess(code: int)

  /** The outcome of a failed lookup, which depends on the refresh flag alone. */
  function LookupFailure(refresh: bool): Outcome
  {
    if refresh then Abandoned else ExitProcess(1)
  }

  /** An entry expands without a lookup error: its target is a literal IP or looks up. */
  predicate Resolves(e: Entry, r: Resolver)
  {
    r.isIP(e.ip) || r.lookup(e.ip).Resolved?
  }

  /** One entry per looked-up address, in lookup order, remembering the target. */
  function FanOut(e: Entry, addrs: seq<string>): seq<Entry>
  {
    seq(|addrs|, i requires 0 <= i < |addrs| => Entry(e.hostname, addrs[i], Some(e.ip)))
  }

  /** How many entries one request contributes when it resolves. */
  function Width(e: Entry, r: Resolver): nat
  {
    if r.isIP(e.ip) then 1
    else match r.lookup(e.ip)
      case Resolved(addrs) => |addrs|
      case LookupFailed => 0
  }

  function TotalWidth(es: seq<Entry>, r: Resolver): nat
  {
    if es == [] then 0 else TotalWidth(es[..|es| - 1], r) + Width(es[|es| - 1], r)
  }

  /**
   * The specification of parsedOverrides: the requests processed in order, each
   * literal-IP request kept as it is and each hostname request replaced by its
   * fan-out; the first lookup failure decides the outcome for the whole list.
   */
  function Expand(es: seq<Entry>, refresh: bool, r: Resolver): (x: Outcome)
    ensures x.Expanded? <==> forall i :: 0 <= i < |es| ==> Resolves(es[i], r)
    ensures !x.Expanded? ==> x == LookupFailure(refresh)
    ensures x.Expanded? ==> |x.entries| == TotalWidth(es, r)
    decreases |es|
  {
    if es == [] then Expanded([])
    else
      var e := es[|es| - 1];
      match Expand(es[..|es| - 1], refresh, r)
      case Expanded(done) => Step(done, e, refresh, r)
      case other => other
  }

  /** What one more request adds to an expansion that has not failed so far. */
  function Step(done: seq<Entry>, e: Entry, refresh: bool, r: Resolver): (x: Outcome)
    ensures x.Expanded? <==> Resolves(e, r)
    ensures !x.Expanded? ==> x == LookupFailure(refresh)
    ensures x.Expanded? ==> |x.entries| == |done| + Width(e, r) && x.entries[..|done|] == done
  {
    if r.isIP(e.ip) then Expanded(done + [e])
    else match r.lookup(e.ip)
      case LookupFailed => LookupFailure(refresh)
      case Resolved(addrs) => Expanded(done + FanOut(e, addrs))
  }

  /** Proof helper: Expand unfolded once on a list that ends in `e`. */
  lemma ExpandSnoc(es: seq<Entry>, e: Entry, refresh: bool, r: Resolver)
    ensures Expand(es + [e], refresh, r) ==
      if Expand(es, refresh, r).Expanded? then Step(Expand(es, refresh, r).entries, e, refresh, r)
      else Expand(es, refresh, r)
  {
    var all := es + [e];
    assert all[..|all| - 1] == es;
  }

  /** parsedOverrides (main.go): the loop with its early return and its os.Exit. */
  method ParsedOverrides(es: seq<Entry>, refresh: bool, r: Resolver) returns (x: Outcome)
    ensures x == Expand(es, refresh, r)
  {
    var expanded: seq<Entry> := [];
    var i := 0;
    while i < |es|
      invariant 0 <= i <= |es|
      invariant Expand(es[..i], refresh, r) == Expanded(expanded)
    {
      assert es[..i + 1] == es[..i] + [es[i]];
      ExpandSnoc(es[..i], es[i], refresh, r);
      var e := es[i];
      if r.isIP(e.ip) {
        expanded := expanded + [e];
      } else {
        var found := r.lookup(e.ip);
        if found.LookupFailed? {
          if refresh {
            return Abandoned;
          }
          return ExitProcess(1);
        }
        var addrs := found.addrs;
        ghost var before := expanded;
        var j := 0;
        while j < |addrs|
          invariant 0 <= j <= |addrs|
          invariant expanded == before + FanOut(e, addrs[..j])
        {
          assert FanOut(e, addrs[..j + 1]) == FanOut(e, addrs[..j]) + [Entry(e.hostname, addrs[j], Some(e.ip))];
          expanded := expanded + [Entry(e.hostname, addrs[j], Some(e.ip))];
          j := j + 1;
        }
        assert addrs[..j] == addrs;
      }
      i := i + 1;
    }
    assert es[..i] == es;
    x := Expanded(expanded);
  }

  /**
   * Request order is preserved: expanding two lists one after the other gives the
   * concatenation of their expansions, with no reordering or de-duplication.
   */
  lemma {:induction false} ExpandAppend(a: seq<Entry>, b: seq<Entry>, refresh: bool, r: Resolver)
    requires Expand(a, refresh, r).Expanded? && Expand(b, refresh, r).Expanded?
    ensures Expand(a + b, refresh, r) ==
      Expanded(Expand(a, refresh, r).entries + Expand(b, refresh, r).entries)
    decreases |b|
  {
    if b == [] {
      assert a + b == a;
      assert Expand(a, refresh, r).entries + [] == Expand(a, refresh, r).entries;
    } else {
      var init, e := b[..|b| - 1], b[|b| - 1];
      assert b == init + [e];
      assert a + b == (a + init) + [e];
      ExpandSnoc(init, e, refresh, r);
      assert Expand(init, refresh, r).Expanded?;
      var x, y := Expand(a, refresh, r).entries, Expand(init, refresh, r).entries;
      ExpandAppend(a, init, refresh, r);
      ExpandSnoc(a + init, e, refresh, r);
      StepPrefix(x, y, e, refresh, r);
    }
  }

  /** A step only appends: what came before is kept in front. */
  lemma StepPrefix(p: seq<Entry>, d: seq<Entry>, e: Entry, refresh: bool, r: Resolver)
    requires Step(d, e, refresh, r).Expanded?
    ensures Step(p + d, e, refresh, r) == Expanded(p + Step(d, e, refresh, r).entries)
  {
    if r.isIP(e.ip) {
      assert p + d + [e] == p + (d + [e]);
    } else {
      var fan := FanOut(e, r.lookup(e.ip).addrs);
      assert p + d + fan == p + (d + fan);
    }
  }

  /** A single literal-IP request contributes itself, unchanged. */
  lemma ExpandLiteral(e: Entry, refresh: bool, r: Resolver)
    requires r.isIP(e.ip)
    ensures Expand([e], refresh, r) == Expanded([e])
  {
    assert [e][..0] == [];
  }

  /**
   * A single hostname request contributes one entry per looked-up address, in lookup
   * order, each with the request's hostname and with the target as resolvedFrom.
   */
  lemma ExpandHostname(e: Entry, refresh: bool, r: Resolver)
    requires !r.isIP(e.ip) && r.lookup(e.ip).Resolved?
    ensures var x := Expand([e], refresh, r);
      x.Expanded? && |x.entries| == |r.lookup(e.ip).addrs| &&
      forall i :: 0 <= i < |x.entries| ==>
        x.entries[i] == Entry(e.hostname, r.lookup(e.ip).addrs[i], Some(e.ip))
  {
    assert [e][..0] == [];
  }

  /** A list of literal-IP requests expands to itself. */
  lemma {:induction false} ExpandAllLiteral(es: seq<Entry>, refresh: bool, r: Resolver)
    requires forall i :: 0 <= i < |es| ==> r.isIP(es[i].ip)
    ensures Expand(es, refresh, r) == Expanded(es)
    decreases |es|
  {
    if es != [] {
      var init := es[..|es| - 1];
      ExpandAllLiteral(init, refresh, r);
      assert init + [es[|es| - 1]] == es;
      ExpandSnoc(init, es[|es| - 1], refresh, r);
    }
  }
}
