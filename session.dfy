/**
 * The hosts file as the process mutates it (appendOverrides, removeOverrides) and the
 * session that overrideCmd runs: start, refresh ticks, exit.
 */
module HostsOverride {
  import opened Wrappers
  import opened Entries
  import opened Expansion
  import opened Render
  import opened Removal

  /** Where the process stands: before start, waiting for a signal, or gone. */
  datatype Status = Idle | Active | Exited(code: int) | Panicked

  /** What one refresh tick sees: whether the file could be read, and the DNS answers. */
  datatype TickInput = TickInput(readOk: bool, resolver: Resolver)

  /** The text parseAndAppend writes for an expansion: the block, or nothing. */
  ghost function Appended(x: Outcome): string
  {
    if x.Expanded? && Block(x.entries).Ok? then Block(x.entries).value else ""
  }

  /** The status after parseAndAppend: os.Exit, a rendering panic, or unchanged. */
  ghost function StatusAfter(st: Status, x: Outcome): Status
  {
    match x
    case Abandoned => st
    case ExitProcess(code) => Exited(code)
    case Expanded(es) => if Block(es).Ok? then st else Panicked
  }

  /**
   * The file's text and the status after the refresh ticks, from text `c` while
   * active: each tick strips (when it can read the file) and appends the fresh
   * block; the ticks stop at the first rendering panic.
   */
  ghost function AfterTicks(c: string, es: seq<Entry>, ticks: seq<TickInput>): (string, Status)
    decreases |ticks|
  {
    if ticks == [] then (c, Active)
    else
      var (next, st) := AfterTick(c, es, ticks[0]);
      if st == Panicked then (next, Panicked) else AfterTicks(next, es, ticks[1..])
  }

  /** The file's text and the status after one refresh tick from text `c`. */
  ghost function AfterTick(c: string, es: seq<Entry>, t: TickInput): (string, Status)
  {
    var x := Expand(es, true, t.resolver);
    ((if t.readOk then Strip(c) else c) + Appended(x), StatusAfter(Active, x))
  }

  /**
   * The file's text and the status after start from text `c`: strip (when the file can
   * be read), then append the block; the process waits unless it exited or panicked.
   */
  ghost function AfterStart(c: string, es: seq<Entry>, refresh: bool, readOk: bool, r: Resolver): (string, Status)
  {
    var x := Expand(es, refresh, r);
    ((if readOk then Strip(c) else c) + Appended(x),
     if StatusAfter(Idle, x) == Idle then Active else StatusAfter(Idle, x))
  }

  /** The refresh ticks leave the process active or panicked. */
  lemma {:induction false} AfterTicksStatus(c: string, es: seq<Entry>, ticks: seq<TickInput>)
    ensures AfterTicks(c, es, ticks).1 == Active || AfterTicks(c, es, ticks).1 == Panicked
    decreases |ticks|
  {
    if ticks != [] {
      var (next, st) := AfterTick(c, es, ticks[0]);
      if st != Panicked {
        AfterTicksStatus(next, es, ticks[1..]);
      }
    }
  }

  /** Proof helper: AfterTicks unfolded once on ticks that start with `t`. */
  lemma AfterTicksCons(c: string, es: seq<Entry>, t: TickInput, rest: seq<TickInput>)
    ensures AfterTicks(c, es, [t] + rest) ==
      if AfterTick(c, es, t).1 == Panicked then AfterTick(c, es, t) else AfterTicks(AfterTick(c, es, t).0, es, rest)
  {
    assert ([t] + rest)[1..] == rest;
  }

  /**
   * Proof helper: if the ticks from `c0` reach `c` with `ticks[i..]` left, one more
   * tick either panics, which ends them, or leaves `ticks[i + 1..]`.
   */
  lemma AfterTicksStep(c0: string, c: string, es: seq<Entry>, ticks: seq<TickInput>, i: nat)
    requires i < |ticks| && AfterTicks(c0, es, ticks) == AfterTicks(c, es, ticks[i..])
    ensures AfterTick(c, es, ticks[i]).1 == Panicked ==> AfterTick(c, es, ticks[i]) == AfterTicks(c0, es, ticks)
    ensures AfterTick(c, es, ticks[i]).1 != Panicked ==>
      AfterTicks(c0, es, ticks) == AfterTicks(AfterTick(c, es, ticks[i]).0, es, ticks[i + 1..])
  {
    assert ticks[i..] == [ticks[i]] + ticks[i + 1..];
    AfterTicksCons(c, es, ticks[i], ticks[i + 1..]);
  }

  /**
   * `content` is `base` followed by nothing or by text that opens with the start
   * delimiter and closes with the finish delimiter (one block, or several stacked
   * after a failed read).
   */
  ghost predicate Managed(base: string, content: string)
  {
    |base| <= |content| && content[..|base|] == base &&
    (|content| == |base| || Framed(content[|base|..]))
  }

  /** Appending a block keeps the file managed over the same base. */
  lemma ManagedAppend(base: string, content: string, t: string)
    requires Managed(base, content) && Framed(t)
    ensures Managed(base, content + t)
  {
    var c := content + t;
    assert c[..|base|] == base;
    assert c[|base|..] == content[|base|..] + t;
    if |content| > |base| {
      FramedConcat(content[|base|..], t);
    }
  }

  /** Stripping a managed file over marker-free content gives back that content. */
  lemma ManagedStrip(base: string, content: string)
    requires Managed(base, content) && NoMarker(base)
    ensures Strip(content) == base
  {
    if |content| == |base| {
      assert content == base;
      StripNoMarker(base);
    } else {
      assert content == base + content[|base|..];
      StripFramed(base, content[|base|..]);
    }
  }

  class Session {
    /** The hosts file's text. */
    var content: string
    var entries: seq<Entry>
    var refresh: bool
    var status: Status
    /** The file's text outside the managed block(s). */
    ghost var base: string

    ghost predicate Valid()
      reads this
    {
      Managed(base, content)
    }

    constructor (hostsFile: string)
      ensures Valid()
      ensures content == hostsFile && base == hostsFile && status == Idle
      ensures entries == [] && !refresh
    {
      content := hostsFile;
      base := hostsFile;
      entries := [];
      refresh := false;
      status := Idle;
    }

    /** appendOverrides (main.go): the text is written at the end of the file. */
    method AppendOverrides(text: string)
      requires Valid()
      modifies this`content
      ensures content == old(content) + text
      ensures Framed(text) ==> Valid()
    {
      ghost var was := content;
      content := content + text;
      assert Framed(text) ==> Valid() by {
        if Framed(text) {
          ManagedAppend(base, was, text);
        }
      }
    }

    /**
     * removeOverrides (main.go): a read-modify-write that strips the block; when the
     * file cannot be read, nothing changes. Afterwards no block is left, and content
     * outside the block is what it was.
     */
    method RemoveOverrides(readOk: bool)
      requires Valid()
      modifies this`content, this`base
      ensures Valid()
      ensures content == if readOk then Strip(old(content)) else old(content)
      ensures readOk ==> content == base && !HasBlock(content)
      ensures !readOk ==> base == old(base)
      ensures NoMarker(old(base)) ==> base == old(base)
    {
      if readOk {
        ghost var was := content;
        StripLeavesNoBlock(was);
        content := Strip(content);
        base := content;
        assert NoMarker(old(base)) ==> base == old(base) by {
          if NoMarker(old(base)) {
            ManagedStrip(old(base), was);
          }
        }
        assert content[..|base|] == base;
      }
    }

    /**
     * parseAndAppend (main.go): expand the entries and append the rendered block;
     * nothing is appended when the expansion is nil, when the process exits, or when
     * rendering panics.
     */
    method ParseAndAppend(r: Resolver)
      requires Valid()
      modifies this`content, this`status
      ensures Valid()
      ensures content == old(content) + Appended(Expand(entries, refresh, r))
      ensures status == StatusAfter(old(status), Expand(entries, refresh, r))
    {
      var x := ParsedOverrides(entries, refresh, r);
      if x.Abandoned? {
        return;
      }
      if x.ExitProcess? {
        status := Exited(x.code);
        return;
      }
      var block := ParsedOverridesForHosts(x.entries);
      if block.Err? {
        status := Panicked;
        return;
      }
      AppendOverrides(block.value);
    }

    /**
     * The start of overrideCmd's run: parse the arguments (a panic leaves the file
     * untouched), strip any block an unclean shutdown left behind, then expand and
     * append. A lookup failure ends the process only when refresh is off.
     */
    method Start(args: seq<string>, refreshFlag: bool, readOk: bool, r: Resolver)
      requires Valid() && status == Idle
      modifies this
      ensures Valid()
      ensures ParseAll(args).Err? ==> content == old(content) && status == Panicked
      ensures ParseAll(args).Err? ==> entries == old(entries) && refresh == old(refresh) && base == old(base)
      ensures status == Active || status == Exited(1) || status == Panicked
      ensures ParseAll(args).Ok? ==> entries == ParseAll(args).value && refresh == refreshFlag
      ensures ParseAll(args).Ok? ==>
        (content, status) == AfterStart(old(content), ParseAll(args).value, refreshFlag, readOk, r)
      ensures ParseAll(args).Ok? && readOk ==> base == Strip(old(content)) && !HasBlock(base)
      ensures !readOk ==> base == old(base)
      ensures NoMarker(old(base)) ==> base == old(base)
    {
      var parsed := ParseArgs(args);
      if parsed.Err? {
        status := Panicked;
        return;
      }
      entries := parsed.value;
      refresh := refreshFlag;
      RemoveOverrides(readOk);
      ghost var stripped := base;
      ParseAndAppend(r);
      assert base == stripped;
      if status == Idle {
        status := Active;
      }
    }

    /**
     * One refresh tick: strip first, then expand and append. A tick whose lookups
     * fail therefore leaves the file without a block; after a tick that could read
     * the file there is at most the one new block.
     */
    method Tick(input: TickInput)
      requires Valid() && status == Active && refresh
      modifies this`content, this`base, this`status
      ensures Valid()
      ensures (content, status) == AfterTick(old(content), entries, input)
      ensures status == Active || status == Panicked
      ensures input.readOk ==> content == base + Appended(Expand(entries, true, input.resolver))
      ensures input.readOk ==> !HasBlock(base)
      ensures !input.readOk ==> base == old(base)
      ensures NoMarker(old(base)) ==> base == old(base)
    {
      RemoveOverrides(input.readOk);
      ParseAndAppend(input.resolver);
    }

    /**
     * The refresh goroutine: one tick per element of `ticks`, until the signal arrives
     * (the end of `ticks`) or rendering panics.
     */
    method Refresh(ticks: seq<TickInput>)
      requires Valid() && status == Active && refresh
      modifies this`content, this`base, this`status
      ensures Valid()
      ensures (content, status) == AfterTicks(old(content), entries, ticks)
      ensures status == Active || status == Panicked
      ensures NoMarker(old(base)) ==> base == old(base)
    {
      var i := 0;
      while i < |ticks| && status == Active
        invariant 0 <= i <= |ticks|
        invariant Valid()
        invariant status == Active || status == Panicked
        invariant status == Active ==> AfterTicks(old(content), entries, ticks) == AfterTicks(content, entries, ticks[i..])
        invariant status == Panicked ==> (content, status) == AfterTicks(old(content), entries, ticks)
        invariant NoMarker(old(base)) ==> base == old(base)
      {
        ghost var before := content;
        Tick(ticks[i]);
        AfterTicksStep(old(content), before, entries, ticks, i);
        i := i + 1;
      }
    }

    /** Exit after a termination signal: strip the block; the process ends with code 0. */
    method Exit(readOk: bool)
      requires Valid() && status == Active
      modifies this`content, this`base, this`status
      ensures Valid()
      ensures content == if readOk then Strip(old(content)) else old(content)
      ensures status == Exited(0)
      ensures readOk ==> content == base && !HasBlock(content)
      ensures !readOk ==> base == old(base)
      ensures NoMarker(old(base)) ==> base == old(base)
    {
      RemoveOverrides(readOk);
      status := Exited(0);
    }
  }

  /**
   * The file's text and the status at the end of a run of overrideCmd: a parse panic
   * leaves the file as it was; otherwise the start strip and append, then (with refresh
   * on, while the process is active) the ticks, then the exit strip with code 0.
   */
  ghost function RunSpec(hostsFile: string, args: seq<string>, refresh: bool, startRead: bool, r: Resolver,
                         ticks: seq<TickInput>, exitRead: bool): (string, Status)
  {
    match ParseAll(args)
    case Err(_) => (hostsFile, Panicked)
    case Ok(es) =>
      var (c1, st1) := AfterStart(hostsFile, es, refresh, startRead, r);
      if st1 != Active then (c1, st1)
      else
        var (c2, st2) := if refresh then AfterTicks(c1, es, ticks) else (c1, Active);
        if st2 != Active then (c2, st2)
        else ((if exitRead then Strip(c2) else c2), Exited(0))
  }

  /**
   * How a run can end: with code 0, with code 1 or in a panic; a parse panic leaves the
   * file as it was, a lookup failure without refresh exits with code 1 right after the
   * start strip, and without refresh a start that looks up and renders ends with code 0.
   */
  lemma RunSpecOutcomes(hostsFile: string, args: seq<string>, refresh: bool, startRead: bool, r: Resolver,
                        ticks: seq<TickInput>, exitRead: bool)
    ensures var (content, status) := RunSpec(hostsFile, args, refresh, startRead, r, ticks, exitRead);
      (status == Exited(0) || status == Exited(1) || status == Panicked) &&
      (ParseAll(args).Err? ==> status == Panicked && content == hostsFile) &&
      (ParseAll(args).Ok? && !refresh && Expand(ParseAll(args).value, false, r).ExitProcess? ==>
         status == Exited(1) && content == if startRead then Strip(hostsFile) else hostsFile) &&
      (ParseAll(args).Ok? && !refresh && Expand(ParseAll(args).value, false, r).Expanded? &&
         Block(Expand(ParseAll(args).value, false, r).entries).Ok? ==>
         status == Exited(0))
  {
    match ParseAll(args)
    case Err(_) =>
    case Ok(es) =>
      var x := Expand(es, refresh, r);
      if refresh {
        assert !x.ExitProcess?;
        var st1 := AfterStart(hostsFile, es, refresh, startRead, r).1;
        if st1 == Active {
          AfterTicksStatus(AfterStart(hostsFile, es, refresh, startRead, r).0, es, ticks);
        }
      }
  }

  /**
   * A whole run of overrideCmd on a file whose initial text is `hostsFile`: start,
   * the refresh ticks (only with refresh on, and only while the process lives), and,
   * if the process is still waiting, exit on a signal; its end state is RunSpec. A file
   * that never carried the marker is given back exactly when the final strip can read
   * it; a parse panic leaves the file untouched; a lookup failure without refresh exits
   * with code 1.
   * An empty argument list, which the command's argument check rejects before the
   * run starts, is admitted: it strips the file and appends an empty block.
   */
  method Run(hostsFile: string, args: seq<string>, refresh: bool, startRead: bool, r: Resolver,
             ticks: seq<TickInput>, exitRead: bool)
    returns (content: string, status: Status)
    ensures (content, status) == RunSpec(hostsFile, args, refresh, startRead, r, ticks, exitRead)
    ensures status == Exited(0) || status == Exited(1) || status == Panicked
    ensures ParseAll(args).Err? ==> status == Panicked && content == hostsFile
    ensures ParseAll(args).Ok? && !refresh && Expand(ParseAll(args).value, false, r).ExitProcess? ==>
      status == Exited(1) && content == if startRead then Strip(hostsFile) else hostsFile
    ensures ParseAll(args).Ok? && !refresh && Expand(ParseAll(args).value, false, r).Expanded? &&
            Block(Expand(ParseAll(args).value, false, r).entries).Ok? ==>
            status == Exited(0)
    ensures status == Exited(0) && exitRead ==> Strip(content) == content
    ensures status == Exited(0) && exitRead && NoMarker(hostsFile) ==> content == hostsFile
  {
    var session := new Session(hostsFile);
    session.Start(args, refresh, startRead, r);
    if session.status == Active && session.refresh {
      session.Refresh(ticks);
    }
    if session.status == Active {
      ghost var before := session.content;
      session.Exit(exitRead);
      if exitRead {
        StripIdempotent(before);
        assert Strip(session.content) == session.content;
      }
    } else {
      assert session.status == Exited(1) || session.status == Panicked;
    }
    content, status := session.content, session.status;
    RunSpecOutcomes(hostsFile, args, refresh, startRead, r, ticks, exitRead);
  }
}
