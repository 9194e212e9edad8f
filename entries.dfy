/**
 * Override entries and the parsing of the command line's HOST,TARGET arguments
 * (the hostsFileEntry record and parseArgs in main.go).
 */
module Entries {
  import opened Wrappers

  /**
   * One hosts-file override. Straight after parsing, `ip` holds the TARGET text as
   * the user wrote it (a literal IP or a hostname still to be looked up); expansion
   * replaces a hostname target by the looked-up addresses and records the target in
   * `resolvedFrom`. `None` stands for the nil pointer of the source.
   */
  datatype Entry = Entry(hostname: string, ip: string, resolvedFrom: Option<string>)

  /** An argument without a comma: `hv[1]` is out of range and parseArgs panics. */
  datatype ParseError = MissingComma(arg: string)

  /** The fields glued back together with commas: what Split undoes. */
  function Join(fields: seq<string>): string
    requires |fields| >= 1
  {
    if |fields| == 1 then fields[0] else fields[0] + "," + Join(fields[1..])
  }

  /**
   * strings.Split(s, ","): the comma-free pieces of `s`, in order. There is always at
   * least one piece (the empty string splits into [""]), and there is more than one
   * exactly when `s` holds a comma.
   */
  function Split(s: string): (fields: seq<string>)
    ensures |fields| >= 1
    ensures forall i :: 0 <= i < |fields| ==> ',' !in fields[i]
    ensures Join(fields) == s
    ensures |fields| > 1 <==> ',' in s
    decreases |s|
  {
    if s == [] then [""]
    else if s[0] == ',' then [""] + Split(s[1..])
    else
      var rest := Split(s[1..]);
      var fields := [[s[0]] + rest[0]] + rest[1..];
      assert fields[1..] == rest[1..];
      assert s == [s[0]] + s[1..];
      fields
  }

  /**
   * `arg` is `host` and `target` separated by a comma, followed by nothing or by
   * further comma-introduced fields.
   */
  predicate FieldsAt(arg: string, host: string, target: string)
  {
    var n := |host| + 1 + |target|;
    n <= |arg| && arg[..|host|] == host && arg[|host|] == ',' &&
    arg[|host| + 1..n] == target && (n == |arg| || arg[n] == ',')
  }

  /** One argument as parseArgs turns it into an entry: the first two comma fields. */
  function ParseArg(arg: string): (r: Result<Entry, ParseError>)
    ensures r.Ok? <==> ',' in arg
    ensures r.Err? ==> r.error == MissingComma(arg)
    ensures r.Ok? ==> r.value.resolvedFrom.None?
  {
    var hv := Split(arg);
    if |hv| < 2 then Err(MissingComma(arg)) else Ok(Entry(hv[0], hv[1], None))
  }

  /**
   * The specification of parseArgs: every argument parsed, in order, or the panic the
   * first argument without a comma causes.
   */
  function ParseAll(args: seq<string>): (r: Result<seq<Entry>, ParseError>)
    ensures r.Ok? <==> forall i :: 0 <= i < |args| ==> ',' in args[i]
    ensures r.Ok? ==> |r.value| == |args|
    ensures r.Ok? ==> forall i :: 0 <= i < |args| ==> ParseArg(args[i]) == Ok(r.value[i])
    decreases |args|
  {
    if args == [] then Ok([])
    else
      var init, last := args[..|args| - 1], args[|args| - 1];
      assert forall i :: 0 <= i < |init| ==> init[i] == args[i];
      match ParseAll(init)
      case Err(e) => Err(e)
      case Ok(es) =>
        match ParseArg(last)
        case Err(e) => Err(e)
        case Ok(e) => Ok(es + [e])
  }

  /** Proof helper: ParseAll unfolded once on a list that ends in `arg`. */
  lemma ParseAllSnoc(args: seq<string>, arg: string)
    ensures ParseAll(args + [arg]) ==
      match ParseAll(args)
      case Err(e) => Err(e)
      case Ok(es) => if ParseArg(arg).Err? then Err(ParseArg(arg).error) else Ok(es + [ParseArg(arg).value])
  {
    var all := args + [arg];
    assert all[..|all| - 1] == args;
  }

  /** Once a prefix panics, the whole list panics the same way. */
  lemma {:induction false} ParseAllErrPrefix(args: seq<string>, n: nat)
    requires n <= |args| && ParseAll(args[..n]).Err?
    ensures ParseAll(args) == ParseAll(args[..n])
    decreases |args| - n
  {
    if n == |args| {
      assert args[..n] == args;
    } else {
      var init := args[..|args| - 1];
      assert init[..n] == args[..n];
      ParseAllErrPrefix(init, n);
      assert args == init + [args[|args| - 1]];
      ParseAllSnoc(init, args[|args| - 1]);
    }
  }

  /** The panic names the first argument without a comma. */
  lemma {:induction false} ParseAllError(args: seq<string>)
    requires ParseAll(args).Err?
    ensures exists k :: (0 <= k < |args| && ParseAll(args).error == MissingComma(args[k]) &&
                         ',' !in args[k] && forall j :: 0 <= j < k ==> ',' in args[j])
    decreases |args|
  {
    var init, last := args[..|args| - 1], args[|args| - 1];
    assert args == init + [last];
    ParseAllSnoc(init, last);
    if ParseAll(init).Err? {
      ParseAllError(init);
      var k :| 0 <= k < |init| && ParseAll(init).error == MissingComma(init[k]) &&
        ',' !in init[k] && forall j :: 0 <= j < k ==> ',' in init[j];
      assert args[k] == init[k];
    } else {
      assert forall j :: 0 <= j < |init| ==> args[j] == init[j];
    }
  }

  /**
   * What parseArgs makes of one argument, in both directions: the entry's hostname is
   * the text before the first comma, its ip the text between the first and the second
   * comma, it carries no resolvedFrom, and no other split of the argument qualifies.
   */
  lemma {:induction false} ParseArgFields(arg: string, host: string, target: string)
    ensures ParseArg(arg) == Ok(Entry(host, target, None)) <==>
      ',' !in host && ',' !in target && FieldsAt(arg, host, target)
  {
    var hv := Split(arg);
    if |hv| >= 2 {
      SplitFieldsAt(arg);
      if ',' !in host && ',' !in target && FieldsAt(arg, host, target) {
        FieldsAtUnique(arg, hv[0], hv[1], host, target);
      }
    }
  }

  /** The first two pieces of a split with a comma stand as FieldsAt describes. */
  lemma SplitFieldsAt(arg: string)
    requires |Split(arg)| >= 2
    ensures FieldsAt(arg, Split(arg)[0], Split(arg)[1])
  {
    var hv := Split(arg);
    var h, t, tail := hv[0], hv[1], hv[1..];
    assert arg == h + "," + Join(tail);
    if |tail| == 1 {
      assert Join(tail) == t;
    } else {
      assert Join(tail) == t + "," + Join(tail[1..]);
    }
  }

  /** Comma-free host and target fields of an argument are determined by it. */
  lemma FieldsAtUnique(arg: string, h: string, t: string, host: string, target: string)
    requires ',' !in h && ',' !in t && FieldsAt(arg, h, t)
    requires ',' !in host && ',' !in target && FieldsAt(arg, host, target)
    ensures h == host && t == target
  {
    CommaFreePrefixUnique(arg, h, host);
    var a := arg[|h| + 1..];
    assert a[..|t|] == t && (|t| == |a| || a[|t|] == ',');
    assert a[..|target|] == target && (|target| == |a| || a[|target|] == ',');
    CommaFreePrefixUnique(a + ",", t, target);
  }

  /** Two comma-free prefixes that both end at a comma (or at the end) are the same prefix. */
  lemma CommaFreePrefixUnique(s: string, p: string, q: string)
    requires ',' !in p && ',' !in q
    requires |p| <= |s| && s[..|p|] == p && (|p| == |s| || s[|p|] == ',')
    requires |q| <= |s| && s[..|q|] == q && (|q| == |s| || s[|q|] == ',')
    ensures p == q
  {
  }

  /** parseArgs (main.go): one entry per argument, built from its first two comma fields. */
  method ParseArgs(args: seq<string>) returns (r: Result<seq<Entry>, ParseError>)
    ensures r == ParseAll(args)
  {
    var entries: seq<Entry> := [];
    var i := 0;
    while i < |args|
      invariant 0 <= i <= |args|
      invariant ParseAll(args[..i]) == Ok(entries)
    {
      assert args[..i + 1] == args[..i] + [args[i]];
      ParseAllSnoc(args[..i], args[i]);
      var hv := Split(args[i]);
      if |hv| < 2 {
        ParseAllErrPrefix(args, i + 1);
        return Err(MissingComma(args[i]));
      }
      entries := entries + [Entry(hv[0], hv[1], None)];
      i := i + 1;
    }
    assert args[..i] == args;
    r := Ok(entries);
  }
}
