/**
 * The part of `boost::format` the statement builders use: a format string
 * whose only directives are `%s` / `%d`, fed one argument per directive with
 * `%`, then rendered with `str()`. A format string is kept as the literal
 * text between its directives, so a template with n+1 literals has n slots.
 */
module BoostFormat {
  import opened Wrappers

  datatype Template = Template(literals: seq<string>) {
    /** Number of `%s` / `%d` directives. */
    function Slots(): nat {
      if |literals| == 0 then 0 else |literals| - 1
    }
  }

  /**
   * The exceptions `boost::format` raises with its default error bits:
   * feeding more arguments than directives, or rendering before every
   * directive has one.
   */
  datatype FormatError = TooManyArgs | TooFewArgs(bound: nat, expected: nat)

  /** Literals and arguments interleaved: `lits[0] + args[0] + lits[1] + ...`. */
  function Fill(lits: seq<string>, args: seq<string>): string
    requires |lits| == |args| + 1
    decreases |args|
  {
    if |args| == 0 then lits[0] else lits[0] + args[0] + Fill(lits[1..], args[1..])
  }

  /** `(boost::format(t) % args[0] % ... % args[n-1]).str()`. */
  function Format(t: Template, args: seq<string>): (r: Result<string, FormatError>)
    requires |t.literals| > 0
    ensures r.Success? <==> |args| == t.Slots()
    ensures r == Failure(TooManyArgs) <==> |args| > t.Slots()
    ensures r.Failure? && |args| < t.Slots() ==> r.error == TooFewArgs(|args|, t.Slots())
  {
    if |args| > t.Slots() then Failure(TooManyArgs)
    else if |args| < t.Slots() then Failure(TooFewArgs(|args|, t.Slots()))
    else Success(Fill(t.literals, args))
  }

  /** Every literal and every argument appears in the output, so its length is their sum. */
  function TotalLength(parts: seq<string>): nat
    decreases |parts|
  {
    if |parts| == 0 then 0 else |parts[0]| + TotalLength(parts[1..])
  }

  lemma {:induction false} FillLength(lits: seq<string>, args: seq<string>)
    requires |lits| == |args| + 1
    ensures |Fill(lits, args)| == TotalLength(lits) + TotalLength(args)
    decreases |args|
  {
    if |args| > 0 {
      FillLength(lits[1..], args[1..]);
    } else {
      assert lits[1..] == [];
    }
  }

  /** The tail of a filled template: the second-to-last literal, the last argument and the last literal. */
  lemma {:induction false} FillTail(lits: seq<string>, args: seq<string>)
    requires |lits| == |args| + 1 && |args| > 0
    ensures var tail := lits[|lits| - 2] + args[|args| - 1] + lits[|lits| - 1];
            |Fill(lits, args)| >= |tail| && Fill(lits, args)[|Fill(lits, args)| - |tail|..] == tail
    decreases |args|
  {
    if |args| > 1 {
      FillTail(lits[1..], args[1..]);
      assert lits[1..][|lits[1..]| - 2] == lits[|lits| - 2];
      assert lits[1..][|lits[1..]| - 1] == lits[|lits| - 1];
      assert args[1..][|args[1..]| - 1] == args[|args| - 1];
      var rest := Fill(lits[1..], args[1..]);
      assert Fill(lits, args) == (lits[0] + args[0]) + rest;
    } else {
      assert Fill(lits[1..], args[1..]) == lits[1];
      assert Fill(lits, args) == lits[0] + args[0] + lits[1];
    }
  }

  /**
   * A fully fed format behind a fixed prefix starts with that prefix and
   * ends with the last directive's argument between the last two literals.
   */
  lemma FormatTail(prefix: string, t: Template, args: seq<string>)
    requires |t.literals| > 0 && |args| == t.Slots() && |args| > 0
    ensures var out := prefix + Format(t, args).value;
      && var tail := t.literals[|t.literals| - 2] + args[|args| - 1] + t.literals[|t.literals| - 1];
      && |out| >= |prefix| && out[..|prefix|] == prefix
      && |out| >= |tail| && out[|out| - |tail|..] == tail
  {
    var lits := t.literals;
    FillTail(lits, args);
    var body := Fill(lits, args);
    var tail := lits[|lits| - 2] + args[|args| - 1] + lits[|lits| - 1];
    assert (prefix + body)[|prefix + body| - |tail|..] == body[|body| - |tail|..];
  }
}
