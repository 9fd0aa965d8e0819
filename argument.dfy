/**
 * The "argument" magic-number rule of go-mnd (checks/argument.go): it flags
 * numeric literals passed as call arguments, and literals that are the
 * immediate operands of a binary expression passed as an argument, unless the
 * call target is one of the excluded `package.Function` pairs.
 *
 * The shared magic-number predicate is not part of this model: every member
 * takes it as a parameter `isMagic`, so every property below holds whatever
 * that predicate decides.
 */
module Argument {
  import opened Ast
  import opened Seqs

  /** The check identifier carried by every diagnostic of this rule. */
  const ArgumentCheck: string := "argument"

  /** Known excludes: package name to the one function of it that is exempt. */
  const ArgumentExcludes: map<string, string> := map["time" := "Date"]

  /**
   * A reported finding: the literal's position, its raw text and the check
   * identifier. The wording of the message is not part of this model.
   */
  datatype Diagnostic = Diagnostic(pos: int, value: string, check: string)

  /** The one node kind this rule asks the traversal driver for. */
  function NodeFilter(): (r: seq<NodeKind>)
    ensures |r| == 1
    ensures forall n :: KindOf(n) in r <==> n.Call?
  {
    [CallExprKind]
  }

  /**
   * The name used to look up the table: the receiver's name when the
   * receiver is a plain identifier, the empty string otherwise.
   */
  function ReceiverName(x: Expr): string {
    match x
    case Ident(name) => name
    case _ => ""
  }

  /**
   * Whether a selector call target is exempt. Holds exactly when the receiver
   * is a plain identifier that is a key of the table and the selected name is
   * the member the table maps it to.
   */
  function IsExcluded(s: SelectorExpr): (r: bool)
    ensures r <==> s.x.Ident? && s.x.name in ArgumentExcludes && ArgumentExcludes[s.x.name] == s.sel
  {
    var p := ReceiverName(s.x);
    p in ArgumentExcludes && ArgumentExcludes[p] == s.sel
  }

  /** Whether a call's target is an excluded selector. */
  predicate CallExcluded(c: CallExpr) {
    c.fun.Selector? && IsExcluded(c.fun.selector)
  }

  /** The diagnostic reported for a literal. */
  function Report(l: BasicLit): Diagnostic {
    Diagnostic(l.pos, l.value, ArgumentCheck)
  }

  /** What one inspected expression reports: its own diagnostic if it is a magic literal. */
  function OperandReports(isMagic: BasicLit -> bool, e: Expr): seq<Diagnostic> {
    if e.Lit? && isMagic(e.lit) then [Report(e.lit)] else []
  }

  /** What a binary-expression argument reports: its left operand, then its right one. */
  function BinaryReports(isMagic: BasicLit -> bool, b: BinaryExpr): seq<Diagnostic> {
    OperandReports(isMagic, b.x) + OperandReports(isMagic, b.y)
  }

  /** What one argument reports, by its shape; every other shape reports nothing. */
  function ArgReports(isMagic: BasicLit -> bool, arg: Expr): seq<Diagnostic> {
    match arg
    case Lit(_) => OperandReports(isMagic, arg)
    case Binary(b) => BinaryReports(isMagic, b)
    case _ => []
  }

  function ArgReporter(isMagic: BasicLit -> bool): Expr -> seq<Diagnostic> {
    arg => ArgReports(isMagic, arg)
  }

  /** What an argument list reports, argument by argument, left to right. */
  function ArgsReports(isMagic: BasicLit -> bool, args: seq<Expr>): seq<Diagnostic> {
    Concat(ArgReporter(isMagic), args)
  }

  /** Everything one call of Check on node `n` reports. */
  function CheckReports(isMagic: BasicLit -> bool, n: Expr): seq<Diagnostic> {
    if !n.Call? || CallExcluded(n.call) then [] else ArgsReports(isMagic, n.call.args)
  }

  /**
   * Reference definition of what the rule inspects: literal `l` is exposed by
   * an argument when it is the argument itself or an immediate operand of a
   * binary-expression argument.
   */
  predicate Exposes(arg: Expr, l: BasicLit) {
    arg == Lit(l) || (arg.Binary? && (arg.bin.x == Lit(l) || arg.bin.y == Lit(l)))
  }

  /** The argument with everything below the inspected level erased. */
  function Shallow(e: Expr): Expr {
    if e.Lit? then e else Other
  }

  function ShallowArg(arg: Expr): Expr {
    match arg
    case Lit(_) => arg
    case Binary(b) => Binary(BinaryExpr(Shallow(b.x), b.op, Shallow(b.y)))
    case _ => Other
  }

  function ShallowArgs(args: seq<Expr>): (r: seq<Expr>) {
    if args == [] then [] else [ShallowArg(args[0])] + ShallowArgs(args[1..])
  }

  // ---------------------------------------------------------------------------
  // Properties of the specification
  // ---------------------------------------------------------------------------

  /** One argument reports at most two diagnostics, each from a magic literal it exposes, and all of those. */
  lemma ArgReportsExposed(isMagic: BasicLit -> bool, arg: Expr, d: Diagnostic)
    ensures |ArgReports(isMagic, arg)| <= 2
    ensures d in ArgReports(isMagic, arg) <==> exists l :: Exposes(arg, l) && isMagic(l) && d == Report(l)
  {
  }

  /** Argument `i` contributes its own reports between those of the arguments before and after it. */
  lemma ArgsReportsSplit(isMagic: BasicLit -> bool, args: seq<Expr>, i: nat)
    requires i < |args|
    ensures ArgsReports(isMagic, args)
         == ArgsReports(isMagic, args[..i]) + ArgReports(isMagic, args[i]) + ArgsReports(isMagic, args[i + 1..])
  {
    ConcatSplit(ArgReporter(isMagic), args, i);
  }

  /** An argument list reports at most two diagnostics per argument. */
  lemma ArgsReportsBound(isMagic: BasicLit -> bool, args: seq<Expr>)
    ensures |ArgsReports(isMagic, args)| <= 2 * |args|
  {
    forall arg
      ensures |ArgReporter(isMagic)(arg)| <= 2
    {
      ArgReportsExposed(isMagic, arg, Report(BasicLit(0, INT, "")));
    }
    ConcatBound(ArgReporter(isMagic), args, 2);
  }

  /** A diagnostic is reported for an argument list exactly when some argument exposes a magic literal it is the report of. */
  lemma ArgsReportsExposed(isMagic: BasicLit -> bool, args: seq<Expr>, d: Diagnostic)
    ensures d in ArgsReports(isMagic, args)
       <==> exists i, l :: 0 <= i < |args| && Exposes(args[i], l) && isMagic(l) && d == Report(l)
  {
    ConcatMember(ArgReporter(isMagic), args, d);
    forall i | 0 <= i < |args|
      ensures d in ArgReports(isMagic, args[i]) <==> exists l :: Exposes(args[i], l) && isMagic(l) && d == Report(l)
    {
      ArgReportsExposed(isMagic, args[i], d);
    }
  }

  /** Erasing everything below the inspected level changes no report: the rule looks exactly one level into binary expressions and not into nested calls. */
  lemma {:induction false} OneLevelOnly(isMagic: BasicLit -> bool, args: seq<Expr>)
    ensures ArgsReports(isMagic, ShallowArgs(args)) == ArgsReports(isMagic, args)
  {
    if args != [] {
      OneLevelOnly(isMagic, args[1..]);
      var s := ShallowArgs(args);
      assert s[0] == ShallowArg(args[0]) && s[1..] == ShallowArgs(args[1..]);
      assert ArgReports(isMagic, ShallowArg(args[0])) == ArgReports(isMagic, args[0]);
    }
  }

  // ---------------------------------------------------------------------------
  // Properties of Check, stated on CheckReports
  // ---------------------------------------------------------------------------

  /** A node that is not a call expression reports nothing. */
  lemma NonCallSilent(isMagic: BasicLit -> bool, n: Expr)
    requires !n.Call?
    ensures CheckReports(isMagic, n) == []
  {
  }

  /** A node the filter keeps from the rule would report nothing if it were delivered anyway. */
  lemma FilteredNodesSilent(isMagic: BasicLit -> bool, n: Expr)
    requires KindOf(n) !in NodeFilter()
    ensures CheckReports(isMagic, n) == []
  {
  }

  /** A call through an excluded selector reports nothing, whatever its arguments. */
  lemma ExcludedCallSilent(isMagic: BasicLit -> bool, args: seq<Expr>)
    ensures CheckReports(isMagic, Call(CallExpr(Selector(SelectorExpr(Ident("time"), "Date")), args))) == []
  {
    ExclusionIsExactPair(SelectorExpr(Ident("time"), "Date"));
  }

  /**
   * With the compiled table, exclusion needs exactly the pair `time.Date` with
   * a plain identifier receiver: another receiver name with member `Date`,
   * `time` with another member, or a receiver that is not an identifier is
   * never excluded.
   */
  lemma ExclusionIsExactPair(s: SelectorExpr)
    ensures IsExcluded(s) <==> s.x == Ident("time") && s.sel == "Date"
    ensures !s.x.Ident? ==> !IsExcluded(s)
  {
  }

  /**
   * For a call that is not excluded, a diagnostic is reported exactly when some
   * argument exposes a magic literal whose report it is; every diagnostic
   * carries the check identifier "argument".
   */
  lemma CheckReportsExposed(isMagic: BasicLit -> bool, n: Expr, d: Diagnostic)
    ensures d in CheckReports(isMagic, n) ==> d.check == ArgumentCheck
    ensures n.Call? && !CallExcluded(n.call) ==>
      (d in CheckReports(isMagic, n)
       <==> exists i, l :: 0 <= i < |n.call.args| && Exposes(n.call.args[i], l) && isMagic(l) && d == Report(l))
  {
    if n.Call? {
      ArgsReportsExposed(isMagic, n.call.args, d);
    }
  }

  /** Every diagnostic Check reports carries the check identifier "argument". */
  lemma CheckReportsTagged(isMagic: BasicLit -> bool, n: Expr)
    ensures forall d :: d in CheckReports(isMagic, n) ==> d.check == ArgumentCheck
  {
    forall d | d in CheckReports(isMagic, n)
      ensures d.check == ArgumentCheck
    {
      CheckReportsExposed(isMagic, n, d);
    }
  }

  /** A call reports at most twice as many diagnostics as it has arguments. */
  lemma CheckReportsBound(isMagic: BasicLit -> bool, c: CallExpr)
    ensures |CheckReports(isMagic, Call(c))| <= 2 * |c.args|
  {
    ArgsReportsBound(isMagic, c.args);
  }

  /** A literal argument reports one diagnostic in its place if it is magic, and nothing otherwise. */
  lemma LiteralArgument(isMagic: BasicLit -> bool, c: CallExpr, i: nat)
    requires !CallExcluded(c) && i < |c.args| && c.args[i].Lit?
    ensures var l := c.args[i].lit;
      CheckReports(isMagic, Call(c))
      == ArgsReports(isMagic, c.args[..i]) + (if isMagic(l) then [Report(l)] else []) + ArgsReports(isMagic, c.args[i + 1..])
  {
    ArgsReportsSplit(isMagic, c.args, i);
  }

  /** A binary-expression argument reports its left operand then its right one in its place, each if it is a magic literal. */
  lemma BinaryArgument(isMagic: BasicLit -> bool, c: CallExpr, i: nat)
    requires !CallExcluded(c) && i < |c.args| && c.args[i].Binary?
    ensures var b := c.args[i].bin;
      CheckReports(isMagic, Call(c))
      == ArgsReports(isMagic, c.args[..i])
         + (if b.x.Lit? && isMagic(b.x.lit) then [Report(b.x.lit)] else [])
         + (if b.y.Lit? && isMagic(b.y.lit) then [Report(b.y.lit)] else [])
         + ArgsReports(isMagic, c.args[i + 1..])
  {
    ArgsReportsSplit(isMagic, c.args, i);
    var b := c.args[i].bin;
    AppendAssoc(ArgsReports(isMagic, c.args[..i]), OperandReports(isMagic, b.x), OperandReports(isMagic, b.y));
  }

  /** An argument of any other shape (identifier, nested call, ...) can be removed without changing the reports. */
  lemma IgnoredArgument(isMagic: BasicLit -> bool, c: CallExpr, i: nat)
    requires i < |c.args| && !c.args[i].Lit? && !c.args[i].Binary?
    ensures CheckReports(isMagic, Call(c))
         == CheckReports(isMagic, Call(CallExpr(c.fun, c.args[..i] + c.args[i + 1..])))
  {
    ArgsReportsSplit(isMagic, c.args, i);
    ConcatAppend(ArgReporter(isMagic), c.args[..i], c.args[i + 1..]);
  }

  /**
   * Two magic literal arguments report two diagnostics, in argument order,
   * even when they are the same literal: nothing is deduplicated.
   */
  lemma NoDeduplication(isMagic: BasicLit -> bool, c: CallExpr, i: nat, j: nat)
    requires !CallExcluded(c) && i < j < |c.args|
    requires c.args[i].Lit? && isMagic(c.args[i].lit) && c.args[j].Lit? && isMagic(c.args[j].lit)
    ensures var r := CheckReports(isMagic, Call(c));
      exists p, q :: 0 <= p < q < |r| && r[p] == Report(c.args[i].lit) && r[q] == Report(c.args[j].lit)
  {
    var args := c.args;
    var r := CheckReports(isMagic, Call(c));
    ArgsReportsSplit(isMagic, args, i);
    var pre := ArgsReports(isMagic, args[..i]);
    var post := ArgsReports(isMagic, args[i + 1..]);
    assert r == pre + [Report(args[i].lit)] + post;
    ArgsReportsSplit(isMagic, args[i + 1..], j - i - 1);
    assert args[i + 1..][j - i - 1] == args[j];
    var mid := ArgsReports(isMagic, args[i + 1..][..j - i - 1]);
    assert post == mid + [Report(args[j].lit)] + ArgsReports(isMagic, args[i + 1..][j - i..]);
    var p, q := |pre|, |pre| + 1 + |mid|;
    assert r[p] == Report(args[i].lit);
    assert r[q] == post[|mid|];
  }

  // ---------------------------------------------------------------------------
  // The analyzer bound to one pass's diagnostic sink
  // ---------------------------------------------------------------------------

  class ArgumentAnalyzer {
    /** The shared magic-number predicate. */
    const isMagic: BasicLit -> bool
    /** The diagnostics reported to the pass so far. */
    var diagnostics: seq<Diagnostic>

    /** Every diagnostic this rule has reported carries its check identifier. */
    ghost predicate Valid()
      reads this
    {
      forall d :: d in diagnostics ==> d.check == ArgumentCheck
    }

    constructor (isMagic: BasicLit -> bool)
      ensures Valid()
      ensures this.isMagic == isMagic && diagnostics == []
    {
      this.isMagic := isMagic;
      diagnostics := [];
    }

    /** Reports literal `l` to the pass. */
    method Reportf(l: BasicLit)
      modifies this
      ensures diagnostics == old(diagnostics) + [Report(l)]
    {
      diagnostics := diagnostics + [Report(l)];
    }

    method Check(n: Expr)
      requires Valid()
      modifies this
      ensures Valid()
      ensures diagnostics == old(diagnostics) + CheckReports(isMagic, n)
      ensures !n.Call? ==> diagnostics == old(diagnostics)
    {
      if !n.Call? {
        return;
      }
      var expr := n.call;
      if expr.fun.Selector? && IsExcluded(expr.fun.selector) {
        return;
      }
      for i := 0 to |expr.args|
        invariant diagnostics == old(diagnostics) + ArgsReports(isMagic, expr.args[..i])
      {
        ghost var before := diagnostics;
        match expr.args[i] {
          case Lit(x) =>
            if isMagic(x) {
              Reportf(x);
            }
          case Binary(x) =>
            CheckBinaryExpr(x);
          case _ =>
        }
        assert diagnostics == before + ArgReports(isMagic, expr.args[i]);
        ConcatSnoc(ArgReporter(isMagic), expr.args, i);
        AppendAssoc(old(diagnostics), ArgsReports(isMagic, expr.args[..i]), ArgReports(isMagic, expr.args[i]));
      }
      assert expr.args[..|expr.args|] == expr.args;
      CheckReportsTagged(isMagic, n);
    }

    method CheckBinaryExpr(expr: BinaryExpr)
      modifies this
      ensures diagnostics == old(diagnostics) + BinaryReports(isMagic, expr)
    {
      match expr.x {
        case Lit(x) =>
          if isMagic(x) {
            Reportf(x);
          }
        case _ =>
      }
      assert diagnostics == old(diagnostics) + OperandReports(isMagic, expr.x);
      match expr.y {
        case Lit(y) =>
          if isMagic(y) {
            Reportf(y);
          }
        case _ =>
      }
      AppendAssoc(old(diagnostics), OperandReports(isMagic, expr.x), OperandReports(isMagic, expr.y));
    }
  }
}
