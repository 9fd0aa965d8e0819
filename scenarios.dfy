/**
 * Concrete calls, checked with a magic-number predicate that flags every
 * numeric literal other than 0 and 1. Positions are arbitrary distinct numbers.
 */
module Scenarios {
  import opened Ast
  import opened Argument

  predicate NotZeroOrOne(l: BasicLit) {
    l.kind != STRING && l.kind != CHAR && l.value != "0" && l.value != "1"
  }

  function Num(pos: int, value: string): Expr {
    Lit(BasicLit(pos, INT, value))
  }

  function CallOf(name: string, args: seq<Expr>): Expr {
    Call(CallExpr(Ident(name), args))
  }

  /** `foo(42)` reports "42" once. */
  lemma SingleLiteral()
    ensures CheckReports(NotZeroOrOne, CallOf("foo", [Num(4, "42")])) == [Diagnostic(4, "42", "argument")]
  {
  }

  /** `time.Date(2021, 1, 1, 0, 0, 0, 0, loc)` reports nothing. */
  lemma TimeDateExcluded()
    ensures CheckReports(NotZeroOrOne,
      Call(CallExpr(Selector(SelectorExpr(Ident("time"), "Date")),
        [Num(10, "2021"), Num(16, "1"), Num(19, "1"), Num(22, "0"), Num(25, "0"), Num(28, "0"), Num(31, "0"), Ident("loc")])))
      == []
  {
    ExcludedCallSilent(NotZeroOrOne,
      [Num(10, "2021"), Num(16, "1"), Num(19, "1"), Num(22, "0"), Num(25, "0"), Num(28, "0"), Num(31, "0"), Ident("loc")]);
  }

  /** `foo(a + 5)` reports "5"; `foo(5 + 6)` reports "5" then "6". */
  lemma BinaryOperands()
    ensures CheckReports(NotZeroOrOne, CallOf("foo", [Binary(BinaryExpr(Ident("a"), "+", Num(8, "5")))]))
         == [Diagnostic(8, "5", "argument")]
    ensures CheckReports(NotZeroOrOne, CallOf("foo", [Binary(BinaryExpr(Num(4, "5"), "+", Num(8, "6")))]))
         == [Diagnostic(4, "5", "argument"), Diagnostic(8, "6", "argument")]
  {
  }

  /** `foo("text")`, `foo(bar(5))` and `foo((a + 5) + b)` report nothing. */
  lemma IgnoredShapes()
    ensures CheckReports(NotZeroOrOne, CallOf("foo", [Lit(BasicLit(4, STRING, "\"text\""))])) == []
    ensures CheckReports(NotZeroOrOne, CallOf("foo", [CallOf("bar", [Num(8, "5")])])) == []
    ensures CheckReports(NotZeroOrOne,
      CallOf("foo", [Binary(BinaryExpr(Binary(BinaryExpr(Ident("a"), "+", Num(9, "5"))), "+", Ident("b")))])) == []
  {
  }

  /** `foo(7, 7)` reports "7" twice. */
  lemma RepeatedLiteral()
    ensures CheckReports(NotZeroOrOne, CallOf("foo", [Num(4, "7"), Num(7, "7")]))
         == [Diagnostic(4, "7", "argument"), Diagnostic(7, "7", "argument")]
  {
  }
}
