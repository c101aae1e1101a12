/** The abstract syntax tree of GoCaml: tokens, binder symbols, function
    definitions and the closed set of expression variants. */
module Ast {

  /** A location in source text. The lexer owns its representation; nothing
      here inspects it beyond comparing two positions for equality. */
  type Position(==)

  /** The payload of a float literal (a 64-bit IEEE value in the source);
      carried along, never computed with. */
  type Float64(==)

  /** The handle to the source text kept beside the root for diagnostics. */
  type Source

  /** The payload of an integer literal: Go's `int` on a 64-bit target. */
  newtype Int64 = x: int | -0x8000_0000_0000_0000 <= x < 0x8000_0000_0000_0000

  /** A lexical unit as the tree sees it: where it starts and where it ends. */
  datatype Token = Token(start: Position, end: Position)

  /** A binder identity. Two symbols are told apart by reference, never by
      their names, so that shadowing binders with one spelling stay distinct.
      `displayName` is what diagnostics print; `name` starts out equal to it
      and is left for renaming passes to rewrite. */
  class Symbol {
    const displayName: string
    var name: string

    constructor (n: string)
      ensures fresh(this)
      ensures displayName == n && name == n
    {
      displayName := n;
      name := n;
    }
  }

  /** Mints a binder identity for `n`: a reference no other symbol shares. */
  method NewSymbol(n: string) returns (s: Symbol)
    ensures fresh(s)
    ensures s.displayName == n && s.name == n
  {
    s := new Symbol(n);
  }

  /** Minting the same spelling twice gives two symbols that print alike but
      are different binders. */
  method NewSymbolTwice(n: string) returns (a: Symbol, b: Symbol)
    ensures fresh(a) && fresh(b) && a != b
    ensures a.displayName == b.displayName == n
    ensures a.name == b.name == n
  {
    a := NewSymbol(n);
    b := NewSymbol(n);
  }

  /** The payload of `let rec`: the function's symbol, its parameters and
      its body. */
  datatype FuncDef = FuncDef(symbol: Symbol, params: seq<Symbol>, body: Expr)

  /** One constructor per node kind of the language. */
  datatype Expr =
    | Unit(lparenToken: Token, rparenToken: Token)
    | Bool(token: Token, boolValue: bool)
    | Int(token: Token, intValue: Int64)
    | Float(token: Token, floatValue: Float64)
    | Not(opToken: Token, child: Expr)
    | Neg(minusToken: Token, child: Expr)
    | Add(left: Expr, right: Expr)
    | Sub(left: Expr, right: Expr)
    | FNeg(minusToken: Token, child: Expr)
    | FAdd(left: Expr, right: Expr)
    | FSub(left: Expr, right: Expr)
    | FMul(left: Expr, right: Expr)
    | FDiv(left: Expr, right: Expr)
    | Eq(left: Expr, right: Expr)
    | Less(left: Expr, right: Expr)
    | If(ifToken: Token, cond: Expr, thenExpr: Expr, elseExpr: Expr)
    | Let(letToken: Token, symbol: Symbol, bound: Expr, body: Expr)
    | VarRef(token: Token, symbol: Symbol)
    | LetRec(letToken: Token, func: FuncDef, body: Expr)
    | Apply(callee: Expr, args: seq<Expr>)
    | Tuple(elems: seq<Expr>)
    | LetTuple(letToken: Token, symbols: seq<Symbol>, bound: Expr, body: Expr)
    | ArrayCreate(arrayToken: Token, size: Expr, elem: Expr)
    | Get(arr: Expr, index: Expr)
    | Put(arr: Expr, index: Expr, assignee: Expr)
  {
    /** The two-operand arithmetic and comparison nodes, which carry no token
        of their own. */
    predicate IsBinary() {
      Add? || Sub? || FAdd? || FSub? || FMul? || FDiv? || Eq? || Less?
    }
  }

  /** A parsed program: the root expression and the text it came from. */
  datatype Program = Program(root: Expr, file: Source)

  /** The grammar's structural invariants, everywhere in the tree: a tuple
      has at least one element, a function at least one parameter, and a
      tuple pattern at least one variable. A parser never builds anything
      else. */
  predicate WellFormed(e: Expr) {
    match e
    case Unit(_, _) => true
    case Bool(_, _) => true
    case Int(_, _) => true
    case Float(_, _) => true
    case Not(_, c) => WellFormed(c)
    case Neg(_, c) => WellFormed(c)
    case Add(l, r) => WellFormed(l) && WellFormed(r)
    case Sub(l, r) => WellFormed(l) && WellFormed(r)
    case FNeg(_, c) => WellFormed(c)
    case FAdd(l, r) => WellFormed(l) && WellFormed(r)
    case FSub(l, r) => WellFormed(l) && WellFormed(r)
    case FMul(l, r) => WellFormed(l) && WellFormed(r)
    case FDiv(l, r) => WellFormed(l) && WellFormed(r)
    case Eq(l, r) => WellFormed(l) && WellFormed(r)
    case Less(l, r) => WellFormed(l) && WellFormed(r)
    case If(_, c, t, f) => WellFormed(c) && WellFormed(t) && WellFormed(f)
    case Let(_, _, b, body) => WellFormed(b) && WellFormed(body)
    case VarRef(_, _) => true
    case LetRec(_, fd, body) => |fd.params| > 0 && WellFormed(fd.body) && WellFormed(body)
    case Apply(callee, args) => WellFormed(callee) && forall a <- args :: WellFormed(a)
    case Tuple(elems) => |elems| > 0 && forall a <- elems :: WellFormed(a)
    case LetTuple(_, syms, b, body) => |syms| > 0 && WellFormed(b) && WellFormed(body)
    case ArrayCreate(_, s, x) => WellFormed(s) && WellFormed(x)
    case Get(a, i) => WellFormed(a) && WellFormed(i)
    case Put(a, i, x) => WellFormed(a) && WellFormed(i) && WellFormed(x)
  }
}
