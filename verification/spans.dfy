/** Span derivation: every node reports where it starts (`Pos`) and where it
    ends (`End`), read off a stored token or taken from one designated child,
    so that no node stores its own span. */
module Spans {
  import opened Ast

  /** The tokens a tree stores, in the order the parser consumed them. */
  function Tokens(e: Expr): seq<Token>
    decreases e, 1
  {
    match e
    case Unit(l, r) => [l, r]
    case Bool(t, _) => [t]
    case Int(t, _) => [t]
    case Float(t, _) => [t]
    case Not(op, c) => [op] + Tokens(c)
    case Neg(op, c) => [op] + Tokens(c)
    case Add(l, r) => Tokens(l) + Tokens(r)
    case Sub(l, r) => Tokens(l) + Tokens(r)
    case FNeg(op, c) => [op] + Tokens(c)
    case FAdd(l, r) => Tokens(l) + Tokens(r)
    case FSub(l, r) => Tokens(l) + Tokens(r)
    case FMul(l, r) => Tokens(l) + Tokens(r)
    case FDiv(l, r) => Tokens(l) + Tokens(r)
    case Eq(l, r) => Tokens(l) + Tokens(r)
    case Less(l, r) => Tokens(l) + Tokens(r)
    case If(kw, c, t, f) => [kw] + Tokens(c) + Tokens(t) + Tokens(f)
    case Let(kw, _, b, body) => [kw] + Tokens(b) + Tokens(body)
    case VarRef(t, _) => [t]
    case LetRec(kw, fd, body) => [kw] + Tokens(fd.body) + Tokens(body)
    case Apply(callee, args) => Tokens(callee) + TokensOf(args)
    case Tuple(elems) => TokensOf(elems)
    case LetTuple(kw, _, b, body) => [kw] + Tokens(b) + Tokens(body)
    case ArrayCreate(kw, s, x) => [kw] + Tokens(s) + Tokens(x)
    case Get(a, i) => Tokens(a) + Tokens(i)
    case Put(a, i, x) => Tokens(a) + Tokens(i) + Tokens(x)
  }

  /** The tokens of a sequence of sibling expressions, left to right. */
  function TokensOf(es: seq<Expr>): seq<Token>
    decreases es, 0
  {
    if es == [] then [] else Tokens(es[0]) + TokensOf(es[1..])
  }

  /** The positions at which some token of `ts` starts. */
  function Starts(ts: seq<Token>): set<Position> {
    set t | t in ts :: t.start
  }

  /** The positions at which some token of `ts` ends. */
  function Ends(ts: seq<Token>): set<Position> {
    set t | t in ts :: t.end
  }

  /** The positions at which some token of `ts` starts or ends. */
  function Boundaries(ts: seq<Token>): set<Position> {
    Starts(ts) + Ends(ts)
  }

  /** The outcome of a span request: a position, or `None` when the call
      panics (an out-of-range index into an empty tuple). */
  datatype Option<T> = None | Some(value: T)

  /** `Pos(e)` completes without a panic: the chain of first children it
      follows never reaches an empty tuple. */
  predicate HasPos(e: Expr) {
    match e
    case Add(l, _) => HasPos(l)
    case Sub(l, _) => HasPos(l)
    case FAdd(l, _) => HasPos(l)
    case FSub(l, _) => HasPos(l)
    case FMul(l, _) => HasPos(l)
    case FDiv(l, _) => HasPos(l)
    case Eq(l, _) => HasPos(l)
    case Less(l, _) => HasPos(l)
    case Apply(callee, _) => HasPos(callee)
    case Tuple(elems) => |elems| > 0 && HasPos(elems[0])
    case Get(a, _) => HasPos(a)
    case Put(a, _, _) => HasPos(a)
    case _ => true
  }

  /** `End(e)` completes without a panic: the chain of children it follows
      never reaches an empty tuple. */
  predicate HasEnd(e: Expr) {
    match e
    case Not(_, c) => HasEnd(c)
    case Neg(_, c) => HasEnd(c)
    case Add(_, r) => HasPos(r)
    case Sub(_, r) => HasPos(r)
    case FNeg(_, c) => HasPos(c)
    case FAdd(_, r) => HasPos(r)
    case FSub(_, r) => HasPos(r)
    case FMul(_, r) => HasPos(r)
    case FDiv(_, r) => HasPos(r)
    case Eq(_, r) => HasPos(r)
    case Less(_, r) => HasPos(r)
    case If(_, _, _, f) => HasEnd(f)
    case Let(_, _, _, body) => HasEnd(body)
    case LetRec(_, _, body) => HasEnd(body)
    case Apply(callee, args) => if |args| == 0 then HasEnd(callee) else HasEnd(args[|args| - 1])
    case Tuple(elems) => |elems| > 0 && HasEnd(elems[|elems| - 1])
    case LetTuple(_, _, _, body) => HasEnd(body)
    case ArrayCreate(_, _, x) => HasEnd(x)
    case Get(_, i) => HasEnd(i)
    case Put(_, _, x) => HasEnd(x)
    case _ => true
  }

  /** Every token of the `i`-th sibling is among the siblings' tokens. */
  lemma {:induction false} TokensOfIncludes(es: seq<Expr>, i: nat)
    requires i < |es|
    ensures forall t :: t in Tokens(es[i]) ==> t in TokensOf(es)
  {
    if i > 0 {
      TokensOfIncludes(es[1..], i - 1);
      assert es[1..][i - 1] == es[i];
    }
  }

  /** The start of a node: where its first token begins. */
  function Pos(e: Expr): (p: Option<Position>)
    ensures p.Some? <==> HasPos(e)
  {
    match e
    case Unit(l, _) => Some(l.start)
    case Bool(t, _) => Some(t.start)
    case Int(t, _) => Some(t.start)
    case Float(t, _) => Some(t.start)
    case Not(op, _) => Some(op.start)
    case Neg(op, _) => Some(op.start)
    case Add(l, _) => Pos(l)
    case Sub(l, _) => Pos(l)
    case FNeg(op, _) => Some(op.start)
    case FAdd(l, _) => Pos(l)
    case FSub(l, _) => Pos(l)
    case FMul(l, _) => Pos(l)
    case FDiv(l, _) => Pos(l)
    case Eq(l, _) => Pos(l)
    case Less(l, _) => Pos(l)
    case If(kw, _, _, _) => Some(kw.start)
    case Let(kw, _, _, _) => Some(kw.start)
    case VarRef(t, _) => Some(t.start)
    case LetRec(kw, _, _) => Some(kw.start)
    case Apply(callee, _) => Pos(callee)
    case Tuple(elems) =>
      if |elems| == 0 then None else Pos(elems[0])
    case LetTuple(kw, _, _, _) => Some(kw.start)
    case ArrayCreate(kw, _, _) => Some(kw.start)
    case Get(a, _) => Pos(a)
    case Put(a, _, _) => Pos(a)
  }

  /** The end of a node. The two-operand nodes and `FNeg` end where their
      right operand STARTS; every other node ends where its last child or
      closing token ends. */
  function End(e: Expr): (p: Option<Position>)
    ensures p.Some? <==> HasEnd(e)
  {
    match e
    case Unit(_, r) => Some(r.end)
    case Bool(t, _) => Some(t.end)
    case Int(t, _) => Some(t.end)
    case Float(t, _) => Some(t.end)
    case Not(_, c) => End(c)
    case Neg(_, c) => End(c)
    case Add(_, r) => Pos(r)
    case Sub(_, r) => Pos(r)
    case FNeg(_, c) => Pos(c)
    case FAdd(_, r) => Pos(r)
    case FSub(_, r) => Pos(r)
    case FMul(_, r) => Pos(r)
    case FDiv(_, r) => Pos(r)
    case Eq(_, r) => Pos(r)
    case Less(_, r) => Pos(r)
    case If(_, _, _, f) => End(f)
    case Let(_, _, _, body) => End(body)
    case VarRef(t, _) => Some(t.end)
    case LetRec(_, _, body) => End(body)
    case Apply(callee, args) =>
      if |args| == 0 then End(callee) else End(args[|args| - 1])
    case Tuple(elems) =>
      if |elems| == 0 then None else End(elems[|elems| - 1])
    case LetTuple(_, _, _, body) => End(body)
    case ArrayCreate(_, _, x) => End(x)
    case Get(_, i) => End(i)
    case Put(_, _, x) => End(x)
  }

  /** The nodes whose end is the end of one designated child: `Not` and
      `Neg` (their operand), `If` (its else branch), `Let`, `LetRec` and
      `LetTuple` (their body), `ArrayCreate` (its element), `Get` (its index)
      and `Put` (its assigned value). */
  predicate EndsWithChild(e: Expr) {
    e.Not? || e.Neg? || e.If? || e.Let? || e.LetRec? || e.LetTuple? || e.ArrayCreate? || e.Get? || e.Put?
  }

  /** The child whose end such a node reports. */
  function EndingChild(e: Expr): (c: Expr)
    requires EndsWithChild(e)
    ensures c < e
  {
    match e
    case Not(_, c) => c
    case Neg(_, c) => c
    case If(_, _, _, f) => f
    case Let(_, _, _, body) => body
    case LetRec(_, _, body) => body
    case LetTuple(_, _, _, body) => body
    case ArrayCreate(_, _, x) => x
    case Get(_, i) => i
    case Put(_, _, x) => x
  }

  /** The tokens such a node stores before those of its ending child. */
  function LeadingTokens(e: Expr): seq<Token>
    requires EndsWithChild(e)
  {
    match e
    case Not(op, _) => [op]
    case Neg(op, _) => [op]
    case If(kw, c, t, _) => [kw] + Tokens(c) + Tokens(t)
    case Let(kw, _, b, _) => [kw] + Tokens(b)
    case LetRec(kw, fd, _) => [kw] + Tokens(fd.body)
    case LetTuple(kw, _, b, _) => [kw] + Tokens(b)
    case ArrayCreate(kw, s, _) => [kw] + Tokens(s)
    case Get(a, _) => Tokens(a)
    case Put(a, i, _) => Tokens(a) + Tokens(i)
  }

  /** Such a node ends where its ending child ends, has an end exactly when
      that child has one, and stores that child's tokens last. */
  lemma EndingChildSpan(e: Expr)
    requires EndsWithChild(e)
    ensures End(e) == End(EndingChild(e))
    ensures HasEnd(e) == HasEnd(EndingChild(e))
    ensures EndsOnLastToken(e) == EndsOnLastToken(EndingChild(e))
    ensures Tokens(e) == LeadingTokens(e) + Tokens(EndingChild(e))
  {
  }

  /** The boundaries of the tokens stored last are boundaries of all of
      them. */
  lemma SuffixBoundaries(pre: seq<Token>, ts: seq<Token>)
    ensures Boundaries(ts) <= Boundaries(pre + ts)
  {
    forall p | p in Boundaries(ts)
      ensures p in Boundaries(pre + ts)
    {
      var t :| t in ts && (p == t.start || p == t.end);
      assert t in pre + ts;
    }
  }

  /** Whatever chain `End` follows, it stops at the start or the end of a
      token the node itself stores. */
  lemma {:induction false} EndIsTokenBoundary(e: Expr)
    requires HasEnd(e)
    ensures End(e).value in Boundaries(Tokens(e))
  {
    if EndsWithChild(e) {
      var c := EndingChild(e);
      EndingChildSpan(e);
      EndIsTokenBoundary(c);
      SuffixBoundaries(LeadingTokens(e), Tokens(c));
    } else if e.IsBinary() {
      PosIsFirstTokenStart(e.right);
      assert Tokens(e.right)[0] in Tokens(e);
    } else {
      match e
      case FNeg(_, c) =>
        PosIsFirstTokenStart(c);
        assert Tokens(c)[0] in Tokens(e);
      case Apply(callee, args) =>
        if |args| == 0 {
          EndIsTokenBoundary(callee);
          assert Tokens(e) == Tokens(callee) + [];
        } else {
          EndIsTokenBoundary(args[|args| - 1]);
          TokensOfIncludes(args, |args| - 1);
        }
      case Tuple(elems) =>
        EndIsTokenBoundary(elems[|elems| - 1]);
        TokensOfIncludes(elems, |elems| - 1);
      case _ =>
    }
  }

  /** The start of a node is the start of the first token it stores: the
      position is never taken from later in the tree. */
  lemma {:induction false} PosIsFirstTokenStart(e: Expr)
    requires HasPos(e)
    ensures |Tokens(e)| > 0 && Pos(e) == Some(Tokens(e)[0].start)
  {
    match e
    case Add(l, _) => PosIsFirstTokenStart(l);
    case Sub(l, _) => PosIsFirstTokenStart(l);
    case FAdd(l, _) => PosIsFirstTokenStart(l);
    case FSub(l, _) => PosIsFirstTokenStart(l);
    case FMul(l, _) => PosIsFirstTokenStart(l);
    case FDiv(l, _) => PosIsFirstTokenStart(l);
    case Eq(l, _) => PosIsFirstTokenStart(l);
    case Less(l, _) => PosIsFirstTokenStart(l);
    case Apply(callee, _) => PosIsFirstTokenStart(callee);
    case Tuple(elems) => PosIsFirstTokenStart(elems[0]);
    case Get(a, _) => PosIsFirstTokenStart(a);
    case Put(a, _, _) => PosIsFirstTokenStart(a);
    case _ =>
  }

  /** The last token of a run of siblings is the last token of the last
      sibling, when that sibling stores any. */
  lemma {:induction false} TokensOfLast(es: seq<Expr>)
    requires |es| > 0 && |Tokens(es[|es| - 1])| > 0
    ensures |TokensOf(es)| > 0
    ensures Last(TokensOf(es)) == Last(Tokens(es[|es| - 1]))
  {
    if |es| > 1 {
      assert es[1..][|es| - 2] == es[|es| - 1];
      TokensOfLast(es[1..]);
    }
  }

  function Last(ts: seq<Token>): Token
    requires |ts| > 0
  {
    ts[|ts| - 1]
  }

  /** The chain of children `End` follows never reaches a two-operand node
      or `FNeg`, the nodes that end where an operand starts. */
  predicate EndsOnLastToken(e: Expr) {
    match e
    case Unit(_, _) => true
    case Bool(_, _) => true
    case Int(_, _) => true
    case Float(_, _) => true
    case Not(_, c) => EndsOnLastToken(c)
    case Neg(_, c) => EndsOnLastToken(c)
    case FNeg(_, _) => false
    case If(_, _, _, f) => EndsOnLastToken(f)
    case Let(_, _, _, body) => EndsOnLastToken(body)
    case VarRef(_, _) => true
    case LetRec(_, _, body) => EndsOnLastToken(body)
    case Apply(callee, args) =>
      if |args| == 0 then EndsOnLastToken(callee) else EndsOnLastToken(args[|args| - 1])
    case Tuple(elems) => |elems| > 0 && EndsOnLastToken(elems[|elems| - 1])
    case LetTuple(_, _, _, body) => EndsOnLastToken(body)
    case ArrayCreate(_, _, x) => EndsOnLastToken(x)
    case Get(_, i) => EndsOnLastToken(i)
    case Put(_, _, x) => EndsOnLastToken(x)
    case _ => false
  }

  /** When the chain `End` follows meets no two-operand node and no `FNeg`,
      the end of a node is exactly the end of the last token it stores. */
  lemma {:induction false} EndIsLastTokenEnd(e: Expr)
    requires HasEnd(e) && EndsOnLastToken(e)
    ensures |Tokens(e)| > 0 && End(e) == Some(Last(Tokens(e)).end)
  {
    if EndsWithChild(e) {
      EndingChildSpan(e);
      EndIsLastTokenEnd(EndingChild(e));
    } else {
      match e
      case Apply(callee, args) =>
        if |args| == 0 {
          EndIsLastTokenEnd(callee);
          assert Tokens(e) == Tokens(callee);
        } else {
          EndIsLastTokenEnd(args[|args| - 1]);
          TokensOfLast(args);
        }
      case Tuple(elems) =>
        EndIsLastTokenEnd(elems[|elems| - 1]);
        TokensOfLast(elems);
      case _ =>
    }
  }

  /** A two-operand node ends where the first token of its right operand
      starts, and `FNeg` ends where its operand's first token starts (the
      second token it stores): their spans stop short of the operand's end. */
  lemma OperandEndIsOperandStart(e: Expr)
    requires HasEnd(e)
    ensures e.IsBinary() ==> |Tokens(e.right)| > 0 && End(e) == Some(Tokens(e.right)[0].start)
    ensures e.FNeg? ==> |Tokens(e)| > 1 && End(e) == Some(Tokens(e)[1].start)
  {
    if e.IsBinary() {
      PosIsFirstTokenStart(e.right);
    } else if e.FNeg? {
      PosIsFirstTokenStart(e.child);
    }
  }

  /** In a well-formed tree the chain `Pos` follows never meets an empty
      tuple. */
  lemma {:induction false} WellFormedHasPos(e: Expr)
    requires WellFormed(e)
    ensures HasPos(e)
  {
    match e
    case Add(l, _) => WellFormedHasPos(l);
    case Sub(l, _) => WellFormedHasPos(l);
    case FAdd(l, _) => WellFormedHasPos(l);
    case FSub(l, _) => WellFormedHasPos(l);
    case FMul(l, _) => WellFormedHasPos(l);
    case FDiv(l, _) => WellFormedHasPos(l);
    case Eq(l, _) => WellFormedHasPos(l);
    case Less(l, _) => WellFormedHasPos(l);
    case Apply(callee, _) => WellFormedHasPos(callee);
    case Tuple(elems) =>
      assert elems[0] in elems;
      WellFormedHasPos(elems[0]);
    case Get(a, _) => WellFormedHasPos(a);
    case Put(a, _, _) => WellFormedHasPos(a);
    case _ =>
  }

  /** Every well-formed tree has both ends: no span request panics. */
  lemma {:induction false} WellFormedHasSpan(e: Expr)
    requires WellFormed(e)
    ensures HasPos(e) && HasEnd(e)
  {
    WellFormedHasPos(e);
    match e
    case Not(_, c) => WellFormedHasSpan(c);
    case Neg(_, c) => WellFormedHasSpan(c);
    case Add(_, r) => WellFormedHasPos(r);
    case Sub(_, r) => WellFormedHasPos(r);
    case FNeg(_, c) => WellFormedHasPos(c);
    case FAdd(_, r) => WellFormedHasPos(r);
    case FSub(_, r) => WellFormedHasPos(r);
    case FMul(_, r) => WellFormedHasPos(r);
    case FDiv(_, r) => WellFormedHasPos(r);
    case Eq(_, r) => WellFormedHasPos(r);
    case Less(_, r) => WellFormedHasPos(r);
    case If(_, _, _, f) => WellFormedHasSpan(f);
    case Let(_, _, _, body) => WellFormedHasSpan(body);
    case LetRec(_, _, body) => WellFormedHasSpan(body);
    case Apply(callee, args) =>
      if |args| == 0 {
        WellFormedHasSpan(callee);
      } else {
        assert args[|args| - 1] in args;
        WellFormedHasSpan(args[|args| - 1]);
      }
    case Tuple(elems) =>
      assert elems[|elems| - 1] in elems;
      WellFormedHasSpan(elems[|elems| - 1]);
    case LetTuple(_, _, _, body) => WellFormedHasSpan(body);
    case ArrayCreate(_, _, x) => WellFormedHasSpan(x);
    case Get(_, i) => WellFormedHasSpan(i);
    case Put(_, _, x) => WellFormedHasSpan(x);
    case _ =>
  }

  /** `Unit` spans its two parentheses; the other literals span their single
      token exactly. */
  lemma LeafSpans(e: Expr)
    requires e.Unit? || e.Bool? || e.Int? || e.Float?
    ensures e.Unit? ==> Tokens(e) == [e.lparenToken, e.rparenToken]
    ensures e.Unit? ==> Pos(e) == Some(e.lparenToken.start) && End(e) == Some(e.rparenToken.end)
    ensures !e.Unit? ==> Tokens(e) == [e.token] && Pos(e) == Some(e.token.start) && End(e) == Some(e.token.end)
  {
  }

  /** A variable reference spans its identifier token exactly. */
  lemma VarRefSpan(tok: Token, x: Symbol)
    ensures Tokens(VarRef(tok, x)) == [tok]
    ensures Pos(VarRef(tok, x)) == Some(tok.start) && End(VarRef(tok, x)) == Some(tok.end)
  {
  }

  /** `If`, `Let`, `LetRec`, `LetTuple` and `ArrayCreate` start at their
      keyword, which is their first token, and end where their last child
      ends: `else` branch, body, body, body and element respectively. */
  lemma KeywordSpans(e: Expr)
    requires e.If? || e.Let? || e.LetRec? || e.LetTuple? || e.ArrayCreate?
    ensures Pos(e) == Some(Tokens(e)[0].start)
    ensures e.If? ==> Pos(e) == Some(e.ifToken.start) && End(e) == End(e.elseExpr)
    ensures e.Let? || e.LetRec? || e.LetTuple? ==> Pos(e) == Some(e.letToken.start) && End(e) == End(e.body)
    ensures e.ArrayCreate? ==> Pos(e) == Some(e.arrayToken.start) && End(e) == End(e.elem)
  {
  }

  /** A call starts where its callee starts; it ends where its last argument
      ends, or where the callee ends when there are no arguments. */
  lemma ApplySpan(callee: Expr, args: seq<Expr>)
    ensures Pos(Apply(callee, args)) == Pos(callee)
    ensures args == [] ==> End(Apply(callee, args)) == End(callee)
    ensures args != [] ==> End(Apply(callee, args)) == End(args[|args| - 1])
  {
  }

  /** A tuple spans from the start of its first element to the end of its
      last; `Get` and `Put` start at the array and end at the index and the
      assigned value respectively. */
  lemma AggregateSpans(e: Expr)
    requires e.Tuple? || e.Get? || e.Put?
    ensures e.Tuple? && |e.elems| == 0 ==> Pos(e).None? && End(e).None?
    ensures e.Tuple? && |e.elems| > 0 ==> Pos(e) == Pos(e.elems[0]) && End(e) == End(e.elems[|e.elems| - 1])
    ensures e.Get? ==> Pos(e) == Pos(e.arr) && End(e) == End(e.index)
    ensures e.Put? ==> Pos(e) == Pos(e.arr) && End(e) == End(e.assignee)
  {
  }

  /** The two-operand nodes start where their left operand starts and end
      where their right operand STARTS; `FNeg` likewise ends at its operand's
      start, whereas `Not` and `Neg` end where their operand ends. */
  lemma OperatorSpans(e: Expr)
    requires e.IsBinary() || e.Not? || e.Neg? || e.FNeg?
    ensures e.IsBinary() ==> Pos(e) == Pos(e.left) && End(e) == Pos(e.right)
    ensures e.FNeg? ==> Pos(e) == Some(e.minusToken.start) && End(e) == Pos(e.child)
    ensures e.Not? ==> Pos(e) == Some(e.opToken.start) && End(e) == End(e.child)
    ensures e.Neg? ==> Pos(e) == Some(e.minusToken.start) && End(e) == End(e.child)
  {
  }

  /** The same operand under `Neg` and under `FNeg` gives two different ends
      whenever the operand's token is not empty. */
  lemma NegAndFNegEndsDiffer(minus: Token, t: Token, v: Int64)
    requires t.start != t.end
    ensures End(Neg(minus, Int(t, v))) == Some(t.end)
    ensures End(FNeg(minus, Int(t, v))) == Some(t.start)
    ensures End(Neg(minus, Int(t, v))) != End(FNeg(minus, Int(t, v)))
  {
  }
}
