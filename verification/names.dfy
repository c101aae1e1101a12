/** Debug labels: a short text per node for tracing. Most nodes print their
    kind; binders and variable references add the names they mention. */
module Names {
  import opened Ast

  /** The kind of a node, as its type is called in the source. */
  function Tag(e: Expr): (t: string)
    ensures |t| > 0 && ' ' !in t && '(' !in t
  {
    match e
    case Unit(_, _) => "Unit"
    case Bool(_, _) => "Bool"
    case Int(_, _) => "Int"
    case Float(_, _) => "Float"
    case Not(_, _) => "Not"
    case Neg(_, _) => "Neg"
    case Add(_, _) => "Add"
    case Sub(_, _) => "Sub"
    case FNeg(_, _) => "FNeg"
    case FAdd(_, _) => "FAdd"
    case FSub(_, _) => "FSub"
    case FMul(_, _) => "FMul"
    case FDiv(_, _) => "FDiv"
    case Eq(_, _) => "Eq"
    case Less(_, _) => "Less"
    case If(_, _, _, _) => "If"
    case Let(_, _, _, _) => "Let"
    case VarRef(_, _) => "VarRef"
    case LetRec(_, _, _) => "LetRec"
    case Apply(_, _) => "Apply"
    case Tuple(_) => "Tuple"
    case LetTuple(_, _, _, _) => "LetTuple"
    case ArrayCreate(_, _, _) => "ArrayCreate"
    case Get(_, _) => "Get"
    case Put(_, _, _) => "Put"
  }

  /** The nodes whose label mentions names besides their kind. */
  predicate NamesSymbols(e: Expr) {
    e.Let? || e.VarRef? || e.LetRec? || e.LetTuple?
  }

  /** The display names of `syms`, in order. */
  function DisplayNames(syms: seq<Symbol>): seq<string> {
    seq(|syms|, i requires 0 <= i < |syms| => syms[i].displayName)
  }

  /** `parts` separated by a comma and a space. */
  function JoinComma(parts: seq<string>): string
    requires |parts| > 0
  {
    if |parts| == 1 then parts[0] else parts[0] + ", " + JoinComma(parts[1..])
  }

  /** Joining two non-empty runs is joining each and separating the results. */
  lemma {:induction false} JoinCommaAppend(a: seq<string>, b: seq<string>)
    requires |a| > 0 && |b| > 0
    ensures JoinComma(a + b) == JoinComma(a) + ", " + JoinComma(b)
  {
    if |a| == 1 {
      assert (a + b)[1..] == b;
    } else {
      assert (a + b)[1..] == a[1..] + b;
      JoinCommaAppend(a[1..], b);
    }
  }

  /** One more step of the loops below: the first `i + 1` names joined are
      the first `i` joined, a separator, and name `i`. */
  lemma JoinedPrefixStep(syms: seq<Symbol>, i: nat)
    requires 0 < i < |syms|
    ensures JoinComma(DisplayNames(syms[..i + 1]))
         == JoinComma(DisplayNames(syms[..i])) + ", " + syms[i].displayName
  {
    assert DisplayNames(syms[..i + 1]) == DisplayNames(syms[..i]) + [syms[i].displayName];
    JoinCommaAppend(DisplayNames(syms[..i]), [syms[i].displayName]);
  }

  /** The label of a node. A `LetRec` whose function has no parameter and a
      `LetTuple` with no variable have none: asking for it is a defect. */
  function Name(e: Expr): (r: string)
    requires e.LetRec? ==> |e.func.params| > 0
    requires e.LetTuple? ==> |e.symbols| > 0
    ensures Tag(e) <= r
  {
    match e
    case Let(_, x, _, _) => Tag(e) + " (" + x.displayName + ")"
    case VarRef(_, x) => Tag(e) + " (" + x.displayName + ")"
    case LetRec(_, fd, _) =>
      Tag(e) + " (fun " + fd.symbol.displayName + " " + JoinComma(DisplayNames(fd.params)) + ")"
    case LetTuple(_, syms, _, _) => Tag(e) + " (" + JoinComma(DisplayNames(syms)) + ")"
    case _ => Tag(e)
  }

  /** The label of a `LetRec`, built as the source builds it: the first
      parameter's name, then each further one after a comma. */
  method LetRecName(e: Expr) returns (r: string)
    requires e.LetRec?
    requires |e.func.params| > 0
    ensures r == Name(e)
  {
    var ps := e.func.params;
    var params := ps[0].displayName;
    for i := 1 to |ps|
      invariant params == JoinComma(DisplayNames(ps[..i]))
    {
      JoinedPrefixStep(ps, i);
      params := params + ", " + ps[i].displayName;
    }
    assert ps[..|ps|] == ps;
    r := "LetRec (fun " + e.func.symbol.displayName + " " + params + ")";
  }

  /** The label of a `LetTuple`, built the same way from its variables. */
  method LetTupleName(e: Expr) returns (r: string)
    requires e.LetTuple?
    requires |e.symbols| > 0
    ensures r == Name(e)
  {
    var syms := e.symbols;
    var vars := syms[0].displayName;
    for i := 1 to |syms|
      invariant vars == JoinComma(DisplayNames(syms[..i]))
    {
      JoinedPrefixStep(syms, i);
      vars := vars + ", " + syms[i].displayName;
    }
    assert syms[..|syms|] == syms;
    r := "LetTuple (" + vars + ")";
  }

  /** The text of `s` before the first `c`, or all of `s` if there is none. */
  function Before(s: string, c: char): (r: string)
    ensures r <= s && c !in r
  {
    if s == [] || s[0] == c then [] else [s[0]] + Before(s[1..], c)
  }

  /** `Before` recovers a prefix free of `c` from anything that follows it
      after a `c`. */
  lemma {:induction false} BeforeSeparator(t: string, c: char, rest: string)
    requires c !in t
    ensures Before(t, c) == t
    ensures Before(t + [c] + rest, c) == t
  {
    if t != [] {
      assert (t + [c] + rest)[1..] == t[1..] + [c] + rest;
      BeforeSeparator(t[1..], c, rest);
    }
  }

  /** A label's first word is the node's kind. */
  lemma LabelStartsWithKind(e: Expr)
    requires e.LetRec? ==> |e.func.params| > 0
    requires e.LetTuple? ==> |e.symbols| > 0
    ensures Before(Name(e), ' ') == Tag(e)
    ensures Name(e) == Tag(e) <==> !NamesSymbols(e)
  {
    var n := Name(e);
    if NamesSymbols(e) {
      assert n == Tag(e) + [' '] + n[|Tag(e)| + 1..];
      BeforeSeparator(Tag(e), ' ', n[|Tag(e)| + 1..]);
    } else {
      BeforeSeparator(Tag(e), ' ', []);
    }
  }

  /** Two nodes with the same label are of the same kind. */
  lemma SameLabelSameKind(e1: Expr, e2: Expr)
    requires e1.LetRec? ==> |e1.func.params| > 0
    requires e1.LetTuple? ==> |e1.symbols| > 0
    requires e2.LetRec? ==> |e2.func.params| > 0
    requires e2.LetTuple? ==> |e2.symbols| > 0
    requires Name(e1) == Name(e2)
    ensures Tag(e1) == Tag(e2)
  {
    LabelStartsWithKind(e1);
    LabelStartsWithKind(e2);
  }

  /** When no name contains a comma, the joined text determines the names. */
  lemma {:induction false} JoinCommaInjective(a: seq<string>, b: seq<string>)
    requires |a| > 0 && |b| > 0
    requires forall i :: 0 <= i < |a| ==> ',' !in a[i]
    requires forall i :: 0 <= i < |b| ==> ',' !in b[i]
    requires JoinComma(a) == JoinComma(b)
    ensures a == b
  {
    var s := JoinComma(a);
    var ta := if |a| == 1 then [] else " " + JoinComma(a[1..]);
    var tb := if |b| == 1 then [] else " " + JoinComma(b[1..]);
    if |a| == 1 {
      BeforeSeparator(a[0], ',', []);
    } else {
      assert s == a[0] + [','] + ta;
      BeforeSeparator(a[0], ',', ta);
    }
    if |b| == 1 {
      BeforeSeparator(b[0], ',', []);
    } else {
      assert s == b[0] + [','] + tb;
      BeforeSeparator(b[0], ',', tb);
    }
    assert a[0] == b[0];
    if |a| == 1 && |b| == 1 {
      assert a == [a[0]] && b == [b[0]];
    } else if |a| == 1 || |b| == 1 {
      // One side is a single name without a comma, the other has one.
      assert false;
    } else {
      assert JoinComma(a[1..]) == s[|a[0]| + 2..] == JoinComma(b[1..]);
      JoinCommaInjective(a[1..], b[1..]);
      assert a == [a[0]] + a[1..] && b == [b[0]] + b[1..];
    }
  }

  /** Two `LetTuple` nodes with the same label bind the same display names,
      in the same order, provided no display name contains a comma. */
  lemma LetTupleLabelDeterminesNames(e1: Expr, e2: Expr)
    requires e1.LetTuple? && e2.LetTuple?
    requires |e1.symbols| > 0 && |e2.symbols| > 0
    requires forall i :: 0 <= i < |e1.symbols| ==> ',' !in e1.symbols[i].displayName
    requires forall i :: 0 <= i < |e2.symbols| ==> ',' !in e2.symbols[i].displayName
    requires Name(e1) == Name(e2)
    ensures DisplayNames(e1.symbols) == DisplayNames(e2.symbols)
  {
    var j1, j2 := JoinComma(DisplayNames(e1.symbols)), JoinComma(DisplayNames(e2.symbols));
    var n := Name(e1);
    assert n == "LetTuple (" + j1 + ")" == "LetTuple (" + j2 + ")";
    assert j1 == n[10..|n| - 1] == j2;
    JoinCommaInjective(DisplayNames(e1.symbols), DisplayNames(e2.symbols));
  }

  /** A `Let` binding `x` is labelled "Let (x)" and a reference to `x`
      "VarRef (x)", whatever the name. */
  lemma LetAndVarRefLabels(kw: Token, x: Symbol, b: Expr, body: Expr)
    ensures Name(Let(kw, x, b, body)) == "Let (" + x.displayName + ")"
    ensures Name(VarRef(kw, x)) == "VarRef (" + x.displayName + ")"
  {
    assert "Let" + " (" == "Let (";
    assert "VarRef" + " (" == "VarRef (";
  }

  /** A `LetRec` is labelled with "fun", the function's name and its
      parameters joined; a `LetTuple` with its variables joined. */
  lemma JoinedListLabels(kw: Token, fd: FuncDef, syms: seq<Symbol>, b: Expr, body: Expr)
    requires |fd.params| > 0 && |syms| > 0
    ensures Name(LetRec(kw, fd, body))
         == "LetRec (fun " + fd.symbol.displayName + " " + JoinComma(DisplayNames(fd.params)) + ")"
    ensures Name(LetTuple(kw, syms, b, body)) == "LetTuple (" + JoinComma(DisplayNames(syms)) + ")"
  {
    assert "LetRec" + " (fun " == "LetRec (fun ";
    assert "LetTuple" + " (" == "LetTuple (";
  }

  /** A `LetRec` of `f` with parameters `a, b` is labelled
      "LetRec (fun f a, b)", and a `LetTuple` over `a, b` "LetTuple (a, b)". */
  lemma JoinedLabels(f: Symbol, a: Symbol, b: Symbol, kw: Token, e1: Expr, e2: Expr)
    requires f.displayName == "f" && a.displayName == "a" && b.displayName == "b"
    ensures Name(LetRec(kw, FuncDef(f, [a, b], e1), e2)) == "LetRec (fun f a, b)"
    ensures Name(LetTuple(kw, [a, b], e1, e2)) == "LetTuple (a, b)"
  {
    JoinedListLabels(kw, FuncDef(f, [a, b], e1), [a, b], e1, e2);
    assert DisplayNames([a, b]) == ["a", "b"];
    assert JoinComma(["a", "b"]) == "a, b";
  }
}
