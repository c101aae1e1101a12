# GoCaml abstract syntax tree, in Dafny

This project models the abstract syntax tree of GoCaml, a small ML-style language. The model has three parts:

- **`Ast`** (`ast.dfy`) holds the data model:
  - source tokens (`Token`, a start and an end position);
  - binder identities (`Symbol`, a class, so two symbols with one spelling are still different binders), and `NewSymbol`;
  - the `let rec` payload `FuncDef`;
  - the closed set of 25 expression kinds as one datatype `Expr`, with one constructor per node struct of the source;
  - the grammar's structural invariant `WellFormed`: tuples, parameter lists and tuple patterns are never empty.
- **`Spans`** (`spans.dfy`) covers span derivation. `Pos` and `End` mirror the source's `Pos()`/`End()` methods case by case. Each reads a stored token or follows one designated child.
  - Where the source would panic, `Pos` and `End` return `None`. `HasPos`/`HasEnd` describe when that happens: only when the followed chain reaches an empty tuple. The contracts of `Pos` and `End` say that they return a position exactly when `HasPos`/`HasEnd` hold.
  - `Tokens` is the independent reference: the tokens a tree stores, in the order the parser consumed them.
  - The lemmas prove three things. A node starts at its first stored token. A node ends at the start or the end of one of its tokens. It ends at its last stored token, unless the chain of children `End` follows meets a two-operand node or `FNeg`. Those nodes end where their right operand *starts*. The model keeps that behaviour exactly as written.
- **`Names`** (`names.dfy`) covers the debug labels (`Name()` in the source):
  - the constant kind tags;
  - the `Let (x)` and `VarRef (x)` labels;
  - the comma-joined `LetRec (fun f a, b)` and `LetTuple (a, b)` labels. These two are built by loops in the methods `LetRecName` and `LetTupleName`, and each method is proved equal to the recursive specification `JoinComma`.
  - The lemmas prove two things about labels. A label's first word is the node's kind, so equal labels mean equal kinds. A `LetTuple` label determines the bound names when no name contains a comma.

Two behaviours of the code are modelled as written, though a reader might expect otherwise:

- `End()` of `Add`, `Sub`, `FAdd`, `FSub`, `FMul`, `FDiv`, `Eq`, `Less` and `FNeg` returns the operand's `Pos()`, not its `End()`. So `Pos() <= End()` is not claimed for every node.
- `Tuple`'s label is the constant `"Tuple"`, even for an empty tuple. Only its `Pos()`/`End()` fail on an empty tuple (an out-of-range index). For `LetRec` and `LetTuple`, only the label fails when the list is empty.

## Model

| member | source | states |
|---|---|---|
| `Ast.Symbol.constructor` | ast/node.go:53-61 | A new symbol is a fresh object whose display name and internal name both equal the given name |
| `Ast.NewSymbol` | ast/node.go:59-61 | Returns a freshly allocated symbol (a reference no existing symbol shares) with `displayName == name == n` |
| `Ast.NewSymbolTwice` | ast/node.go:50-61 | Two symbols minted from the same name have identical names but are distinct references, so shadowing binders stay apart |
| `Spans.Pos` | ast/node.go:205-381 | `Pos()` returns a position exactly when `HasPos` holds. It panics (here: `None`) only when the chain of first children reaches an empty tuple, whose `Elems[0]` is out of range (line 349) |
| `Spans.End` | ast/node.go:205-381 | `End()` returns a position exactly when `HasEnd` holds. It panics (here: `None`) only when the chain it follows reaches an empty tuple, whose last index is out of range (line 352), or when a two-operand node or `FNeg` hands over to a `Pos()` that panics |
| `Spans.EndIsTokenBoundary` | ast/node.go:205-381 | Whenever the call does not panic, a node's end is the start or the end of a token stored in its own subtree |
| `Spans.PosIsFirstTokenStart` | ast/node.go:205-381 | Whenever the call does not panic, a node's start is exactly the start of the first token it stores, in parse order |
| `Spans.EndIsLastTokenEnd` | ast/node.go:205-381 | When the chain of children `End()` follows (else branch, body, element, index, assigned value, last argument or callee, last element) meets no two-operand node and no `FNeg`, a node's end is exactly the end of the last token it stores |
| `Spans.OperandEndIsOperandStart` | ast/node.go:247-308 | A two-operand node ends at the start of its right operand's first token; `FNeg` ends at the start of its second stored token (its operand's first) |
| `Spans.WellFormedHasSpan` | ast/node.go:338-353 | In a tree that keeps the grammar's invariants, neither `Pos` nor `End` panics on any node (the tuple and argument indexing is always in range) |
| `Spans.EndingChildSpan` | ast/node.go:233-381 | `Not`, `Neg`, `If`, `Let`, `LetRec`, `LetTuple`, `ArrayCreate`, `Get` and `Put` end exactly where one designated child ends, panic exactly when it does, and store that child's tokens last |
| `Spans.LeafSpans` | ast/node.go:205-231 | `Unit` spans its left parenthesis's start to its right parenthesis's end; `Bool`, `Int` and `Float` store one token and span it exactly |
| `Spans.VarRefSpan` | ast/node.go:324-329 | A variable reference stores one token and spans it exactly |
| `Spans.OperatorSpans` | ast/node.go:233-308 | Two-operand nodes start at the left operand's start and end at the right operand's start; `FNeg` ends at its operand's start, `Not` and `Neg` at its end; all three unary nodes start at their operator token |
| `Spans.NegAndFNegEndsDiffer` | ast/node.go:240-266 | On the same literal operand with a non-empty token, `Neg` ends at the literal's end and `FNeg` at its start, so their ends differ |
| `Spans.KeywordSpans` | ast/node.go:310-367 | `If`, `Let`, `LetRec`, `LetTuple` and `ArrayCreate` start at their keyword, which is their first stored token, and end where their else branch, body, body, body and element end |
| `Spans.ApplySpan` | ast/node.go:338-346 | A call starts at its callee's start; it ends at its last argument's end, or at the callee's end when there are no arguments |
| `Spans.AggregateSpans` | ast/node.go:348-381 | An empty tuple has neither a start nor an end (both calls panic); a non-empty tuple spans from its first element's start to its last element's end; `Get` and `Put` start at the array and end at the index and at the assigned value |
| `Names.Tag` | ast/node.go:383-425 | Each node kind has a non-empty tag containing no space and no parenthesis (the constant returned by the source's label methods) |
| `Names.Name` | ast/node.go:383-425 | Every label begins with its node's kind tag; a `LetRec` without parameters and a `LetTuple` without variables are excluded, as the source panics on them |
| `Names.JoinCommaAppend` | ast/node.go:405-408 | Joining two non-empty runs of names equals joining each and putting `", "` between the results |
| `Names.LetRecName` | ast/node.go:401-410 | The loop that folds the parameters with `", "` produces exactly `"LetRec (fun " + f + " " + <params joined> + ")"`; an empty parameter list is excluded, as the source panics on it |
| `Names.LetTupleName` | ast/node.go:413-422 | The same loop over the tuple's variables produces exactly `"LetTuple (" + <vars joined> + ")"`; an empty list is excluded, as the source panics on it |
| `Names.LabelStartsWithKind` | ast/node.go:383-425 | The text of every label before its first space is the node's kind; the label is the kind alone exactly when the node is not `Let`, `VarRef`, `LetRec` or `LetTuple` |
| `Names.SameLabelSameKind` | ast/node.go:383-425 | Two nodes with equal labels are of the same kind |
| `Names.JoinCommaInjective` | ast/node.go:417-420 | When no name contains a comma, equal joined texts come from equal name lists |
| `Names.LetTupleLabelDeterminesNames` | ast/node.go:413-422 | Two `LetTuple` nodes with equal labels bind the same display names in the same order, provided no display name contains a comma |
| `Names.LetAndVarRefLabels` | ast/node.go:399-400 | For every symbol `x`, a `Let` binding `x` is labelled `"Let ("`, then `x`'s display name, then `")"`; a reference to `x` is labelled the same way with `"VarRef ("` |
| `Names.JoinedListLabels` | ast/node.go:401-422 | For every non-empty list, a `LetRec` is labelled `"LetRec (fun "`, the function's display name, a space, its parameters joined by `", "`, and `")"`; a `LetTuple` is labelled `"LetTuple ("`, its variables joined by `", "`, and `")"` |
| `Names.JoinedLabels` | ast/node.go:401-422 | A `LetRec` of `f` with parameters `a, b` is labelled `"LetRec (fun f a, b)"`; a `LetTuple` over `a, b` is labelled `"LetTuple (a, b)"` |

## Left out

- Source positions, float literal payloads and the source-text handle come from the `token` package, which is not part of this model. They are opaque types (`Position`, `Float64`, `Source`), and only positions are compared, for equality. The order on positions is not modelled.
- The top-level `AST` struct is the datatype `Program`. It holds the root and the opaque source handle, and nothing is proved about it.
- Tokens and `FuncDef` are held by pointer in the source and by value here. The source never writes them after construction. A nil pointer, which would make `Pos()`/`End()` panic, is not modelled, because the parser never stores one.
- `Ast.Symbol`: `displayName` is a constant field. The source's field is assignable, but nothing in this core writes it after `NewSymbol`. `name` stays assignable, for later renaming passes.
- The integer literal payload is Go's 64-bit `int` (the newtype `Int64`). The model does no arithmetic on it.
- The panic messages of `LetRec.Name()` and `LetTuple.Name()` are not modelled, only the conditions under which they fire (as preconditions). The source's `LetRec` message also wrongly names "LetTuple's symbols field".
- `fmt.Sprintf` is modelled as concatenation of the literal pieces and the names.
- The source gives each node its own `Name()` method. The model writes these as one function, `Names.Name`, matching on the kind. The constant labels come from `Tag`. `LetAndVarRefLabels` and `JoinedListLabels` state the four labels that mention names, for all inputs.
- Expression nodes are pointers in the source: a child may be nil, and two nodes may be told apart by identity. Here nodes are values compared by structure, and nil children are not modelled. The parser never stores a nil child, and nothing in this core compares nodes.
- The panics of `Pos()`/`End()` are modelled as a `None` result, because they can arise from any depth of the tree. The two explicit panics of `Name()` are modelled as preconditions of `Names.Name`.
