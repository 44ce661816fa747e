/** The part of a parsed Python file the extractors look at. Parsing is not modelled: each
    statement carries what `ast.get_docstring` and `ast.unparse` return for it. */
module Ast {
  import opened Results

  /** `ast.Module`, `ast.ClassDef`, `ast.FunctionDef`, `ast.AsyncFunctionDef`, or any other
      statement. */
  datatype DeclKind = ModuleDecl | ClassDecl | FunctionDecl | AsyncFunctionDecl | OtherStatement

  /** A statement: its kind, its `name` attribute, its `lineno` attribute (a module has
      none), its docstring, its unparsed source and the statements of its body. */
  datatype Decl = Decl(kind: DeclKind, name: string, lineno: Option<int>,
                       docstring: Option<string>, source: string, body: seq<Decl>)

  /** Membership in `NODE_TYPES`. */
  predicate Documentable(k: DeclKind) {
    !k.OtherStatement?
  }

  predicate IsFunction(k: DeclKind) {
    k.FunctionDecl? || k.AsyncFunctionDecl?
  }

  /** `NODE_TYPES[type(node)]`: both function kinds are a `"Function"`. */
  function KindName(k: DeclKind): (r: string)
    requires Documentable(k)
    ensures r == "Function" <==> IsFunction(k)
    ensures r == "Module" <==> k.ModuleDecl?
    ensures r == "Class" <==> k.ClassDecl?
  {
    match k
    case ModuleDecl => "Module"
    case ClassDecl => "Class"
    case FunctionDecl => "Function"
    case AsyncFunctionDecl => "Function"
  }

  /** The body statements of a kind in `NODE_TYPES`, in source order. */
  function Members(body: seq<Decl>): (r: seq<Decl>)
    ensures forall d :: d in r <==> d in body && Documentable(d.kind)
    ensures |r| <= |body|
  {
    if |body| == 0 then []
    else if Documentable(body[0].kind) then [body[0]] + Members(body[1..])
    else Members(body[1..])
  }

  lemma {:induction false} MembersConcat(a: seq<Decl>, b: seq<Decl>)
    ensures Members(a + b) == Members(a) + Members(b)
  {
    if |a| > 0 {
      assert (a + b)[1..] == a[1..] + b;
      MembersConcat(a[1..], b);
    } else {
      assert a + b == b;
    }
  }
}
