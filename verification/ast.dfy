/**
 The syntax tree the PHP parser hands to the directive, reduced to the node
 kinds the walk tells apart. Every other node kind of the parser (statements,
 class variables, constants, interfaces, ...) is `Other`: the walk emits
 nothing for it, but it still counts as the previous sibling.
 */
module PhpAst {

  datatype Option<T> = None | Some(value: T)

  datatype Node =
    | Function(name: string)
    | Class(name: string, nodes: seq<Node>)
    | Method(name: string)
    | Comment(text: string)
    | Other

  /** The node kinds that receive a directive entry. */
  predicate IsDeclaration(n: Node) {
    n.Function? || n.Class? || n.Method?
  }

  /** The directive kind written for a declaration. */
  function KindOf(n: Node): (k: string)
    requires IsDeclaration(n)
    ensures k == "function" <==> n.Function?
    ensures k == "class" <==> n.Class?
    ensures k == "method" <==> n.Method?
  {
    match n
    case Function(_) => "function"
    case Class(_, _) => "class"
    case Method(_) => "method"
  }

  /**
   The number of declarations the walk reaches: the top-level siblings and,
   recursively, the members of every class body it meets.
   */
  function CountDecls(nodes: seq<Node>): nat
    decreases nodes
  {
    if nodes == [] then 0
    else
      (if IsDeclaration(nodes[0]) then 1 else 0)
      + (if nodes[0].Class? then CountDecls(nodes[0].nodes) else 0)
      + CountDecls(nodes[1..])
  }
}
