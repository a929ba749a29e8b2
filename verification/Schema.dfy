/** Nodes, edges, references and per-file IRs of the knowledge graph
    (src/hdl_kgraph/schema.py, ids.py, parser/base.py). */
module Schema {
  datatype Option<+T> = None | Some(value: T)

  /** The node kinds pass-2 resolution tells apart; the rest carry their own tag. */
  datatype NodeKind =
    | File | Module | Interface | Program | Primitive | Entity
    | Package | VhdlPackage | Class | Function | Task | Instance
    | OtherKind(tag: string)

  datatype EdgeKind =
    | Declares | Includes | DefinesMacro | UsesMacro
    | Instantiates | Imports | Extends

  /** A declaration's id names the file that owns it; a stub's id names only what is missing. */
  datatype NodeId =
    | Declared(file: string, local: string)
    | StubId(kind: NodeKind, name: string)

  datatype Node = Node(
    id: NodeId,
    kind: NodeKind,
    name: string,
    qualifiedName: string,
    file: string,
    unresolved: bool,
    conditional: bool,
    data: map<string, string>)

  datatype Edge = Edge(
    src: NodeId,
    dst: NodeId,
    kind: EdgeKind,
    confidence: real,
    attrs: map<string, string>,
    line: nat)

  /** A cross-file reference recorded in pass 1. */
  datatype Ref = Ref(
    src: NodeId,
    kind: EdgeKind,
    target: string,
    confidence: real,
    attrs: map<string, string>,
    line: nat)

  /** Pass-1 result for one source file. */
  datatype IR = IR(
    path: string,
    vhdl: bool,
    nodes: seq<Node>,
    edges: seq<Edge>,
    refs: seq<Ref>)

  /** One row of the persisted reference index. */
  datatype RefRecord = RefRecord(file: string, src: NodeId, kind: EdgeKind, target: string)

  const CONFIDENCE_RESOLVED := 1.0
  const CONFIDENCE_UNIQUE_MATCH := 0.8
  const CONFIDENCE_AMBIGUOUS := 0.6

  predicate IsPass2(k: EdgeKind) {
    k.Instantiates? || k.Imports? || k.Extends?
  }

  function Min(a: real, b: real): real {
    if b < a then b else a
  }

  function LowerChar(c: char): char {
    if 'A' <= c <= 'Z' then ((c as int) - ('A' as int) + ('a' as int)) as char else c
  }

  /** Case folding of an HDL identifier (ASCII). */
  function Lower(s: string): string {
    seq(|s|, i requires 0 <= i < |s| => LowerChar(s[i]))
  }
}
