/**
 Pure helpers of the outline webview: the symbol-kind display catalog, the
 inclusive line-range test and the sibling-continuous range of a node.
 */
module Utils {
  import opened Types
  import opened NodeStore

  /** The members of the `SymbolKind` enum in declaration order: entry `k`
      names the kind whose value is `k`. */
  const SymbolKindNames: seq<string> := [
    "File", "Module", "Namespace", "Package", "Class", "Method", "Property",
    "Field", "Constructor", "Enum", "Interface", "Function", "Variable",
    "Constant", "String", "Number", "Boolean", "Array", "Object", "Key",
    "Null", "EnumMember", "Struct", "Event", "Operator", "TypeParameter"]

  /** Value of `SymbolKind.TypeParameter`, the one kind displayed differently
      from its enum name. */
  const TypeParameterKind := 25

  /** `getSymbolName`: the display name of a symbol kind; any value outside
      the enum is the "Unexpected symbol kind" error. */
  function GetSymbolName(kind: int): (r: Result<string>)
    ensures r.Ok? <==> 0 <= kind < |SymbolKindNames|
    ensures r.Ok? && kind != TypeParameterKind ==> r.value == SymbolKindNames[kind]
    ensures kind == TypeParameterKind ==> r == Ok("Parameter")
    ensures r.Err? ==> r.error == UnexpectedSymbolKind(kind)
  {
    match kind
    case 4 => Ok("Class")
    case 6 => Ok("Property")
    case 11 => Ok("Function")
    case 5 => Ok("Method")
    case 8 => Ok("Constructor")
    case 12 => Ok("Variable")
    case 14 => Ok("String")
    case 0 => Ok("File")
    case 9 => Ok("Enum")
    case 17 => Ok("Array")
    case 16 => Ok("Boolean")
    case 13 => Ok("Constant")
    case 21 => Ok("EnumMember")
    case 23 => Ok("Event")
    case 7 => Ok("Field")
    case 10 => Ok("Interface")
    case 19 => Ok("Key")
    case 2 => Ok("Namespace")
    case 15 => Ok("Number")
    case 24 => Ok("Operator")
    case 22 => Ok("Struct")
    case 25 => Ok("Parameter")
    case 3 => Ok("Package")
    case 18 => Ok("Object")
    case 1 => Ok("Module")
    case 20 => Ok("Null")
    case _ => Err(UnexpectedSymbolKind(kind))
  }

  /** `isPositionEnclosedByRange`: the line lies in the range, both ends included. */
  predicate IsPositionEnclosedByRange(position: int, range: Range) {
    position >= range.start && position <= range.end
  }

  function Min(a: int, b: int): int {
    if a <= b then a else b
  }

  function Max(a: int, b: int): int {
    if a >= b then a else b
  }

  /** `getContinuousRange`: the range of `d` widened towards its siblings so
      that consecutive siblings leave no uncovered line between them. Looking
      up a sibling the store does not hold is an error. */
  function GetContinuousRange(t: Store, d: NodeData): (r: Result<Range>)
    ensures r.Ok? <==> ((d.prevSibling.Some? ==> d.prevSibling.value in t.nodes) &&
                        (d.nextSibling.Some? ==> d.nextSibling.value in t.nodes))
    ensures r.Err? && d.prevSibling.Some? && d.prevSibling.value !in t.nodes ==>
              r.error == NodeNotFound(d.prevSibling.value)
    ensures r.Err? && (d.prevSibling.None? || d.prevSibling.value in t.nodes) ==>
              r.error == NodeNotFound(d.nextSibling.value)
    ensures r.Ok? ==> r.value.start <= d.range.start && r.value.end >= d.range.end
    ensures r.Ok? && d.prevSibling.None? ==> r.value.start == d.range.start
    ensures r.Ok? && d.nextSibling.None? ==> r.value.end == d.range.end
    ensures r.Ok? && d.prevSibling.Some? ==>
              var p := t.nodes[d.prevSibling.value];
              && r.value.start <= p.range.end + 1
              && (r.value.start == d.range.start || r.value.start == p.range.end + 1)
    ensures r.Ok? && d.nextSibling.Some? ==>
              var n := t.nodes[d.nextSibling.value];
              && r.value.end >= n.range.start - 1
              && (r.value.end == d.range.end || r.value.end == n.range.start - 1)
  {
    var start :- match d.prevSibling
                 case None => Ok(d.range.start)
                 case Some(p) =>
                   var pd :- GetNodeData(t, p);
                   Ok(Min(pd.range.end + 1, d.range.start));
    var end :- match d.nextSibling
               case None => Ok(d.range.end)
               case Some(n) =>
                 var nd :- GetNodeData(t, n);
                 Ok(Max(nd.range.start - 1, d.range.end));
    Ok(Range(start, end))
  }

  /** Continuity across siblings: the widened range of a node reaches at least
      up to the line before the widened range of its next sibling. */
  lemma ContinuousNoGap(t: Store, a: NodeId, b: NodeId)
    requires Valid(t) && a in t.nodes && t.nodes[a].nextSibling == Some(b)
    ensures b in t.nodes
    ensures GetContinuousRange(t, t.nodes[a]).Ok?
    ensures GetContinuousRange(t, t.nodes[b]).Ok?
    ensures GetContinuousRange(t, t.nodes[a]).value.end + 1 >= GetContinuousRange(t, t.nodes[b]).value.start
  {
    NextThenPrev(t, a, b);
    if t.nodes[a].prevSibling.Some? {
      PrevThenNext(t, t.nodes[a].prevSibling.value, a);
    }
    if t.nodes[b].nextSibling.Some? {
      NextThenPrev(t, b, t.nodes[b].nextSibling.value);
    }
  }
}
