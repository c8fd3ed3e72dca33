/**
 The host-side conversion of the editor's document symbols into the raw
 tree sent to the webview (`getTreeNodes`): each level is sorted by start
 line, then each symbol keeps its name, kind and detail, its range shrinks
 to a pair of line numbers, and its children are converted by the same rule.
 */
module TreeNodes {
  import opened Types

  /** A position in a document (`vscode.Position`). */
  datatype Position = Position(line: int, character: int)

  /** A document range (`vscode.Range`). */
  datatype SymbolRange = SymbolRange(start: Position, end: Position)

  /** The fields of a `vscode.DocumentSymbol` the conversion reads. */
  datatype DocumentSymbol = DocumentSymbol(
    name: string,
    kind: int,
    detail: string,
    children: seq<DocumentSymbol>,
    range: SymbolRange)

  function StartLine(s: DocumentSymbol): int {
    s.range.start.line
  }

  /** The symbols are in non-decreasing order of start line. */
  predicate SortedByStart(s: seq<DocumentSymbol>) {
    forall i, j :: 0 <= i < j < |s| ==> StartLine(s[i]) <= StartLine(s[j])
  }

  /** `p` lists the symbols of `s`, each as often as `s` does, sorted by
      start line. */
  predicate SortedPermutation(p: seq<DocumentSymbol>, s: seq<DocumentSymbol>) {
    SortedByStart(p) && multiset(p) == multiset(s)
  }

  /** Inserts `x` into a sorted list, before the first symbol that does not
      start earlier. */
  function Insert(x: DocumentSymbol, s: seq<DocumentSymbol>): (r: seq<DocumentSymbol>)
    requires SortedByStart(s)
    ensures SortedByStart(r) && multiset(r) == multiset(s) + multiset{x}
  {
    if |s| == 0 then [x]
    else if StartLine(x) <= StartLine(s[0]) then [x] + s
    else
      var rest := Insert(x, s[1..]);
      assert s == [s[0]] + s[1..];
      InsertBound(x, s, rest);
      [s[0]] + rest
  }

  /** Every member of the insertion into the tail starts no earlier than the
      head. */
  lemma InsertBound(x: DocumentSymbol, s: seq<DocumentSymbol>, rest: seq<DocumentSymbol>)
    requires SortedByStart(s) && |s| > 0 && StartLine(s[0]) < StartLine(x)
    requires multiset(rest) == multiset(s[1..]) + multiset{x}
    ensures forall k :: 0 <= k < |rest| ==> StartLine(s[0]) <= StartLine(rest[k])
  {
    forall k | 0 <= k < |rest|
      ensures StartLine(s[0]) <= StartLine(rest[k])
    {
      assert rest[k] in multiset(rest);
      if rest[k] != x {
        assert rest[k] in multiset(s[1..]);
        var j :| 0 <= j < |s[1..]| && s[1..][j] == rest[k];
        assert s[j + 1] == rest[k];
      }
    }
  }

  /** The `.sort(...)` step of `getTreeNodes`. The comparator answers +1 for
      two symbols on the same line in both orders, so the order among equal
      start lines is left to the engine; this model fixes it by insertion. */
  function SortByStart(s: seq<DocumentSymbol>): (r: seq<DocumentSymbol>)
    ensures SortedPermutation(r, s)
  {
    if |s| == 0 then []
    else
      var rest := SortByStart(s[1..]);
      assert s == [s[0]] + s[1..];
      Insert(s[0], rest)
  }

  /** The record `n` is the conversion of the symbol `s`, apart from the
      children: same name, kind and detail, and range
      `[start.line, end.line]`. */
  predicate Converted(s: DocumentSymbol, n: RawNode) {
    && n.name == s.name
    && n.kind == s.kind
    && n.detail == s.detail
    && n.range == Range(s.range.start.line, s.range.end.line)
    && |n.children| == |s.children|
  }

  /** `r` is a conversion of `syms`: the nodes of `r` are, in order, the
      conversions of some sorted permutation of `syms`, and their children
      are again conversions of the symbols' children. */
  ghost predicate Conversion(syms: seq<DocumentSymbol>, r: seq<RawNode>)
    decreases syms, 1
  {
    && |r| == |syms|
    && exists p: seq<DocumentSymbol> ::
         && SortedPermutation(p, syms) && |p| == |r|
         && (forall i :: 0 <= i < |p| ==> p[i] in syms)
         && forall i :: 0 <= i < |r| ==> NodeConversion(p[i], r[i])
  }

  /** `n` is a conversion of `s`: its own fields are converted, and its
      children are a conversion of the symbol's children. */
  ghost predicate NodeConversion(s: DocumentSymbol, n: RawNode)
    decreases s, 0
  {
    Converted(s, n) && Conversion(s.children, n.children)
  }

  /** `getTreeNodes`: sort the level by start line, then convert each symbol,
      its children by the same rule. */
  function GetTreeNodes(syms: seq<DocumentSymbol>): (r: seq<RawNode>)
    ensures |r| == |syms|
    ensures forall i, j :: 0 <= i < j < |r| ==> r[i].range.start <= r[j].range.start
    ensures Conversion(syms, r)
    decreases syms, 1
  {
    var sorted := SortByStart(syms);
    assert forall i :: 0 <= i < |sorted| ==> sorted[i] in multiset(syms);
    var r := ConvertLevel(sorted, syms);
    assert SortedPermutation(sorted, syms) && |sorted| == |r|;
    r
  }

  /** The `.map(...)` step of `getTreeNodes` over an already sorted level
      `ps`, whose members all belong to `syms`. */
  function ConvertLevel(ps: seq<DocumentSymbol>, ghost syms: seq<DocumentSymbol>): (r: seq<RawNode>)
    requires forall i :: 0 <= i < |ps| ==> ps[i] in syms
    ensures |r| == |ps|
    ensures forall i :: 0 <= i < |r| ==> NodeConversion(ps[i], r[i])
    decreases syms, 0, |ps|
  {
    if |ps| == 0 then []
    else
      var s := ps[0];
      var head := RawNode(s.name, s.kind, s.detail, GetTreeNodes(s.children),
                          Range(s.range.start.line, s.range.end.line));
      assert NodeConversion(s, head);
      var tail := ConvertLevel(ps[1..], syms);
      var r := [head] + tail;
      assert forall i :: 1 <= i < |ps| ==> r[i] == tail[i - 1] && ps[i] == ps[1..][i - 1];
      assert forall i :: 1 <= i < |ps| ==> NodeConversion(ps[i], r[i]);
      r
  }

  /** Number of symbols in a forest, at every depth. */
  function SymbolCount(ss: seq<DocumentSymbol>): nat
    decreases ss
  {
    if |ss| == 0 then 0 else 1 + SymbolCount(ss[0].children) + SymbolCount(ss[1..])
  }

  /** Number of raw nodes in a forest, at every depth. */
  function NodeCount(ns: seq<RawNode>): nat
    decreases ns
  {
    if |ns| == 0 then 0 else 1 + NodeCount(ns[0].children) + NodeCount(ns[1..])
  }

  lemma {:induction false} CountAppend(a: seq<DocumentSymbol>, b: seq<DocumentSymbol>)
    ensures SymbolCount(a + b) == SymbolCount(a) + SymbolCount(b)
    decreases |a|
  {
    if |a| == 0 {
      assert a + b == b;
    } else {
      assert (a + b)[0] == a[0] && (a + b)[1..] == a[1..] + b;
      CountAppend(a[1..], b);
    }
  }

  /** Inserting a symbol adds its count. */
  lemma {:induction false} InsertCount(x: DocumentSymbol, s: seq<DocumentSymbol>)
    requires SortedByStart(s)
    ensures SymbolCount(Insert(x, s)) == SymbolCount([x]) + SymbolCount(s)
    decreases |s|
  {
    if |s| == 0 {
    } else if StartLine(x) <= StartLine(s[0]) {
      CountAppend([x], s);
    } else {
      InsertCount(x, s[1..]);
      var rest := Insert(x, s[1..]);
      assert ([s[0]] + rest)[1..] == rest;
    }
  }

  /** Sorting keeps the count. */
  lemma {:induction false} SortCount(s: seq<DocumentSymbol>)
    ensures SymbolCount(SortByStart(s)) == SymbolCount(s)
    decreases |s|
  {
    if |s| > 0 {
      SortCount(s[1..]);
      InsertCount(s[0], SortByStart(s[1..]));
      assert SymbolCount([s[0]]) == 1 + SymbolCount(s[0].children) by {
        assert [s[0]][1..] == [];
      }
    }
  }

  /** The conversion keeps the number of nodes at every depth: the webview
      receives exactly one raw node per document symbol. */
  lemma {:induction false} ConversionCount(syms: seq<DocumentSymbol>)
    ensures NodeCount(GetTreeNodes(syms)) == SymbolCount(syms)
    decreases syms, 1
  {
    var sorted := SortByStart(syms);
    SortCount(syms);
    assert forall i :: 0 <= i < |sorted| ==> sorted[i] in multiset(syms);
    LevelConversionCount(sorted, syms);
  }

  /** The count of a converted level is the count of the level. */
  lemma {:induction false} LevelConversionCount(ps: seq<DocumentSymbol>, syms: seq<DocumentSymbol>)
    requires forall i :: 0 <= i < |ps| ==> ps[i] in syms
    ensures NodeCount(ConvertLevel(ps, syms)) == SymbolCount(ps)
    decreases syms, 0, |ps|
  {
    if |ps| > 0 {
      ConversionCount(ps[0].children);
      LevelConversionCount(ps[1..], syms);
      var r := ConvertLevel(ps, syms);
      assert r[1..] == ConvertLevel(ps[1..], syms);
    }
  }
}
