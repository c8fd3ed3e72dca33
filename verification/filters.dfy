/**
 The filter widget's text and what it compiles to (`parseFiltersText`).

 The source builds `new RegExp(tokens.join("|"), "i")` for both the name and
 the kind matcher. The model keeps the compiled pattern as its list of
 alternatives and matches a string when some alternative occurs in it,
 ignoring ASCII letter case; the tokens are treated as literal text.
 */
module Filters {
  import opened Types

  /** A compiled filter: the alternatives of the `|`-joined pattern. */
  datatype Pattern = Pattern(alternatives: seq<string>)

  /** `Filters`: the name matcher and the kind matcher, each possibly absent. */
  datatype Filters = Filters(name: Option<Pattern>, kind: Option<Pattern>)

  /** The separator of the filter text. */
  const Comma := ','

  /** `s.split(sep)`: the pieces between separators, in order; never empty
      (`"".split(",")` is `[""]`). */
  function Split(s: string, sep: char): (r: seq<string>)
    ensures |r| >= 1
    ensures forall i :: 0 <= i < |r| ==> sep !in r[i]
    decreases |s|
  {
    if |s| == 0 then [""]
    else
      var rest := Split(s[1..], sep);
      if s[0] == sep then [""] + rest
      else [[s[0]] + rest[0]] + rest[1..]
  }

  /** `parts.join(sep)`. */
  function Join(parts: seq<string>, sep: char): string
    requires |parts| >= 1
    decreases |parts|
  {
    if |parts| == 1 then parts[0] else parts[0] + [sep] + Join(parts[1..], sep)
  }

  /** Splitting loses nothing: joining the pieces restores the text. */
  lemma {:induction false} JoinSplit(s: string, sep: char)
    ensures Join(Split(s, sep), sep) == s
    decreases |s|
  {
    if |s| > 0 {
      var rest := Split(s[1..], sep);
      JoinSplit(s[1..], sep);
      if s[0] == sep {
        assert ([""] + rest)[1..] == rest;
      } else {
        var r := [[s[0]] + rest[0]] + rest[1..];
        if |rest| > 1 {
          assert r[1..] == rest[1..];
          assert Join(rest, sep) == rest[0] + [sep] + Join(rest[1..], sep);
        }
        assert s == [s[0]] + s[1..];
      }
    }
  }

  lemma {:induction false} SplitNoSep(a: string, sep: char)
    requires sep !in a
    ensures Split(a, sep) == [a]
    decreases |a|
  {
    if |a| > 0 {
      SplitNoSep(a[1..], sep);
      assert a == [a[0]] + a[1..];
    }
  }

  lemma {:induction false} SplitAtSep(a: string, sep: char, b: string)
    requires sep !in a
    ensures Split(a + [sep] + b, sep) == [a] + Split(b, sep)
    decreases |a|
  {
    var s := a + [sep] + b;
    if |a| == 0 {
      assert s[1..] == b;
    } else {
      assert s[1..] == a[1..] + [sep] + b;
      SplitAtSep(a[1..], sep, b);
      assert a == [a[0]] + a[1..];
    }
  }

  /** ... and the pieces are recovered from their join when none of them
      contains the separator. */
  lemma {:induction false} SplitJoin(parts: seq<string>, sep: char)
    requires |parts| >= 1
    requires forall i :: 0 <= i < |parts| ==> sep !in parts[i]
    ensures Split(Join(parts, sep), sep) == parts
    decreases |parts|
  {
    if |parts| == 1 {
      SplitNoSep(parts[0], sep);
    } else {
      SplitJoin(parts[1..], sep);
      SplitAtSep(parts[0], sep, Join(parts[1..], sep));
      assert parts == [parts[0]] + parts[1..];
    }
  }

  /** The code points `String.prototype.trim` removes: the WhiteSpace and
      LineTerminator characters of ECMAScript (sections 12.2 and 12.3 of
      ECMA-262; the Unicode "Zs" category as of Unicode 15). */
  predicate IsWhitespace(c: char) {
    var u := c as int;
    || (0x09 <= u <= 0x0D) || u == 0x20 || u == 0xA0 || u == 0x1680
    || (0x2000 <= u <= 0x200A) || u == 0x2028 || u == 0x2029 || u == 0x202F
    || u == 0x205F || u == 0x3000 || u == 0xFEFF
  }

  predicate AllSpace(s: string) {
    forall k :: 0 <= k < |s| ==> IsWhitespace(s[k])
  }

  /** `s` with its leading whitespace removed: the longest suffix that does
      not start with whitespace. */
  function TrimStart(s: string): (r: string)
    ensures |r| <= |s| && r == s[|s| - |r|..]
    ensures forall k :: 0 <= k < |s| - |r| ==> IsWhitespace(s[k])
    ensures |r| > 0 ==> !IsWhitespace(r[0])
    decreases |s|
  {
    if |s| > 0 && IsWhitespace(s[0]) then
      var r := TrimStart(s[1..]);
      assert forall k :: 1 <= k < |s| ==> s[k] == s[1..][k - 1];
      r
    else s
  }

  /** `s` with its trailing whitespace removed: the longest prefix that does
      not end with whitespace. */
  function TrimEnd(s: string): (r: string)
    ensures |r| <= |s| && r == s[..|r|]
    ensures forall k :: |r| <= k < |s| ==> IsWhitespace(s[k])
    ensures |r| > 0 ==> !IsWhitespace(r[|r| - 1])
    decreases |s|
  {
    if |s| > 0 && IsWhitespace(s[|s| - 1]) then
      var r := TrimEnd(s[..|s| - 1]);
      assert forall k :: 0 <= k < |s| - 1 ==> s[k] == s[..|s| - 1][k];
      r
    else s
  }

  /** `s.trim()`: whitespace removed from both ends. The result is a slice
      of `s` with only whitespace cut off on either side, and it neither
      starts nor ends with whitespace. */
  function Trim(s: string): (r: string)
    ensures exists a, b :: 0 <= a <= b <= |s| && r == s[a..b] && AllSpace(s[..a]) && AllSpace(s[b..])
    ensures |r| > 0 ==> !IsWhitespace(r[0]) && !IsWhitespace(r[|r| - 1])
    ensures |r| == 0 <==> AllSpace(s)
  {
    var r := TrimEnd(TrimStart(s));
    TrimSlice(s);
    TrimEnds(s);
    TrimEmpty(s);
    r
  }

  /** The trimmed text is the slice between the leading and the trailing
      whitespace. */
  lemma TrimSlice(s: string)
    ensures var r := TrimEnd(TrimStart(s));
            exists a, b :: 0 <= a <= b <= |s| && r == s[a..b] && AllSpace(s[..a]) && AllSpace(s[b..])
  {
    var m := TrimStart(s);
    var r := TrimEnd(m);
    var a := |s| - |m|;
    var b := a + |r|;
    LeadingSpace(s, m);
    TrailingSpace(s, m, r, a, b);
    assert 0 <= a <= b <= |s| && r == s[a..b] && AllSpace(s[..a]) && AllSpace(s[b..]);
  }

  /** What `TrimStart` drops is whitespace. */
  lemma LeadingSpace(s: string, m: string)
    requires m == TrimStart(s)
    ensures |m| <= |s| && m == s[|s| - |m|..] && AllSpace(s[..|s| - |m|])
  {
    var a := |s| - |m|;
    forall k | 0 <= k < a
      ensures IsWhitespace(s[..a][k])
    {
      assert s[..a][k] == s[k];
    }
  }

  /** What `TrimEnd` drops from the rest of `s` is the whitespace at the end
      of `s`, and what it keeps is the slice in between. */
  lemma TrailingSpace(s: string, m: string, r: string, a: nat, b: nat)
    requires |m| <= |s| && a == |s| - |m| && m == s[a..] && r == TrimEnd(m) && b == a + |r|
    ensures b <= |s| && r == s[a..b] && AllSpace(s[b..])
  {
    assert s[b..] == m[|r|..];
    forall k | 0 <= k < |s| - b
      ensures IsWhitespace(m[|r|..][k])
    {
      assert m[|r|..][k] == m[|r| + k];
    }
  }

  lemma TrimEnds(s: string)
    ensures var r := TrimEnd(TrimStart(s));
            |r| > 0 ==> !IsWhitespace(r[0]) && !IsWhitespace(r[|r| - 1])
  {
    var a := TrimStart(s);
    var r := TrimEnd(a);
    if |r| > 0 {
      assert r[0] == a[0];
    }
  }

  lemma TrimEmpty(s: string)
    ensures |TrimEnd(TrimStart(s))| == 0 <==> AllSpace(s)
  {
    var a := TrimStart(s);
    var r := TrimEnd(a);
    if |r| == 0 {
      assert |a| == 0;
    } else {
      assert a[0] == s[|s| - |a|];
    }
  }

  /** Trimming twice is trimming once. */
  lemma TrimIdempotent(s: string)
    ensures Trim(Trim(s)) == Trim(s)
  {
    var r := Trim(s);
    if |r| > 0 {
      assert TrimStart(r) == r;
      assert TrimEnd(r) == r;
    }
  }

  /** The `.filter((filter) => filter.length >= 0)` step: keeps the tokens of
      non-negative length. */
  function KeepNonNegative(tokens: seq<string>): (r: seq<string>)
    ensures r == tokens
  {
    if |tokens| == 0 then []
    else (if |tokens[0]| >= 0 then [tokens[0]] else []) + KeepNonNegative(tokens[1..])
  }

  /** The tokens of the filter text: comma-split, each one trimmed, empty
      tokens kept. */
  function Tokens(text: string): (r: seq<string>)
    ensures |r| == |Split(text, Comma)| >= 1
    ensures forall i :: 0 <= i < |r| ==> r[i] == Trim(Split(text, Comma)[i])
  {
    var parts := Split(text, Comma);
    KeepNonNegative(seq(|parts|, i requires 0 <= i < |parts| => Trim(parts[i])))
  }

  /** `parseFiltersText`: no filter for the empty text; otherwise the same
      token pattern for names and for kinds. */
  function ParseFiltersText(text: string): (r: Option<Filters>)
    ensures r.None? <==> |text| == 0
    ensures r.Some? ==> r.value.name.Some? && r.value.name == r.value.kind
    ensures r.Some? ==> r.value.name.value.alternatives == Tokens(text)
  {
    if |text| == 0 then None
    else
      var tokens := Tokens(text);
      Some(Filters(Some(Pattern(tokens)), Some(Pattern(tokens))))
  }

  /** ASCII letters folded to lower case. */
  function Lower(c: char): char {
    if 'A' <= c <= 'Z' then (c as int - 'A' as int + 'a' as int) as char else c
  }

  function LowerAll(s: string): (r: string)
    ensures |r| == |s|
    ensures forall k :: 0 <= k < |s| ==> r[k] == Lower(s[k])
  {
    seq(|s|, k requires 0 <= k < |s| => Lower(s[k]))
  }

  predicate StartsWith(s: string, prefix: string) {
    |prefix| <= |s| && s[..|prefix|] == prefix
  }

  /** `needle` occurs somewhere in `s`. */
  predicate Contains(s: string, needle: string)
    decreases |s|
  {
    StartsWith(s, needle) || (|s| > 0 && Contains(s[1..], needle))
  }

  /** `s.match(pattern)` with the `i` flag is non-null: some alternative
      occurs in `s`, letter case ignored. */
  predicate Matches(p: Pattern, s: string) {
    exists i :: 0 <= i < |p.alternatives| && Contains(LowerAll(s), LowerAll(p.alternatives[i]))
  }

  /** An occurrence is a slice: `Contains` agrees with its positional definition. */
  lemma {:induction false} ContainsAt(s: string, needle: string, k: nat)
    requires k + |needle| <= |s| && s[k..k + |needle|] == needle
    ensures Contains(s, needle)
    decreases k
  {
    if k > 0 {
      assert s[1..][k - 1..k - 1 + |needle|] == s[k..k + |needle|];
      ContainsAt(s[1..], needle, k - 1);
    }
  }

  /** An empty alternative matches every string: a filter text with an empty
      token (`"a,"`, `","`, or whitespace only) shows every node. */
  lemma EmptyTokenMatchesAll(p: Pattern, s: string)
    requires "" in p.alternatives
    ensures Matches(p, s)
  {
    var i :| 0 <= i < |p.alternatives| && p.alternatives[i] == "";
    assert LowerAll(p.alternatives[i]) == "";
    assert StartsWith(LowerAll(s), "");
  }

  /** A pattern matches `s` when one of its alternatives occurs in `s` at
      position `k`, letter case ignored. */
  lemma MatchesAt(p: Pattern, i: nat, s: string, k: nat)
    requires i < |p.alternatives|
    requires k + |p.alternatives[i]| <= |s|
    requires LowerAll(s[k..k + |p.alternatives[i]|]) == LowerAll(p.alternatives[i])
    ensures Matches(p, s)
  {
    var tok := p.alternatives[i];
    assert LowerAll(s)[k..k + |tok|] == LowerAll(s[k..k + |tok|]);
    ContainsAt(LowerAll(s), LowerAll(tok), k);
  }

  /** A whitespace-only text is a filter (not "no filter"), and one that
      matches every name: the comma is not whitespace, so the text is a
      single token, which trims to the empty pattern. */
  lemma WhitespaceTextMatchesAll(text: string, s: string)
    requires |text| > 0 && AllSpace(text)
    ensures ParseFiltersText(text).Some?
    ensures Matches(ParseFiltersText(text).value.name.value, s)
  {
    forall k | 0 <= k < |text|
      ensures text[k] != Comma
    {
      assert IsWhitespace(text[k]);
    }
    SplitNoSep(text, Comma);
    assert Tokens(text)[0] == Trim(text) == "";
    EmptyTokenMatchesAll(Pattern(Tokens(text)), s);
  }

  /** Any token of the filter text that occurs in a name, letter case
      ignored, makes the parsed filter match that name. */
  lemma TokenMatches(text: string, i: nat, s: string, k: nat)
    requires |text| > 0 && i < |Tokens(text)|
    requires k + |Tokens(text)[i]| <= |s|
    requires LowerAll(s[k..k + |Tokens(text)[i]|]) == LowerAll(Tokens(text)[i])
    ensures Matches(ParseFiltersText(text).value.name.value, s)
    ensures Matches(ParseFiltersText(text).value.kind.value, s)
  {
    MatchesAt(Pattern(Tokens(text)), i, s, k);
  }
}
