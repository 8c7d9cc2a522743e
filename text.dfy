// String helpers that stand for the Python built-ins the converter relies on:
// str.startswith, str.splitlines (on '\n' only) and "\n".join.

module Text {

  /** Python's s.startswith(prefix). */
  predicate StartsWith(s: string, prefix: string)
  {
    |prefix| <= |s| && s[..|prefix|] == prefix
  }

  /** Index of the first '\n' in s, or |s| when there is none. */
  function IndexOfNewline(s: string): (k: nat)
    ensures k <= |s|
    ensures k < |s| ==> s[k] == '\n'
    ensures forall j :: 0 <= j < k ==> s[j] != '\n'
  {
    if s == [] then 0
    else if s[0] == '\n' then 0
    else 1 + IndexOfNewline(s[1..])
  }

  /** s.splitlines() restricted to '\n' as the only line terminator: a final
      terminator does not open an empty last line, and "" has no lines. */
  function SplitLines(s: string): (lines: seq<string>)
    ensures forall l :: l in lines ==> '\n' !in l
    ensures s != [] <==> lines != []
    decreases |s|
  {
    if s == [] then []
    else
      var k := IndexOfNewline(s);
      if k == |s| then [s]
      else [s[..k]] + SplitLines(s[k + 1..])
  }

  /** "\n".join(parts). */
  function Join(parts: seq<string>): string
  {
    if parts == [] then ""
    else if |parts| == 1 then parts[0]
    else parts[0] + "\n" + Join(parts[1..])
  }

  /** The terminator that SplitLines drops from the end of s, if any. */
  function TrailingNewline(s: string): string
  {
    if s != [] && s[|s| - 1] == '\n' then "\n" else ""
  }

  /** Joining the lines of s gives s back, up to a final '\n'. */
  lemma {:induction false} SplitThenJoin(s: string)
    ensures Join(SplitLines(s)) + TrailingNewline(s) == s
    decreases |s|
  {
    if s != [] {
      var k := IndexOfNewline(s);
      if k == |s| {
        assert '\n' !in s;
      } else {
        var t := s[k + 1..];
        assert s == s[..k] + "\n" + t;
        if t != [] {
          SplitThenJoin(t);
          SplitStep(s, k);
          assert TrailingNewline(s) == TrailingNewline(t);
        }
      }
    }
  }

  /** One step of SplitThenJoin: the first line, then the join of the rest. */
  lemma {:induction false} SplitStep(s: string, k: nat)
    requires k == IndexOfNewline(s) < |s| - 1
    ensures Join(SplitLines(s)) == s[..k] + "\n" + Join(SplitLines(s[k + 1..]))
  {
    var rest := SplitLines(s[k + 1..]);
    assert rest != [];
    assert SplitLines(s) == [s[..k]] + rest;
  }

  /** A join ends with the last character of its last part, so a join whose
      last part is a non-empty line does not end with '\n'. */
  lemma {:induction false} JoinLastChar(parts: seq<string>)
    requires parts != [] && parts[|parts| - 1] != ""
    ensures var s := Join(parts); var last := parts[|parts| - 1];
      s != "" && s[|s| - 1] == last[|last| - 1]
  {
    if |parts| > 1 {
      var rest := parts[1..];
      assert rest[|rest| - 1] == parts[|parts| - 1];
      JoinLastChar(rest);
    }
  }

  /** Splitting a join gives the parts back when no part holds a '\n' and
      the last part is not empty (an empty last part would be dropped). */
  lemma {:induction false} JoinThenSplit(parts: seq<string>)
    requires forall p :: p in parts ==> '\n' !in p
    requires parts != [] ==> parts[|parts| - 1] != ""
    ensures SplitLines(Join(parts)) == parts
  {
    if parts != [] {
      var p := parts[0];
      assert '\n' !in p;
      if |parts| == 1 {
        assert IndexOfNewline(p) == |p|;
      } else {
        var rest := parts[1..];
        assert forall q :: q in rest ==> q in parts;
        JoinThenSplit(rest);
        var s := p + "\n" + Join(rest);
        assert s[|p|] == '\n';
        assert forall j :: 0 <= j < |p| ==> s[j] == p[j];
        assert IndexOfNewline(s) == |p|;
        assert s[..|p|] == p;
        assert s[|p| + 1..] == Join(rest);
      }
    }
  }
}
