// The Markdown-to-HTML line converter: headings "# " to "###### ", and runs
// of "- " lines rendered as one unordered list. Every other line (blank,
// plain text, "####### x", ...) produces nothing.

module Markdown2Html {
  import opened Text

  // ---------------------------------------------------------------------
  // Heading markers.

  /** k '#' characters. */
  function Hashes(k: nat): string
  {
    seq(k, _ => '#')
  }

  /** The heading marker of level k: k '#' characters and a space. */
  function Marker(k: nat): string
  {
    Hashes(k) + " "
  }

  /** Position p of the level-k marker: '#' before k, the space at k. */
  lemma MarkerAt(k: nat, p: nat)
    requires p <= k
    ensures p < |Marker(k)| && Marker(k)[p] == (if p < k then '#' else ' ')
  {
  }

  /** The six markers of the source, spelled out. */
  lemma MarkerLiterals()
    ensures Marker(1) == "# " && Marker(2) == "## " && Marker(3) == "### "
    ensures Marker(4) == "#### " && Marker(5) == "##### " && Marker(6) == "###### "
  {
  }

  /** At most one heading marker matches a line, so the order in which the
      if-chain tries them does not matter. */
  lemma MarkersExclusive(line: string, j: nat, k: nat)
    requires StartsWith(line, Marker(j)) && StartsWith(line, Marker(k))
    ensures j == k
  {
    var m := if j < k then j else k;
    MarkerAt(j, m);
    MarkerAt(k, m);
  }

  // ---------------------------------------------------------------------
  // Classifying one line.

  /** How the converter's if-chain sees one line. */
  datatype LineKind = Heading(level: nat, text: string) | ListItem | Plain

  /** The number of '#' characters the line starts with. */
  function LeadingHashes(line: string): (h: nat)
    ensures h <= |line|
    ensures forall j :: 0 <= j < h ==> line[j] == '#'
    ensures h < |line| ==> line[h] != '#'
  {
    if line == [] || line[0] != '#' then 0 else 1 + LeadingHashes(line[1..])
  }

  /** A line is a heading of level h when it starts with h '#' characters,
      1 <= h <= 6, followed by a space; otherwise a list line when it starts
      with "- "; otherwise it is plain. */
  function Classify(line: string): LineKind
  {
    var h := LeadingHashes(line);
    if 1 <= h <= 6 && h < |line| && line[h] == ' ' then Heading(h, line[h + 1..])
    else if StartsWith(line, "- ") then ListItem
    else Plain
  }

  /** The level-k marker matches exactly when the line starts with k '#'
      characters, no more, and a space. */
  lemma MarkerMatch(line: string, k: nat)
    ensures StartsWith(line, Marker(k)) <==>
      LeadingHashes(line) == k && k < |line| && line[k] == ' '
  {
    var h := LeadingHashes(line);
    if StartsWith(line, Marker(k)) {
      forall p | 0 <= p <= k
        ensures line[p] == (if p < k then '#' else ' ')
      {
        MarkerAt(k, p);
        assert line[..k + 1][p] == line[p];
      }
      assert line[k] == ' ';
    }
    if h == k && k < |line| && line[k] == ' ' {
      assert |Marker(k)| == k + 1;
      forall p | 0 <= p <= k
        ensures line[..k + 1][p] == Marker(k)[p]
      {
        MarkerAt(k, p);
      }
      assert line[..k + 1] == Marker(k);
    }
  }

  /** Classify agrees with the if-chain of markdown2html: a heading of level
      k, 1 <= k <= 6, with the first k + 1 characters removed, exactly when
      the line starts with the level-k marker; a list line exactly when it
      starts with "- "; nothing otherwise. */
  lemma ClassifyMeaning(line: string)
    ensures var kind := Classify(line);
      && (kind.Heading? ==>
            1 <= kind.level <= 6 && StartsWith(line, Marker(kind.level)) &&
            kind.text == line[kind.level + 1..])
      && (forall k :: 1 <= k <= 6 && StartsWith(line, Marker(k)) ==> kind.Heading? && kind.level == k)
      && (kind.ListItem? <==> StartsWith(line, "- "))
      && (kind.Plain? <==>
            !StartsWith(line, "- ") && forall k :: 1 <= k <= 6 ==> !StartsWith(line, Marker(k)))
  {
    var kind := Classify(line);
    var h := LeadingHashes(line);
    forall k | 1 <= k <= 6
      ensures StartsWith(line, Marker(k)) <==> h == k && k < |line| && line[k] == ' '
    {
      MarkerMatch(line, k);
    }
    if StartsWith(line, "- ") {
      assert line[0] == '-';
    }
  }

  /** "####### x" and longer runs of '#' are not headings. */
  lemma SevenHashesArePlain(line: string)
    requires StartsWith(line, Hashes(7))
    ensures Classify(line).Plain?
  {
    ClassifyMeaning(line);
    assert line[0] == '#';
    forall k | 1 <= k <= 6
      ensures !StartsWith(line, Marker(k))
    {
      assert line[k] == Hashes(7)[k] == '#';
      MarkerAt(k, k);
    }
  }

  // ---------------------------------------------------------------------
  // Rendering.

  /** The opening tag of a level-k heading, <hk>. */
  function OpenTag(level: nat): string
    requires 1 <= level <= 6
  {
    if level == 1 then "<h1>" else if level == 2 then "<h2>" else if level == 3 then "<h3>"
    else if level == 4 then "<h4>" else if level == 5 then "<h5>" else "<h6>"
  }

  /** The closing tag of a level-k heading, </hk>. */
  function CloseTag(level: nat): string
    requires 1 <= level <= 6
  {
    if level == 1 then "</h1>" else if level == 2 then "</h2>" else if level == 3 then "</h3>"
    else if level == 4 then "</h4>" else if level == 5 then "</h5>" else "</h6>"
  }

  /** The tags of a level-k heading carry the digit k. */
  lemma TagsCarryLevel(level: nat)
    requires 1 <= level <= 6
    ensures var d := "0123456"[level];
      OpenTag(level) == "<h" + [d] + ">" && CloseTag(level) == "</h" + [d] + ">"
  {
  }

  /** <hk>text</hk> */
  function HeadingHtml(level: nat, text: string): string
    requires 1 <= level <= 6
  {
    OpenTag(level) + text + CloseTag(level)
  }

  /** <li>item</li>, the item being the line without its "- " marker. */
  function ItemHtml(line: string): string
    requires StartsWith(line, "- ")
  {
    "<li>" + line[2..] + "</li>"
  }

  /** The end of the run of "- " lines that starts at index i: the first
      index at or after i whose line does not start with "- ", or |lines|. */
  function RunEnd(lines: seq<string>, i: nat): (e: nat)
    requires i <= |lines|
    ensures i <= e <= |lines|
    ensures forall j :: i <= j < e ==> StartsWith(lines[j], "- ")
    ensures e < |lines| ==> !StartsWith(lines[e], "- ")
    decreases |lines| - i
  {
    if i == |lines| || !StartsWith(lines[i], "- ") then i else RunEnd(lines, i + 1)
  }

  /** The run is the longest one: any e with "- " lines from i up to e and a
      line without it at e (or the end of the input) is RunEnd(lines, i). */
  lemma {:induction false} RunEndUnique(lines: seq<string>, i: nat, e: nat)
    requires i <= e <= |lines|
    requires forall j :: i <= j < e ==> StartsWith(lines[j], "- ")
    requires e < |lines| ==> !StartsWith(lines[e], "- ")
    ensures RunEnd(lines, i) == e
    decreases e - i
  {
    if i < e {
      RunEndUnique(lines, i + 1, e);
    }
  }

  /** One <li> entry for each of the lines i up to e, in order. */
  function ItemsBetween(lines: seq<string>, i: nat, e: nat): (items: seq<string>)
    requires i <= e <= |lines|
    requires forall j :: i <= j < e ==> StartsWith(lines[j], "- ")
    ensures |items| == e - i
    ensures forall p :: 0 <= p < e - i ==> items[p] == ItemHtml(lines[i + p])
    decreases e - i
  {
    if i == e then [] else [ItemHtml(lines[i])] + ItemsBetween(lines, i + 1, e)
  }

  /** The rendering of the list run from i up to e: "<ul>", the items, "</ul>". */
  function ListBlock(lines: seq<string>, i: nat, e: nat): seq<string>
    requires i <= e <= |lines|
    requires forall j :: i <= j < e ==> StartsWith(lines[j], "- ")
  {
    ["<ul>"] + ItemsBetween(lines, i, e) + ["</ul>"]
  }

  /** The list block of lines i up to e: "<ul>", then entry q is the <li> of
      line i + q - 1 with its marker removed, then "</ul>". */
  lemma ListBlockShape(lines: seq<string>, i: nat, e: nat)
    requires i <= e <= |lines|
    requires forall j :: i <= j < e ==> StartsWith(lines[j], "- ")
    ensures var block := ListBlock(lines, i, e);
      && |block| == e - i + 2
      && block[0] == "<ul>" && block[|block| - 1] == "</ul>"
      && forall q :: 1 <= q <= e - i ==> block[q] == "<li>" + lines[i + q - 1][2..] + "</li>"
  {
  }

  // ---------------------------------------------------------------------
  // The cursor walk, as functions.

  /** What the loop body does at cursor i: the fragments it emits and the
      cursor it moves to. */
  datatype Step = Step(fragments: seq<string>, next: nat)

  function StepAt(lines: seq<string>, i: nat): (s: Step)
    requires i < |lines|
    ensures i < s.next <= |lines| + 1
  {
    match Classify(lines[i])
    case Heading(level, text) => Step([HeadingHtml(level, text)], i + 1)
    case ListItem =>
      var e := RunEnd(lines, i);
      Step(ListBlock(lines, i, e), e + 1)
    case Plain => Step([], i + 1)
  }

  /** The fragments emitted from cursor i to the end of the input. */
  function FragmentsFrom(lines: seq<string>, i: nat): seq<string>
    decreases |lines| - i
  {
    if i >= |lines| then []
    else
      var s := StepAt(lines, i);
      s.fragments + FragmentsFrom(lines, s.next)
  }

  function Fragments(lines: seq<string>): seq<string>
  {
    FragmentsFrom(lines, 0)
  }

  /** The cursor positions the loop examines, starting from i: strictly
      increasing, so the loop ends. */
  function Visited(lines: seq<string>, i: nat): (cs: seq<nat>)
    ensures forall p :: 0 <= p < |cs| ==> i <= cs[p] < |lines|
    ensures forall p, q :: 0 <= p < q < |cs| ==> cs[p] < cs[q]
    ensures i < |lines| ==> cs != [] && cs[0] == i
    decreases |lines| - i
  {
    if i >= |lines| then []
    else [i] + Visited(lines, StepAt(lines, i).next)
  }

  /** The fragments that the given cursor positions emit, in that order. */
  function StepsFragments(lines: seq<string>, cs: seq<nat>): seq<string>
    requires forall p :: 0 <= p < |cs| ==> cs[p] < |lines|
  {
    if cs == [] then []
    else StepAt(lines, cs[0]).fragments + StepsFragments(lines, cs[1..])
  }

  /** One turn of the walk: what the step at i emits, then the rest. */
  lemma FragmentsStep(lines: seq<string>, i: nat)
    requires i < |lines|
    ensures FragmentsFrom(lines, i) ==
      StepAt(lines, i).fragments + FragmentsFrom(lines, StepAt(lines, i).next)
  {
  }

  /** Two inputs with the same turn at i and the same output after it have
      the same output from i. */
  lemma SameTurn(a: seq<string>, b: seq<string>, i: nat, next: nat)
    requires i < |a| && i < |b| && StepAt(a, i) == StepAt(b, i) && StepAt(a, i).next == next
    requires FragmentsFrom(a, next) == FragmentsFrom(b, next)
    ensures FragmentsFrom(a, i) == FragmentsFrom(b, i)
  {
    FragmentsStep(a, i);
    FragmentsStep(b, i);
  }

  /** A heading line emits its heading and moves the cursor by one. */
  lemma StepHeading(lines: seq<string>, i: nat, k: nat)
    requires i < |lines| && 1 <= k <= 6 && StartsWith(lines[i], Marker(k))
    ensures StepAt(lines, i) == Step([HeadingHtml(k, lines[i][k + 1..])], i + 1)
  {
    ClassifyMeaning(lines[i]);
  }

  /** A "- " line emits the list of the whole run, at least one item, and
      moves the cursor one past the end of the run. */
  lemma StepList(lines: seq<string>, i: nat)
    requires i < |lines| && StartsWith(lines[i], "- ")
    ensures var e := RunEnd(lines, i);
      i < e && StepAt(lines, i) == Step(ListBlock(lines, i, e), e + 1)
  {
    ClassifyMeaning(lines[i]);
  }

  /** Any other line emits nothing and moves the cursor by one. */
  lemma StepPlain(lines: seq<string>, i: nat)
    requires i < |lines| && !StartsWith(lines[i], "- ")
    requires forall k :: 1 <= k <= 6 ==> !StartsWith(lines[i], Marker(k))
    ensures StepAt(lines, i) == Step([], i + 1)
  {
    ClassifyMeaning(lines[i]);
  }

  // ---------------------------------------------------------------------
  // The two routines of the source.

  /** list_handler: the list run at the head of lines, rendered, and its length. */
  method ListHandler(lines: seq<string>) returns (htmlList: seq<string>, lineCount: nat)
    ensures lineCount <= |lines|
    ensures forall j :: 0 <= j < lineCount ==> StartsWith(lines[j], "- ")
    ensures lineCount < |lines| ==> !StartsWith(lines[lineCount], "- ")
    ensures |htmlList| == lineCount + 2
    ensures htmlList[0] == "<ul>" && htmlList[lineCount + 1] == "</ul>"
    ensures forall j :: 0 <= j < lineCount ==> htmlList[j + 1] == ItemHtml(lines[j])
    ensures lineCount == RunEnd(lines, 0) && htmlList == ListBlock(lines, 0, lineCount)
  {
    htmlList := ["<ul>"];
    lineCount := 0;
    for k := 0 to |lines|
      invariant lineCount == k
      invariant forall j :: 0 <= j < lineCount ==> StartsWith(lines[j], "- ")
      invariant |htmlList| == lineCount + 1 && htmlList[0] == "<ul>"
      invariant forall j :: 0 <= j < lineCount ==> htmlList[j + 1] == ItemHtml(lines[j])
    {
      var line := lines[k];
      if StartsWith(line, "- ") {
        htmlList := htmlList + ["<li>" + line[2..] + "</li>"];
        lineCount := lineCount + 1;
      } else {
        break;
      }
    }
    htmlList := htmlList + ["</ul>"];
    RunEndUnique(lines, 0, lineCount);
    assert htmlList == ListBlock(lines, 0, lineCount);
  }

  /** markdown2html: split the content into lines, convert them, and join
      the emitted fragments with "\n". */
  method Markdown2Html(markdownContent: string) returns (html: string)
    ensures html == Join(Fragments(SplitLines(markdownContent)))
    ensures SplitLines(html) == Fragments(SplitLines(markdownContent))
    ensures markdownContent == "" ==> html == ""
    ensures html == "" || html[|html| - 1] != '\n'
  {
    var lines := SplitLines(markdownContent);
    var htmlLines := ConvertLines(lines);
    html := Join(htmlLines);
    OneFragmentPerLine(markdownContent);
  }

  /** The loop of markdown2html: walk the lines with a cursor, emitting the
      fragments of each line the cursor lands on. */
  method ConvertLines(lines: seq<string>) returns (htmlLines: seq<string>)
    ensures htmlLines == Fragments(lines)
  {
    htmlLines := [];
    var i := 0;
    while i < |lines|
      invariant i <= |lines| + 1
      invariant htmlLines + FragmentsFrom(lines, i) == Fragments(lines)
      decreases |lines| + 1 - i
    {
      Turn(lines, htmlLines, i);
      htmlLines, i := ConvertLine(lines, htmlLines, i);
    }
    assert FragmentsFrom(lines, i) == [];
  }

  /** The body of that loop: the if-chain on lines[i], appending to the
      output and moving the cursor as StepAt says. */
  method ConvertLine(lines: seq<string>, htmlLines: seq<string>, i: nat)
    returns (htmlLinesAfter: seq<string>, iAfter: nat)
    requires i < |lines|
    ensures htmlLinesAfter == htmlLines + StepAt(lines, i).fragments
    ensures iAfter == StepAt(lines, i).next
  {
    htmlLinesAfter, iAfter := htmlLines, i;
    var line := lines[i];
    MarkerLiterals();
    if StartsWith(line, "# ") {
      StepHeading(lines, i, 1);
      htmlLinesAfter := htmlLinesAfter + ["<h1>" + line[2..] + "</h1>"];
    } else if StartsWith(line, "## ") {
      StepHeading(lines, i, 2);
      htmlLinesAfter := htmlLinesAfter + ["<h2>" + line[3..] + "</h2>"];
    } else if StartsWith(line, "### ") {
      StepHeading(lines, i, 3);
      htmlLinesAfter := htmlLinesAfter + ["<h3>" + line[4..] + "</h3>"];
    } else if StartsWith(line, "#### ") {
      StepHeading(lines, i, 4);
      htmlLinesAfter := htmlLinesAfter + ["<h4>" + line[5..] + "</h4>"];
    } else if StartsWith(line, "##### ") {
      StepHeading(lines, i, 5);
      htmlLinesAfter := htmlLinesAfter + ["<h5>" + line[6..] + "</h5>"];
    } else if StartsWith(line, "###### ") {
      StepHeading(lines, i, 6);
      htmlLinesAfter := htmlLinesAfter + ["<h6>" + line[7..] + "</h6>"];
    } else if StartsWith(line, "- ") {
      var listHtml, lineCount := ListHandler(lines[i..]);
      ListTurn(lines, i, listHtml, lineCount);
      htmlLinesAfter := htmlLinesAfter + listHtml;
      iAfter := iAfter + lineCount;
    } else {
      PlainTurn(lines, i);
    }
    iAfter := iAfter + 1;
  }

  // The loop of ConvertLines keeps "emitted so far + still to emit ==
  // everything"; each branch of the if-chain of ConvertLine does what
  // StepAt says.

  lemma Turn(lines: seq<string>, done: seq<string>, i: nat)
    requires i < |lines|
    requires done + FragmentsFrom(lines, i) == Fragments(lines)
    ensures var s := StepAt(lines, i);
      (done + s.fragments) + FragmentsFrom(lines, s.next) == Fragments(lines)
  {
    var s := StepAt(lines, i);
    FragmentsStep(lines, i);
    assert done + (s.fragments + FragmentsFrom(lines, s.next))
        == (done + s.fragments) + FragmentsFrom(lines, s.next);
  }

  lemma ListTurn(lines: seq<string>, i: nat, listHtml: seq<string>, lineCount: nat)
    requires i < |lines| && StartsWith(lines[i], "- ")
    requires lineCount <= |lines| - i
    requires forall j :: 0 <= j < lineCount ==> StartsWith(lines[i..][j], "- ")
    requires lineCount < |lines| - i ==> !StartsWith(lines[i..][lineCount], "- ")
    requires |listHtml| == lineCount + 2
    requires listHtml[0] == "<ul>" && listHtml[lineCount + 1] == "</ul>"
    requires forall j :: 0 <= j < lineCount ==> listHtml[j + 1] == ItemHtml(lines[i..][j])
    ensures StepAt(lines, i) == Step(listHtml, i + lineCount + 1)
  {
    var e := i + lineCount;
    forall j | i <= j < e
      ensures StartsWith(lines[j], "- ")
    {
      assert lines[i..][j - i] == lines[j];
    }
    if e < |lines| {
      assert lines[i..][lineCount] == lines[e];
    }
    RunEndUnique(lines, i, e);
    StepList(lines, i);
    var block := ListBlock(lines, i, e);
    forall q | 1 <= q <= lineCount
      ensures listHtml[q] == block[q]
    {
      assert lines[i..][q - 1] == lines[i + (q - 1)];
    }
    assert listHtml == ListBlock(lines, i, e);
  }

  lemma PlainTurn(lines: seq<string>, i: nat)
    requires i < |lines|
    requires !StartsWith(lines[i], "# ") && !StartsWith(lines[i], "## ") && !StartsWith(lines[i], "### ")
    requires !StartsWith(lines[i], "#### ") && !StartsWith(lines[i], "##### ") && !StartsWith(lines[i], "###### ")
    requires !StartsWith(lines[i], "- ")
    ensures StepAt(lines, i) == Step([], i + 1)
  {
    MarkerLiterals();
    StepPlain(lines, i);
  }

  // ---------------------------------------------------------------------
  // Properties of the walk.

  /** A line starting with k '#' and a space, 1 <= k <= 6, emits exactly
      <hk> + the line without its first k + 1 characters + </hk>, and the
      next line is examined next. */
  lemma HeadingLine(lines: seq<string>, i: nat, k: nat)
    requires i < |lines| && 1 <= k <= 6 && StartsWith(lines[i], Marker(k))
    ensures FragmentsFrom(lines, i) ==
      [HeadingHtml(k, lines[i][k + 1..])] + FragmentsFrom(lines, i + 1)
  {
    StepHeading(lines, i, k);
  }

  /** A line that is neither a heading nor a list line (a blank line, plain
      text, "####### x") emits nothing, and the next line is examined next. */
  lemma PlainLine(lines: seq<string>, i: nat)
    requires i < |lines| && !StartsWith(lines[i], "- ")
    requires forall k :: 1 <= k <= 6 ==> !StartsWith(lines[i], Marker(k))
    ensures FragmentsFrom(lines, i) == FragmentsFrom(lines, i + 1)
  {
    StepPlain(lines, i);
  }

  /** A "- " line opens a list of the longest run of "- " lines, at least
      one; the next line examined is one past the line that ended the run. */
  lemma ListLine(lines: seq<string>, i: nat)
    requires i < |lines| && StartsWith(lines[i], "- ")
    ensures var e := RunEnd(lines, i);
      i < e && FragmentsFrom(lines, i) == ListBlock(lines, i, e) + FragmentsFrom(lines, e + 1)
  {
    FragmentsStep(lines, i);
    StepList(lines, i);
  }

  /** Only lines[i..] matter for the output from cursor i. */
  lemma {:induction false} SuffixOnly(a: seq<string>, b: seq<string>, i: nat)
    requires |a| == |b|
    requires forall j :: i <= j < |a| ==> a[j] == b[j]
    ensures FragmentsFrom(a, i) == FragmentsFrom(b, i)
    decreases |a| - i
  {
    if i < |a| {
      var e := RunEnd(a, i);
      RunEndUnique(b, i, e);
      assert ItemsBetween(a, i, e) == ItemsBetween(b, i, e);
      assert StepAt(a, i) == StepAt(b, i);
      SuffixOnly(a, b, StepAt(a, i).next);
    }
  }

  /** The line right after a list run is never examined: whatever non-list
      line stands there (a heading, text, a blank line), the output is the
      same. */
  lemma ListSwallowsNextLine(lines: seq<string>, i: nat, x: string)
    requires i < |lines| && StartsWith(lines[i], "- ")
    requires RunEnd(lines, i) < |lines|
    requires !StartsWith(x, "- ")
    ensures FragmentsFrom(lines[RunEnd(lines, i) := x], i) == FragmentsFrom(lines, i)
  {
    var e := RunEnd(lines, i);
    UpdateBefore(lines, e, x, e + 1);
    ListTurnIgnoresNextLine(lines, i, x);
  }

  /** The turn at a list line is the same whatever non-list line ends the
      run, so the output from the list line depends only on what comes after
      that line. */
  lemma ListTurnIgnoresNextLine(lines: seq<string>, i: nat, x: string)
    requires i < |lines| && StartsWith(lines[i], "- ")
    requires RunEnd(lines, i) < |lines|
    requires !StartsWith(x, "- ")
    requires var e := RunEnd(lines, i);
      FragmentsFrom(lines[e := x], e + 1) == FragmentsFrom(lines, e + 1)
    ensures StepAt(lines[RunEnd(lines, i) := x], i) == StepAt(lines, i)
    ensures FragmentsFrom(lines[RunEnd(lines, i) := x], i) == FragmentsFrom(lines, i)
  {
    var e := RunEnd(lines, i);
    var m := lines[e := x];
    StepList(lines, i);
    RunEndUnique(m, i, e);
    StepList(m, i);
    SameBlock(m, lines, i, e);
    SameTurn(m, lines, i, e + 1);
  }

  /** A list block depends only on the lines of its run. */
  lemma SameBlock(a: seq<string>, b: seq<string>, i: nat, e: nat)
    requires i <= e <= |a| && e <= |b|
    requires forall j :: i <= j < e ==> a[j] == b[j] && StartsWith(a[j], "- ")
    ensures ListBlock(a, i, e) == ListBlock(b, i, e)
  {
    assert ItemsBetween(a, i, e) == ItemsBetween(b, i, e);
  }

  /** Changing a line before cursor k does not change the output from k. */
  lemma UpdateBefore(lines: seq<string>, e: nat, x: string, k: nat)
    requires e < k && e < |lines|
    ensures FragmentsFrom(lines[e := x], k) == FragmentsFrom(lines, k)
  {
    SuffixOnly(lines[e := x], lines, k);
  }

  /** The line right after a list the walk reaches is never examined, so the
      whole output is the same whatever non-list line stands there. */
  lemma DocumentIgnoresLineAfterList(lines: seq<string>, i: nat, x: string)
    requires i in Visited(lines, 0) && StartsWith(lines[i], "- ")
    requires RunEnd(lines, i) < |lines|
    requires !StartsWith(x, "- ")
    ensures Fragments(lines[RunEnd(lines, i) := x]) == Fragments(lines)
  {
    var e := RunEnd(lines, i);
    var m := lines[e := x];
    ListSwallowsNextLine(lines, i, x);
    PrefixAgree(lines, m, 0, i);
  }

  /** Two inputs that agree on the lines before a position i the walk from c
      reaches, and whose outputs from i agree, have the same output from c. */
  lemma {:induction false} PrefixAgree(a: seq<string>, b: seq<string>, c: nat, i: nat)
    requires |a| == |b| && i in Visited(a, c)
    requires forall j :: c <= j < i ==> a[j] == b[j]
    requires FragmentsFrom(a, i) == FragmentsFrom(b, i)
    ensures FragmentsFrom(a, c) == FragmentsFrom(b, c)
    decreases |a| - c
  {
    if i != c {
      var next := StepAt(a, c).next;
      assert i in Visited(a, next);
      assert next <= i < |a|;
      PrefixAgree(a, b, next, i);
      SameStep(a, b, c, i);
      SameTurn(a, b, c, next);
    }
  }

  /** The turn at c is the same on two inputs that agree on every line the
      turn reads, that is on the lines from c up to where the turn jumps. */
  lemma SameStep(a: seq<string>, b: seq<string>, c: nat, n: nat)
    requires |a| == |b| && c < |a| && StepAt(a, c).next <= n <= |a|
    requires forall j :: c <= j < n ==> a[j] == b[j]
    ensures StepAt(a, c) == StepAt(b, c)
  {
    if StartsWith(a[c], "- ") {
      var e := RunEnd(a, c);
      StepList(a, c);
      assert a[e] == b[e] by { assert e < n; }
      RunEndUnique(b, c, e);
      StepList(b, c);
      SameBlock(a, b, c, e);
    } else {
      assert a[c] == b[c];
    }
  }

  /** Every cursor position after a visited position k lies beyond k's step. */
  lemma {:induction false} VisitedJumps(lines: seq<string>, i: nat, k: nat)
    requires k in Visited(lines, i)
    ensures k < |lines|
    ensures forall x :: x in Visited(lines, i) && x > k ==> x >= StepAt(lines, k).next
    decreases |lines| - i
  {
    if k != i {
      var next := StepAt(lines, i).next;
      assert k in Visited(lines, next);
      VisitedJumps(lines, next, k);
    }
  }

  /** The cursor never lands on the line that ends a list run. */
  lemma LineAfterListNotVisited(lines: seq<string>, k: nat)
    requires k in Visited(lines, 0) && k < |lines|
    requires StartsWith(lines[k], "- ")
    requires RunEnd(lines, k) < |lines|
    ensures RunEnd(lines, k) !in Visited(lines, 0)
  {
    VisitedJumps(lines, 0, k);
    StepList(lines, k);
  }

  /** For example, the heading in "- a\n# T" is never emitted. */
  lemma HeadingAfterListIsLost()
    ensures Fragments(["- a", "# T"]) == ["<ul>", "<li>a</li>", "</ul>"]
  {
    var lines := ["- a", "# T"];
    assert lines[1][..2][0] == '#';
    RunEndUnique(lines, 0, 1);
    ListLine(lines, 0);
    assert ItemHtml(lines[0]) == "<li>a</li>";
  }

  /** The output is what each visited line emits, in increasing line order. */
  lemma {:induction false} FragmentsInCursorOrder(lines: seq<string>, i: nat)
    ensures FragmentsFrom(lines, i) == StepsFragments(lines, Visited(lines, i))
    decreases |lines| - i
  {
    if i < |lines| {
      var cs := Visited(lines, i);
      FragmentsInCursorOrder(lines, StepAt(lines, i).next);
      assert cs[1..] == Visited(lines, StepAt(lines, i).next);
    }
  }

  // ---------------------------------------------------------------------
  // Shape of the output.

  predicate IsItemFragment(f: string)
  {
    |f| >= 9 && f[..4] == "<li>" && f[|f| - 5..] == "</li>"
  }

  predicate IsHeadingFragment(f: string)
  {
    |f| >= 9 && f[..2] == "<h" && '1' <= f[2] <= '6' && f[3] == '>' &&
    f[|f| - 5..] == "</h" + [f[2]] + ">"
  }

  /** The fragments are headings and lists "<ul>", items, "</ul>", lists
      never nesting; inList says that a "<ul>" is still open. */
  predicate ListsWellFormed(fs: seq<string>, inList: bool)
    decreases |fs|
  {
    if fs == [] then !inList
    else if inList then
      (fs[0] == "</ul>" && ListsWellFormed(fs[1..], false)) ||
      (IsItemFragment(fs[0]) && ListsWellFormed(fs[1..], true))
    else
      (fs[0] == "<ul>" && ListsWellFormed(fs[1..], true)) ||
      (IsHeadingFragment(fs[0]) && ListsWellFormed(fs[1..], false))
  }

  lemma {:induction false} AppendWellFormed(a: seq<string>, b: seq<string>, inList: bool)
    requires ListsWellFormed(a, inList) && ListsWellFormed(b, false)
    ensures ListsWellFormed(a + b, inList)
    decreases |a|
  {
    if a == [] {
      assert a + b == b;
    } else {
      var ab := a + b;
      assert ab[0] == a[0];
      assert ab[1..] == a[1..] + b;
      if inList && a[0] == "</ul>" && ListsWellFormed(a[1..], false) {
        AppendWellFormed(a[1..], b, false);
      } else if inList {
        AppendWellFormed(a[1..], b, true);
      } else if a[0] == "<ul>" && ListsWellFormed(a[1..], true) {
        AppendWellFormed(a[1..], b, true);
      } else {
        AppendWellFormed(a[1..], b, false);
      }
    }
  }

  lemma {:induction false} ItemsWellFormed(lines: seq<string>, i: nat, e: nat)
    requires i <= e <= |lines|
    requires forall j :: i <= j < e ==> StartsWith(lines[j], "- ")
    ensures ListsWellFormed(ItemsBetween(lines, i, e) + ["</ul>"], true)
    decreases e - i
  {
    var fs := ItemsBetween(lines, i, e) + ["</ul>"];
    if i == e {
      assert fs == ["</ul>"];
      assert ListsWellFormed(fs[1..], false);
    } else {
      ItemsWellFormed(lines, i + 1, e);
      assert fs[1..] == ItemsBetween(lines, i + 1, e) + ["</ul>"];
      var f := ItemHtml(lines[i]);
      assert fs[0] == f;
      assert f[..4] == "<li>";
      assert f[|f| - 5..] == "</li>";
    }
  }

  lemma HeadingIsFragment(level: nat, text: string)
    requires 1 <= level <= 6
    ensures IsHeadingFragment(HeadingHtml(level, text))
  {
    TagsCarryLevel(level);
    var f := HeadingHtml(level, text);
    var d := "0123456"[level];
    assert f[..2] == "<h" && f[2] == d && f[3] == '>';
    assert f[|f| - 5..] == "</h" + [d] + ">";
  }

  lemma StepWellFormed(lines: seq<string>, i: nat)
    requires i < |lines|
    ensures ListsWellFormed(StepAt(lines, i).fragments, false)
  {
    var fs := StepAt(lines, i).fragments;
    match Classify(lines[i])
    case Heading(level, text) =>
      HeadingIsFragment(level, text);
      assert fs == [HeadingHtml(level, text)];
      assert ListsWellFormed(fs[1..], false);
    case ListItem =>
      var e := RunEnd(lines, i);
      ItemsWellFormed(lines, i, e);
      assert fs == ["<ul>"] + (ItemsBetween(lines, i, e) + ["</ul>"]);
    case Plain =>
  }

  /** Lists in the output never nest: every "<ul>" is followed by "<li>"
      entries only and then its "</ul>", and every other fragment is a
      heading. */
  lemma {:induction false} FragmentsWellFormed(lines: seq<string>, i: nat)
    ensures ListsWellFormed(FragmentsFrom(lines, i), false)
    decreases |lines| - i
  {
    if i < |lines| {
      var s := StepAt(lines, i);
      StepWellFormed(lines, i);
      FragmentsWellFormed(lines, s.next);
      AppendWellFormed(s.fragments, FragmentsFrom(lines, s.next), false);
    }
  }

  /** A heading built from a line without '\n' is one non-empty line. */
  lemma HeadingIsLine(level: nat, text: string)
    requires 1 <= level <= 6 && '\n' !in text
    ensures HeadingHtml(level, text) != "" && '\n' !in HeadingHtml(level, text)
  {
  }

  /** An item built from a line without '\n' is one non-empty line. */
  lemma ItemIsLine(line: string)
    requires StartsWith(line, "- ") && '\n' !in line
    ensures ItemHtml(line) != "" && '\n' !in ItemHtml(line)
  {
    assert forall c :: c in line[2..] ==> c in line;
  }

  lemma StepFragmentsAreLines(lines: seq<string>, i: nat)
    requires i < |lines|
    requires forall l :: l in lines ==> '\n' !in l
    ensures forall f :: f in StepAt(lines, i).fragments ==> f != "" && '\n' !in f
  {
    var line := lines[i];
    assert line in lines;
    match Classify(line)
    case Heading(level, text) =>
      assert forall c :: c in text ==> c in line;
      HeadingIsLine(level, text);
    case ListItem =>
      var e := RunEnd(lines, i);
      var items := ItemsBetween(lines, i, e);
      forall p | 0 <= p < e - i
        ensures items[p] != "" && '\n' !in items[p]
      {
        assert lines[i + p] in lines;
        ItemIsLine(lines[i + p]);
      }
      assert StepAt(lines, i).fragments == ["<ul>"] + items + ["</ul>"];
    case Plain =>
  }

  /** When no input line holds a '\n', every fragment is a non-empty string
      without '\n'. */
  lemma {:induction false} FragmentsAreLines(lines: seq<string>, i: nat)
    requires forall l :: l in lines ==> '\n' !in l
    ensures forall f :: f in FragmentsFrom(lines, i) ==> f != "" && '\n' !in f
    decreases |lines| - i
  {
    if i < |lines| {
      var s := StepAt(lines, i);
      FragmentsAreLines(lines, s.next);
      StepFragmentsAreLines(lines, i);
    }
  }

  /** The output, split at '\n', gives back exactly the fragments: each
      fragment is one line of the output, with no trailing newline. */
  lemma OneFragmentPerLine(markdownContent: string)
    ensures var fs := Fragments(SplitLines(markdownContent));
      SplitLines(Join(fs)) == fs
    ensures var html := Join(Fragments(SplitLines(markdownContent)));
      html == "" || html[|html| - 1] != '\n'
  {
    var fs := Fragments(SplitLines(markdownContent));
    FragmentsAreLines(SplitLines(markdownContent), 0);
    assert fs != [] ==> fs[|fs| - 1] in fs;
    JoinThenSplit(fs);
    if fs != [] {
      var last := fs[|fs| - 1];
      assert last[|last| - 1] in last;
      JoinLastChar(fs);
    }
  }
}
