/** Page title extraction: the first line that is a level-one heading once
    stripped gives the page title. */
module GenContent {
  import opened Wrappers
  import opened Strings

  /** A line whose stripped form starts with "# ". */
  predicate Qualifies(line: string)
  {
    StartsWith(Strip(line), "# ")
  }

  /** The title a qualifying line gives: its stripped form without the
      "# " marker, stripped again. */
  function Title(line: string): string
  {
    Strip(Drop(Strip(line), 2))
  }

  /** The title of the first qualifying line at index `i` or later;
      "No header in MD." when there is none. */
  function TitleFrom(lines: seq<string>, i: nat): Result<string>
    decreases |lines| - i
  {
    if i >= |lines| then Err(NoHeader)
    else if Qualifies(lines[i]) then Ok(Title(lines[i]))
    else TitleFrom(lines, i + 1)
  }

  /** extract_title, over the lines of the split on "\n". */
  function TitleOf(markdown: string): Result<string>
  {
    TitleFrom(Split(markdown, "\n"), 0)
  }

  /** The line loop of extract_title, returning at the first heading. */
  method ExtractTitle(markdown: string) returns (r: Result<string>)
    ensures r == TitleOf(markdown)
  {
    var lines := Split(markdown, "\n");
    for i := 0 to |lines|
      invariant TitleFrom(lines, i) == TitleFrom(lines, 0)
    {
      var strippedLine := Strip(lines[i]);
      if StartsWith(strippedLine, "# ") {
        return Ok(Strip(strippedLine[2..]));
      }
    }
    return Err(NoHeader);
  }

  // ---------------------------------------------------------------------
  // Properties

  /** The search from `k` succeeds exactly when some line from `k` on
      qualifies, and otherwise fails with "No header in MD.". */
  lemma {:induction false} TitleFromOk(lines: seq<string>, k: nat)
    ensures TitleFrom(lines, k).Ok? <==> exists i :: k <= i < |lines| && Qualifies(lines[i])
    ensures TitleFrom(lines, k).Err? ==> TitleFrom(lines, k).error == NoHeader
    decreases |lines| - k
  {
    if k < |lines| {
      if Qualifies(lines[k]) {
        assert k <= k < |lines| && Qualifies(lines[k]);
      } else {
        TitleFromOk(lines, k + 1);
        assert forall i :: k <= i < |lines| && Qualifies(lines[i]) ==> k + 1 <= i;
      }
    }
  }

  /** When line `i` is the first qualifying line from `k` on, the search
      from `k` returns its title. */
  lemma {:induction false} TitleAtFirst(lines: seq<string>, k: nat, i: nat)
    requires k <= i < |lines| && Qualifies(lines[i])
    requires forall j :: k <= j < i ==> !Qualifies(lines[j])
    ensures TitleFrom(lines, k) == Ok(Title(lines[i]))
    decreases i - k
  {
    if k < i {
      TitleAtFirst(lines, k + 1, i);
    }
  }

  /** extract_title returns the title of the first line of the document
      that is a level-one heading once stripped, and raises "No header in
      MD." exactly when there is no such line. */
  lemma FirstHeadingWins(markdown: string)
    ensures TitleOf(markdown).Ok? <==>
            exists i :: 0 <= i < |Split(markdown, "\n")| && Qualifies(Split(markdown, "\n")[i])
    ensures TitleOf(markdown).Err? ==> TitleOf(markdown).error == NoHeader
    ensures forall i :: 0 <= i < |Split(markdown, "\n")| && Qualifies(Split(markdown, "\n")[i]) &&
                        (forall j :: 0 <= j < i ==> !Qualifies(Split(markdown, "\n")[j])) ==>
                        TitleOf(markdown) == Ok(Title(Split(markdown, "\n")[i]))
  {
    var lines := Split(markdown, "\n");
    TitleFromOk(lines, 0);
    assert TitleOf(markdown) == TitleFrom(lines, 0);
    assert TitleOf(markdown).Ok? ==> exists i :: 0 <= i < |Split(markdown, "\n")| && Qualifies(Split(markdown, "\n")[i]);
    assert (exists i :: 0 <= i < |Split(markdown, "\n")| && Qualifies(Split(markdown, "\n")[i])) ==> TitleOf(markdown).Ok?;
    forall i | 0 <= i < |lines| && Qualifies(lines[i]) && (forall j :: 0 <= j < i ==> !Qualifies(lines[j]))
      ensures TitleFrom(lines, 0) == Ok(Title(lines[i]))
    {
      TitleAtFirst(lines, 0, i);
    }
  }

  /** The line a successful search stopped at. */
  lemma {:induction false} TitleLine(lines: seq<string>, k: nat) returns (i: nat)
    requires TitleFrom(lines, k).Ok?
    ensures k <= i < |lines| && Qualifies(lines[i])
    ensures TitleFrom(lines, k).value == Title(lines[i])
    decreases |lines| - k
  {
    if Qualifies(lines[k]) {
      i := k;
    } else {
      i := TitleLine(lines, k + 1);
    }
  }

  /** The title of a qualifying line is non-empty, already stripped, and a
      slice of that line. */
  lemma TitleOfLine(line: string) returns (o: nat)
    requires Qualifies(line)
    ensures Title(line) != "" && Strip(Title(line)) == Title(line)
    ensures OccursAt(line, Title(line), o)
  {
    var s := Strip(line);
    var rest := Drop(s, 2);
    var o1 := StripAt(line);
    assert s == s[..2] + rest;
    assert rest[|rest| - 1] == s[|s| - 1];
    StripKeepsLast(rest);
    StripIdempotent(rest);
    var o2 := StripAt(rest);
    assert OccursAt(s, rest, 2);
    InfixTrans(Title(line), rest, s, 2, o2);
    InfixTrans(Title(line), s, line, o1, 2 + o2);
    o := o1 + 2 + o2;
  }

  /** A page title is never empty, carries no surrounding whitespace, and
      is copied verbatim out of the document: inline markup in the heading
      is returned as written. */
  lemma TitleShape(markdown: string)
    requires TitleOf(markdown).Ok?
    ensures TitleOf(markdown).value != ""
    ensures Strip(TitleOf(markdown).value) == TitleOf(markdown).value
    ensures Infix(TitleOf(markdown).value, markdown)
  {
    var lines := Split(markdown, "\n");
    var i := TitleLine(lines, 0);
    var o1 := SplitPieceAt(markdown, "\n", i);
    var o2 := TitleOfLine(lines[i]);
    InfixTrans(Title(lines[i]), lines[i], markdown, o1, o2);
  }

  /** Lines whose stripped form starts with "##" (deeper headings) never
      give the title. */
  lemma DeeperHeadingsSkipped(line: string)
    requires StartsWith(Strip(line), "##")
    ensures !Qualifies(line)
  {
    assert Strip(line)[1] == '#';
  }

  /** A document of one line has a title exactly when that line qualifies. */
  lemma OneLine(line: string)
    requires '\n' !in line
    ensures TitleOf(line) == if Qualifies(line) then Ok(Title(line)) else Err(NoHeader)
  {
    LinesOfJoin([line]);
    assert Join([line], "\n") == line;
    assert TitleFrom([line], 1) == Err(NoHeader);
  }
}
