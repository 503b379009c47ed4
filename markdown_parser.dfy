/** `MarkdownParser.parse`: split the text at newlines, render every line,
    and wrap each maximal run of list items in `<ul>`...`</ul>`. The
    `StringIndexOutOfBoundsException` the header rule can raise is an `Err`
    that ends the conversion. */
module MarkdownParser {
  import opened Wrappers
  import opened LineSplit
  import opened LineClassifier
  import opened Assembler

  /** The line results in order: what `parseLine` gives for every line. */
  function ParsedLines(lines: seq<string>): (rs: seq<Result<string>>)
    ensures |rs| == |lines| && forall k :: 0 <= k < |lines| ==> rs[k] == ParseLine(lines[k])
  {
    seq(|lines|, k requires 0 <= k < |lines| => ParseLine(lines[k]))
  }

  /** The fragments of the results in order, or the first error among them:
      the loop of `parse` stops at the first line that throws. */
  function Collect(rs: seq<Result<string>>): (r: Result<seq<string>>)
    ensures r.Ok? <==> forall k :: 0 <= k < |rs| ==> rs[k].Ok?
    ensures r.Ok? ==> |r.value| == |rs| && forall k :: 0 <= k < |rs| ==> rs[k] == Ok(r.value[k])
    decreases |rs|
  {
    if rs == [] then Ok([])
    else
      var init := rs[..|rs| - 1];
      var last := rs[|rs| - 1];
      var fs := Collect(init);
      assert forall k :: 0 <= k < |init| ==> init[k] == rs[k];
      if fs.Err? then Err(fs.error)
      else if last.Err? then Err(last.error)
      else Ok(fs.value + [last.value])
  }

  /** Once a prefix of the results holds an error, the whole collects to it. */
  lemma {:induction false} CollectKeepsError(rs: seq<Result<string>>, i: nat)
    requires i <= |rs| && Collect(rs[..i]).Err?
    ensures Collect(rs) == Collect(rs[..i])
    decreases |rs|
  {
    if i < |rs| {
      var init := rs[..|rs| - 1];
      assert init[..i] == rs[..i];
      CollectKeepsError(init, i);
    } else {
      assert rs[..i] == rs;
    }
  }

  /** One more successful result adds its fragment. */
  lemma CollectSnoc(rs: seq<Result<string>>, i: nat, fs: seq<string>)
    requires i < |rs| && Collect(rs[..i]) == Ok(fs) && rs[i].Ok?
    ensures Collect(rs[..i + 1]) == Ok(fs + [rs[i].value])
  {
    assert rs[..i + 1][..i] == rs[..i];
  }

  /** The first error among the results is the error of them all. */
  lemma FirstError(rs: seq<Result<string>>, i: nat)
    requires i < |rs| && Collect(rs[..i]).Ok? && rs[i].Err?
    ensures Collect(rs) == Err(rs[i].error)
  {
    var prefix := rs[..i + 1];
    assert prefix[..i] == rs[..i];
    CollectKeepsError(rs, i + 1);
  }

  /** An error that ends the collection is the error of a result that comes
      after only successes. */
  lemma {:induction false} CollectedErrorIsFirst(rs: seq<Result<string>>)
    requires Collect(rs).Err?
    ensures exists k :: 0 <= k < |rs| && rs[k] == Err(Collect(rs).error) && forall t :: 0 <= t < k ==> rs[t].Ok?
    decreases |rs|
  {
    var init := rs[..|rs| - 1];
    assert forall t :: 0 <= t < |init| ==> init[t] == rs[t];
    if Collect(init).Err? {
      CollectedErrorIsFirst(init);
      var k :| 0 <= k < |init| && init[k] == Err(Collect(init).error) && forall t :: 0 <= t < k ==> init[t].Ok?;
      assert rs[k] == init[k];
    } else {
      assert rs[|rs| - 1] == Err(Collect(rs).error);
    }
  }

  /** `parse` as a value: the rendered document of the split lines, or the
      error of the first line that fails. */
  function Convert(markdown: string): Result<string>
  {
    var fs := Collect(ParsedLines(Split(markdown)));
    if fs.Err? then Err(fs.error) else Ok(Render(Group(fs.value)))
  }

  /** `parse`: one pass over the lines with the list state in `activeList`,
      appending to `result` as the converter's `StringBuilder` does. */
  method Parse(markdown: string) returns (r: Result<string>)
    ensures r == Convert(markdown)
  {
    var lines := Split(markdown);
    ghost var rs := ParsedLines(lines);
    var result := "";
    var activeList := false;
    ghost var fs: seq<string> := [];
    for i := 0 to |lines|
      invariant Collect(rs[..i]) == Ok(fs)
      invariant activeList == ListOpen(fs)
      invariant result == Stream(fs)
    {
      var parsed := ParseLine(lines[i]);
      assert rs[i] == parsed;
      if parsed.Err? {
        FirstError(rs, i);
        return Err(parsed.error);
      }
      var parsedLine := parsed.value;
      if IsListFragment(parsedLine) && !activeList {
        activeList := true;
        result := result + "<ul>";
      }
      if !IsListFragment(parsedLine) && activeList {
        activeList := false;
        result := result + "</ul>";
      }
      result := result + parsedLine;
      StreamSnoc(fs, parsedLine);
      CollectSnoc(rs, i, fs);
      fs := fs + [parsedLine];
    }
    if activeList {
      result := result + "</ul>";
    } else {
      assert result + "" == result;
    }
    StreamRenders(fs);
    assert rs[..|lines|] == rs;
    r := Ok(result);
  }

  /** The empty text is one empty line, an empty paragraph. */
  lemma ConvertEmpty()
    ensures Convert("") == Ok("<p></p>")
  {
    SplitEmpty();
    var f := "<p></p>";
    assert ParsedLines([""]) == [Ok(f)] by {
      EmptyLineIsEmptyParagraph();
    }
    CollectSingle(f);
    assert Render(Group([f])) == f by {
      SingleFragmentDocument(f);
    }
  }

  lemma EmptyLineIsEmptyParagraph()
    ensures ParseLine("") == Ok("<p></p>")
  {
    ParseLineRules("");
    ParagraphPlain("");
    assert "<p>" + "" + "</p>" == "<p></p>";
  }

  lemma CollectSingle(f: string)
    ensures Collect([Ok(f)]) == Ok([f])
  {
    var rs := [Ok(f)];
    assert rs[..0] == [];
    assert Collect(rs[..0]) == Ok([]);
    assert [] + [f] == [f];
  }

  lemma SingleFragmentDocument(f: string)
    requires !IsListFragment(f)
    ensures Render(Group([f])) == f
  {
    var fs := [f];
    assert fs[..0] == [];
    var g := [Single(f)];
    assert Group(fs) == g;
    assert g[..0] == [];
    assert "" + f == f;
  }

  /** A lone newline has no lines at all: the output is empty. */
  lemma ConvertNewline()
    ensures Convert("\n") == Ok("")
  {
    SplitNewline();
  }

  /** Any text made only of newlines, at least one, gives the empty output. */
  lemma ConvertOnlyNewlines(n: nat)
    requires n >= 1
    ensures Convert(Newlines(n)) == Ok("")
  {
    SplitOnlyNewlines(n);
    assert ParsedLines([]) == [];
  }

  /** A trailing newline changes nothing, since the split drops the empty
      last line. */
  lemma ConvertTrailingNewline(s: string)
    requires s != ""
    ensures Convert(s + "\n") == Convert(s)
  {
    SplitTrailingNewline(s);
  }

  /** The conversion fails exactly when a line consists of nothing but
      hashes, and then with the error of the first such line. */
  lemma ConvertFailure(markdown: string)
    ensures var lines := Split(markdown);
      Convert(markdown).Err? <==> exists k :: 0 <= k < |lines| && AllHashes(lines[k])
    ensures var lines := Split(markdown);
      Convert(markdown).Err? ==> exists k :: (
        && 0 <= k < |lines|
        && AllHashes(lines[k])
        && Convert(markdown).error == StringIndexOutOfBounds(|lines[k]| + 1, |lines[k]|)
        && forall t :: 0 <= t < k ==> !AllHashes(lines[t]))
  {
    var lines := Split(markdown);
    var rs := ParsedLines(lines);
    if Convert(markdown).Err? {
      CollectedErrorIsFirst(rs);
      var k :| 0 <= k < |rs| && rs[k] == Err(Collect(rs).error) && forall t :: 0 <= t < k ==> rs[t].Ok?;
      assert AllHashes(lines[k]);
      assert forall t :: 0 <= t < k ==> !AllHashes(lines[t]) by {
        forall t | 0 <= t < k
          ensures !AllHashes(lines[t])
        {
          assert rs[t].Ok?;
        }
      }
    } else {
      forall k | 0 <= k < |lines|
        ensures !AllHashes(lines[k])
      {
        assert rs[k].Ok?;
      }
    }
  }

  /** A conversion that succeeds renders the fragments of the lines, in
      order, as a stream of tags and fragments in which lists never nest,
      every list opened is closed, and the fragments inside lists are exactly
      the list items. */
  lemma ConvertStructure(markdown: string)
    ensures Convert(markdown).Ok? ==>
      var lines := Split(markdown); var fs := Collect(ParsedLines(lines)).value; var ps := Emit(Group(fs));
      && Text(ps) == Convert(markdown).value
      && |fs| == |lines|
      && Contents(ps) == fs
      && Bracketed(ps)
      && Count(ps, Open) == Count(ps, Close)
  {
    if Convert(markdown).Ok? {
      DocumentStructure(Collect(ParsedLines(Split(markdown))).value);
    }
  }
}
