/** `parseLine` and the three rules it tries in turn: header, list item,
    paragraph. A rule that does not apply yields `None` where the converter
    returns `null`; the one exception the rules can raise is an `Err`. */
module LineClassifier {
  import opened Wrappers
  import opened Strings
  import opened Emphasis

  /** The number of leading `#` characters of `line`. */
  function HashRun(line: string): (k: nat)
    ensures k <= |line|
    ensures forall t :: 0 <= t < k ==> line[t] == '#'
    ensures k == |line| || line[k] != '#'
    decreases |line|
  {
    if line != [] && line[0] == '#' then 1 + HashRun(line[1..]) else 0
  }

  /** `countHashSymbols`: the counting loop, proved to compute `HashRun`. */
  method CountHashSymbols(line: string) returns (count: nat)
    ensures count <= |line|
    ensures forall t :: 0 <= t < count ==> line[t] == '#'
    ensures count == |line| || line[count] != '#'
    ensures count == HashRun(line)
  {
    count := 0;
    while count < |line| && line[count] == '#'
      invariant count <= |line|
      invariant forall t :: 0 <= t < count ==> line[t] == '#'
    {
      count := count + 1;
    }
  }

  /** `n` hash characters. */
  function Hashes(n: nat): (r: string)
    ensures |r| == n && forall t :: 0 <= t < n ==> r[t] == '#'
  {
    seq(n, _ => '#')
  }

  /** A non-empty line made of nothing but `#`. */
  predicate AllHashes(line: string)
  {
    line != [] && forall t :: 0 <= t < |line| ==> line[t] == '#'
  }

  /** The fragments that open or continue a list, the test `parse` makes. */
  predicate IsListFragment(f: string)
  {
    StartsWith(f, "<li>")
  }

  /** A fragment whose second character is not `l` is no list fragment. */
  lemma NotListFragment(f: string)
    requires |f| >= 2 && f[1] != 'l'
    ensures !IsListFragment(f)
  {
    if |f| >= 4 {
      assert f[1] == f[..4][1];
    }
  }

  /** `<hN>content</hN>`, with `N` in decimal: never a list fragment. */
  function Heading(level: nat, content: string): (r: string)
    ensures StartsWith(r, "<h") && !IsListFragment(r)
  {
    var tag := "h" + NatToString(level);
    var r := "<" + tag + ">" + content + "</" + tag + ">";
    assert r[..2] == "<h" by {
      assert r == "<h" + (NatToString(level) + ">" + content + "</" + tag + ">");
    }
    NotListFragment(r);
    r
  }

  /** `parseHeader`: `None` when the line has no leading `#`; otherwise the
      heading of that level over the trimmed text that follows the one
      character after the hashes. `substring(k + 1)` throws when the line is
      all hashes. */
  function ParseHeader(line: string): (r: Result<Option<string>>)
    ensures r == Ok(None) <==> HashRun(line) == 0
    ensures r.Err? <==> AllHashes(line)
    ensures r.Err? ==> r.error == StringIndexOutOfBounds(|line| + 1, |line|)
    ensures r.Ok? && r.value.Some? ==> line[0] == '#' && !IsListFragment(r.value.value)
  {
    var k := HashRun(line);
    if k == 0 then Ok(None)
    else if k + 1 > |line| then Err(StringIndexOutOfBounds(k + 1, |line|))
    else Ok(Some(Heading(k, Trim(line[k + 1..]))))
  }

  /** A line of `level` hashes, a separator that is not a hash, and `rest` is
      a heading of exactly that level, with no cap on the level, whose content
      is `rest` trimmed and otherwise untouched: the separator is dropped
      whatever it is, and no emphasis is applied. */
  lemma HeaderLine(level: nat, sep: char, rest: string)
    requires level >= 1 && sep != '#'
    ensures ParseHeader(Hashes(level) + [sep] + rest) == Ok(Some(Heading(level, Trim(rest))))
  {
    var line := Hashes(level) + [sep] + rest;
    assert line[level] == sep;
    assert line[level + 1..] == rest;
  }

  /** Every line `parseHeader` renders as a heading has the shape `HeaderLine`
      describes, with `HashRun` as its level. */
  lemma HeaderLineShape(line: string)
    requires HashRun(line) >= 1 && !AllHashes(line)
    ensures var k := HashRun(line);
      k < |line| && line[k] != '#' && line == Hashes(k) + [line[k]] + line[k + 1..]
  {
    var k := HashRun(line);
    assert k < |line|;
    PrefixOfHashes(line, k);
  }

  lemma PrefixOfHashes(line: string, k: nat)
    requires k < |line| && forall t :: 0 <= t < k ==> line[t] == '#'
    ensures line == Hashes(k) + [line[k]] + line[k + 1..]
  {
    assert line[..k] == Hashes(k);
    assert line == line[..k] + [line[k]] + line[k + 1..];
  }

  /** `parseListItem`: a line starting with `* ` becomes `<li>...</li>` over
      the rest of the line with emphasis applied; any other line is no list item. */
  function ParseListItem(line: string): (r: Option<string>)
    ensures r.Some? <==> StartsWith(line, "* ")
    ensures r.Some? ==> IsListFragment(r.value)
  {
    if StartsWith(line, "* ") then Some("<li>" + ParseTextStyles(line[2..]) + "</li>") else None
  }

  /** A list line without underscores keeps its text as it is. */
  lemma ListItemPlain(rest: string)
    requires '_' !in rest
    ensures ParseListItem("* " + rest) == Some("<li>" + rest + "</li>")
  {
    assert ("* " + rest)[2..] == rest;
    StylesWithoutUnderscore(rest);
  }

  /** `parseParagraph`: `<p>...</p>` over the line with emphasis applied. */
  function ParseParagraph(line: string): (r: string)
    ensures StartsWith(r, "<p>") && !IsListFragment(r)
  {
    var r := "<p>" + ParseTextStyles(line) + "</p>";
    assert r[..3] == "<p>";
    NotListFragment(r);
    r
  }

  /** A paragraph without underscores keeps its text as it is. */
  lemma ParagraphPlain(line: string)
    requires '_' !in line
    ensures ParseParagraph(line) == "<p>" + line + "</p>"
  {
    StylesWithoutUnderscore(line);
  }

  /** `parseLine`: the header rule, then the list rule, then the paragraph
      rule, which always applies. */
  function ParseLine(line: string): (r: Result<string>)
    ensures r.Err? <==> AllHashes(line)
    ensures r.Err? ==> r.error == StringIndexOutOfBounds(|line| + 1, |line|)
    ensures r.Ok? ==> (IsListFragment(r.value) <==> StartsWith(line, "* "))
  {
    var header := ParseHeader(line);
    if header.Err? then Err(header.error)
    else if header.value.Some? then
      assert !StartsWith(line, "* ") by {
        if |line| >= 2 {
          assert line[..2][0] == line[0];
        }
      }
      Ok(header.value.value)
    else
      var item := ParseListItem(line);
      if item.Some? then Ok(item.value) else Ok(ParseParagraph(line))
  }

  /** The rule that applies to a line, by its first characters: a heading
      for leading hashes, a list item for `* `, a paragraph otherwise. */
  lemma ParseLineRules(line: string)
    ensures HashRun(line) >= 1 && !AllHashes(line) ==>
      ParseLine(line) == Ok(Heading(HashRun(line), Trim(line[HashRun(line) + 1..])))
    ensures StartsWith(line, "* ") ==>
      ParseLine(line) == Ok("<li>" + ParseTextStyles(line[2..]) + "</li>")
    ensures HashRun(line) == 0 && !StartsWith(line, "* ") ==>
      ParseLine(line) == Ok(ParseParagraph(line))
  {
  }
}
