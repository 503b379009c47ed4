/** `parseTextStyles`: `replaceAll("__(.+)__", "<strong>$1</strong>")` followed
    by `replaceAll("_(.+)_", "<em>$1</em>")`, with the two patterns spelled out
    instead of a regular-expression engine. */
module Emphasis {
  import opened Wrappers
  import Strings

  /** Java's `.` outside DOTALL mode: every character except a line terminator. */
  predicate IsDot(c: char)
  {
    c != '\n' && c != '\r' && c != '\U{0085}' && c != '\U{2028}' && c != '\U{2029}'
  }

  predicate NoLineTerminators(s: string)
  {
    forall k :: 0 <= k < |s| ==> IsDot(s[k])
  }

  /** The marker `m` occurs in `s` at index `k`. */
  predicate MarkerAt(s: string, m: string, k: int)
  {
    0 <= k && k + |m| <= |s| && s[k..k + |m|] == m
  }

  /** How far `.` can run from `k`: the index of the first line terminator at
      or after `k`, or `|s|` when there is none. */
  function DotRunEnd(s: string, k: nat): (r: nat)
    requires k <= |s|
    ensures k <= r <= |s|
    ensures forall t :: k <= t < r ==> IsDot(s[t])
    ensures r == |s| || !IsDot(s[r])
    decreases |s| - k
  {
    if k == |s| || !IsDot(s[k]) then k else DotRunEnd(s, k + 1)
  }

  /** The pattern `m(.+)m` matches `s[i..j + |m|]`, its group being `s[i + |m|..j]`:
      a non-empty run of non-terminators between two markers. */
  predicate IsMatch(s: string, m: string, i: int, j: int)
  {
    && MarkerAt(s, m, i)
    && i + |m| < j
    && MarkerAt(s, m, j)
    && j <= DotRunEnd(s, i + |m|)
  }

  /** A match found by the matcher: opening marker at `open`, closing at `close`. */
  datatype Match = Match(open: nat, close: nat)

  /** The greedy group backs off from the right: the largest `j <= hi` that
      closes a match opened at `i`. */
  function LastCloser(s: string, m: string, i: nat, hi: int): (r: Option<nat>)
    ensures r.Some? ==> IsMatch(s, m, i, r.value) && r.value <= hi
    ensures r.Some? ==> forall j :: r.value < j <= hi ==> !IsMatch(s, m, i, j)
    ensures r.None? ==> forall j :: j <= hi ==> !IsMatch(s, m, i, j)
    decreases hi - i
  {
    if hi <= i then None
    else if IsMatch(s, m, i, hi) then Some(hi)
    else LastCloser(s, m, i, hi - 1)
  }

  /** The matcher tries start positions from `p` on and takes the first one
      at which the pattern matches, with its greedy closer. */
  function FindMatch(s: string, m: string, p: nat): (r: Option<Match>)
    ensures r.Some? ==> p <= r.value.open && IsMatch(s, m, r.value.open, r.value.close)
    ensures r.Some? ==> forall j :: r.value.close < j ==> !IsMatch(s, m, r.value.open, j)
    ensures r.Some? ==> forall i, j :: p <= i < r.value.open ==> !IsMatch(s, m, i, j)
    ensures r.None? ==> forall i, j :: p <= i ==> !IsMatch(s, m, i, j)
    decreases |s| - p
  {
    if p >= |s| then None
    else
      match LastCloser(s, m, p, |s|)
      case Some(j) => Some(Match(p, j))
      case None => FindMatch(s, m, p + 1)
  }

  /** `<tag>text</tag>`. */
  function Tagged(tag: string, text: string): string
  {
    "<" + tag + ">" + text + "</" + tag + ">"
  }

  /** `s.substring(p).replaceAll(m + "(.+)" + m, "<tag>$1</tag>")`: every match
      found from `p` on, left to right, is replaced by its group in tags. With
      a tag free of line terminators, a pass adds none. */
  function ReplaceAll(s: string, m: string, tag: string, p: nat): (r: string)
    requires p <= |s|
    ensures NoLineTerminators(s) && NoLineTerminators(tag) ==> NoLineTerminators(r)
    decreases |s| - p
  {
    match FindMatch(s, m, p)
    case None => s[p..]
    case Some(Match(i, j)) =>
      var rest := ReplaceAll(s, m, tag, j + |m|);
      SpliceNoLineTerminators(s, p, i, j, |m|, tag, rest);
      s[p..i] + Tagged(tag, s[i + |m|..j]) + rest
  }

  /** The `__(.+)__` pass; it adds no line terminator. */
  function Bold(s: string): (r: string)
    ensures NoLineTerminators(s) ==> NoLineTerminators(r)
  {
    ReplaceAll(s, "__", "strong", 0)
  }

  /** The `_(.+)_` pass; it adds no line terminator. */
  function Italic(s: string): (r: string)
    ensures NoLineTerminators(s) ==> NoLineTerminators(r)
  {
    ReplaceAll(s, "_", "em", 0)
  }

  /** `parseTextStyles`: the bold pass, then the italic pass over its result;
      on a line without line terminators the output has none either. */
  function ParseTextStyles(s: string): (r: string)
    ensures NoLineTerminators(s) ==> NoLineTerminators(r)
  {
    Italic(Bold(s))
  }

  /** Two markers with at least one character between them. */
  predicate HasPair(s: string, m: string, i: int, j: int)
  {
    MarkerAt(s, m, i) && MarkerAt(s, m, j) && i + |m| < j
  }

  /** On a line without line terminators, `.` matches everything, so a match
      is exactly a pair of markers. */
  lemma PairsAreMatches(s: string, m: string)
    requires NoLineTerminators(s)
    ensures forall i, j :: IsMatch(s, m, i, j) <==> HasPair(s, m, i, j)
  {
  }

  /** Once the greedy match is taken nothing is left to match: its closer is
      the last closing marker, so a pass makes at most one replacement. */
  lemma AtMostOneReplacement(s: string, m: string, tag: string, i: nat, j: nat)
    requires NoLineTerminators(s)
    requires FindMatch(s, m, 0) == Some(Match(i, j))
    ensures FindMatch(s, m, j + |m|).None?
    ensures ReplaceAll(s, m, tag, 0) == s[..i] + Tagged(tag, s[i + |m|..j]) + s[j + |m|..]
  {
    assert FindMatch(s, m, j + |m|).None? by {
      NoMatchAfterGreedy(s, m, i, j);
    }
    SingleReplacement(s, m, tag, i, j);
  }

  /** A pass whose first match is the last one replaces just that match. */
  lemma SingleReplacement(s: string, m: string, tag: string, i: nat, j: nat)
    requires FindMatch(s, m, 0) == Some(Match(i, j))
    requires FindMatch(s, m, j + |m|).None?
    ensures ReplaceAll(s, m, tag, 0) == s[..i] + Tagged(tag, s[i + |m|..j]) + s[j + |m|..]
  {
    assert ReplaceAll(s, m, tag, j + |m|) == s[j + |m|..];
    assert s[0..i] == s[..i];
  }

  /** Nothing matches after the greedy closer: on a line without line
      terminators a later match would give the opener a later closer. */
  lemma NoMatchAfterGreedy(s: string, m: string, i: int, j: int)
    requires NoLineTerminators(s)
    requires IsMatch(s, m, i, j)
    requires forall j' :: j < j' ==> !IsMatch(s, m, i, j')
    ensures forall i2, j2 :: j + |m| <= i2 ==> !IsMatch(s, m, i2, j2)
  {
    PairsAreMatches(s, m);
    forall i2, j2 | j + |m| <= i2
      ensures !IsMatch(s, m, i2, j2)
    {
      assert IsMatch(s, m, i2, j2) ==> HasPair(s, m, i, j2);
    }
  }

  /** Without a pair of markers a pass changes nothing. */
  lemma PassWithoutPairIsIdentity(s: string, m: string, tag: string)
    requires forall i, j :: !HasPair(s, m, i, j)
    ensures ReplaceAll(s, m, tag, 0) == s
  {
    forall i, j
      ensures !IsMatch(s, m, i, j)
    {
      assert !HasPair(s, m, i, j);
    }
  }

  /** A pass replaces the span from the leftmost opening marker that has a
      closing marker at least one character later, up to the last closing
      marker, by its content in tags, and leaves the text before and after
      it as it was. */
  lemma {:induction false} PassReplacesGreedySpan(s: string, m: string, tag: string, i: nat, j: nat)
    requires NoLineTerminators(s)
    requires HasPair(s, m, i, j)
    requires forall i', j' :: 0 <= i' < i ==> !HasPair(s, m, i', j')
    requires forall j' :: j < j' ==> !MarkerAt(s, m, j')
    ensures ReplaceAll(s, m, tag, 0) == s[..i] + Tagged(tag, s[i + |m|..j]) + s[j + |m|..]
  {
    PairsAreMatches(s, m);
    var found := FindMatch(s, m, 0);
    assert found.Some?;
    assert found == Some(Match(i, j));
    AtMostOneReplacement(s, m, tag, i, j);
  }

  /** When there is a pair at all, there is a leftmost opener and a last closer. */
  lemma GreedySpanExists(s: string, m: string) returns (i: nat, j: nat)
    requires NoLineTerminators(s)
    requires exists i, j :: HasPair(s, m, i, j)
    ensures HasPair(s, m, i, j)
    ensures forall i', j' :: 0 <= i' < i ==> !HasPair(s, m, i', j')
    ensures forall j' :: j < j' ==> !MarkerAt(s, m, j')
  {
    PairsAreMatches(s, m);
    var found := FindMatch(s, m, 0);
    i, j := found.value.open, found.value.close;
    forall j' | j < j'
      ensures !MarkerAt(s, m, j')
    {
      assert !IsMatch(s, m, i, j');
    }
  }

  lemma NoUnderscoreNoPair(s: string, m: string)
    requires m == "__" || m == "_"
    requires '_' !in s
    ensures forall i, j :: !HasPair(s, m, i, j)
  {
    forall i, j
      ensures !HasPair(s, m, i, j)
    {
      if MarkerAt(s, m, i) {
        MarkerEndsInUnderscore(s, m, i);
      }
    }
  }

  /** Text without an underscore comes out of both passes unchanged: nothing
      is escaped. */
  lemma StylesWithoutUnderscore(s: string)
    requires '_' !in s
    ensures ParseTextStyles(s) == s
  {
    NoUnderscoreNoPair(s, "__");
    PassWithoutPairIsIdentity(s, "__", "strong");
    NoUnderscoreNoPair(s, "_");
    PassWithoutPairIsIdentity(s, "_", "em");
  }

  lemma ConcatNoLineTerminators(a: string, b: string)
    requires NoLineTerminators(a) && NoLineTerminators(b)
    ensures NoLineTerminators(a + b)
  {
    forall k | 0 <= k < |a + b|
      ensures IsDot((a + b)[k])
    {
      if k >= |a| {
        assert (a + b)[k] == b[k - |a|];
      }
    }
  }

  lemma TaggedNoLineTerminators(tag: string, text: string)
    requires NoLineTerminators(tag) && NoLineTerminators(text)
    ensures NoLineTerminators(Tagged(tag, text))
  {
    ConcatNoLineTerminators("<", tag);
    ConcatNoLineTerminators("<" + tag, ">");
    ConcatNoLineTerminators("<" + tag + ">", text);
    ConcatNoLineTerminators("<" + tag + ">" + text, "</");
    ConcatNoLineTerminators("<" + tag + ">" + text + "</", tag);
    ConcatNoLineTerminators("<" + tag + ">" + text + "</" + tag, ">");
  }

  /** A replacement spliced from text, a tag and a tail free of line
      terminators is free of them too. */
  lemma SpliceNoLineTerminators(s: string, p: nat, i: nat, j: nat, w: nat, tag: string, rest: string)
    requires p <= i && i + w <= j <= |s|
    ensures NoLineTerminators(s) && NoLineTerminators(tag) && NoLineTerminators(rest) ==>
      NoLineTerminators(s[p..i] + Tagged(tag, s[i + w..j]) + rest)
  {
    if NoLineTerminators(s) && NoLineTerminators(tag) && NoLineTerminators(rest) {
      TaggedNoLineTerminators(tag, s[i + w..j]);
      ConcatNoLineTerminators(s[p..i], Tagged(tag, s[i + w..j]));
      ConcatNoLineTerminators(s[p..i] + Tagged(tag, s[i + w..j]), rest);
    }
  }

  /** On a line without line terminators the italic pass runs over the bold
      result and, like the bold pass, makes at most one replacement there. */
  lemma ItalicAfterBold(s: string, i: nat, j: nat)
    requires NoLineTerminators(s)
    requires FindMatch(Bold(s), "_", 0) == Some(Match(i, j))
    ensures var b := Bold(s);
      ParseTextStyles(s) == b[..i] + Tagged("em", b[i + 1..j]) + b[j + 1..]
  {
    AtMostOneReplacement(Bold(s), "_", "em", i, j);
  }

  lemma MarkerEndsInUnderscore(s: string, m: string, k: int)
    requires m == "__" || m == "_"
    requires MarkerAt(s, m, k)
    ensures s[k] == '_' && s[k + |m| - 1] == '_'
  {
    assert s[k] == s[k..k + |m|][0];
    assert s[k + |m| - 1] == s[k..k + |m|][|m| - 1];
  }

  /** The pieces of `pre + m + x + m + post`, by index. */
  lemma WrappedLayout(pre: string, x: string, post: string, m: string)
    ensures var s := pre + m + x + m + post; var j := |pre| + |m| + |x|;
      && |s| == j + |m| + |post|
      && s[..|pre|] == pre
      && s[|pre|..|pre| + |m|] == m
      && s[|pre| + |m|..j] == x
      && s[j..j + |m|] == m
      && s[j + |m|..] == post
      && (forall k :: 0 <= k < |pre| ==> s[k] == pre[k])
      && (forall k :: j + |m| <= k < |s| ==> s[k] == post[k - j - |m|])
  {
  }

  lemma WrappedNoLineTerminators(pre: string, x: string, post: string, m: string)
    requires NoLineTerminators(pre) && NoLineTerminators(x) && NoLineTerminators(post)
    requires NoLineTerminators(m)
    ensures NoLineTerminators(pre + m + x + m + post)
  {
    ConcatNoLineTerminators(pre, m);
    ConcatNoLineTerminators(pre + m, x);
    ConcatNoLineTerminators(pre + m + x, m);
    ConcatNoLineTerminators(pre + m + x + m, post);
  }

  lemma WrappedOpenerIsLeftmost(pre: string, x: string, post: string, m: string)
    requires m == "__" || m == "_"
    requires '_' !in pre
    ensures forall i', j' :: 0 <= i' < |pre| ==> !HasPair(pre + m + x + m + post, m, i', j')
  {
    var s := pre + m + x + m + post;
    forall i', j' | 0 <= i' < |pre|
      ensures !HasPair(s, m, i', j')
    {
      assert s[i'] == pre[i'];
      if MarkerAt(s, m, i') {
        MarkerEndsInUnderscore(s, m, i');
      }
    }
  }

  lemma WrappedCloserIsLast(pre: string, x: string, post: string, m: string)
    requires m == "__" || m == "_"
    requires '_' !in post
    ensures forall j' :: |pre| + |m| + |x| < j' ==> !MarkerAt(pre + m + x + m + post, m, j')
  {
    var s := pre + m + x + m + post;
    var j := |pre| + |m| + |x|;
    forall j' | j < j'
      ensures !MarkerAt(s, m, j')
    {
      if MarkerAt(s, m, j') {
        assert s[j' + |m| - 1] == post[j' + |m| - 1 - j - |m|];
        MarkerEndsInUnderscore(s, m, j');
      }
    }
  }

  /** A pass over `pre + m + x + m + post`, with no underscore in `pre` or
      `post`, puts exactly `x` in tags, whatever underscores `x` holds. */
  lemma PassOnWrappedText(pre: string, x: string, post: string, m: string, tag: string)
    requires m == "__" || m == "_"
    requires '_' !in pre && '_' !in post && x != []
    requires NoLineTerminators(pre) && NoLineTerminators(x) && NoLineTerminators(post)
    ensures ReplaceAll(pre + m + x + m + post, m, tag, 0) == pre + Tagged(tag, x) + post
  {
    var s := pre + m + x + m + post;
    var i := |pre|;
    var j := |pre| + |m| + |x|;
    assert NoLineTerminators(s) by {
      WrappedNoLineTerminators(pre, x, post, m);
    }
    assert HasPair(s, m, i, j) && s[..i] == pre && s[i + |m|..j] == x && s[j + |m|..] == post by {
      WrappedLayout(pre, x, post, m);
    }
    WrappedOpenerIsLeftmost(pre, x, post, m);
    WrappedCloserIsLast(pre, x, post, m);
    PassReplacesGreedySpan(s, m, tag, i, j);
  }

  lemma TaggedStrong(x: string)
    ensures Tagged("strong", x) == "<strong>" + x + "</strong>"
  {
    assert "<" + "strong" + ">" == "<strong>";
    assert "</" + "strong" + ">" == "</strong>";
  }

  lemma TaggedEm(x: string)
    ensures Tagged("em", x) == "<em>" + x + "</em>"
  {
    assert "<" + "em" + ">" == "<em>";
    assert "</" + "em" + ">" == "</em>";
  }

  lemma BoldOnWrapped(pre: string, x: string, post: string)
    requires '_' !in pre && '_' !in post && x != []
    requires NoLineTerminators(pre) && NoLineTerminators(x) && NoLineTerminators(post)
    ensures Bold(pre + "__" + x + "__" + post) == pre + "<strong>" + x + "</strong>" + post
  {
    var t := Tagged("strong", x);
    assert Bold(pre + "__" + x + "__" + post) == pre + t + post by {
      PassOnWrappedText(pre, x, post, "__", "strong");
    }
    TaggedStrong(x);
    Strings.AppendAssoc(pre, "<strong>", x, "</strong>");
  }

  lemma ItalicOnWrapped(pre: string, x: string, post: string)
    requires '_' !in pre && '_' !in post && x != []
    requires NoLineTerminators(pre) && NoLineTerminators(x) && NoLineTerminators(post)
    ensures Italic(pre + "_" + x + "_" + post) == pre + "<em>" + x + "</em>" + post
  {
    var t := Tagged("em", x);
    assert Italic(pre + "_" + x + "_" + post) == pre + t + post by {
      PassOnWrappedText(pre, x, post, "_", "em");
    }
    TaggedEm(x);
    Strings.AppendAssoc(pre, "<em>", x, "</em>");
  }

  lemma BoldOnPlain(s: string)
    requires '_' !in s
    ensures Bold(s) == s
  {
    NoUnderscoreNoPair(s, "__");
    PassWithoutPairIsIdentity(s, "__", "strong");
  }

  lemma ItalicOnPlain(s: string)
    requires '_' !in s
    ensures Italic(s) == s
  {
    NoUnderscoreNoPair(s, "_");
    PassWithoutPairIsIdentity(s, "_", "em");
  }

  /** `__x__` becomes `<strong>x</strong>`. */
  lemma BoldWord(x: string)
    requires x != [] && '_' !in x && NoLineTerminators(x)
    ensures ParseTextStyles("__" + x + "__") == "<strong>" + x + "</strong>"
  {
    assert "" + "__" + x + "__" + "" == "__" + x + "__";
    assert "" + "<strong>" + x + "</strong>" + "" == "<strong>" + x + "</strong>";
    BoldOnWrapped("", x, "");
    ItalicOnPlain("<strong>" + x + "</strong>");
  }

  lemma BoldOfSingleUnderscores(x: string)
    requires x != [] && '_' !in x
    ensures Bold("_" + x + "_") == "_" + x + "_"
  {
    var s := "_" + x + "_";
    forall i, j
      ensures !HasPair(s, "__", i, j)
    {
      if MarkerAt(s, "__", i) {
        MarkerEndsInUnderscore(s, "__", i);
      }
    }
    PassWithoutPairIsIdentity(s, "__", "strong");
  }

  /** `_x_` becomes `<em>x</em>`. */
  lemma ItalicWord(x: string)
    requires x != [] && '_' !in x && NoLineTerminators(x)
    ensures ParseTextStyles("_" + x + "_") == "<em>" + x + "</em>"
  {
    assert "" + "_" + x + "_" + "" == "_" + x + "_";
    assert "" + "<em>" + x + "</em>" + "" == "<em>" + x + "</em>";
    BoldOfSingleUnderscores(x);
    ItalicOnWrapped("", x, "");
  }

  lemma BoldOfTripled(x: string)
    requires x != [] && '_' !in x && NoLineTerminators(x)
    ensures Bold("___" + x + "___") == "<strong>_" + x + "_</strong>"
  {
    var inner := "_" + x + "_";
    assert NoLineTerminators(inner) by {
      ConcatNoLineTerminators("_", x);
      ConcatNoLineTerminators("_" + x, "_");
    }
    assert "" + "__" + inner + "__" + "" == "___" + x + "___";
    assert "" + "<strong>" + inner + "</strong>" + "" == "<strong>_" + x + "_</strong>";
    BoldOnWrapped("", inner, "");
  }

  lemma ItalicInStrong(x: string)
    requires x != [] && '_' !in x && NoLineTerminators(x)
    ensures Italic("<strong>_" + x + "_</strong>") == "<strong><em>" + x + "</em></strong>"
  {
    assert "<strong>" + "_" + x + "_" + "</strong>" == "<strong>_" + x + "_</strong>";
    assert "<strong>" + "<em>" + x + "</em>" + "</strong>" == "<strong><em>" + x + "</em></strong>";
    ItalicOnWrapped("<strong>", x, "</strong>");
  }

  /** `___x___` becomes `<strong><em>x</em></strong>`: the bold pass runs
      first and takes the outer two underscores of each side. */
  lemma NestedEmphasis(x: string)
    requires x != [] && '_' !in x && NoLineTerminators(x)
    ensures ParseTextStyles("___" + x + "___") == "<strong><em>" + x + "</em></strong>"
  {
    BoldOfTripled(x);
    ItalicInStrong(x);
  }
}
