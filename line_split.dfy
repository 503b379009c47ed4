/** Java's `markdown.split("\n")` with the default limit 0. */
module LineSplit {

  /** The pieces between consecutive newlines, every one kept: a string with
      n newlines has n + 1 pieces. */
  function RawSplit(s: string): (r: seq<string>)
    ensures |r| >= 1
    ensures forall k :: 0 <= k < |r| ==> '\n' !in r[k]
    decreases |s|
  {
    if s == [] then [""]
    else
      var rest := RawSplit(s[1..]);
      if s[0] == '\n' then [""] + rest
      else [[s[0]] + rest[0]] + rest[1..]
  }

  /** The pieces glued back together with a newline between neighbours. */
  function Join(parts: seq<string>): string
    decreases |parts|
  {
    if parts == [] then ""
    else if |parts| == 1 then parts[0]
    else parts[0] + "\n" + Join(parts[1..])
  }

  /** Limit 0 removes the empty strings at the end of the raw pieces. */
  function DropTrailingEmpty(parts: seq<string>): (r: seq<string>)
    ensures |r| <= |parts| && r == parts[..|r|]
    ensures r == [] || r[|r| - 1] != ""
    ensures forall k :: |r| <= k < |parts| ==> parts[k] == ""
    decreases |parts|
  {
    if parts != [] && parts[|parts| - 1] == "" then DropTrailingEmpty(parts[..|parts| - 1])
    else parts
  }

  /** `s.split("\n")`: a string without a newline comes back whole (so "" gives
      [""]); otherwise the raw pieces lose their trailing empty strings. */
  function Split(s: string): (r: seq<string>)
    ensures forall k :: 0 <= k < |r| ==> '\n' !in r[k]
    ensures '\n' in s ==> r == [] || r[|r| - 1] != ""
  {
    if '\n' !in s then [s] else DropTrailingEmpty(RawSplit(s))
  }

  function Newlines(n: nat): (r: string)
    ensures |r| == n && forall k :: 0 <= k < n ==> r[k] == '\n'
  {
    seq(n, _ => '\n')
  }

  /** Joining the raw pieces gives back the string. */
  lemma {:induction false} JoinRawSplit(s: string)
    ensures Join(RawSplit(s)) == s
    decreases |s|
  {
    if s != [] {
      var rest := RawSplit(s[1..]);
      JoinRawSplit(s[1..]);
      if s[0] == '\n' {
        assert ([""] + rest)[1..] == rest;
      } else {
        var r := [[s[0]] + rest[0]] + rest[1..];
        if |rest| > 1 {
          assert r[1..] == rest[1..];
        }
      }
    }
  }

  /** A string without a newline is one raw piece. */
  lemma {:induction false} RawSplitNoNewline(s: string)
    requires '\n' !in s
    ensures RawSplit(s) == [s]
    decreases |s|
  {
    if s != [] {
      RawSplitNoNewline(s[1..]);
      assert [s[0]] + s[1..] == s;
    }
  }

  /** A newline-free head followed by a newline is split off as the first piece. */
  lemma {:induction false} RawSplitCons(a: string, t: string)
    requires '\n' !in a
    ensures RawSplit(a + "\n" + t) == [a] + RawSplit(t)
    decreases |a|
  {
    var s := a + "\n" + t;
    if a == [] {
      assert s[1..] == t;
    } else {
      assert s[0] == a[0] && s[1..] == a[1..] + "\n" + t;
      RawSplitCons(a[1..], t);
      assert [a[0]] + a[1..] == a;
    }
  }

  /** Splitting the join of newline-free pieces gives the pieces back. */
  lemma {:induction false} RawSplitJoin(parts: seq<string>)
    requires |parts| >= 1
    requires forall k :: 0 <= k < |parts| ==> '\n' !in parts[k]
    ensures RawSplit(Join(parts)) == parts
    decreases |parts|
  {
    if |parts| == 1 {
      RawSplitNoNewline(parts[0]);
    } else {
      RawSplitJoin(parts[1..]);
      RawSplitCons(parts[0], Join(parts[1..]));
    }
  }

  /** A final newline adds one empty raw piece. */
  lemma {:induction false} RawSplitSnocNewline(s: string)
    ensures RawSplit(s + "\n") == RawSplit(s) + [""]
    decreases |s|
  {
    if s != [] {
      var rest := RawSplit(s[1..]);
      assert (s + "\n")[1..] == s[1..] + "\n";
      RawSplitSnocNewline(s[1..]);
    }
  }

  lemma DropTrailingEmptySnoc(parts: seq<string>)
    ensures DropTrailingEmpty(parts + [""]) == DropTrailingEmpty(parts)
  {
    assert (parts + [""])[..|parts|] == parts;
  }

  lemma SplitEmpty()
    ensures Split("") == [""]
  {
  }

  lemma SplitNewline()
    ensures Split("\n") == []
  {
    assert RawSplit("\n") == ["", ""] by {
      assert "\n"[1..] == "";
    }
    assert ["", ""][..1] == [""];
  }

  /** A trailing newline changes nothing, as long as something precedes it. */
  lemma SplitTrailingNewline(s: string)
    requires s != ""
    ensures Split(s + "\n") == Split(s)
  {
    RawSplitSnocNewline(s);
    DropTrailingEmptySnoc(RawSplit(s));
    if '\n' !in s {
      RawSplitNoNewline(s);
    }
  }

  /** `n` newlines split raw into `n + 1` empty pieces. */
  lemma {:induction false} RawSplitNewlines(n: nat)
    ensures var r := RawSplit(Newlines(n));
      |r| == n + 1 && forall k :: 0 <= k < |r| ==> r[k] == ""
    decreases n
  {
    if n > 0 {
      assert Newlines(n)[1..] == Newlines(n - 1);
      RawSplitNewlines(n - 1);
    }
  }

  /** A text made only of newlines, at least one, has no lines at all. */
  lemma SplitOnlyNewlines(n: nat)
    requires n >= 1
    ensures Split(Newlines(n)) == []
  {
    assert Newlines(n)[0] == '\n';
    RawSplitNewlines(n);
  }

  lemma {:induction false} JoinSnoc(parts: seq<string>, x: string)
    requires |parts| >= 1
    ensures Join(parts + [x]) == Join(parts) + "\n" + x
    decreases |parts|
  {
    if |parts| > 1 {
      assert (parts + [x])[1..] == parts[1..] + [x];
      JoinSnoc(parts[1..], x);
    }
  }

  lemma {:induction false} JoinDropTrailingEmpty(parts: seq<string>)
    requires |parts| >= 1
    ensures exists n: nat :: Join(parts) == Join(DropTrailingEmpty(parts)) + Newlines(n)
    decreases |parts|
  {
    var last := |parts| - 1;
    if parts[last] != "" {
      assert Join(parts) == Join(DropTrailingEmpty(parts)) + Newlines(0);
    } else if last == 0 {
      assert Join(parts) == Join(DropTrailingEmpty(parts)) + Newlines(0);
    } else {
      var q := parts[..last];
      assert parts == q + [""];
      JoinSnoc(q, "");
      JoinDropTrailingEmpty(q);
      var n: nat :| Join(q) == Join(DropTrailingEmpty(q)) + Newlines(n);
      assert Newlines(n) + "\n" == Newlines(n + 1);
      assert Join(parts) == Join(DropTrailingEmpty(parts)) + Newlines(n + 1);
    }
  }

  /** What `Split` drops is only newlines at the end of the string. */
  lemma SplitReconstructs(s: string)
    ensures exists n: nat :: s == Join(Split(s)) + Newlines(n)
  {
    if '\n' !in s {
      assert s == Join(Split(s)) + Newlines(0);
    } else {
      JoinRawSplit(s);
      JoinDropTrailingEmpty(RawSplit(s));
    }
  }
}
