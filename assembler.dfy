/** The document structure `parse` builds from the line fragments: each
    maximal run of list fragments becomes one list wrapped in `<ul>` and
    `</ul>`, every other fragment stands on its own. */
module Assembler {
  import opened Wrappers
  import opened LineClassifier
  import Strings

  /** A block of the output: one fragment outside any list, or one list
      holding a run of list fragments. */
  datatype Block = Single(html: string) | List(items: seq<string>)

  function BlockFragments(b: Block): seq<string>
  {
    match b
    case Single(h) => [h]
    case List(items) => items
  }

  /** The fragments of the blocks, in order. */
  function Flatten(g: seq<Block>): seq<string>
    decreases |g|
  {
    if g == [] then [] else Flatten(g[..|g| - 1]) + BlockFragments(g[|g| - 1])
  }

  predicate WellFormedBlock(b: Block)
  {
    match b
    case Single(h) => !IsListFragment(h)
    case List(items) => items != [] && forall k :: 0 <= k < |items| ==> IsListFragment(items[k])
  }

  /** Blocks that cut the fragments into maximal runs: a single is never a
      list fragment, a list is a non-empty run of them, and no list directly
      follows another. */
  ghost predicate WellFormed(g: seq<Block>)
  {
    && (forall k :: 0 <= k < |g| ==> WellFormedBlock(g[k]))
    // Neighbours as two bound variables: a `g[k]`/`g[k + 1]` trigger would
    // let the solver instantiate the quantifier without end.
    && (forall i, j :: 0 <= i < j < |g| && j == i + 1 ==> !(g[i].List? && g[j].List?))
  }

  lemma FlattenSnoc(g: seq<Block>, b: Block)
    ensures Flatten(g + [b]) == Flatten(g) + BlockFragments(b)
  {
    assert (g + [b])[..|g|] == g;
  }

  /** Appending a well-formed block keeps blocks well-formed, unless it is a
      list right after a list. */
  lemma WellFormedSnoc(g: seq<Block>, b: Block)
    requires WellFormed(g) && WellFormedBlock(b)
    requires b.List? && g != [] ==> !g[|g| - 1].List?
    ensures WellFormed(g + [b])
  {
    var h := g + [b];
    forall k | 0 <= k < |h|
      ensures WellFormedBlock(h[k])
    {
      if k < |g| {
        assert h[k] == g[k];
      }
    }
    forall i, j | 0 <= i < j < |h| && j == i + 1
      ensures !(h[i].List? && h[j].List?)
    {
      assert h[i] == g[i];
      if j < |g| {
        assert h[j] == g[j];
      }
    }
  }

  lemma WellFormedInit(g: seq<Block>)
    requires WellFormed(g) && g != []
    ensures WellFormed(g[..|g| - 1])
  {
    var h := g[..|g| - 1];
    forall k | 0 <= k < |h|
      ensures WellFormedBlock(h[k])
    {
      assert h[k] == g[k];
    }
    forall i, j | 0 <= i < j < |h| && j == i + 1
      ensures !(h[i].List? && h[j].List?)
    {
      assert h[i] == g[i] && h[j] == g[j];
    }
  }

  /** The last block of `init + [List(items)]` grows by one list fragment. */
  lemma ExtendLastList(init: seq<Block>, items: seq<string>, f: string)
    requires WellFormed(init + [List(items)]) && IsListFragment(f)
    ensures WellFormed(init + [List(items + [f])])
    ensures Flatten(init + [List(items + [f])]) == Flatten(init + [List(items)]) + [f]
  {
    var g := init + [List(items)];
    assert g[..|g| - 1] == init;
    WellFormedInit(g);
    assert WellFormedBlock(g[|g| - 1]);
    WellFormedSnoc(init, List(items + [f]));
    FlattenSnoc(init, List(items));
    FlattenSnoc(init, List(items + [f]));
  }

  /** The fragments cut into maximal runs, one fragment at a time: a list
      fragment joins the list that ends the blocks so far, or opens a new one. */
  function Group(fs: seq<string>): (g: seq<Block>)
    ensures WellFormed(g) && Flatten(g) == fs
    ensures g == [] <==> fs == []
    ensures g != [] ==> (g[|g| - 1].List? <==> IsListFragment(fs[|fs| - 1]))
    decreases |fs|
  {
    if fs == [] then []
    else
      var g0 := Group(fs[..|fs| - 1]);
      var f := fs[|fs| - 1];
      assert fs == fs[..|fs| - 1] + [f];
      if !IsListFragment(f) then
        WellFormedSnoc(g0, Single(f));
        FlattenSnoc(g0, Single(f));
        g0 + [Single(f)]
      else if g0 != [] && g0[|g0| - 1].List? then
        var init := g0[..|g0| - 1];
        var items := g0[|g0| - 1].items;
        assert g0 == init + [List(items)];
        ExtendLastList(init, items, f);
        init + [List(items + [f])]
      else
        WellFormedSnoc(g0, List([f]));
        FlattenSnoc(g0, List([f]));
        g0 + [List([f])]
  }

  /** Cutting into maximal runs is unique: any well-formed blocks are the
      grouping of their own fragments. */
  lemma {:induction false} GroupUnique(g: seq<Block>)
    requires WellFormed(g)
    ensures Group(Flatten(g)) == g
    decreases |Flatten(g)|
  {
    if g != [] {
      var init := g[..|g| - 1];
      var b := g[|g| - 1];
      assert g == init + [b];
      assert WellFormedBlock(b);
      WellFormedInit(g);
      FlattenSnoc(init, b);
      match b
      case Single(h) =>
        GroupUnique(init);
        GroupSnoc(Flatten(init), h);
      case List(items) =>
        var f := items[|items| - 1];
        if |items| == 1 {
          assert items == [f];
          assert init == [] || !init[|init| - 1].List? by {
            if init != [] {
              assert g[|g| - 2] == init[|init| - 1];
            }
          }
          GroupUnique(init);
          GroupSnoc(Flatten(init), f);
        } else {
          var rest := items[..|items| - 1];
          var shorter := init + [List(rest)];
          assert items == rest + [f];
          assert Flatten(g) == Flatten(shorter) + [f] by {
            FlattenSnoc(init, List(rest));
          }
          assert WellFormed(shorter) by {
            assert WellFormedBlock(List(rest));
            WellFormedSnoc(init, List(rest));
          }
          GroupUnique(shorter);
          GroupSnoc(Flatten(shorter), f);
          assert shorter[..|shorter| - 1] == init;
        }
    }
  }

  /** Fragments glued together. */
  function Concat(items: seq<string>): string
    decreases |items|
  {
    if items == [] then "" else Concat(items[..|items| - 1]) + items[|items| - 1]
  }

  function RenderBlock(b: Block): string
  {
    match b
    case Single(h) => h
    case List(items) => "<ul>" + Concat(items) + "</ul>"
  }

  /** The text of the blocks, in order. */
  function Render(g: seq<Block>): string
    decreases |g|
  {
    if g == [] then "" else Render(g[..|g| - 1]) + RenderBlock(g[|g| - 1])
  }

  lemma RenderSnoc(g: seq<Block>, b: Block)
    ensures Render(g + [b]) == Render(g) + RenderBlock(b)
  {
    assert (g + [b])[..|g|] == g;
  }

  lemma ConcatSnoc(items: seq<string>, f: string)
    ensures Concat(items + [f]) == Concat(items) + f
  {
    assert (items + [f])[..|items|] == items;
  }

  /** `Group` on one more fragment, stated on the grouping of the others. */
  lemma GroupSnoc(fs: seq<string>, f: string)
    ensures var g0 := Group(fs);
      Group(fs + [f]) ==
        if !IsListFragment(f) then g0 + [Single(f)]
        else if g0 != [] && g0[|g0| - 1].List? then g0[..|g0| - 1] + [List(g0[|g0| - 1].items + [f])]
        else g0 + [List([f])]
  {
    assert (fs + [f])[..|fs|] == fs;
  }

  /** A fragment that is no list item is appended as it is. */
  lemma GroupAppendSingle(fs: seq<string>, f: string)
    requires !IsListFragment(f)
    ensures Render(Group(fs + [f])) == Render(Group(fs)) + f
  {
    var g0 := Group(fs);
    assert Group(fs + [f]) == g0 + [Single(f)] by {
      GroupSnoc(fs, f);
    }
    RenderSnoc(g0, Single(f));
  }

  /** A list fragment after anything but a list fragment opens a new list. */
  lemma GroupAppendOpen(fs: seq<string>, f: string)
    requires IsListFragment(f)
    requires fs == [] || !IsListFragment(fs[|fs| - 1])
    ensures Render(Group(fs + [f])) == Render(Group(fs)) + "<ul>" + f + "</ul>"
  {
    var g0 := Group(fs);
    assert Group(fs + [f]) == g0 + [List([f])] by {
      GroupSnoc(fs, f);
    }
    assert Concat([f]) == f by {
      ConcatSnoc([], f);
    }
    RenderSnoc(g0, List([f]));
    Strings.AppendAssoc(Render(g0), "<ul>", f, "</ul>");
  }

  /** A list fragment after a list fragment goes into the open list, just
      before its closing tag. */
  lemma GroupAppendExtend(fs: seq<string>, f: string, pre: string)
    requires IsListFragment(f)
    requires fs != [] && IsListFragment(fs[|fs| - 1])
    requires Render(Group(fs)) == pre + "</ul>"
    ensures Render(Group(fs + [f])) == pre + f + "</ul>"
  {
    var g0 := Group(fs);
    var init := g0[..|g0| - 1];
    var items := g0[|g0| - 1].items;
    assert Group(fs + [f]) == init + [List(items + [f])] by {
      GroupSnoc(fs, f);
    }
    var front := Render(init) + "<ul>" + Concat(items);
    assert front == pre by {
      assert g0 == init + [List(items)];
      RenderSnoc(init, List(items));
      Strings.AppendAssoc(Render(init), "<ul>", Concat(items), "</ul>");
      CancelSuffix(front, pre, "</ul>");
    }
    RenderSnoc(init, List(items + [f]));
    ConcatSnoc(items, f);
    AppendAssoc5(Render(init), "<ul>", Concat(items), f, "</ul>");
  }

  /** One step of `parse` on the fragment `f`: with `before` the text so far
      and `wasActive` whether a list is open, open a list before a list item
      or close it before anything else, then append `f`. Closing the list the
      step leaves open gives the rendering of the fragments with `f` added. */
  lemma AppendFragment(fs: seq<string>, f: string, before: string, wasActive: bool)
    requires wasActive <==> fs != [] && IsListFragment(fs[|fs| - 1])
    requires before + (if wasActive then "</ul>" else "") == Render(Group(fs))
    ensures var after := (
        if IsListFragment(f) && !wasActive then before + "<ul>"
        else if !IsListFragment(f) && wasActive then before + "</ul>"
        else before) + f;
      after + (if IsListFragment(f) then "</ul>" else "") == Render(Group(fs + [f]))
  {
    if IsListFragment(f) {
      if wasActive {
        GroupAppendExtend(fs, f, before);
      } else {
        assert before + "" == before;
        GroupAppendOpen(fs, f);
      }
    } else {
      if !wasActive {
        assert before + "" == before;
      }
      GroupAppendSingle(fs, f);
    }
  }

  /** Whether `parse` has a list open after the fragments `fs`: the last one
      is a list item. */
  predicate ListOpen(fs: seq<string>)
  {
    fs != [] && IsListFragment(fs[|fs| - 1])
  }

  /** The text `parse` has appended after the fragments `fs`, before its
      final close: `<ul>` ahead of a list item that follows no list item,
      `</ul>` ahead of any other fragment that follows one. */
  function Stream(fs: seq<string>): string
    decreases |fs|
  {
    if fs == [] then ""
    else
      var init := fs[..|fs| - 1];
      var f := fs[|fs| - 1];
      var before := Stream(init);
      (if IsListFragment(f) && !ListOpen(init) then before + "<ul>"
       else if !IsListFragment(f) && ListOpen(init) then before + "</ul>"
       else before) + f
  }

  lemma StreamSnoc(fs: seq<string>, f: string)
    ensures Stream(fs + [f]) == (
      if IsListFragment(f) && !ListOpen(fs) then Stream(fs) + "<ul>"
      else if !IsListFragment(f) && ListOpen(fs) then Stream(fs) + "</ul>"
      else Stream(fs)) + f
    ensures ListOpen(fs + [f]) == IsListFragment(f)
  {
    assert (fs + [f])[..|fs|] == fs;
  }

  /** The streamed text, with the list it leaves open closed, is the
      rendering of the maximal-run blocks. */
  lemma {:induction false} StreamRenders(fs: seq<string>)
    ensures Stream(fs) + (if ListOpen(fs) then "</ul>" else "") == Render(Group(fs))
    decreases |fs|
  {
    if fs != [] {
      var init := fs[..|fs| - 1];
      var f := fs[|fs| - 1];
      assert init + [f] == fs;
      var before := Stream(init);
      var after := (
        if IsListFragment(f) && !ListOpen(init) then before + "<ul>"
        else if !IsListFragment(f) && ListOpen(init) then before + "</ul>"
        else before) + f;
      assert Stream(fs) == after && ListOpen(fs) == IsListFragment(f) by {
        StreamSnoc(init, f);
      }
      assert after + (if IsListFragment(f) then "</ul>" else "") == Render(Group(fs)) by {
        StreamRenders(init);
        AppendFragment(init, f, before, ListOpen(init));
      }
    }
  }

  lemma AppendAssoc5(a: string, b: string, c: string, d: string, e: string)
    ensures a + (b + (c + d) + e) == a + b + c + d + e
  {
  }

  lemma CancelSuffix(a: string, b: string, t: string)
    requires a + t == b + t
    ensures a == b
  {
    assert a == (a + t)[..|a|];
    assert b == (b + t)[..|b|];
  }

  /** The output seen as a stream of tags and fragments. */
  datatype Piece = Open | Close | Fragment(html: string)

  function PieceText(p: Piece): string
  {
    match p
    case Open => "<ul>"
    case Close => "</ul>"
    case Fragment(h) => h
  }

  function Text(ps: seq<Piece>): string
    decreases |ps|
  {
    if ps == [] then "" else Text(ps[..|ps| - 1]) + PieceText(ps[|ps| - 1])
  }

  function ItemPieces(items: seq<string>): (ps: seq<Piece>)
    ensures |ps| == |items| && forall k :: 0 <= k < |items| ==> ps[k] == Fragment(items[k])
  {
    seq(|items|, k requires 0 <= k < |items| => Fragment(items[k]))
  }

  function BlockPieces(b: Block): seq<Piece>
  {
    match b
    case Single(h) => [Fragment(h)]
    case List(items) => [Open] + ItemPieces(items) + [Close]
  }

  /** The tags and fragments `parse` appends, in order. */
  function Emit(g: seq<Block>): seq<Piece>
    decreases |g|
  {
    if g == [] then [] else Emit(g[..|g| - 1]) + BlockPieces(g[|g| - 1])
  }

  /** The html fragments of a stream of pieces, tags left out. */
  function Contents(ps: seq<Piece>): seq<string>
    decreases |ps|
  {
    if ps == [] then []
    else Contents(ps[..|ps| - 1]) + (if ps[|ps| - 1].Fragment? then [ps[|ps| - 1].html] else [])
  }

  /** One step of the list state: `<ul>` only outside a list, `</ul>` only
      inside one, and a fragment inside a list exactly when it is a list item. */
  function Step(inList: bool, p: Piece): Option<bool>
  {
    match p
    case Open => if inList then None else Some(true)
    case Close => if inList then Some(false) else None
    case Fragment(h) => if inList == IsListFragment(h) then Some(inList) else None
  }

  /** The list state after the pieces, or `None` at the first misplaced one. */
  function Run(ps: seq<Piece>, inList: bool): Option<bool>
    decreases |ps|
  {
    if ps == [] then Some(inList)
    else
      match Step(inList, ps[0])
      case None => None
      case Some(next) => Run(ps[1..], next)
  }

  /** Lists never nest, every `<ul>` is closed before the next one opens and
      at the end, and the fragments inside lists are exactly the list items. */
  predicate Bracketed(ps: seq<Piece>)
  {
    Run(ps, false) == Some(false)
  }

  function Count(ps: seq<Piece>, x: Piece): nat
    decreases |ps|
  {
    if ps == [] then 0 else (if ps[0] == x then 1 else 0) + Count(ps[1..], x)
  }

  lemma {:induction false} RunConcat(p: seq<Piece>, q: seq<Piece>, inList: bool)
    ensures Run(p + q, inList) == match Run(p, inList) case None => None case Some(b) => Run(q, b)
    decreases |p|
  {
    if p == [] {
      assert p + q == q;
    } else {
      assert (p + q)[0] == p[0];
      assert (p + q)[1..] == p[1..] + q;
      match Step(inList, p[0])
      case None =>
      case Some(next) => RunConcat(p[1..], q, next);
    }
  }

  lemma {:induction false} TextConcat(p: seq<Piece>, q: seq<Piece>)
    ensures Text(p + q) == Text(p) + Text(q)
    decreases |q|
  {
    if q == [] {
      assert p + q == p;
    } else {
      var q0 := q[..|q| - 1];
      var x := PieceText(q[|q| - 1]);
      assert Text(p + q) == Text(p + q0) + x by {
        assert (p + q)[..|p + q| - 1] == p + q0;
      }
      TextConcat(p, q0);
      assert Text(p) + Text(q0) + x == Text(p) + (Text(q0) + x);
    }
  }

  lemma {:induction false} ContentsConcat(p: seq<Piece>, q: seq<Piece>)
    ensures Contents(p + q) == Contents(p) + Contents(q)
    decreases |q|
  {
    if q == [] {
      assert p + q == p;
    } else {
      var q0 := q[..|q| - 1];
      var x := if q[|q| - 1].Fragment? then [q[|q| - 1].html] else [];
      assert Contents(p + q) == Contents(p + q0) + x by {
        assert (p + q)[..|p + q| - 1] == p + q0;
      }
      ContentsConcat(p, q0);
      assert Contents(p) + Contents(q0) + x == Contents(p) + (Contents(q0) + x);
    }
  }

  lemma {:induction false} RunItems(items: seq<string>)
    requires forall k :: 0 <= k < |items| ==> IsListFragment(items[k])
    ensures Run(ItemPieces(items), true) == Some(true)
    decreases |items|
  {
    if items != [] {
      var ps := ItemPieces(items);
      assert ps[1..] == ItemPieces(items[1..]);
      RunItems(items[1..]);
    }
  }

  lemma {:induction false} TextItems(items: seq<string>)
    ensures Text(ItemPieces(items)) == Concat(items)
    ensures Contents(ItemPieces(items)) == items
    decreases |items|
  {
    if items != [] {
      var init := items[..|items| - 1];
      var ps := ItemPieces(items);
      assert ps[..|ps| - 1] == ItemPieces(init);
      TextItems(init);
    }
  }

  lemma BlockPiecesText(b: Block)
    ensures Text(BlockPieces(b)) == RenderBlock(b)
  {
    match b
    case Single(h) =>
      assert [Fragment(h)][..0] == [];
    case List(items) =>
      var ps := ItemPieces(items);
      TextItems(items);
      assert Text([Open]) == "<ul>" by {
        assert [Open][..0] == [];
      }
      assert Text([Close]) == "</ul>" by {
        assert [Close][..0] == [];
      }
      TextConcat([Open], ps);
      TextConcat([Open] + ps, [Close]);
  }

  lemma BlockPiecesContents(b: Block)
    ensures Contents(BlockPieces(b)) == BlockFragments(b)
  {
    match b
    case Single(h) =>
      assert [Fragment(h)][..0] == [];
    case List(items) =>
      var ps := ItemPieces(items);
      TextItems(items);
      assert [Open][..0] == [];
      ContentsConcat([Open], ps);
      ContentsConcat([Open] + ps, [Close]);
      assert ([Open] + ps + [Close])[..|ps| + 1] == [Open] + ps;
  }

  /** The text of the emitted pieces is the rendered document. */
  lemma {:induction false} EmitText(g: seq<Block>)
    ensures Text(Emit(g)) == Render(g)
    decreases |g|
  {
    if g != [] {
      var init := g[..|g| - 1];
      var b := g[|g| - 1];
      EmitText(init);
      TextConcat(Emit(init), BlockPieces(b));
      BlockPiecesText(b);
    }
  }

  /** The fragments among the emitted pieces are the blocks' fragments, in order. */
  lemma {:induction false} EmitContents(g: seq<Block>)
    ensures Contents(Emit(g)) == Flatten(g)
    decreases |g|
  {
    if g != [] {
      var init := g[..|g| - 1];
      var b := g[|g| - 1];
      EmitContents(init);
      ContentsConcat(Emit(init), BlockPieces(b));
      BlockPiecesContents(b);
    }
  }

  /** The pieces of well-formed blocks are bracketed. */
  lemma {:induction false} EmitBracketed(g: seq<Block>)
    requires WellFormed(g)
    ensures Bracketed(Emit(g))
    decreases |g|
  {
    if g != [] {
      var init := g[..|g| - 1];
      var b := g[|g| - 1];
      assert WellFormed(init);
      EmitBracketed(init);
      RunConcat(Emit(init), BlockPieces(b), false);
      assert WellFormedBlock(b);
      match b
      case Single(h) =>
      case List(items) =>
        var ps := ItemPieces(items);
        RunItems(items);
        RunConcat([Open], ps, false);
        RunConcat([Open] + ps, [Close], false);
    }
  }

  /** A bracketed stream opens as many lists as it closes. */
  lemma {:induction false} RunBalances(ps: seq<Piece>, inList: bool, done: bool)
    requires Run(ps, inList) == Some(done)
    ensures Count(ps, Open) + (if inList then 1 else 0) == Count(ps, Close) + (if done then 1 else 0)
    decreases |ps|
  {
    if ps != [] {
      var next := Step(inList, ps[0]).value;
      RunBalances(ps[1..], next, done);
    }
  }

  /** The document `parse` assembles from the fragments `fs`: its pieces
      spell out the rendered text, hold the fragments in input order, and are
      bracketed with as many `<ul>` as `</ul>`. */
  lemma DocumentStructure(fs: seq<string>)
    ensures var ps := Emit(Group(fs));
      && Text(ps) == Render(Group(fs))
      && Contents(ps) == fs
      && Bracketed(ps)
      && Count(ps, Open) == Count(ps, Close)
  {
    var g := Group(fs);
    EmitText(g);
    EmitContents(g);
    EmitBracketed(g);
    RunBalances(Emit(g), false, false);
  }
}
