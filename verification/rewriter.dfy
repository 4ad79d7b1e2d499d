/**
  `convertWikilinks` and `init`: the walk of `processNode` over the content
  tree, which replaces every text node holding markup by the nodes its tokens
  render to and leaves code, preformatted text, scripts, styles and existing
  links alone.
 */
module Rewriter {
  import opened Wrappers
  import opened Strings
  import opened PageIndex
  import opened Scanner
  import opened Links
  import opened Images
  import opened Tree

  /** What the rendering of one page depends on: the page index and the page's section. */
  datatype Context = Context(index: Index, section: Option<Section>)

  /** Elements whose subtree the walk does not enter. */
  predicate Skipped(tag: string) {
    tag == "CODE" || tag == "PRE" || tag == "SCRIPT" || tag == "STYLE" || tag == "A"
  }

  /** The node a token becomes in the fragment. */
  function RenderToken(ctx: Context, t: Token): (r: Node)
    ensures t.Literal? <==> r.Text?
    ensures t.Literal? ==> r == Text(t.text)
    ensures t.Embed? && t.image ==> r.Img? && r == RenderImage(ctx.section, t.content)
    ensures t.Embed? && !t.image ==> r.Anchor? && r == RenderLink(ctx.index, t.content)
  {
    match t
    case Literal(s) => Text(s)
    case Embed(true, c) => RenderImage(ctx.section, c)
    case Embed(false, c) => RenderLink(ctx.index, c)
  }

  function RenderTokens(ctx: Context, toks: seq<Token>): (r: seq<Node>)
    ensures |r| == |toks|
    ensures forall i :: 0 <= i < |toks| ==> r[i] == RenderToken(ctx, toks[i])
  {
    seq(|toks|, i requires 0 <= i < |toks| => RenderToken(ctx, toks[i]))
  }

  /** The guard of line 47: a non-empty text holding `[[` or `![[`. */
  predicate MayHoldMarkup(text: string)
    ensures MayHoldMarkup(text) <==> text != "" && Contains(text, "[[")
  {
    BangBrackets(text);
    text != "" && (Contains(text, "[[") || Contains(text, "![["))
  }

  /** Every `![[` holds a `[[`. */
  lemma BangBrackets(text: string)
    ensures Contains(text, "![[") ==> Contains(text, "[[")
  {
    if Contains(text, "![[") {
      var i: nat :| i <= |text| && OccursAt(text, "![[", i);
      assert text[i + 1..i + 3] == "[[";
      OccursAtContains(text, "[[", i + 1);
    }
  }

  /**
    The nodes a text node is replaced by: one per token of its scan. A text
    the guard lets pass unscanned, or whose fragment would be empty, stays as
    it is.
   */
  function ExpandText(ctx: Context, text: string): (r: seq<Node>)
    ensures !MayHoldMarkup(text) ==> r == [Text(text)]
    ensures MayHoldMarkup(text) ==> r == RenderTokens(ctx, Scan(text))
  {
    if !MayHoldMarkup(text) then [Text(text)]
    else
      var nodes := RenderTokens(ctx, Scan(text));
      if |nodes| > 0 then nodes
      else
        // the scan of a non-empty text joins back to it, so has a token
        assert false;
        [Text(text)]
  }

  /** `processNode`: the nodes that stand where `n` stood after the walk. */
  function ProcessNode(ctx: Context, n: Node): (r: seq<Node>)
    ensures Clean(r)
    ensures n.Text? ==> r == ExpandText(ctx, n.value)
    ensures !n.Text? ==> |r| == 1
    ensures n.Element? && !Skipped(n.tag) ==> r == [Element(n.tag, ProcessChildren(ctx, n.children))]
    ensures n.Element? ==> r[0].Element? && r[0].tag == n.tag
    ensures n.Element? && Skipped(n.tag) ==> r == [n]
    ensures !n.Text? && !n.Element? ==> r == [n]
    decreases n, 1
  {
    match n
    case Text(v) => ExpandClean(ctx, v); ExpandText(ctx, v)
    case Element(tag, children) =>
      if Skipped(tag) then [n] else [Element(tag, ProcessChildren(ctx, children))]
    case _ => [n]
  }

  /** `Array.from(node.childNodes).forEach(processNode)`, over a snapshot of the children. */
  function ProcessChildren(ctx: Context, cs: seq<Node>): (r: seq<Node>)
    ensures Clean(r)
    decreases cs, 0
  {
    if |cs| == 0 then []
    else
      var head := ProcessNode(ctx, cs[0]);
      var tail := ProcessChildren(ctx, cs[1..]);
      CleanAppend(head, tail);
      head + tail
  }

  // ---------------------------------------------------------------------------
  // What the walk leaves behind
  // ---------------------------------------------------------------------------

  /**
    A node the walk has nothing left to do in: a text without a wikilink or
    embed, or an element whose text nodes (outside skipped elements) are all
    like that.
   */
  predicate CleanNode(n: Node)
    decreases n
  {
    match n
    case Text(v) => Inert(v)
    case Element(tag, children) => Skipped(tag) || forall i :: 0 <= i < |children| ==> CleanNode(children[i])
    case _ => true
  }

  predicate Clean(cs: seq<Node>) {
    forall i :: 0 <= i < |cs| ==> CleanNode(cs[i])
  }

  lemma CleanAppend(a: seq<Node>, b: seq<Node>)
    requires Clean(a) && Clean(b)
    ensures Clean(a + b)
  {
    forall i | 0 <= i < |a + b| ensures CleanNode((a + b)[i]) {
      if i >= |a| {
        assert (a + b)[i] == b[i - |a|];
      }
    }
  }

  /** Every node a text expands to is clean: its literals hold no markup. */
  lemma ExpandClean(ctx: Context, text: string)
    ensures Clean(ExpandText(ctx, text))
  {
    if !MayHoldMarkup(text) {
      NoBracketsInert(text);
    }
  }

  /** A text the scanner finds no markup in is kept as it is. */
  lemma InertKept(ctx: Context, text: string)
    requires Inert(text)
    ensures ExpandText(ctx, text) == [Text(text)]
  {
    MatchFreeScan(text);
  }

  /** Nothing changes in a clean node. */
  lemma {:induction false} CleanNodeFixed(ctx: Context, n: Node)
    requires CleanNode(n)
    ensures ProcessNode(ctx, n) == [n]
    decreases n, 1
  {
    match n
    case Text(v) => InertKept(ctx, v);
    case Element(tag, children) =>
      if !Skipped(tag) {
        CleanFixed(ctx, children);
      }
    case _ =>
  }

  /** Nothing changes in a sequence of clean nodes. */
  lemma {:induction false} CleanFixed(ctx: Context, cs: seq<Node>)
    requires Clean(cs)
    ensures ProcessChildren(ctx, cs) == cs
    decreases cs, 0
  {
    if |cs| > 0 {
      CleanNodeFixed(ctx, cs[0]);
      CleanFixed(ctx, cs[1..]);
      assert cs == [cs[0]] + cs[1..];
    }
  }

  /** The walk changes a sequence of nodes exactly when some of them are not clean. */
  lemma FixedIff(ctx: Context, cs: seq<Node>)
    ensures ProcessChildren(ctx, cs) == cs <==> Clean(cs)
  {
    if Clean(cs) {
      CleanFixed(ctx, cs);
    }
  }

  /** Running the rewrite on its own output changes nothing. */
  lemma ProcessIdempotent(ctx: Context, cs: seq<Node>)
    ensures ProcessChildren(ctx, ProcessChildren(ctx, cs)) == ProcessChildren(ctx, cs)
  {
    CleanFixed(ctx, ProcessChildren(ctx, cs));
  }

  /**
    The skip rule: an element with a skipped tag is left as it is, whatever it
    holds; any other element is changed exactly when some text below it, outside
    skipped elements, holds markup.
   */
  lemma SkipRule(ctx: Context, tag: string, children: seq<Node>)
    ensures Skipped(tag) ==> ProcessNode(ctx, Element(tag, children)) == [Element(tag, children)]
    ensures !Skipped(tag) ==>
      (ProcessNode(ctx, Element(tag, children)) == [Element(tag, children)] <==> Clean(children))
  {
    FixedIff(ctx, children);
  }

  /**
    A text node among its siblings is replaced in place by the nodes it
    expands to, and the siblings on either side are walked on their own.
   */
  lemma TextSplice(ctx: Context, a: seq<Node>, v: string, b: seq<Node>)
    ensures ProcessChildren(ctx, a + [Text(v)] + b)
         == ProcessChildren(ctx, a) + ExpandText(ctx, v) + ProcessChildren(ctx, b)
  {
    ChildrenAppend(ctx, a + [Text(v)], b);
    ChildrenAppend(ctx, a, [Text(v)]);
    assert ProcessChildren(ctx, [Text(v)]) == ExpandText(ctx, v) + ProcessChildren(ctx, []);
    assert ExpandText(ctx, v) + [] == ExpandText(ctx, v);
  }

  /** The walk works child by child: it distributes over concatenation. */
  lemma {:induction false} ChildrenAppend(ctx: Context, a: seq<Node>, b: seq<Node>)
    ensures ProcessChildren(ctx, a + b) == ProcessChildren(ctx, a) + ProcessChildren(ctx, b)
    decreases |a|
  {
    if |a| == 0 {
      assert a + b == b;
    } else {
      var x, xs := a[0], a[1..];
      assert a == [x] + xs;
      Assoc([x], xs, b);
      ChildrenCons(ctx, x, xs + b);
      ChildrenCons(ctx, x, xs);
      ChildrenAppend(ctx, xs, b);
      Assoc(ProcessNode(ctx, x), ProcessChildren(ctx, xs), ProcessChildren(ctx, b));
    }
  }

  lemma ChildrenCons(ctx: Context, x: Node, xs: seq<Node>)
    ensures ProcessChildren(ctx, [x] + xs) == ProcessNode(ctx, x) + ProcessChildren(ctx, xs)
  {
    assert ([x] + xs)[0] == x && ([x] + xs)[1..] == xs;
  }

  /**
    The guard is only a shortcut: a text it lets pass unscanned would have
    scanned to itself, and its second test adds nothing to the first.
   */
  lemma GuardSound(ctx: Context, text: string)
    ensures Contains(text, "![[") ==> Contains(text, "[[")
    ensures !Contains(text, "[[") ==> ExpandText(ctx, text) == [Text(text)]
    ensures !MayHoldMarkup(text) ==> ExpandText(ctx, text) == if |text| == 0 then [Text(text)] else RenderTokens(ctx, Scan(text))
  {
    BangBrackets(text);
    if !MayHoldMarkup(text) {
      NoBracketsInert(text);
    }
  }

  /** `convertWikilinks`: the children of `<main>` after the walk, or nothing when there is no `<main>`. */
  function ConvertWikilinks(ctx: Context, main: Option<seq<Node>>): (r: Option<seq<Node>>)
    ensures r.Some? <==> main.Some?
    ensures r.Some? ==> Clean(r.value)
    ensures main.Some? ==> r == Some(ProcessChildren(ctx, main.value))
    ensures main.Some? && Clean(main.value) ==> r == main
  {
    match main
    case Some(cs) => FixedIff(ctx, cs); Some(ProcessChildren(ctx, cs))
    case None => None
  }

  /** `init`: load the index from the page's payload, then rewrite `<main>` for the page's path. */
  function Init(path: string, payload: Option<seq<RawEntry>>, main: Option<seq<Node>>): (r: Option<seq<Node>>)
    ensures r.Some? <==> main.Some?
    ensures r.Some? ==> Clean(r.value)
    ensures main.Some? ==>
      r == Some(ProcessChildren(Context(LoadPageIndex(payload), CurrentSection(path)), main.value))
  {
    ConvertWikilinks(Context(LoadPageIndex(payload), CurrentSection(path)), main)
  }
}
