/**
  The markup scanner: the `regex.exec` loop of `processNode` over one text
  node, with the global pattern `(!?)\[\[([^\]]+)\]\]`. It cuts the text into
  literal runs and embed tokens (`[[content]]` links and `![[content]]` images).
 */
module Scanner {
  import opened Wrappers
  import opened Strings

  datatype Token =
      /** Text between matches, or after the last one. */
    | Literal(text: string)
      /** One match of the pattern: whether `!` was captured, and the bracketed content. */
    | Embed(image: bool, content: string)

  /** What `[^\]]+` accepts: at least one character, none of them `]`. */
  predicate ValidContent(c: string) {
    |c| > 0 && ']' !in c
  }

  /** The characters a match of the pattern consists of. */
  function Markup(image: bool, c: string): string {
    (if image then "!" else "") + "[[" + c + "]]"
  }

  /** The characters of the text a token was cut from. */
  function Source(t: Token): string {
    match t
    case Literal(s) => s
    case Embed(image, c) => Markup(image, c)
  }

  /** The tokens' source characters, in order. */
  function Join(toks: seq<Token>): string
    decreases |toks|
  {
    if |toks| == 0 then "" else Source(toks[0]) + Join(toks[1..])
  }

  /** The pattern matches at `p`, capturing `image` and content `c`. */
  predicate SpanAt(text: string, p: nat, image: bool, c: string) {
    ValidContent(c) && OccursAt(text, Markup(image, c), p)
  }

  // ---------------------------------------------------------------------------
  // Matching at one position
  // ---------------------------------------------------------------------------

  /** A link-shaped match at `p`, spelled out character by character. */
  lemma LinkSpanChars(text: string, p: nat, c: string)
    requires ValidContent(c)
    ensures OccursAt(text, Markup(false, c), p) <==>
      && p + |c| + 4 <= |text|
      && text[p] == '[' && text[p + 1] == '['
      && text[p + 2..p + 2 + |c|] == c
      && text[p + 2 + |c|] == ']' && text[p + 3 + |c|] == ']'
  {
    var m := Markup(false, c);
    assert m == "[[" + c + "]]";
    assert |m| == |c| + 4;
    if p + |c| + 4 <= |text| {
      var w := text[p..p + |c| + 4];
      if w == m {
        forall k | 0 <= k < |c| ensures text[p + 2 + k] == c[k] {
          assert w[2 + k] == m[2 + k];
        }
        assert text[p + 2..p + 2 + |c|] == c;
      }
      if text[p] == '[' && text[p + 1] == '[' && text[p + 2..p + 2 + |c|] == c
         && text[p + 2 + |c|] == ']' && text[p + 3 + |c|] == ']' {
        forall k | 0 <= k < |m| ensures w[k] == m[k] {
          if 2 <= k < 2 + |c| {
            assert w[k] == text[p + 2..p + 2 + |c|][k - 2];
          }
        }
      }
    }
  }

  /** An image match at `p` is `!` followed by a link match at `p + 1`. */
  lemma ImageSpanChars(text: string, p: nat, c: string)
    ensures SpanAt(text, p, true, c) <==> p < |text| && text[p] == '!' && SpanAt(text, p + 1, false, c)
  {
    var m := Markup(true, c);
    var l := Markup(false, c);
    assert m == "!" + l;
    assert |m| == |l| + 1;
    if p + |m| <= |text| {
      var w := text[p..p + |m|];
      assert w == [text[p]] + text[p + 1..p + 1 + |l|];
      if w == m {
        assert w[0] == '!';
        assert w[1..] == l;
      }
      if text[p] == '!' && text[p + 1..p + 1 + |l|] == l {
        assert w == m;
      }
    }
  }

  /**
    The pattern tried at position `p`. `!?` first takes a `!` if there is one
    and gives it back when the rest fails; but then `\[\[` has to match at the
    `!`, which it cannot, so a `!` position matches only as an image.
   */
  function MatchAt(text: string, p: nat): (r: Option<Token>)
    ensures r.Some? ==> r.value.Embed?
    decreases |text| - p
  {
    if p < |text| && text[p] == '!' then
      match MatchAt(text, p + 1)
      case Some(Embed(false, c)) => Some(Embed(true, c))
      case _ => None
    else if p + 2 <= |text| && text[p] == '[' && text[p + 1] == '[' then
      match ContentFrom(text, p + 2, p + 2)
      case Some(c) => Some(Embed(false, c))
      case None => None
    else
      None
  }

  /**
    The greedy `[^\]]+` followed by `\]\]`, started at `start` and having read
    up to `i`: it stops at the first `]`, and the match needs a second one.
   */
  function ContentFrom(text: string, start: nat, i: nat): (r: Option<string>)
    requires start <= i <= |text|
    ensures r.Some? ==> 0 < |r.value| && start + |r.value| + 2 <= |text| && r.value == text[start..start + |r.value|]
    decreases |text| - i
  {
    if i == |text| then None
    else if text[i] != ']' then ContentFrom(text, start, i + 1)
    else if i > start && i + 1 < |text| && text[i + 1] == ']' then Some(text[start..i])
    else None
  }

  /** What `ContentFrom` returns is a valid content followed by `]]`. */
  lemma {:induction false} ContentFromSound(text: string, start: nat, i: nat)
    requires start <= i <= |text|
    requires forall k :: start <= k < i ==> text[k] != ']'
    ensures var r := ContentFrom(text, start, i);
      r.Some? ==> && ValidContent(r.value) && start + |r.value| + 2 <= |text|
                  && text[start..start + |r.value|] == r.value
                  && text[start + |r.value|] == ']' && text[start + |r.value| + 1] == ']'
    decreases |text| - i
  {
    if i < |text| {
      if text[i] != ']' {
        ContentFromSound(text, start, i + 1);
      } else if i > start && i + 1 < |text| && text[i + 1] == ']' {
        var c := text[start..i];
        forall k | 0 <= k < |c| ensures c[k] != ']' {
          assert c[k] == text[start + k];
        }
      }
    }
  }

  /** Every match `MatchAt` reports is a match of the pattern at `p`. */
  lemma {:induction false} MatchAtSound(text: string, p: nat)
    ensures MatchAt(text, p).Some? ==>
      SpanAt(text, p, MatchAt(text, p).value.image, MatchAt(text, p).value.content)
    decreases |text| - p
  {
    if p < |text| && text[p] == '!' {
      MatchAtSound(text, p + 1);
      if MatchAt(text, p).Some? {
        ImageSpanChars(text, p, MatchAt(text, p).value.content);
      }
    } else if p + 2 <= |text| && text[p] == '[' && text[p + 1] == '[' {
      ContentFromSound(text, p + 2, p + 2);
      if MatchAt(text, p).Some? {
        LinkSpanChars(text, p, MatchAt(text, p).value.content);
      }
    }
  }

  /** `ContentFrom` finds the content of any link match. */
  lemma {:induction false} ContentFromComplete(text: string, start: nat, i: nat, c: string)
    requires start <= i <= start + |c|
    requires ValidContent(c) && start + |c| + 2 <= |text|
    requires text[start..start + |c|] == c && text[start + |c|] == ']' && text[start + |c| + 1] == ']'
    ensures forall k :: start <= k < i ==> text[k] != ']'
    ensures ContentFrom(text, start, i) == Some(c)
    decreases start + |c| - i
  {
    assert forall k :: start <= k < start + |c| ==> text[k] == c[k - start];
    if i < start + |c| {
      ContentFromComplete(text, start, i + 1, c);
    }
  }

  /**
    Whenever the pattern matches at `p`, `MatchAt` finds exactly that match: the
    `!` is captured exactly when it is there and followed by a link match.
   */
  lemma {:induction false} MatchAtComplete(text: string, p: nat, image: bool, c: string)
    requires SpanAt(text, p, image, c)
    ensures MatchAt(text, p) == Some(Embed(image, c))
    decreases |text| - p
  {
    if image {
      ImageSpanChars(text, p, c);
      MatchAtComplete(text, p + 1, false, c);
    } else {
      LinkSpanChars(text, p, c);
      ContentFromComplete(text, p + 2, p + 2, c);
    }
  }

  /** A match takes at least five characters: `[[`, one content character, `]]`. */
  lemma MatchLength(text: string, p: nat)
    requires MatchAt(text, p).Some?
    ensures p + 5 <= p + |Source(MatchAt(text, p).value)| <= |text|
    ensures OccursAt(text, Source(MatchAt(text, p).value), p)
  {
    MatchAtSound(text, p);
  }

  // ---------------------------------------------------------------------------
  // The match table and leftmost tokenisations
  // ---------------------------------------------------------------------------

  /** What the pattern matches at each position of `text`. */
  function Matches(text: string): (m: seq<Option<Token>>)
    ensures |m| == |text|
    ensures forall q :: 0 <= q < |text| ==> m[q] == MatchAt(text, q)
  {
    seq(|text|, q requires 0 <= q < |text| => MatchAt(text, q))
  }

  /**
    The table holds exactly the matches of the pattern: an image or link match
    with content `c` at `q` is in the table at `q`, and nothing else is.
   */
  lemma MatchesPattern(text: string)
    ensures forall q, image, c :: 0 <= q < |text| ==>
      (Matches(text)[q] == Some(Embed(image, c)) <==> SpanAt(text, q, image, c))
  {
    forall q, image, c | 0 <= q < |text|
      ensures Matches(text)[q] == Some(Embed(image, c)) <==> SpanAt(text, q, image, c)
    {
      MatchAtSound(text, q);
      if SpanAt(text, q, image, c) {
        MatchAtComplete(text, q, image, c);
      }
    }
  }

  /** No match starts in `[lo, hi)` according to the table `m`. */
  predicate NoMatchIn(m: seq<Option<Token>>, lo: nat, hi: nat) {
    hi <= |m| && forall q :: lo <= q < hi ==> m[q].None?
  }

  /**
    One step of a leftmost tokenisation, with `m` giving the match at each
    position: a literal is a non-empty run without a match start that ends
    where a match starts or at the end of the text; an embed is the match at
    its own position.
   */
  predicate TokenAt(text: string, m: seq<Option<Token>>, o: nat, t: Token) {
    match t
    case Literal(s) =>
      && 0 < |s| && o + |s| <= |text| && text[o..o + |s|] == s
      && NoMatchIn(m, o, o + |s|)
      && (o + |s| == |text| || (o + |s| < |m| && m[o + |s|].Some?))
    case Embed(_, _) => o < |m| && m[o] == Some(t) && o + |Source(t)| <= |text|
  }

  /** `toks` is the leftmost tokenisation of `text[o..]` under the match table `m`. */
  predicate Leftmost(text: string, m: seq<Option<Token>>, o: nat, toks: seq<Token>)
    decreases |toks|
  {
    if |toks| == 0 then o == |text|
    else TokenAt(text, m, o, toks[0]) && Leftmost(text, m, o + |Source(toks[0])|, toks[1..])
  }

  /** The first token of a leftmost tokenisation, and the rest of it. */
  lemma LeftmostTail(text: string, m: seq<Option<Token>>, o: nat, toks: seq<Token>)
    ensures Leftmost(text, m, o, toks) && |toks| > 0 ==>
      TokenAt(text, m, o, toks[0]) && Leftmost(text, m, o + |Source(toks[0])|, toks[1..])
  {
  }

  /** A token read at `o` in front of a leftmost tokenisation of the rest. */
  lemma LeftmostPrepend(text: string, m: seq<Option<Token>>, o: nat, t: Token, rest: seq<Token>)
    ensures TokenAt(text, m, o, t) && Leftmost(text, m, o + |Source(t)|, rest) ==>
      Leftmost(text, m, o, [t] + rest)
  {
    var toks := [t] + rest;
    assert toks[0] == t;
    assert toks[1..] == rest;
  }

  // ---------------------------------------------------------------------------
  // The scan
  // ---------------------------------------------------------------------------

  /** The literal run between the end of the previous match and `p`, if it is non-empty. */
  function Gap(text: string, last: nat, p: nat): seq<Token>
    requires last <= p <= |text|
  {
    if last < p then [Literal(text[last..p])] else []
  }

  /**
    The `while ((match = regex.exec(text)) !== null)` loop: `last` is the end of
    the previous match (the slice start), `p` is where the pattern is tried next.
   */
  function ScanFrom(text: string, last: nat, p: nat): (toks: seq<Token>)
    requires last <= p <= |text|
    requires NoMatchIn(Matches(text), last, p)
    ensures Leftmost(text, Matches(text), last, toks)
    ensures Join(toks) == text[last..]
    ensures WellFormed(toks)
    ensures NoMatchIn(Matches(text), p, |text|) ==> toks == Gap(text, last, |text|)
    ensures forall i :: 0 <= i < |toks| && toks[i].Literal? ==> Inert(toks[i].text)
    decreases |text| - p
  {
    if p == |text| then
      LeftmostGap(text, Matches(text), last, p, []);
      assert Gap(text, last, p) + [] == Gap(text, last, p);
      JoinGap(text, last, p, []);
      GapWellFormed(text, last, p, []);
      GapInert(text, last, p, []);
      Gap(text, last, p)
    else
      match MatchAt(text, p)
      case None => ScanFrom(text, last, p + 1)
      case Some(tok) =>
        MatchLength(text, p);
        var rest := ScanFrom(text, p + |Source(tok)|, p + |Source(tok)|);
        LeftmostPrepend(text, Matches(text), p, tok, rest);
        LeftmostGap(text, Matches(text), last, p, [tok] + rest);
        JoinStep(text, last, p, tok, rest);
        MatchAtSound(text, p);
        WellFormedCons(tok, rest);
        GapWellFormed(text, last, p, [tok] + rest);
        assert forall i :: 0 <= i < |[tok] + rest| && ([tok] + rest)[i].Literal? ==> Inert(([tok] + rest)[i].text) by {
          assert forall i :: 0 < i < |[tok] + rest| ==> ([tok] + rest)[i] == rest[i - 1];
        }
        GapInert(text, last, p, [tok] + rest);
        Gap(text, last, p) + ([tok] + rest)
  }

  /** The match-free run from `last` up to a match or the end, in front of what is read from there. */
  lemma LeftmostGap(text: string, m: seq<Option<Token>>, last: nat, p: nat, rest: seq<Token>)
    requires last <= p <= |text| && NoMatchIn(m, last, p)
    requires p == |text| || (p < |m| && m[p].Some?)
    ensures Leftmost(text, m, p, rest) ==> Leftmost(text, m, last, Gap(text, last, p) + rest)
  {
    if last < p {
      LeftmostPrepend(text, m, last, Literal(text[last..p]), rest);
    } else {
      assert Gap(text, last, p) + rest == rest;
    }
  }

  /**
    Shape of a token list: every literal is non-empty, every embed's content
    is non-empty and free of `]`, and no two literals are adjacent.
   */
  predicate WellFormed(toks: seq<Token>) {
    && (forall i :: 0 <= i < |toks| && toks[i].Literal? ==> |toks[i].text| > 0)
    && (forall i :: 0 <= i < |toks| && toks[i].Embed? ==> ValidContent(toks[i].content))
    && (forall i :: 0 <= i < |toks| - 1 && toks[i].Literal? ==> toks[i + 1].Embed?)
  }

  lemma WellFormedCons(t: Token, rest: seq<Token>)
    requires WellFormed(rest)
    requires t.Literal? ==> |t.text| > 0
    requires t.Embed? ==> ValidContent(t.content)
    requires t.Literal? && |rest| > 0 ==> rest[0].Embed?
    ensures WellFormed([t] + rest)
  {
    var toks := [t] + rest;
    assert forall i :: 0 < i < |toks| ==> toks[i] == rest[i - 1];
  }

  lemma GapWellFormed(text: string, last: nat, p: nat, rest: seq<Token>)
    requires last <= p <= |text|
    requires WellFormed(rest) && (|rest| > 0 ==> rest[0].Embed?)
    ensures WellFormed(Gap(text, last, p) + rest)
  {
    if last < p {
      WellFormedCons(Literal(text[last..p]), rest);
    } else {
      assert Gap(text, last, p) + rest == rest;
    }
  }

  /** The pattern matches nowhere in `s`. */
  predicate Inert(s: string) {
    NoMatchIn(Matches(s), 0, |s|)
  }

  /** A match inside a slice of the text is a match of the text itself, at the shifted position. */
  lemma MatchInSlice(text: string, o: nat, s: string, q: nat)
    requires o + |s| <= |text| && text[o..o + |s|] == s
    requires MatchAt(s, q).Some?
    ensures MatchAt(text, o + q) == MatchAt(s, q)
  {
    MatchAtSound(s, q);
    var t := MatchAt(s, q).value;
    var mk := Markup(t.image, t.content);
    forall k | 0 <= k < |mk| ensures text[o + q + k] == mk[k] {
      assert s[q + k] == mk[k];
      assert s[q + k] == text[o + q + k];
    }
    assert text[o + q..o + q + |mk|] == mk;
    MatchAtComplete(text, o + q, t.image, t.content);
  }

  /** A match-free stretch of the text is inert on its own. */
  lemma SliceInert(text: string, lo: nat, hi: nat)
    requires lo <= hi <= |text| && NoMatchIn(Matches(text), lo, hi)
    ensures Inert(text[lo..hi])
  {
    var s := text[lo..hi];
    forall q | 0 <= q < |s| ensures MatchAt(s, q).None? {
      if MatchAt(s, q).Some? {
        MatchInSlice(text, lo, s, q);
      }
    }
  }

  lemma GapInert(text: string, last: nat, p: nat, rest: seq<Token>)
    requires last <= p <= |text| && NoMatchIn(Matches(text), last, p)
    requires forall i :: 0 <= i < |rest| && rest[i].Literal? ==> Inert(rest[i].text)
    ensures var toks := Gap(text, last, p) + rest;
      forall i :: 0 <= i < |toks| && toks[i].Literal? ==> Inert(toks[i].text)
  {
    var toks := Gap(text, last, p) + rest;
    if last < p {
      SliceInert(text, last, p);
      assert forall i :: 0 < i < |toks| ==> toks[i] == rest[i - 1];
    } else {
      assert toks == rest;
    }
  }

  /** The tokens of one text node. */
  function Scan(text: string): (toks: seq<Token>)
    ensures Leftmost(text, Matches(text), 0, toks)
    ensures Join(toks) == text
    ensures WellFormed(toks)
    ensures forall i :: 0 <= i < |toks| && toks[i].Literal? ==> Inert(toks[i].text)
  {
    ScanFrom(text, 0, 0)
  }

  // ---------------------------------------------------------------------------
  // Properties of leftmost tokenisations
  // ---------------------------------------------------------------------------

  /** A token takes up at least one character, inside the text. */
  lemma TokenAtBounds(text: string, m: seq<Option<Token>>, o: nat, t: Token)
    requires TokenAt(text, m, o, t)
    ensures 0 < |Source(t)| && o + |Source(t)| <= |text|
  {
  }

  /** At any offset at most one token can be read. */
  lemma SameToken(text: string, m: seq<Option<Token>>, o: nat, x: Token, y: Token)
    ensures TokenAt(text, m, o, x) && TokenAt(text, m, o, y) ==> x == y
  {
    if TokenAt(text, m, o, x) && TokenAt(text, m, o, y) && x.Literal? && y.Literal? {
      assert |x.text| == |y.text|;
    }
  }

  /** There is at most one leftmost tokenisation of a text under a given match table. */
  lemma LeftmostUnique(text: string, m: seq<Option<Token>>, o: nat, a: seq<Token>, b: seq<Token>)
    ensures Leftmost(text, m, o, a) && Leftmost(text, m, o, b) ==> a == b
  {
    if Leftmost(text, m, o, a) && Leftmost(text, m, o, b) {
      LeftmostSame(text, m, o, a, b);
    }
  }

  lemma {:induction false} LeftmostSame(text: string, m: seq<Option<Token>>, o: nat, a: seq<Token>, b: seq<Token>)
    requires Leftmost(text, m, o, a) && Leftmost(text, m, o, b)
    ensures a == b
    decreases |a|
  {
    if |a| == 0 {
      if |b| > 0 {
        LeftmostNonEmpty(text, m, o, b);
      }
    } else if |b| == 0 {
      LeftmostNonEmpty(text, m, o, a);
    } else {
      LeftmostTail(text, m, o, a);
      LeftmostTail(text, m, o, b);
      SameToken(text, m, o, a[0], b[0]);
      LeftmostSame(text, m, o + |Source(a[0])|, a[1..], b[1..]);
      SameHeadsAndTails(a, b);
    }
  }

  lemma SameHeadsAndTails<T>(a: seq<T>, b: seq<T>)
    requires |a| > 0 && |b| > 0
    ensures a[0] == b[0] && a[1..] == b[1..] ==> a == b
  {
    assert a == [a[0]] + a[1..];
    assert b == [b[0]] + b[1..];
  }

  /** A non-empty tokenisation starts before the end of the text. */
  lemma LeftmostNonEmpty(text: string, m: seq<Option<Token>>, o: nat, toks: seq<Token>)
    requires |toks| > 0
    ensures Leftmost(text, m, o, toks) ==> o < |text|
  {
    LeftmostTail(text, m, o, toks);
    if Leftmost(text, m, o, toks) {
      TokenAtBounds(text, m, o, toks[0]);
    }
  }

  lemma JoinPrepend(t: Token, rest: seq<Token>)
    ensures Join([t] + rest) == Source(t) + Join(rest)
  {
    assert ([t] + rest)[1..] == rest;
  }

  lemma SliceConcat(s: string, i: nat, j: nat)
    requires i <= j <= |s|
    ensures s[i..j] + s[j..] == s[i..]
  {
  }

  lemma JoinGap(text: string, last: nat, p: nat, rest: seq<Token>)
    requires last <= p <= |text|
    ensures Join(Gap(text, last, p) + rest) == text[last..p] + Join(rest)
  {
    if last < p {
      JoinPrepend(Literal(text[last..p]), rest);
    } else {
      assert Gap(text, last, p) + rest == rest;
    }
  }

  lemma JoinStep(text: string, last: nat, p: nat, tok: Token, rest: seq<Token>)
    requires last <= p && OccursAt(text, Source(tok), p)
    requires Join(rest) == text[p + |Source(tok)|..]
    ensures Join(Gap(text, last, p) + ([tok] + rest)) == text[last..]
  {
    JoinSpelled(text, p, tok, rest);
    JoinGap(text, last, p, [tok] + rest);
    SliceConcat(text, last, p);
  }

  lemma JoinSpelled(text: string, p: nat, tok: Token, rest: seq<Token>)
    requires OccursAt(text, Source(tok), p)
    requires Join(rest) == text[p + |Source(tok)|..]
    ensures Join([tok] + rest) == text[p..]
  {
    JoinPrepend(tok, rest);
    SliceConcat(text, p, p + |Source(tok)|);
  }

  // ---------------------------------------------------------------------------
  // What the scan promises
  // ---------------------------------------------------------------------------

  /**
    The scan of a text is its leftmost tokenisation, and the only one: literal
    runs end exactly where the pattern next matches.
   */
  lemma ScanUnique(text: string, toks: seq<Token>)
    ensures Leftmost(text, Matches(text), 0, toks) <==> toks == Scan(text)
  {
    LeftmostUnique(text, Matches(text), 0, toks, Scan(text));
  }

  /** A text in which the pattern matches nowhere scans to one literal, or to nothing when empty. */
  lemma MatchFreeScan(s: string)
    requires Inert(s)
    ensures Scan(s) == if |s| == 0 then [] else [Literal(s)]
  {
    assert s[0..|s|] == s;
  }

  /**
    No literal the scan emits contains markup the pattern would match, so
    scanning it again gives it back unchanged.
   */
  lemma ScanLiteralsInert(text: string)
    ensures forall i :: 0 <= i < |Scan(text)| && Scan(text)[i].Literal? ==>
      Scan(Scan(text)[i].text) == [Scan(text)[i]]
  {
    var toks := Scan(text);
    forall i | 0 <= i < |toks| && toks[i].Literal?
      ensures Scan(toks[i].text) == [toks[i]]
    {
      MatchFreeScan(toks[i].text);
    }
  }

  /**
    The script skips texts without `[[`: this only saves work, because the
    pattern cannot match in such a text, which then scans to itself.
   */
  lemma NoBracketsInert(s: string)
    requires !Contains(s, "[[")
    ensures Inert(s)
    ensures Scan(s) == if |s| == 0 then [] else [Literal(s)]
  {
    forall q | 0 <= q < |s| ensures MatchAt(s, q).None? {
      if MatchAt(s, q).Some? {
        MatchAtSound(s, q);
        var t := MatchAt(s, q).value;
        var o := if t.image then q + 1 else q;
        if t.image {
          ImageSpanChars(s, q, t.content);
        }
        LinkSpanChars(s, o, t.content);
        assert s[o..o + 2] == "[[";
        OccursAtContains(s, "[[", o);
      }
    }
    MatchFreeScan(s);
  }
}
