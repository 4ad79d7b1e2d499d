/**
  The page index: the script's module-level `Map` from slugs and basenames to
  page URLs, filled once from the pre-built `{pages: [{s, b, u}, ...]}` payload.

  A JavaScript `Map` remembers insertion order, and `set` on a key that is
  already present replaces the value but keeps the key where it was. The model
  is therefore a sequence of (key, url) pairs with unique keys, updated in place.
 */
module PageIndex {
  import opened Wrappers
  import opened Strings

  /** Key/URL pairs in insertion order. */
  type Index = seq<(string, string)>

  /** Every key appears at most once. */
  predicate UniqueKeys(idx: Index) {
    forall i, j :: 0 <= i < j < |idx| ==> idx[i].0 != idx[j].0
  }

  function Keys(idx: Index): (ks: seq<string>)
    ensures |ks| == |idx|
    ensures forall i :: 0 <= i < |idx| ==> ks[i] == idx[i].0
  {
    seq(|idx|, i requires 0 <= i < |idx| => idx[i].0)
  }

  /** A key is in the iteration order exactly when `get` finds it. */
  lemma KeysGet(idx: Index, k: string)
    ensures k in Keys(idx) <==> Get(idx, k).Some?
  {
    if k in Keys(idx) {
      var i :| 0 <= i < |idx| && Keys(idx)[i] == k;
      assert idx[i].0 == k;
    }
  }

  /** Position of `k` in the iteration order, if present. */
  function Find(idx: Index, k: string): (r: Option<nat>)
    ensures r.Some? ==> r.value < |idx| && idx[r.value].0 == k
    ensures r.Some? ==> forall j :: 0 <= j < r.value ==> idx[j].0 != k
    ensures r.None? ==> forall j :: 0 <= j < |idx| ==> idx[j].0 != k
    decreases |idx|
  {
    if |idx| == 0 then None
    else if idx[0].0 == k then Some(0)
    else match Find(idx[1..], k)
      case Some(i) => Some(i + 1)
      case None => None
  }

  /** `map.get(k)`: the URL stored under `k`, or `undefined`. */
  function Get(idx: Index, k: string): (r: Option<string>)
    ensures r.Some? <==> exists i :: 0 <= i < |idx| && idx[i].0 == k
    ensures UniqueKeys(idx) ==> forall i :: 0 <= i < |idx| && idx[i].0 == k ==> r == Some(idx[i].1)
  {
    match Find(idx, k)
    case Some(i) => Some(idx[i].1)
    case None => None
  }

  /**
    `map.set(k, v)`: a present key gets the new value in its old position; a new
    key goes to the end.
   */
  function Set(idx: Index, k: string, v: string): (r: Index)
    requires UniqueKeys(idx)
    ensures UniqueKeys(r)
    ensures Get(r, k) == Some(v)
    ensures forall k' :: k' != k ==> Get(r, k') == Get(idx, k')
    ensures Keys(idx) <= Keys(r)
    ensures Get(idx, k).Some? ==> Keys(r) == Keys(idx)
    ensures Get(idx, k).None? ==> Keys(r) == Keys(idx) + [k]
  {
    match Find(idx, k)
    case Some(i) =>
      var r := idx[i := (k, v)];
      assert Keys(r) == Keys(idx);
      r
    case None =>
      var r := idx + [(k, v)];
      assert Keys(r) == Keys(idx) + [k];
      assert UniqueKeys(r);
      assert r[|idx|] == (k, v);
      assert forall k' :: k' != k ==> Get(r, k') == Get(idx, k') by {
        forall k' | k' != k ensures Get(r, k') == Get(idx, k') {
          if Get(idx, k').Some? {
            var i :| 0 <= i < |idx| && idx[i].0 == k';
            assert r[i] == idx[i];
          }
        }
      }
      r
  }

  // ---------------------------------------------------------------------------
  // Loading the payload
  // ---------------------------------------------------------------------------

  /** One `{s, b, u}` record: slug, optional basename, URL. */
  datatype Entry = Entry(slug: string, basename: Option<string>, url: string)

  /**
    An element of the `pages` array: a record, or a value (such as `null`) on
    which reading `p.s` throws.
   */
  datatype RawEntry = Page(entry: Entry) | Malformed

  /** Whether loading `e` writes key `k`: the slug always, the basename when non-empty. */
  predicate Writes(e: Entry, k: string) {
    k == e.slug || (e.basename == Some(k) && k != "")
  }

  /**
    The body of the `forEach` callback: set `s -> u`, then `b -> u` when `b` is
    truthy (a non-empty string) and differs from `s`.
   */
  function AddEntry(idx: Index, e: Entry): (r: Index)
    requires UniqueKeys(idx)
    ensures UniqueKeys(r)
    ensures forall k :: Get(r, k) == if Writes(e, k) then Some(e.url) else Get(idx, k)
    ensures Keys(idx) <= Keys(r)
    ensures Keys(r) == Keys(idx) + FirstSeen(Keys(idx), WriteOrder(e))
    ensures Get(idx, e.slug).None? ==> |r| > |idx| && r[|idx|].0 == e.slug
  {
    var withSlug := Set(idx, e.slug, e.url);
    SetKeyOrder(idx, e.slug, e.url);
    if e.basename.Some? && e.basename.value != "" && e.basename.value != e.slug then
      SetTwiceKeyOrder(idx, e.slug, e.basename.value, e.url);
      Set(withSlug, e.basename.value, e.url)
    else
      withSlug
  }

  /** `set` appends its key exactly when the key is new. */
  lemma SetKeyOrder(idx: Index, k: string, v: string)
    requires UniqueKeys(idx)
    ensures Keys(Set(idx, k, v)) == Keys(idx) + FirstSeen(Keys(idx), [k])
  {
    KeysGet(idx, k);
    assert [k][1..] == [];
    if k in Keys(idx) {
      assert Keys(idx) + [] == Keys(idx);
    }
  }

  lemma SetTwiceKeyOrder(idx: Index, k: string, k': string, v: string)
    requires UniqueKeys(idx)
    ensures Keys(Set(Set(idx, k, v), k', v)) == Keys(idx) + FirstSeen(Keys(idx), [k, k'])
  {
    var once := Set(idx, k, v);
    SetKeyOrder(idx, k, v);
    SetKeyOrder(once, k', v);
    TwoRuns(Keys(idx), k, k', Keys(once), Keys(Set(once, k', v)));
  }

  lemma TwoRuns(ks: seq<string>, k: string, k': string, once: seq<string>, twice: seq<string>)
    requires once == ks + FirstSeen(ks, [k])
    requires twice == once + FirstSeen(once, [k'])
    ensures twice == ks + FirstSeen(ks, [k, k'])
  {
    var first := FirstSeen(ks, [k]);
    var second := FirstSeen(once, [k']);
    FirstSeenAppend(ks, [k], [k']);
    assert [k] + [k'] == [k, k'];
    Assoc(ks, first, second);
  }

  /** The keys the callback for `e` sets, in the order it sets them. */
  function WriteOrder(e: Entry): (ws: seq<string>)
    ensures forall k :: k in ws <==> Writes(e, k)
  {
    if e.basename.Some? && e.basename.value != "" && e.basename.value != e.slug then
      [e.slug, e.basename.value]
    else
      [e.slug]
  }

  /** The keys a run of callbacks sets, in the order they are set. */
  function WriteOrders(es: seq<Entry>): (ws: seq<string>)
    ensures forall k :: k in ws <==> exists i :: 0 <= i < |es| && Writes(es[i], k)
    decreases |es|
  {
    if |es| == 0 then []
    else
      var ws := WriteOrder(es[0]) + WriteOrders(es[1..]);
      assert forall i :: 0 < i < |es| ==> es[i] == es[1..][i - 1];
      ws
  }

  /**
    The first occurrence of every key of `ws` that is not in `seen`, in the
    order of `ws`: the keys a run of `set` calls appends to a map holding
    `seen`.
   */
  function FirstSeen(seen: seq<string>, ws: seq<string>): (r: seq<string>)
    ensures forall k :: k in r <==> k in ws && k !in seen
    ensures forall i, j :: 0 <= i < j < |r| ==> r[i] != r[j]
    decreases |ws|
  {
    if |ws| == 0 then []
    else if ws[0] in seen then FirstSeen(seen, ws[1..])
    else
      var rest := FirstSeen(seen + [ws[0]], ws[1..]);
      assert ws[0] !in rest;
      [ws[0]] + rest
  }

  /** Appending keys in two runs is appending them in one. */
  lemma {:induction false} FirstSeenAppend(seen: seq<string>, a: seq<string>, b: seq<string>)
    ensures FirstSeen(seen, a + b) == FirstSeen(seen, a) + FirstSeen(seen + FirstSeen(seen, a), b)
    decreases |a|
  {
    if |a| == 0 {
      assert a + b == b;
      assert seen + [] == seen;
    } else {
      assert (a + b)[0] == a[0];
      assert (a + b)[1..] == a[1..] + b;
      if a[0] in seen {
        FirstSeenAppend(seen, a[1..], b);
      } else {
        var seen' := seen + [a[0]];
        FirstSeenAppend(seen', a[1..], b);
        var fa := FirstSeen(seen', a[1..]);
        Assoc(seen, [a[0]], fa);
        Assoc([a[0]], fa, FirstSeen(seen' + fa, b));
      }
    }
  }

  /** `forEach` over well-formed entries, starting from `idx`. */
  function AddAll(idx: Index, es: seq<Entry>): (r: Index)
    requires UniqueKeys(idx)
    ensures UniqueKeys(r)
    decreases |es|
  {
    if |es| == 0 then idx else AddAll(AddEntry(idx, es[0]), es[1..])
  }

  /**
    The records the `forEach` gets through: an exception on a malformed element
    leaves the `try`, so everything from that element on is never added.
   */
  function Survivors(raws: seq<RawEntry>): (es: seq<Entry>)
    ensures |es| <= |raws|
    ensures forall i :: 0 <= i < |es| ==> raws[i] == Page(es[i])
    ensures |es| < |raws| ==> raws[|es|] == Malformed
    decreases |raws|
  {
    if |raws| == 0 || raws[0].Malformed? then []
    else [raws[0].entry] + Survivors(raws[1..])
  }

  /**
    `loadPageIndex`: `None` stands for a missing index element, a payload that
    fails to parse, or one without a truthy `pages` field; each leaves the index
    empty.
   */
  function LoadPageIndex(payload: Option<seq<RawEntry>>): (r: Index)
    ensures UniqueKeys(r)
    ensures payload.None? ==> r == []
  {
    match payload
    case None => []
    case Some(raws) => AddAll([], Survivors(raws))
  }

  // ---------------------------------------------------------------------------
  // Properties of the fold
  // ---------------------------------------------------------------------------

  /** `i` is the last entry of `es` that writes `k`. */
  predicate LastWriter(es: seq<Entry>, k: string, i: int) {
    0 <= i < |es| && Writes(es[i], k) && forall j :: i < j < |es| ==> !Writes(es[j], k)
  }

  /**
    Last write wins: after the fold, `k` maps to the URL of the last entry that
    writes it, and keeps its earlier value when no entry writes it.
   */
  lemma AddAllLastWriteWins(idx: Index, es: seq<Entry>, k: string)
    requires UniqueKeys(idx)
    ensures forall i :: LastWriter(es, k, i) ==> Get(AddAll(idx, es), k) == Some(es[i].url)
    ensures (forall i :: 0 <= i < |es| ==> !Writes(es[i], k)) ==> Get(AddAll(idx, es), k) == Get(idx, k)
  {
    forall i | LastWriter(es, k, i) ensures Get(AddAll(idx, es), k) == Some(es[i].url) {
      AddAllLastWriter(idx, es, k, i);
    }
    AddAllUnwritten(idx, es, k);
  }

  lemma {:induction false} AddAllLastWriter(idx: Index, es: seq<Entry>, k: string, i: nat)
    requires UniqueKeys(idx) && LastWriter(es, k, i)
    ensures Get(AddAll(idx, es), k) == Some(es[i].url)
    decreases |es|
  {
    var idx' := AddEntry(idx, es[0]);
    if i > 0 {
      assert LastWriter(es[1..], k, i - 1);
      AddAllLastWriter(idx', es[1..], k, i - 1);
    } else {
      NoLaterWriter(es, k);
      AddAllUnwritten(idx', es[1..], k);
    }
  }

  lemma NoLaterWriter(es: seq<Entry>, k: string)
    requires |es| > 0 && forall j :: 0 < j < |es| ==> !Writes(es[j], k)
    ensures forall j :: 0 <= j < |es[1..]| ==> !Writes(es[1..][j], k)
  {
    forall j | 0 <= j < |es[1..]| ensures !Writes(es[1..][j], k) {
      assert es[1..][j] == es[j + 1];
    }
  }

  lemma {:induction false} AddAllUnwritten(idx: Index, es: seq<Entry>, k: string)
    requires UniqueKeys(idx)
    ensures (forall i :: 0 <= i < |es| ==> !Writes(es[i], k)) ==> Get(AddAll(idx, es), k) == Get(idx, k)
    decreases |es|
  {
    if |es| > 0 && forall i :: 0 <= i < |es| ==> !Writes(es[i], k) {
      var idx' := AddEntry(idx, es[0]);
      NoLaterWriter(es, k);
      AddAllUnwritten(idx', es[1..], k);
    }
  }

  /**
    The loaded index maps `k` to the URL of the last surviving entry that writes
    it, and has no entry for a key nothing writes.
   */
  lemma LoadLastWriteWins(raws: seq<RawEntry>, k: string)
    ensures forall i :: LastWriter(Survivors(raws), k, i) ==>
      Get(LoadPageIndex(Some(raws)), k) == Some(Survivors(raws)[i].url)
    ensures (forall i :: 0 <= i < |Survivors(raws)| ==> !Writes(Survivors(raws)[i], k)) ==>
      Get(LoadPageIndex(Some(raws)), k) == None
  {
    AddAllLastWriteWins([], Survivors(raws), k);
  }

  /**
    Insertion order is stable: every key already in the index keeps its
    position, and new keys only ever go to the end.
   */
  lemma {:induction false} AddAllKeepsPositions(idx: Index, es: seq<Entry>)
    requires UniqueKeys(idx)
    ensures Keys(idx) <= Keys(AddAll(idx, es))
    decreases |es|
  {
    if |es| > 0 {
      var idx' := AddEntry(idx, es[0]);
      AddAllKeepsPositions(idx', es[1..]);
    }
  }

  /**
    The order of the keys after the fold: those already present, then every
    newly written key at the point of its first write. A record's slug is
    therefore ahead of its basename unless the basename was written earlier.
   */
  lemma {:induction false} AddAllKeyOrder(idx: Index, es: seq<Entry>)
    requires UniqueKeys(idx)
    ensures Keys(AddAll(idx, es)) == Keys(idx) + FirstSeen(Keys(idx), WriteOrders(es))
    decreases |es|
  {
    if |es| == 0 {
      assert Keys(idx) + [] == Keys(idx);
    } else {
      var idx' := AddEntry(idx, es[0]);
      AddAllKeyOrder(idx', es[1..]);
      var a := WriteOrder(es[0]);
      var fa := FirstSeen(Keys(idx), a);
      FirstSeenAppend(Keys(idx), a, WriteOrders(es[1..]));
      Assoc(Keys(idx), fa, FirstSeen(Keys(idx) + fa, WriteOrders(es[1..])));
    }
  }

  /** The loaded index iterates its keys in first-write order. */
  lemma LoadKeyOrder(raws: seq<RawEntry>)
    ensures Keys(LoadPageIndex(Some(raws))) == FirstSeen([], WriteOrders(Survivors(raws)))
  {
    AddAllKeyOrder([], Survivors(raws));
    assert Keys([]) == [];
  }

  /**
    A malformed element ends the load: the records after it are never added,
    while those before it stay in the index.
   */
  lemma MalformedTruncates(pre: seq<Entry>, post: seq<RawEntry>)
    ensures LoadPageIndex(Some(seq(|pre|, i requires 0 <= i < |pre| => Page(pre[i])) + [Malformed] + post))
         == AddAll([], pre)
  {
    var raws := seq(|pre|, i requires 0 <= i < |pre| => Page(pre[i])) + [Malformed] + post;
    SurvivorsOfPrefix(pre, post);
  }

  lemma {:induction false} SurvivorsOfPrefix(pre: seq<Entry>, post: seq<RawEntry>)
    ensures Survivors(seq(|pre|, i requires 0 <= i < |pre| => Page(pre[i])) + [Malformed] + post) == pre
    decreases |pre|
  {
    var raws := seq(|pre|, i requires 0 <= i < |pre| => Page(pre[i])) + [Malformed] + post;
    if |pre| > 0 {
      SurvivorsOfPrefix(pre[1..], post);
      assert raws[1..] == seq(|pre[1..]|, i requires 0 <= i < |pre[1..]| => Page(pre[1..][i])) + [Malformed] + post;
    }
  }
}
