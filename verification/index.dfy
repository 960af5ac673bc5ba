/** The inverted index of `SAR_Indexer` and the operations that build and
    read it: registering a file and its articles (`index_file`), the
    duplicate-URL test (`already_in_index`), single-term lookup
    (`get_posting`) and phrase lookup (`get_positionals`). */
module Index {
  import opened Seqs
  import opened Postings
  import opened Tokenizer

  /** One corpus record as the ingestion layer hands it over: its URL and its
      concatenated full text (the `all` field). */
  datatype Article = Article(url: string, all: string)

  /** `articles[artid]`: the document the article came from and the line
      number recorded for it. */
  datatype ArticleRef = ArticleRef(doc: nat, line: nat)

  /** `index[term]`: a dictionary from article id to the positions of the
      term in that article; `artids` keeps the dictionary's keys in
      insertion order, which is the order `keys()` and `items()` use. */
  datatype Entry = Entry(artids: seq<nat>, positions: map<nat, seq<nat>>)

  /** The state the builder owns. `docs` and `articles` are dictionaries
      with the dense keys `0, 1, ...`, so they are sequences here. */
  datatype Indexer = Indexer(
    urls: set<string>,
    index: map<string, Entry>,
    docs: seq<string>,
    articles: seq<ArticleRef>)

  /** The state of a freshly constructed indexer. */
  const Empty: Indexer := Indexer({}, map[], [], [])

  // ---------------------------------------------------------------------
  // Reference definitions

  /** The positions at which `t` occurs in a token stream, ascending. */
  function Occurrences(tokens: seq<string>, t: string): (r: seq<nat>)
    ensures Increasing(r) && Below(r, |tokens|)
    ensures forall p: nat :: p in r <==> p < |tokens| && tokens[p] == t
  {
    if tokens == [] then []
    else
      var n := |tokens| - 1;
      Occurrences(tokens[..n], t) + (if tokens[n] == t then [n] else [])
  }

  /** The entry a term has before an update: its own, or an empty one. */
  function EntryOf(index: map<string, Entry>, t: string): Entry {
    if t in index then index[t] else Entry([], map[])
  }

  /** Structural invariant of the index: every entry's keys are ascending
      article ids below `n`, and every position list is non-empty and
      strictly ascending. */
  ghost predicate Valid(st: Indexer) {
    forall t :: t in st.index ==> ValidEntry(st.index[t], |st.articles|)
  }

  ghost predicate ValidEntry(e: Entry, n: nat) {
    && Increasing(e.artids) && Below(e.artids, n)
    && (forall x :: x in e.positions <==> x in e.artids)
    && (forall x :: x in e.positions ==> |e.positions[x]| > 0 && Increasing(e.positions[x]))
  }

  /** The index describes exactly the token streams `texts`, one per
      article: term `t` has a posting for article `x` iff `t` occurs in
      `texts[x]`, and that posting lists the positions of `t` there. */
  ghost predicate Reflects(st: Indexer, texts: seq<seq<string>>) {
    && |texts| == |st.articles|
    && (forall t :: t in st.index ==>
          Increasing(st.index[t].artids)
          && (forall x :: x in st.index[t].positions <==> x in st.index[t].artids))
    && (forall t, x: nat :: Posted(st, t, x) ==>
          x < |texts| && t in texts[x] && st.index[t].positions[x] == Occurrences(texts[x], t))
    && (forall x, p :: 0 <= x < |texts| && 0 <= p < |texts[x]| ==> Posted(st, texts[x][p], x))
  }

  /** Term `t` has a posting for article `x`. */
  predicate Posted(st: Indexer, t: string, x: nat) {
    t in st.index && x in st.index[t].positions
  }

  lemma EmptyReflects()
    ensures Reflects(Empty, [])
  {
  }

  /** An index that describes some token streams is structurally valid. */
  lemma ReflectsValid(st: Indexer, texts: seq<seq<string>>)
    requires Reflects(st, texts)
    ensures Valid(st)
  {
    forall t | t in st.index
      ensures ValidEntry(st.index[t], |st.articles|)
    {
      var e := st.index[t];
      forall i | 0 <= i < |e.artids|
        ensures e.artids[i] < |st.articles|
      {
        var x := e.artids[i];
        assert x in e.artids;
        assert x in e.positions;
        assert Posted(st, t, x);
      }
      forall x | x in e.positions
        ensures |e.positions[x]| > 0 && Increasing(e.positions[x])
      {
        assert Posted(st, t, x);
        var p :| 0 <= p < |texts[x]| && texts[x][p] == t;
        assert p in Occurrences(texts[x], t);
      }
    }
  }

  // ---------------------------------------------------------------------
  // Building

  /** `article["url"] in self.urls`. */
  predicate AlreadyInIndex(st: Indexer, art: Article) {
    art.url in st.urls
  }

  /** One step of the token loop: append `pos` to `index[token][artid]`,
      creating the term's dictionary and the article's list on first use. */
  function Post(index: map<string, Entry>, artid: nat, token: string, pos: nat): map<string, Entry> {
    var e := EntryOf(index, token);
    var e' :=
      if artid in e.positions then Entry(e.artids, e.positions[artid := e.positions[artid] + [pos]])
      else Entry(e.artids + [artid], e.positions[artid := [pos]]);
    index[token := e']
  }

  /** The token loop over a whole stream, left to right, the token at
      stream position `p` posted with position `p`. */
  function Populate(index: map<string, Entry>, artid: nat, tokens: seq<string>): (r: map<string, Entry>)
    ensures forall u :: u in index ==> u in r
    ensures forall k :: 0 <= k < |tokens| ==> tokens[k] in r
  {
    if tokens == [] then index
    else
      var n := |tokens| - 1;
      Post(Populate(index, artid, tokens[..n]), artid, tokens[n], n)
  }

  /** The body of the per-line loop of `index_file`: a record whose URL was
      seen before is skipped; otherwise its URL is recorded, it receives the
      next dense id `len(articles)` together with its document and line,
      and its tokens are posted. */
  function AddArticle(st: Indexer, a: Alphabet, art: Article, doc: nat, line: nat): (r: Indexer)
    ensures AlreadyInIndex(st, art) ==> r == st
    ensures !AlreadyInIndex(st, art) ==>
              && r.urls == st.urls + {art.url}
              && r.docs == st.docs
              && r.articles == st.articles + [ArticleRef(doc, line)]
  {
    if AlreadyInIndex(st, art) then st
    else
      var artid := |st.articles|;
      Indexer(
        st.urls + {art.url},
        Populate(st.index, artid, Tokenize(a, art.all)),
        st.docs,
        st.articles + [ArticleRef(doc, line)])
  }

  /** After a record is added its URL is known, so `already_in_index`
      holds of it and adding it again changes nothing. */
  lemma AddArticleTwice(st: Indexer, a: Alphabet, art: Article, doc: nat, line: nat, doc': nat, line': nat)
    ensures AlreadyInIndex(AddArticle(st, a, art, doc, line), art)
    ensures AddArticle(AddArticle(st, a, art, doc, line), a, art, doc', line') == AddArticle(st, a, art, doc, line)
  {
  }

  /** Line `i` of a file becomes a new article iff its URL is neither known
      beforehand nor carried by an earlier line of the file. */
  ghost predicate FirstSeen(urls: set<string>, lines: seq<Article>, i: nat)
    requires i < |lines|
  {
    lines[i].url !in urls && forall j :: 0 <= j < i ==> lines[j].url != lines[i].url
  }

  /** The lines of a file that become new articles, in file order. */
  function NewLines(urls: set<string>, lines: seq<Article>): (r: seq<nat>)
    ensures Increasing(r) && Below(r, |lines|)
    ensures forall i: nat :: i < |lines| ==> (i in r <==> FirstSeen(urls, lines, i))
  {
    if lines == [] then []
    else
      var n := |lines| - 1;
      var prev := NewLines(urls, lines[..n]);
      assert forall i: nat :: i < n ==> (FirstSeen(urls, lines[..n], i) <==> FirstSeen(urls, lines, i));
      if lines[n].url !in urls && forall j :: 0 <= j < n ==> lines[j].url != lines[n].url
      then prev + [n] else prev
  }

  /** The URLs carried by `lines`. */
  function UrlsOf(lines: seq<Article>): (r: set<string>)
    ensures forall u :: u in r <==> exists i :: 0 <= i < |lines| && lines[i].url == u
  {
    if lines == [] then {} else UrlsOf(lines[..|lines| - 1]) + {lines[|lines| - 1].url}
  }

  /** The per-line loop of `index_file` over the first `k` lines, for the
      document with id `doc`; the line number recorded for the line at
      0-based index `i` is `i + 1`. Its ensures only fixes `docs`; the
      full effect on URLs, article table and index is `IndexLinesSpec`. */
  function IndexLines(st: Indexer, a: Alphabet, doc: nat, lines: seq<Article>, k: nat): (r: Indexer)
    requires k <= |lines|
    ensures r.docs == st.docs
  {
    if k == 0 then st
    else AddArticle(IndexLines(st, a, doc, lines, k - 1), a, lines[k - 1], doc, k)
  }

  /** `index_file`: register the file as document `len(docs)`, then run the
      per-line loop over its records. */
  function IndexFile(st: Indexer, a: Alphabet, filename: string, lines: seq<Article>): (r: Indexer)
    ensures r.docs == st.docs + [filename]
  {
    IndexLines(st.(docs := st.docs + [filename]), a, |st.docs|, lines, |lines|)
  }

  // ---------------------------------------------------------------------
  // Lookup

  /** `get_posting`: the keys of `index[term]` in insertion order, or the
      empty list for a term that is not indexed. */
  function GetPosting(st: Indexer, term: string): (r: seq<nat>)
    ensures term !in st.index ==> r == []
    ensures Valid(st) ==> Increasing(r) && Below(r, |st.articles|)
    ensures Valid(st) ==> forall x :: x in r <==> Posted(st, term, x)
  {
    if term in st.index then st.index[term].artids else []
  }

  /** The inner loop of `get_positionals` for one start position: each
      remaining term must occur in the same article one position further
      on; the first term that fails stops the walk. It completes iff the
      `k`-th remaining term is posted at `pos + 1 + k`. */
  function Walk(st: Indexer, rest: seq<string>, artid: nat, pos: nat): (b: bool)
    ensures b <==> forall k :: 0 <= k < |rest| ==> At(st, rest[k], artid, pos + 1 + k)
    decreases |rest|
  {
    assert forall k :: 1 <= k < |rest| ==> rest[1..][k - 1] == rest[k];
    rest == []
    || (&& rest[0] in st.index
        && artid in st.index[rest[0]].positions
        && pos + 1 in st.index[rest[0]].positions[artid]
        && Walk(st, rest[1..], artid, pos + 1))
  }

  /** The loop over the start positions of one article, left by `break` at
      the first start position whose walk completes. */
  function AnyStart(st: Indexer, rest: seq<string>, artid: nat, starts: seq<nat>): (b: bool)
    ensures b <==> exists i :: 0 <= i < |starts| && Walk(st, rest, artid, starts[i])
  {
    if starts == [] then false
    else if Walk(st, rest, artid, starts[0]) then true
    else
      assert forall i :: 0 < i < |starts| ==> starts[i] == starts[1..][i - 1];
      AnyStart(st, rest, artid, starts[1..])
  }

  /** The loop over `index[terms[0]].items()`, in key order, accumulating
      into `res` every article with a completed walk that is not already
      there. */
  function ScanArticles(st: Indexer, terms: seq<string>, e: Entry, ids: seq<nat>, res: seq<nat>): (r: seq<nat>)
    requires |terms| > 0
    ensures forall x :: x in r <==> x in res || (x in ids && x in e.positions && AnyStart(st, terms[1..], x, e.positions[x]))
    ensures Distinct(res) ==> Distinct(r)
    ensures (&& Increasing(res) && Increasing(ids)
             && (forall i, j :: 0 <= i < |res| && 0 <= j < |ids| ==> res[i] < ids[j]))
            ==> Increasing(r)
  {
    if ids == [] then res
    else
      var x := ids[0];
      var starts := if x in e.positions then e.positions[x] else [];
      var res' := if AnyStart(st, terms[1..], x, starts) && x !in res then res + [x] else res;
      ScanMembers(st, terms, e, ids, res, res');
      ScanDistinct(res, x, res');
      ScanOrdered(ids, res, res');
      ScanArticles(st, terms, e, ids[1..], res')
  }

  /** The members of one step of the scan: `ids[0]` moves into the
      accumulator exactly when it has a completed walk. */
  lemma ScanMembers(st: Indexer, terms: seq<string>, e: Entry, ids: seq<nat>, res: seq<nat>, res': seq<nat>)
    requires |terms| > 0 && ids != []
    requires var starts := if ids[0] in e.positions then e.positions[ids[0]] else [];
             res' == if AnyStart(st, terms[1..], ids[0], starts) && ids[0] !in res then res + [ids[0]] else res
    ensures forall y ::
              (y in res' || (y in ids[1..] && y in e.positions && AnyStart(st, terms[1..], y, e.positions[y])))
              <==> (y in res || (y in ids && y in e.positions && AnyStart(st, terms[1..], y, e.positions[y])))
  {
    assert forall y :: y in ids <==> y == ids[0] || y in ids[1..];
  }

  /** Adding an id only when it is absent keeps the accumulator free of
      repeats. */
  lemma ScanDistinct(res: seq<nat>, x: nat, res': seq<nat>)
    requires res' == res || (x !in res && res' == res + [x])
    ensures Distinct(res) ==> Distinct(res')
  {
  }

  /** With `ids` ascending and the accumulator below all of it, one step
      keeps both so. */
  lemma ScanOrdered(ids: seq<nat>, res: seq<nat>, res': seq<nat>)
    requires ids != [] && (res' == res || res' == res + [ids[0]])
    ensures (&& Increasing(res) && Increasing(ids)
             && (forall i, j :: 0 <= i < |res| && 0 <= j < |ids| ==> res[i] < ids[j]))
            ==> (&& Increasing(res') && Increasing(ids[1..])
                 && (forall i, j :: 0 <= i < |res'| && 0 <= j < |ids[1..]| ==> res'[i] < ids[1..][j]))
  {
  }

  /** No element occurs twice. */
  predicate Distinct(s: seq<nat>) {
    forall i, j :: 0 <= i < j < |s| ==> s[i] != s[j]
  }

  /** `get_positionals`: the articles in which `terms` occur at consecutive
      positions, seeded from the postings of the first term. */
  function GetPositionals(st: Indexer, terms: seq<string>): (r: seq<nat>)
    requires |terms| > 0
    ensures terms[0] !in st.index ==> r == []
    ensures Distinct(r)
    ensures forall x :: x in r ==> x in GetPosting(st, terms[0])
    ensures Valid(st) ==> Increasing(r)
  {
    if terms[0] in st.index then
      var e := st.index[terms[0]];
      ScanArticles(st, terms, e, e.artids, [])
    else []
  }

  /** `terms[k]` has a posting for `artid` at position `q + k`, for every
      `k` past the first. */
  ghost predicate ContinuesAt(st: Indexer, terms: seq<string>, artid: nat, q: nat) {
    forall k :: 1 <= k < |terms| ==> At(st, terms[k], artid, q + k)
  }

  /** Term `t` is posted for article `x` at position `p`. */
  predicate At(st: Indexer, t: string, x: nat, p: nat) {
    Posted(st, t, x) && p in st.index[t].positions[x]
  }

  /** `terms` occurs in `tokens` as a run starting at position `q`. */
  ghost predicate RunAt(tokens: seq<string>, terms: seq<string>, q: nat) {
    q + |terms| <= |tokens| && tokens[q..q + |terms|] == terms
  }

  /** `terms` occurs in `tokens` as a run of consecutive tokens. */
  ghost predicate PhraseIn(tokens: seq<string>, terms: seq<string>) {
    exists q: nat :: RunAt(tokens, terms, q)
  }

  // ---------------------------------------------------------------------
  // Properties of the build

  /** A term's entry after one article's postings were added to it. */
  function Extend(e: Entry, artid: nat, ps: seq<nat>): Entry {
    Entry(e.artids + [artid], e.positions[artid := ps])
  }

  /** What the token loop leaves for term `t` in `r`, starting from
      `index`: a term of the stream has the article appended to its keys
      with the term's stream positions; any other term is untouched. */
  ghost predicate PopulatedAt(index: map<string, Entry>, artid: nat, tokens: seq<string>, r: map<string, Entry>, t: string) {
    && (t in tokens ==> t in r && r[t] == Extend(EntryOf(index, t), artid, Occurrences(tokens, t)))
    && (t !in tokens ==> (t in r <==> t in index) && EntryOf(r, t) == EntryOf(index, t))
  }

  /** The token loop of one article, against the reference `Occurrences`. */
  lemma {:induction false} PopulateSpec(index: map<string, Entry>, artid: nat, tokens: seq<string>, t: string)
    requires forall u :: u in index ==> artid !in index[u].positions
    ensures PopulatedAt(index, artid, tokens, Populate(index, artid, tokens), t)
  {
    if tokens != [] {
      var n := |tokens| - 1;
      var pre, tk := tokens[..n], tokens[n];
      assert tokens == pre + [tk];
      PopulateSpec(index, artid, pre, t);
      PostStep(index, artid, pre, Populate(index, artid, pre), tk, t);
    }
  }

  lemma PostStep(index: map<string, Entry>, artid: nat, pre: seq<string>, p: map<string, Entry>, tk: string, t: string)
    requires forall u :: u in index ==> artid !in index[u].positions
    requires PopulatedAt(index, artid, pre, p, t)
    ensures PopulatedAt(index, artid, pre + [tk], Post(p, artid, tk, |pre|), t)
  {
    OccurrencesSnoc(pre, tk, t);
    assert t in pre + [tk] <==> t in pre || t == tk;
    if t != tk {
      PostOther(index, artid, pre, p, tk, t);
    } else if t in pre {
      PostAgain(index, artid, pre, p, t);
    } else {
      NoOccurrences(pre, t);
      PostFirst(index, artid, pre, p, t);
    }
  }

  /** Posting one token leaves every other term alone. */
  lemma PostOther(index: map<string, Entry>, artid: nat, pre: seq<string>, p: map<string, Entry>, tk: string, t: string)
    requires t != tk
    requires PopulatedAt(index, artid, pre, p, t)
    requires Occurrences(pre + [tk], t) == Occurrences(pre, t)
    requires t in pre + [tk] <==> t in pre
    ensures PopulatedAt(index, artid, pre + [tk], Post(p, artid, tk, |pre|), t)
  {
    var r := Post(p, artid, tk, |pre|);
    assert EntryOf(r, t) == EntryOf(p, t);
    assert t in pre ==> r[t] == p[t];
  }

  /** A later occurrence of a term appends to the article's list. */
  lemma PostAgain(index: map<string, Entry>, artid: nat, pre: seq<string>, p: map<string, Entry>, t: string)
    requires t in pre
    requires PopulatedAt(index, artid, pre, p, t)
    requires Occurrences(pre + [t], t) == Occurrences(pre, t) + [|pre|]
    ensures PopulatedAt(index, artid, pre + [t], Post(p, artid, t, |pre|), t)
  {
    var n, old_e, e := |pre|, EntryOf(index, t), p[t];
    var r := Post(p, artid, t, n);
    assert e == Extend(old_e, artid, Occurrences(pre, t));
    assert EntryOf(p, t) == e && artid in e.positions;
    assert r[t] == Entry(e.artids, e.positions[artid := e.positions[artid] + [n]]);
    Overwrite(old_e.positions, artid, Occurrences(pre, t), Occurrences(pre, t) + [n]);
  }

  /** The first occurrence of a term adds the article as the term's last
      key, with a one-element list. */
  lemma PostFirst(index: map<string, Entry>, artid: nat, pre: seq<string>, p: map<string, Entry>, t: string)
    requires forall u :: u in index ==> artid !in index[u].positions
    requires t !in pre && Occurrences(pre, t) == []
    requires PopulatedAt(index, artid, pre, p, t)
    requires Occurrences(pre + [t], t) == Occurrences(pre, t) + [|pre|]
    ensures PopulatedAt(index, artid, pre + [t], Post(p, artid, t, |pre|), t)
  {
    var n, old_e := |pre|, EntryOf(index, t);
    assert EntryOf(p, t) == old_e;
    assert artid !in old_e.positions;
    assert Occurrences(pre + [t], t) == [n];
  }

  lemma OccurrencesSnoc(pre: seq<string>, tk: string, t: string)
    ensures Occurrences(pre + [tk], t) == Occurrences(pre, t) + (if tk == t then [|pre|] else [])
  {
    assert (pre + [tk])[..|pre|] == pre;
  }

  lemma NoOccurrences(tokens: seq<string>, t: string)
    requires t !in tokens
    ensures Occurrences(tokens, t) == []
  {
  }

  /** Adding an article keeps the index describing the token streams, the
      new article's stream (its tokenized full text) appended; a duplicate
      URL changes nothing. */
  lemma AddArticleReflects(st: Indexer, texts: seq<seq<string>>, a: Alphabet, art: Article, doc: nat, line: nat)
    requires Reflects(st, texts)
    ensures Reflects(AddArticle(st, a, art, doc, line),
                     if AlreadyInIndex(st, art) then texts else texts + [Tokenize(a, art.all)])
  {
    if !AlreadyInIndex(st, art) {
      var r := AddArticle(st, a, art, doc, line);
      assert r.index == Populate(st.index, |texts|, Tokenize(a, art.all));
      PopulateReflects(st, r, texts, Tokenize(a, art.all));
    }
  }

  /** Posting the tokens of a new article with the next id keeps the index
      describing the streams, the new one appended. */
  lemma PopulateReflects(st: Indexer, r: Indexer, texts: seq<seq<string>>, toks: seq<string>)
    requires Reflects(st, texts)
    requires r.index == Populate(st.index, |texts|, toks) && |r.articles| == |texts| + 1
    ensures Reflects(r, texts + [toks])
  {
    NextIdFresh(st, texts);
    PopulateEntries(st, r, texts, toks);
    PopulatePosted(st, r, texts, toks);
    PopulateCovers(st, r, texts, toks);
  }

  lemma NextIdFresh(st: Indexer, texts: seq<seq<string>>)
    requires Reflects(st, texts)
    ensures forall u :: u in st.index ==> |texts| !in st.index[u].positions
  {
    forall u | u in st.index
      ensures |texts| !in st.index[u].positions
    {
      if |texts| in st.index[u].positions {
        assert Posted(st, u, |texts|);
      }
    }
  }

  lemma PopulateEntries(st: Indexer, r: Indexer, texts: seq<seq<string>>, toks: seq<string>)
    requires Reflects(st, texts)
    requires forall u :: u in st.index ==> |texts| !in st.index[u].positions
    requires r.index == Populate(st.index, |texts|, toks)
    ensures forall t :: t in r.index ==>
              Increasing(r.index[t].artids)
              && (forall x :: x in r.index[t].positions <==> x in r.index[t].artids)
  {
    var n := |texts|;
    forall t | t in r.index
      ensures Increasing(r.index[t].artids)
      ensures forall x :: x in r.index[t].positions <==> x in r.index[t].artids
    {
      PopulateSpec(st.index, n, toks, t);
      if t in toks {
        OldKeysBelow(st, texts, t);
        ExtendIncreasing(EntryOf(st.index, t), n, Occurrences(toks, t));
      } else {
        assert r.index[t] == st.index[t];
      }
    }
  }

  lemma PopulatePosted(st: Indexer, r: Indexer, texts: seq<seq<string>>, toks: seq<string>)
    requires Reflects(st, texts)
    requires forall u :: u in st.index ==> |texts| !in st.index[u].positions
    requires r.index == Populate(st.index, |texts|, toks)
    ensures forall t, x: nat :: Posted(r, t, x) ==>
              x < |texts| + 1 && t in (texts + [toks])[x]
              && r.index[t].positions[x] == Occurrences((texts + [toks])[x], t)
  {
    var n := |texts|;
    var texts' := texts + [toks];
    forall t, x: nat | Posted(r, t, x)
      ensures x < |texts'| && t in texts'[x] && r.index[t].positions[x] == Occurrences(texts'[x], t)
    {
      PopulateSpec(st.index, n, toks, t);
      if x != n {
        assert Posted(st, t, x);
      }
    }
  }

  lemma PopulateCovers(st: Indexer, r: Indexer, texts: seq<seq<string>>, toks: seq<string>)
    requires Reflects(st, texts)
    requires forall u :: u in st.index ==> |texts| !in st.index[u].positions
    requires r.index == Populate(st.index, |texts|, toks)
    ensures forall x, p :: 0 <= x < |texts| + 1 && 0 <= p < |(texts + [toks])[x]| ==>
              Posted(r, (texts + [toks])[x][p], x)
  {
    var n := |texts|;
    var texts' := texts + [toks];
    forall x, p | 0 <= x < |texts'| && 0 <= p < |texts'[x]|
      ensures Posted(r, texts'[x][p], x)
    {
      var t := texts'[x][p];
      PopulateSpec(st.index, n, toks, t);
      if x < n {
        assert Posted(st, t, x);
      } else {
        assert t in toks;
      }
    }
  }

  /** The article ids already keyed under a term precede the next id. */
  lemma OldKeysBelow(st: Indexer, texts: seq<seq<string>>, t: string)
    requires Reflects(st, texts)
    ensures Below(EntryOf(st.index, t).artids, |texts|)
    ensures Increasing(EntryOf(st.index, t).artids)
    ensures forall x :: x in EntryOf(st.index, t).positions <==> x in EntryOf(st.index, t).artids
  {
    if t in st.index {
      var e := st.index[t];
      forall i | 0 <= i < |e.artids|
        ensures e.artids[i] < |texts|
      {
        assert e.artids[i] in e.artids;
        assert Posted(st, t, e.artids[i]);
      }
    }
  }

  lemma ExtendIncreasing(e: Entry, n: nat, ps: seq<nat>)
    requires Increasing(e.artids) && Below(e.artids, n)
    requires forall x :: x in e.positions <==> x in e.artids
    ensures Increasing(Extend(e, n, ps).artids)
    ensures forall x :: x in Extend(e, n, ps).positions <==> x in Extend(e, n, ps).artids
  {
  }

  /** The article references `index_file` records for the new lines `nl` of
      document `doc`: line number `i + 1` for 0-based line `i`. */
  function NewRefs(doc: nat, nl: seq<nat>): (r: seq<ArticleRef>)
    ensures |r| == |nl|
    ensures forall j :: 0 <= j < |nl| ==> r[j] == ArticleRef(doc, nl[j] + 1)
  {
    if nl == [] then [] else NewRefs(doc, nl[..|nl| - 1]) + [ArticleRef(doc, nl[|nl| - 1] + 1)]
  }

  /** The token streams of the new lines `nl`. */
  ghost function NewTexts(a: Alphabet, lines: seq<Article>, nl: seq<nat>): (r: seq<seq<string>>)
    requires Below(nl, |lines|)
    ensures |r| == |nl|
    ensures forall j :: 0 <= j < |nl| ==> r[j] == Tokenize(a, lines[nl[j]].all)
  {
    if nl == [] then [] else NewTexts(a, lines, nl[..|nl| - 1]) + [Tokenize(a, lines[nl[|nl| - 1]].all)]
  }

  /** `r` is what the per-line loop makes of `st` after the lines `ls` of
      document `doc`: `docs` unchanged, every URL of `ls` recorded, one
      reference per new line, and the index consistent with the token
      streams of the new lines appended to `texts`. */
  ghost predicate LinesIndexed(st: Indexer, texts: seq<seq<string>>, a: Alphabet, doc: nat,
                               ls: seq<Article>, r: Indexer) {
    && r.docs == st.docs
    && r.urls == st.urls + UrlsOf(ls)
    && r.articles == st.articles + NewRefs(doc, NewLines(st.urls, ls))
    && Reflects(r, texts + NewTexts(a, ls, NewLines(st.urls, ls)))
  }

  lemma {:induction false} IndexLinesSpec(st: Indexer, texts: seq<seq<string>>, a: Alphabet, doc: nat, lines: seq<Article>, k: nat)
    requires k <= |lines|
    requires Reflects(st, texts)
    ensures LinesIndexed(st, texts, a, doc, lines[..k], IndexLines(st, a, doc, lines, k))
  {
    NoLines(st, texts, a, doc, lines);
    LinesFrom(st, texts, a, doc, lines, k);
  }

  /** The induction over the lines behind `IndexLinesSpec`, from the state
      before the first line. */
  lemma {:induction false} LinesFrom(st: Indexer, texts: seq<seq<string>>, a: Alphabet, doc: nat, lines: seq<Article>, k: nat)
    requires k <= |lines|
    requires LinesIndexed(st, texts, a, doc, lines[..0], IndexLines(st, a, doc, lines, 0))
    ensures LinesIndexed(st, texts, a, doc, lines[..k], IndexLines(st, a, doc, lines, k))
  {
    if k > 0 {
      LinesFrom(st, texts, a, doc, lines, k - 1);
      LineStep(st, texts, a, doc, lines, k);
    }
  }

  lemma NoLines(st: Indexer, texts: seq<seq<string>>, a: Alphabet, doc: nat, lines: seq<Article>)
    requires Reflects(st, texts)
    ensures LinesIndexed(st, texts, a, doc, lines[..0], IndexLines(st, a, doc, lines, 0))
  {
    assert lines[..0] == [];
    assert texts + NewTexts(a, [], NewLines(st.urls, [])) == texts;
  }

  /** Line `k` of the per-line loop, from the state after the lines before
      it. */
  lemma LineStep(st: Indexer, texts: seq<seq<string>>, a: Alphabet, doc: nat, lines: seq<Article>, k: nat)
    requires 0 < k <= |lines|
    requires LinesIndexed(st, texts, a, doc, lines[..k - 1], IndexLines(st, a, doc, lines, k - 1))
    ensures LinesIndexed(st, texts, a, doc, lines[..k], IndexLines(st, a, doc, lines, k))
  {
    LineStepAt(st, texts, a, doc, lines[..k - 1], lines[..k], IndexLines(st, a, doc, lines, k - 1),
               lines[k - 1], k);
  }

  /** The same step over the prefixes `before` and `ls` of the lines, with
      `art` the last of `ls` and `line` its 1-based number. */
  lemma LineStepAt(st: Indexer, texts: seq<seq<string>>, a: Alphabet, doc: nat, before: seq<Article>,
                   ls: seq<Article>, prev: Indexer, art: Article, line: nat)
    requires line == |ls| > 0 && before == ls[..line - 1] && art == ls[line - 1]
    requires LinesIndexed(st, texts, a, doc, before, prev)
    ensures LinesIndexed(st, texts, a, doc, ls, AddArticle(prev, a, art, doc, line))
  {
    var r := AddArticle(prev, a, art, doc, line);
    var seen := AlreadyInIndex(prev, art);
    LineBookkeeping(prev, r, st.urls, st.articles, doc, ls, seen);
    var old_texts := texts + NewTexts(a, before, NewLines(st.urls, before));
    AddArticleReflects(prev, old_texts, a, art, doc, line);
    LineTexts(r, old_texts, texts, a, st.urls, ls, seen);
  }

  /** One line of the per-line loop: the URL set and the article table,
      from what `AddArticle` promises for a seen and for a new URL. */
  lemma LineBookkeeping(prev: Indexer, r: Indexer, urls0: set<string>, articles0: seq<ArticleRef>,
                        doc: nat, ls: seq<Article>, seen: bool)
    requires ls != []
    requires seen <==> ls[|ls| - 1].url in prev.urls
    requires seen ==> r == prev
    requires !seen ==> && r.urls == prev.urls + {ls[|ls| - 1].url} && r.docs == prev.docs
                       && r.articles == prev.articles + [ArticleRef(doc, |ls|)]
    requires prev.urls == urls0 + UrlsOf(ls[..|ls| - 1])
    requires prev.articles == articles0 + NewRefs(doc, NewLines(urls0, ls[..|ls| - 1]))
    ensures r.urls == urls0 + UrlsOf(ls)
    ensures r.articles == articles0 + NewRefs(doc, NewLines(urls0, ls))
    ensures r.docs == prev.docs
  {
    var k := |ls|;
    LineUrls(prev.urls, r.urls, urls0, ls, seen);
    NewLinesSnoc(urls0, ls);
    LineArticles(prev.articles, r.articles, articles0, doc, NewLines(urls0, ls[..k - 1]), NewLines(urls0, ls),
                 k - 1, seen);
  }

  /** The URL set after one line, over abstract sets. */
  lemma LineUrls(before: set<string>, after: set<string>, urls0: set<string>, ls: seq<Article>, seen: bool)
    requires ls != []
    requires before == urls0 + UrlsOf(ls[..|ls| - 1])
    requires seen ==> after == before
    requires !seen ==> after == before + {ls[|ls| - 1].url}
    requires seen <==> ls[|ls| - 1].url in before
    ensures after == urls0 + UrlsOf(ls)
  {
    assert UrlsOf(ls) == UrlsOf(ls[..|ls| - 1]) + {ls[|ls| - 1].url};
  }

  /** The article table after one line, over abstract new-line lists. */
  lemma LineArticles(before: seq<ArticleRef>, after: seq<ArticleRef>, articles0: seq<ArticleRef>,
                     doc: nat, nlp: seq<nat>, nl: seq<nat>, i: nat, seen: bool)
    requires before == articles0 + NewRefs(doc, nlp)
    requires seen ==> after == before && nl == nlp
    requires !seen ==> after == before + [ArticleRef(doc, i + 1)] && nl == nlp + [i]
    ensures after == articles0 + NewRefs(doc, nl)
  {
    if !seen {
      NewRefsSnoc(doc, nlp, i);
    }
  }

  /** Appending a line adds its index to the new lines iff its URL is
      neither known nor carried by an earlier line. */
  lemma NewLinesSnoc(urls: set<string>, ls: seq<Article>)
    requires ls != []
    ensures var n := |ls| - 1;
            NewLines(urls, ls) ==
              if ls[n].url in urls + UrlsOf(ls[..n]) then NewLines(urls, ls[..n])
              else NewLines(urls, ls[..n]) + [n]
  {
    FirstSeenStep(urls, ls);
  }

  lemma NewRefsSnoc(doc: nat, nl: seq<nat>, i: nat)
    ensures NewRefs(doc, nl + [i]) == NewRefs(doc, nl) + [ArticleRef(doc, i + 1)]
  {
    assert (nl + [i])[..|nl|] == nl;
  }

  lemma NewTextsSnoc(a: Alphabet, ls: seq<Article>, nl: seq<nat>, i: nat)
    requires Below(nl, |ls|) && i < |ls|
    ensures Below(nl + [i], |ls|)
    ensures NewTexts(a, ls, nl + [i]) == NewTexts(a, ls, nl) + [Tokenize(a, ls[i].all)]
  {
    assert (nl + [i])[..|nl|] == nl;
  }

  /** One line of the per-line loop: the index, from what
      `AddArticleReflects` promises for a seen and for a new URL. */
  lemma LineTexts(r: Indexer, before: seq<seq<string>>, texts: seq<seq<string>>, a: Alphabet,
                  urls0: set<string>, ls: seq<Article>, seen: bool)
    requires ls != []
    requires seen <==> ls[|ls| - 1].url in urls0 + UrlsOf(ls[..|ls| - 1])
    requires before == texts + NewTexts(a, ls[..|ls| - 1], NewLines(urls0, ls[..|ls| - 1]))
    requires Reflects(r, if seen then before else before + [Tokenize(a, ls[|ls| - 1].all)])
    ensures Reflects(r, texts + NewTexts(a, ls, NewLines(urls0, ls)))
  {
    TextsStep(texts, a, urls0, ls);
  }

  /** The token streams after one more line of a file. */
  lemma TextsStep(texts: seq<seq<string>>, a: Alphabet, urls0: set<string>, ls: seq<Article>)
    requires ls != []
    ensures var n := |ls| - 1;
            var before := texts + NewTexts(a, ls[..n], NewLines(urls0, ls[..n]));
            texts + NewTexts(a, ls, NewLines(urls0, ls))
              == if ls[n].url in urls0 + UrlsOf(ls[..n]) then before else before + [Tokenize(a, ls[n].all)]
  {
    var n := |ls| - 1;
    var ps := ls[..n];
    var nlp := NewLines(urls0, ps);
    NewLinesSnoc(urls0, ls);
    NewTextsPrefix(a, ps, ls, nlp);
    if ls[n].url !in urls0 + UrlsOf(ps) {
      NewTextsSnoc(a, ls, nlp, n);
    }
  }

  /** The last line is first seen iff its URL is neither known nor carried
      by an earlier line. */
  lemma FirstSeenStep(urls: set<string>, ls: seq<Article>)
    requires ls != []
    ensures FirstSeen(urls, ls, |ls| - 1) <==> ls[|ls| - 1].url !in urls + UrlsOf(ls[..|ls| - 1])
  {
  }

  /** The token streams of lines that lie in a prefix do not depend on what
      follows it. */
  lemma NewTextsPrefix(a: Alphabet, ps: seq<Article>, ls: seq<Article>, nl: seq<nat>)
    requires |ps| <= |ls| && ps == ls[..|ps|] && Below(nl, |ps|)
    ensures Below(nl, |ls|) && NewTexts(a, ps, nl) == NewTexts(a, ls, nl)
  {
  }

  /** `index_file`: the file becomes document `len(docs)`; exactly the lines
      whose URL is new, and not repeated earlier in the file, become
      articles, in file order, with ids from `len(articles)` on and the
      recorded line number `i + 1`; and the index then describes their
      token streams as well. */
  lemma IndexFileSpec(st: Indexer, texts: seq<seq<string>>, a: Alphabet, filename: string, lines: seq<Article>)
    requires Reflects(st, texts)
    ensures IndexFile(st, a, filename, lines).docs == st.docs + [filename]
    ensures IndexFile(st, a, filename, lines).urls == st.urls + UrlsOf(lines)
    ensures IndexFile(st, a, filename, lines).articles
              == st.articles + NewRefs(|st.docs|, NewLines(st.urls, lines))
    ensures Reflects(IndexFile(st, a, filename, lines),
                     texts + NewTexts(a, lines, NewLines(st.urls, lines)))
  {
    var st1 := st.(docs := st.docs + [filename]);
    assert Reflects(st1, texts) by {
      assert forall t, x: nat :: Posted(st1, t, x) <==> Posted(st, t, x);
    }
    IndexLinesSpec(st1, texts, a, |st.docs|, lines, |lines|);
    assert lines[..|lines|] == lines;
  }

  /** Re-reading a file whose URLs are all known registers the file as a
      document and changes nothing else: no article, term or position. */
  lemma ReindexSeen(st: Indexer, a: Alphabet, filename: string, lines: seq<Article>)
    requires forall i :: 0 <= i < |lines| ==> lines[i].url in st.urls
    ensures IndexFile(st, a, filename, lines) == st.(docs := st.docs + [filename])
  {
    SeenLinesUnchanged(st.(docs := st.docs + [filename]), a, |st.docs|, lines, |lines|);
  }

  lemma {:induction false} SeenLinesUnchanged(st: Indexer, a: Alphabet, doc: nat, lines: seq<Article>, k: nat)
    requires k <= |lines|
    requires forall i :: 0 <= i < |lines| ==> lines[i].url in st.urls
    ensures IndexLines(st, a, doc, lines, k) == st
  {
    if k > 0 {
      SeenLinesUnchanged(st, a, doc, lines, k - 1);
      assert AlreadyInIndex(st, lines[k - 1]);
    }
  }

  /** A file of two lines with different URLs, read into the empty index,
      gives two articles whose streams are the lines' tokenized texts. */
  lemma TwoLineFile(a: Alphabet, filename: string, l0: Article, l1: Article)
    requires l0.url != l1.url
    ensures var r := IndexFile(Empty, a, filename, [l0, l1]);
            && r.articles == [ArticleRef(0, 1), ArticleRef(0, 2)] && r.urls == {l0.url, l1.url}
            && Reflects(r, [Tokenize(a, l0.all), Tokenize(a, l1.all)])
  {
    EmptyReflects();
    IndexFileSpec(Empty, [], a, filename, [l0, l1]);
    TwoNewLines(l0, l1);
    TwoNewTexts(a, [l0, l1]);
  }

  lemma TwoNewLines(l0: Article, l1: Article)
    requires l0.url != l1.url
    ensures NewLines({}, [l0, l1]) == [0, 1]
    ensures NewRefs(0, [0, 1]) == [ArticleRef(0, 1), ArticleRef(0, 2)]
    ensures UrlsOf([l0, l1]) == {l0.url, l1.url}
  {
    assert [l0, l1][..1] == [l0];
    assert NewLines({}, [l0]) == [0];
    assert [0, 1][..1] == [0];
  }

  lemma TwoNewTexts(a: Alphabet, lines: seq<Article>)
    requires |lines| == 2
    ensures [] + NewTexts(a, lines, [0, 1]) == [Tokenize(a, lines[0].all), Tokenize(a, lines[1].all)]
  {
  }

  // ---------------------------------------------------------------------
  // Properties of lookup

  /** Over an index that describes `texts`, the posting of a term lists
      exactly the articles whose stream contains it. */
  lemma GetPostingExact(st: Indexer, texts: seq<seq<string>>, t: string)
    requires Reflects(st, texts)
    ensures forall x: nat :: x in GetPosting(st, t) <==> x < |texts| && t in texts[x]
  {
    ReflectsValid(st, texts);
    forall x: nat | x < |texts| && t in texts[x]
      ensures Posted(st, t, x)
    {
      var p :| 0 <= p < |texts[x]| && texts[x][p] == t;
    }
  }

  /** The position lists of one article partition its stream positions:
      term `t` lists position `p` iff the token at `p` is `t`. */
  lemma PositionsPartition(st: Indexer, texts: seq<seq<string>>, x: nat)
    requires Reflects(st, texts) && x < |texts|
    ensures forall t, p: nat :: At(st, t, x, p) <==> p < |texts[x]| && texts[x][p] == t
  {
    forall t, p: nat
      ensures At(st, t, x, p) <==> p < |texts[x]| && texts[x][p] == t
    {
      if p < |texts[x]| && texts[x][p] == t {
        assert Posted(st, texts[x][p], x);
      }
    }
  }

  /** The walk over the terms after the first, from a position of the first
      term, is the phrase continuing there. */
  lemma WalkContinues(st: Indexer, terms: seq<string>, artid: nat, q: nat)
    requires |terms| > 0
    ensures Walk(st, terms[1..], artid, q) <==> ContinuesAt(st, terms, artid, q)
  {
    assert forall k :: 1 <= k < |terms| ==> terms[1..][k - 1] == terms[k];
  }

  /** `get_positionals` returns the articles of the first term's posting in
      which some position of the first term starts the whole phrase. */
  lemma PositionalsExact(st: Indexer, terms: seq<string>)
    requires |terms| > 0
    ensures forall x :: x in GetPositionals(st, terms) <==>
              && x in GetPosting(st, terms[0]) && Posted(st, terms[0], x)
              && exists q :: q in st.index[terms[0]].positions[x] && ContinuesAt(st, terms, x, q)
  {
    var r := GetPositionals(st, terms);
    forall x
      ensures x in r <==>
              && x in GetPosting(st, terms[0]) && Posted(st, terms[0], x)
              && exists q :: q in st.index[terms[0]].positions[x] && ContinuesAt(st, terms, x, q)
    {
      if Posted(st, terms[0], x) {
        var e := st.index[terms[0]];
        var starts := e.positions[x];
        forall q | q in starts
          ensures Walk(st, terms[1..], x, q) <==> ContinuesAt(st, terms, x, q)
        {
          WalkContinues(st, terms, x, q);
        }
        assert AnyStart(st, terms[1..], x, starts) <==>
               exists q :: q in starts && ContinuesAt(st, terms, x, q);
      }
    }
  }

  /** Over an index that describes `texts`, `get_positionals` returns
      exactly the articles whose stream contains `terms` as a run of
      consecutive tokens. */
  lemma PositionalsPhrase(st: Indexer, texts: seq<seq<string>>, terms: seq<string>)
    requires Reflects(st, texts) && |terms| > 0
    ensures forall x: nat :: x in GetPositionals(st, terms) <==> x < |texts| && PhraseIn(texts[x], terms)
  {
    ReflectsValid(st, texts);
    PositionalsExact(st, terms);
    forall x: nat
      ensures x in GetPositionals(st, terms) <==> x < |texts| && PhraseIn(texts[x], terms)
    {
      if x in GetPositionals(st, terms) {
        var q :| q in st.index[terms[0]].positions[x] && ContinuesAt(st, terms, x, q);
        StartsRun(st, texts, terms, x, q);
      }
      if x < |texts| && PhraseIn(texts[x], terms) {
        var q: nat :| RunAt(texts[x], terms, q);
        RunStarts(st, texts, terms, x, q);
      }
    }
  }

  /** A start position of the first term from which the phrase continues
      is a run of the phrase in the article's stream. */
  lemma StartsRun(st: Indexer, texts: seq<seq<string>>, terms: seq<string>, x: nat, q: nat)
    requires Reflects(st, texts) && |terms| > 0
    requires Posted(st, terms[0], x) && q in st.index[terms[0]].positions[x]
    requires ContinuesAt(st, terms, x, q)
    ensures x < |texts| && RunAt(texts[x], terms, q)
  {
    assert Posted(st, terms[0], x);
    forall k | 0 <= k < |terms|
      ensures TokenAt(texts[x], terms, q, k)
    {
      TermAtPlace(st, texts, terms, x, q, k);
    }
    RunFromPoints(texts[x], terms, q);
  }

  /** The `k`-th term of a phrase continuing at `q` is the token at `q + k`. */
  lemma TermAtPlace(st: Indexer, texts: seq<seq<string>>, terms: seq<string>, x: nat, q: nat, k: nat)
    requires Reflects(st, texts) && 0 <= k < |terms|
    requires Posted(st, terms[0], x) && q in st.index[terms[0]].positions[x]
    requires ContinuesAt(st, terms, x, q)
    ensures x < |texts| && TokenAt(texts[x], terms, q, k)
  {
    var t := terms[k];
    if k > 0 {
      assert At(st, t, x, q + k);
    }
    assert st.index[t].positions[x] == Occurrences(texts[x], t);
  }

  /** The `k`-th term of the phrase is the token at `q + k`. */
  predicate TokenAt(tokens: seq<string>, terms: seq<string>, q: nat, k: nat)
    requires k < |terms|
  {
    q + k < |tokens| && tokens[q + k] == terms[k]
  }

  /** A run is the phrase's terms found one by one at consecutive
      positions. */
  lemma RunFromPoints(tokens: seq<string>, terms: seq<string>, q: nat)
    requires |terms| > 0
    requires forall k: nat :: k < |terms| ==> TokenAt(tokens, terms, q, k)
    ensures RunAt(tokens, terms, q)
  {
    assert TokenAt(tokens, terms, q, |terms| - 1);
    forall k | 0 <= k < |terms|
      ensures tokens[q..q + |terms|][k] == terms[k]
    {
      assert TokenAt(tokens, terms, q, k);
    }
    assert tokens[q..q + |terms|] == terms;
  }

  /** A run of the phrase in an article's stream starts at a position of
      the first term from which the phrase continues. */
  lemma RunStarts(st: Indexer, texts: seq<seq<string>>, terms: seq<string>, x: nat, q: nat)
    requires Reflects(st, texts) && |terms| > 0
    requires x < |texts| && RunAt(texts[x], terms, q)
    ensures Posted(st, terms[0], x) && q in st.index[terms[0]].positions[x]
    ensures ContinuesAt(st, terms, x, q)
    ensures x in GetPosting(st, terms[0])
  {
    ReflectsValid(st, texts);
    forall k | 0 <= k < |terms|
      ensures At(st, terms[k], x, q + k)
    {
      assert texts[x][q + k] == texts[x][q..q + |terms|][k];
      assert Posted(st, texts[x][q + k], x);
    }
    assert At(st, terms[0], x, q + 0);
  }

  /** Every article of a phrase's answer contains each of its terms: the
      answer lies within the posting of every term. */
  lemma PositionalsWithinPostings(st: Indexer, terms: seq<string>, k: nat)
    requires Valid(st) && k < |terms|
    ensures forall x :: x in GetPositionals(st, terms) ==> x in GetPosting(st, terms[k])
  {
    forall x | x in GetPositionals(st, terms)
      ensures x in GetPosting(st, terms[k])
    {
      PhraseMemberHasTerm(st, terms, k, x);
    }
  }

  lemma PhraseMemberHasTerm(st: Indexer, terms: seq<string>, k: nat, x: nat)
    requires Valid(st) && k < |terms| && x in GetPositionals(st, terms)
    ensures Posted(st, terms[k], x)
  {
    PositionalsExact(st, terms);
    if k > 0 {
      var q :| q in st.index[terms[0]].positions[x] && ContinuesAt(st, terms, x, q);
      ContinuesPosted(st, terms, x, q, k);
    }
  }

  lemma ContinuesPosted(st: Indexer, terms: seq<string>, x: nat, q: nat, k: nat)
    requires ContinuesAt(st, terms, x, q) && 1 <= k < |terms|
    ensures Posted(st, terms[k], x)
  {
    assert At(st, terms[k], x, q + k);
  }

  /** A two-word phrase answers a subset of the conjunction of its words. */
  lemma PhraseWithinConjunction(st: Indexer, t1: string, t2: string)
    requires Valid(st)
    ensures forall x :: x in GetPositionals(st, [t1, t2]) ==> x in Intersect(GetPosting(st, t1), GetPosting(st, t2))
  {
    PositionalsWithinPostings(st, [t1, t2], 0);
    PositionalsWithinPostings(st, [t1, t2], 1);
    IntersectExact(GetPosting(st, t1), GetPosting(st, t2));
  }

  /** A one-term phrase is the term's posting. */
  lemma PositionalsSingle(st: Indexer, t: string)
    requires Valid(st)
    ensures GetPositionals(st, [t]) == GetPosting(st, t)
  {
    var r, p := GetPositionals(st, [t]), GetPosting(st, t);
    PositionalsExact(st, [t]);
    forall x | x in p
      ensures x in r
    {
      var ps := st.index[t].positions[x];
      assert ps[0] in ps;
      assert ContinuesAt(st, [t], x, ps[0]);
    }
    IncreasingUnique(r, p);
  }

  // ---------------------------------------------------------------------
  // Fetching an article's record for display

  datatype Option<T> = None | Some(value: T)

  /** The record `solve_and_show` reads back for an article: the line of
      the article's document whose 0-based `enumerate` index equals the
      stored line number, if the document has that many lines. */
  function ShownLine(lines: seq<Article>, ref: ArticleRef): Option<Article> {
    if ref.line < |lines| then Some(lines[ref.line]) else None
  }

  /** The record read back when the stored line number is taken as the
      1-based number `index_file` records. */
  function FetchLine(lines: seq<Article>, ref: ArticleRef): Option<Article> {
    if 1 <= ref.line <= |lines| then Some(lines[ref.line - 1]) else None
  }

  /** As written, the record shown for the `j`-th new article of a file is
      the line after the one it was indexed from, and nothing for an
      article indexed from the file's last line. */
  lemma ShownIsNextLine(st: Indexer, texts: seq<seq<string>>, a: Alphabet, filename: string,
                        lines: seq<Article>, j: nat)
    requires Reflects(st, texts) && j < |NewLines(st.urls, lines)|
    ensures |IndexFile(st, a, filename, lines).articles| == |st.articles| + |NewLines(st.urls, lines)|
    ensures var i := NewLines(st.urls, lines)[j];
            && IndexFile(st, a, filename, lines).articles[|st.articles| + j] == ArticleRef(|st.docs|, i + 1)
            && ShownLine(lines, IndexFile(st, a, filename, lines).articles[|st.articles| + j])
               == if i + 1 < |lines| then Some(lines[i + 1]) else None
  {
    IndexFileArticles(st, texts, a, filename, lines);
    ArticleAt(IndexFile(st, a, filename, lines).articles, st.articles, |st.docs|, NewLines(st.urls, lines), j);
  }

  /** The article table part of `IndexFileSpec`. */
  lemma IndexFileArticles(st: Indexer, texts: seq<seq<string>>, a: Alphabet, filename: string, lines: seq<Article>)
    requires Reflects(st, texts)
    ensures IndexFile(st, a, filename, lines).articles
              == st.articles + NewRefs(|st.docs|, NewLines(st.urls, lines))
  {
    IndexFileSpec(st, texts, a, filename, lines);
  }

  /** The `j`-th reference appended for the new lines `nl`. */
  lemma ArticleAt(all: seq<ArticleRef>, before: seq<ArticleRef>, doc: nat, nl: seq<nat>, j: nat)
    requires all == before + NewRefs(doc, nl) && j < |nl|
    ensures |all| == |before| + |nl| && all[|before| + j] == ArticleRef(doc, nl[j] + 1)
  {
  }

  /** Two records with different URLs: the first article shows the second
      record. */
  lemma ShownWrongRecord(a: Alphabet)
    ensures var lines := [Article("u0", ""), Article("u1", "")];
            var r := IndexFile(Empty, a, "f", lines);
            && |r.articles| == 2
            && ShownLine(lines, r.articles[0]) == Some(Article("u1", ""))
            && ShownLine(lines, r.articles[1]) == None
  {
    TwoLineFile(a, "f", Article("u0", ""), Article("u1", ""));
  }

  /** With the 1-based reading, the record fetched for the `j`-th new
      article of a file is the line it was indexed from: its document is
      the file, its URL is recorded, and the stream the index describes for
      it (see `IndexFileSpec`) is the line's tokenized text. */
  lemma FetchIsIndexedLine(st: Indexer, texts: seq<seq<string>>, a: Alphabet, filename: string,
                           lines: seq<Article>, j: nat)
    requires Reflects(st, texts) && j < |NewLines(st.urls, lines)|
    ensures |IndexFile(st, a, filename, lines).articles| == |st.articles| + |NewLines(st.urls, lines)|
    ensures var r, nl := IndexFile(st, a, filename, lines), NewLines(st.urls, lines);
            var ref := r.articles[|st.articles| + j];
            && ref.doc < |r.docs| && r.docs[ref.doc] == filename
            && FetchLine(lines, ref) == Some(lines[nl[j]])
            && lines[nl[j]].url in r.urls
            && NewTexts(a, lines, nl)[j] == Tokenize(a, lines[nl[j]].all)
  {
    IndexFileSpec(st, texts, a, filename, lines);
    ArticleAt(IndexFile(st, a, filename, lines).articles, st.articles, |st.docs|, NewLines(st.urls, lines), j);
  }
}
