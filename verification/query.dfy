/** `solve_query` of `SAR_Indexer`: a query is split into words, the words
    are grouped into operators and operand runs (a single term or a
    phrase), every operand is looked up, and the resulting list is folded
    left to right with `and_posting`, `or_posting` and `reverse_posting`.
    There is no precedence: `a OR b AND c` is `(a OR b) AND c`. */
module Query {
  import opened Seqs
  import opened Postings
  import opened Tokenizer
  import opened Index

  /** The three operator words, matched case-sensitively. */
  datatype Op = And | Or | Not

  /** What the first pass makes of the words: an operator, or a maximal run
      of non-operator words, a single term when `more` is empty and a phrase
      otherwise. */
  datatype Lexeme = Connective(op: Op) | Phrase(first: string, more: seq<string>)

  /** An element of the intermediate list `res`: an operator name or a
      posting list. */
  datatype Item = Marker(op: Op) | Operand(posting: seq<nat>)

  /** A Python list the second pass handles: article ids, or one-character
      strings, held as their code points because Python orders such strings
      by code point. An operator name read where a posting list is expected
      is a list of characters to `and_posting` and `or_posting`, and so is
      what `or_posting` makes of it. */
  datatype Value = Ids(list: seq<nat>) | Chars(list: seq<nat>)

  /** How the second pass ends without a list of article ids.
      `MissingOperand` is the `IndexError` of reading past the end of `res`.
      `Incomparable` is the `TypeError` of ordering an article id against a
      character, or of testing `i not in "AND"` for an article id `i`.
      `CharacterList(codes)` is no exception: `solve_query` returns a list of
      one-character strings, whose code points are `codes`. */
  datatype Failure = MissingOperand | Incomparable | CharacterList(codes: seq<nat>)

  datatype Result<T> = Ok(value: T) | Err(failure: Failure)

  // ---------------------------------------------------------------------
  // Words

  function OpOf(w: string): Option<Op> {
    if w == "AND" then Some(And)
    else if w == "OR" then Some(Or)
    else if w == "NOT" then Some(Not)
    else None
  }

  function Name(op: Op): string {
    match op
    case And => "AND"
    case Or => "OR"
    case Not => "NOT"
  }

  /** Exactly the three names are operators. */
  lemma OpNames(w: string, op: Op)
    ensures OpOf(Name(op)) == Some(op)
    ensures OpOf(w) == Some(op) <==> w == Name(op)
  {
  }

  /** `query.replace('"', " ")`. */
  function Unquote(q: string): string {
    seq(|q|, k requires 0 <= k < |q| => if q[k] == '"' then ' ' else q[k])
  }

  /** The word list of a query: quotes become spaces, then the text is
      split at whitespace runs. */
  function Words(q: string): (r: seq<string>)
    ensures forall i :: 0 <= i < |r| ==> |r[i]| > 0 && NoSpace(r[i])
    ensures forall i, k :: 0 <= i < |r| && 0 <= k < |r[i]| ==> r[i][k] != '"'
  {
    SplitPieces(Unquote(q));
    Split(Unquote(q))
  }

  /** A word that survives the splitting of a query unchanged. */
  predicate Plain(w: string) {
    |w| > 0 && NoSpace(w) && '"' !in w
  }

  /** Words joined by single spaces. */
  function Join(ws: seq<string>): string {
    if ws == [] then "" else if |ws| == 1 then ws[0] else ws[0] + " " + Join(ws[1..])
  }

  /** Splitting a query written as plain words joined by spaces gives the
      words back. */
  lemma WordsJoin(ws: seq<string>)
    requires forall k :: 0 <= k < |ws| ==> Plain(ws[k])
    ensures Words(Join(ws)) == ws
  {
    NoQuoteInJoin(ws);
    assert Unquote(Join(ws)) == Join(ws);
    SplitJoin(ws);
  }

  lemma {:induction false} NoQuoteInJoin(ws: seq<string>)
    requires forall k :: 0 <= k < |ws| ==> Plain(ws[k])
    ensures '"' !in Join(ws)
  {
    if |ws| > 1 {
      NoQuoteInJoin(ws[1..]);
      assert Plain(ws[0]);
      assert Join(ws) == ws[0] + " " + Join(ws[1..]);
    }
  }

  lemma {:induction false} SplitJoin(ws: seq<string>)
    requires forall k :: 0 <= k < |ws| ==> Plain(ws[k])
    ensures Split(Join(ws)) == ws
  {
    if |ws| == 1 {
      SplitWord(ws[0]);
    } else if |ws| > 1 {
      SplitJoin(ws[1..]);
      assert ws[0] + " " + Join(ws[1..]) == ws[0] + [' '] + Join(ws[1..]);
      SplitAtSpace(ws[0], ' ', Join(ws[1..]));
      SplitWord(ws[0]);
      assert ws == [ws[0]] + ws[1..];
    }
  }

  // ---------------------------------------------------------------------
  // First pass: grouping and lookup

  /** The number of leading non-operator words. */
  function RunLength(ws: seq<string>): (n: nat)
    ensures n <= |ws|
    ensures forall k :: 0 <= k < n ==> OpOf(ws[k]).None?
    ensures n < |ws| ==> OpOf(ws[n]).Some?
  {
    if ws == [] || OpOf(ws[0]).Some? then 0 else 1 + RunLength(ws[1..])
  }

  /** The run length is the position of the first operator word. */
  lemma {:induction false} RunLengthIs(ws: seq<string>, n: nat)
    requires n <= |ws|
    requires forall k :: 0 <= k < n ==> OpOf(ws[k]).None?
    requires n < |ws| ==> OpOf(ws[n]).Some?
    ensures RunLength(ws) == n
  {
    if n > 0 {
      RunLengthIs(ws[1..], n - 1);
    }
  }

  /** The grouping the first pass performs: every operator word on its own,
      every maximal run of other words as one operand. */
  function Group(ws: seq<string>): (r: seq<Lexeme>)
    ensures |r| <= |ws|
    ensures r == [] <==> ws == []
    decreases |ws|
  {
    if ws == [] then []
    else match OpOf(ws[0])
      case Some(op) => [Connective(op)] + Group(ws[1..])
      case None =>
        var n := RunLength(ws);
        [Phrase(ws[0], ws[1..n])] + Group(ws[n..])
  }

  /** The shape of a grouping: it starts with an operand exactly when the
      words start with a non-operator, no operand holds an operator word,
      and no two operands are adjacent (a run extends to the next operator
      word). */
  lemma {:induction false} GroupShape(ws: seq<string>)
    ensures ws != [] ==> Group(ws) != [] && (Group(ws)[0].Phrase? <==> OpOf(ws[0]).None?)
    ensures forall k :: 0 <= k < |Group(ws)| && Group(ws)[k].Phrase? ==> OpFree(Terms(Group(ws)[k]))
    ensures forall k :: 0 <= k < |Group(ws)| - 1 ==> Group(ws)[k].Connective? || Group(ws)[k + 1].Connective?
    decreases |ws|
  {
    if ws != [] {
      var r := Group(ws);
      match OpOf(ws[0])
      case Some(op) =>
        GroupShape(ws[1..]);
        assert forall k :: 0 < k < |r| ==> r[k] == Group(ws[1..])[k - 1];
      case None =>
        var n := RunLength(ws);
        GroupShape(ws[n..]);
        assert Terms(r[0]) == ws[..n];
        assert forall k :: 0 < k < |r| ==> r[k] == Group(ws[n..])[k - 1];
    }
  }

  /** No word of `ws` is an operator. */
  predicate OpFree(ws: seq<string>) {
    forall k :: 0 <= k < |ws| ==> OpOf(ws[k]).None?
  }

  /** The words of an operand. */
  function Terms(lx: Lexeme): seq<string>
    requires lx.Phrase?
  {
    [lx.first] + lx.more
  }

  /** The words a lexeme stands for. */
  function Spell(lx: Lexeme): seq<string> {
    match lx
    case Connective(op) => [Name(op)]
    case Phrase(first, more) => [first] + more
  }

  function Ungroup(lx: seq<Lexeme>): seq<string> {
    if lx == [] then [] else Spell(lx[0]) + Ungroup(lx[1..])
  }

  /** A lexeme sequence the first pass can produce: operands contain no
      operator word and no two operands are adjacent. */
  predicate Grouped(lx: seq<Lexeme>) {
    && (forall k :: 0 <= k < |lx| && lx[k].Phrase? ==> OpFree(Terms(lx[k])))
    && (forall k :: 0 <= k < |lx| - 1 ==> lx[k].Connective? || lx[k + 1].Connective?)
  }

  /** Grouping loses no word and changes no order. */
  lemma {:induction false} GroupUngroup(ws: seq<string>)
    ensures Ungroup(Group(ws)) == ws
    decreases |ws|
  {
    if ws != [] {
      match OpOf(ws[0])
      case Some(op) =>
        UngroupCons(Connective(op), Group(ws[1..]));
        GroupUngroup(ws[1..]);
        OpNames(ws[0], op);
        Rejoin(ws, 1);
      case None =>
        var n := RunLength(ws);
        UngroupCons(Phrase(ws[0], ws[1..n]), Group(ws[n..]));
        GroupUngroup(ws[n..]);
        Rejoin(ws, n);
    }
  }

  lemma UngroupCons(x: Lexeme, rest: seq<Lexeme>)
    ensures Ungroup([x] + rest) == Spell(x) + Ungroup(rest)
  {
    assert ([x] + rest)[1..] == rest;
  }

  /** Conversely, every lexeme sequence of the first pass's form is the
      grouping of its own words. */
  lemma {:induction false} UngroupGroup(lx: seq<Lexeme>)
    requires Grouped(lx)
    ensures Group(Ungroup(lx)) == lx
    decreases |lx|
  {
    if lx != [] {
      var rest := lx[1..];
      assert Grouped(rest);
      UngroupGroup(rest);
      var ws := Ungroup(lx);
      match lx[0]
      case Connective(op) =>
        OpNames(Name(op), op);
        assert ws == [Name(op)] + Ungroup(rest);
        assert ws[1..] == Ungroup(rest);
      case Phrase(first, more) =>
        var t := Terms(lx[0]);
        assert ws == t + Ungroup(rest);
        assert OpFree(t);
        if rest != [] {
          assert rest[0].Connective?;
          assert Ungroup(rest) == [Name(rest[0].op)] + Ungroup(rest[1..]);
          OpNames(Name(rest[0].op), rest[0].op);
        }
        RunLengthIs(ws, |t|);
        assert ws[..|t|] == t && ws[|t|..] == Ungroup(rest);
    }
  }

  /** The lookup of one lexeme: an operand of one word is `get_posting`, a
      longer one `get_positionals`. */
  function Resolve(st: Indexer, lx: Lexeme): Item {
    match lx
    case Connective(op) => Marker(op)
    case Phrase(first, more) =>
      if more == [] then Operand(GetPosting(st, first))
      else Operand(GetPositionals(st, [first] + more))
  }

  function Items(st: Indexer, lx: seq<Lexeme>): (r: seq<Item>)
    ensures |r| == |lx|
  {
    if lx == [] then [] else [Resolve(st, lx[0])] + Items(st, lx[1..])
  }

  /** The first pass resolves each lexeme on its own. */
  lemma {:induction false} ItemsAt(st: Indexer, lx: seq<Lexeme>)
    ensures forall k :: 0 <= k < |lx| ==> Items(st, lx)[k] == Resolve(st, lx[k])
  {
    if lx != [] {
      ItemsAt(st, lx[1..]);
      assert forall k :: 1 <= k < |lx| ==> lx[1..][k - 1] == lx[k];
    }
  }

  /** The first loop has turned the words before `terms[i]` into `res`:
      what the rest of the words turn into completes the list. */
  ghost predicate Consumed(st: Indexer, terms: seq<string>, res: seq<Item>, i: nat)
    requires i <= |terms|
  {
    res + Items(st, Group(terms[i..])) == Items(st, Group(terms))
  }

  /** The first loop of `solve_query`, over the words `terms`: an operator
      word adds its name; any other word starts a run that extends to the
      next operator word, and adds the run's posting list. */
  method FirstPass(st: Indexer, terms: seq<string>) returns (res: seq<Item>)
    ensures res == Items(st, Group(terms))
  {
    var i := 0;
    res := [];
    while i < |terms|
      invariant i <= |terms|
      invariant Consumed(st, terms, res, i)
      decreases |terms| - i
    {
      res, i := FirstPassStep(st, terms, res, i);
    }
  }

  /** One iteration of the first loop: the word at `terms[i]`, or the run
      of words it starts. */
  method FirstPassStep(st: Indexer, terms: seq<string>, res0: seq<Item>, i0: nat) returns (res: seq<Item>, i: nat)
    requires i0 < |terms|
    requires Consumed(st, terms, res0, i0)
    ensures i0 < i <= |terms|
    ensures Consumed(st, terms, res, i)
  {
    var term := terms[i0];
    if term == "AND" {
      OpStep(st, terms, i0, res0, And);
      res, i := res0 + [Marker(And)], i0 + 1;
    } else if term == "OR" {
      OpStep(st, terms, i0, res0, Or);
      res, i := res0 + [Marker(Or)], i0 + 1;
    } else if term == "NOT" {
      OpStep(st, terms, i0, res0, Not);
      res, i := res0 + [Marker(Not)], i0 + 1;
    } else {
      res, i := RunPassStep(st, terms, res0, i0);
    }
  }

  /** An iteration that starts at a word other than an operator: collect
      the run, then look up the word or the phrase. */
  method RunPassStep(st: Indexer, terms: seq<string>, res0: seq<Item>, i0: nat) returns (res: seq<Item>, i: nat)
    requires i0 < |terms| && OpOf(terms[i0]).None?
    requires Consumed(st, terms, res0, i0)
    ensures i0 < i <= |terms|
    ensures Consumed(st, terms, res, i)
  {
    var run, aux := CollectRun(terms, i0);
    var item;
    if |run| == 1 {
      item := Operand(GetPosting(st, terms[i0]));
      res, i := res0 + [item], i0 + 1;
    } else {
      item := Operand(GetPositionals(st, run));
      res, i := res0 + [item], i0 + aux;
    }
    RunResolves(st, terms, i0, aux, run, item);
    RunStep(st, terms, i0, aux, res0, item, res, i);
  }

  /** An operator word: the first pass appends its marker. */
  lemma OpStep(st: Indexer, terms: seq<string>, i: nat, res: seq<Item>, op: Op)
    requires i < |terms| && OpOf(terms[i]) == Some(op)
    requires Consumed(st, terms, res, i)
    ensures Consumed(st, terms, res + [Marker(op)], i + 1)
  {
    OpAdvance(st, terms, i);
    Advance(st, terms, i, i + 1, Connective(op));
    Shift(res, Marker(op), Items(st, Group(terms[i + 1..])));
  }

  /** A run of `aux` other words: the first pass appends the posting list
      of the word or of the phrase. */
  lemma RunStep(st: Indexer, terms: seq<string>, i: nat, aux: nat, res: seq<Item>, item: Item,
                res': seq<Item>, next: nat)
    requires i + aux <= |terms| && 0 < aux
    requires forall k :: i <= k < i + aux ==> OpOf(terms[k]).None?
    requires i + aux < |terms| ==> OpOf(terms[i + aux]).Some?
    requires Consumed(st, terms, res, i)
    requires item == Resolve(st, Phrase(terms[i], terms[i + 1..i + aux]))
    requires res' == res + [item] && next == i + aux
    ensures Consumed(st, terms, res', next)
  {
    RunItemStep(st, terms, i, aux, res, item);
  }

  lemma RunItemStep(st: Indexer, terms: seq<string>, i: nat, aux: nat, res: seq<Item>, item: Item)
    requires i + aux <= |terms| && 0 < aux
    requires forall k :: i <= k < i + aux ==> OpOf(terms[k]).None?
    requires i + aux < |terms| ==> OpOf(terms[i + aux]).Some?
    requires Consumed(st, terms, res, i)
    requires item == Resolve(st, Phrase(terms[i], terms[i + 1..i + aux]))
    ensures Consumed(st, terms, res + [item], i + aux)
  {
    RunAdvance(st, terms, i, aux);
    Shift(res, item, Items(st, Group(terms[i + aux..])));
  }

  /** The posting list the first pass looks up for a run is what the run
      resolves to as an operand. */
  lemma RunResolves(st: Indexer, terms: seq<string>, i: nat, aux: nat, run: seq<string>, item: Item)
    requires i + aux <= |terms| && 0 < aux && run == terms[i..i + aux]
    requires item == if |run| == 1 then Operand(GetPosting(st, terms[i])) else Operand(GetPositionals(st, run))
    ensures |run| == aux && item == Resolve(st, Phrase(terms[i], terms[i + 1..i + aux]))
  {
    assert [terms[i]] + terms[i + 1..i + aux] == run;
  }

  /** The inner loop of the first pass: the words from `terms[i]` up to
      the next operator word or the end. */
  method CollectRun(terms: seq<string>, i: nat) returns (run: seq<string>, aux: nat)
    requires i < |terms| && OpOf(terms[i]).None?
    ensures 0 < aux && i + aux <= |terms| && run == terms[i..i + aux]
    ensures forall k :: i <= k < i + aux ==> OpOf(terms[k]).None?
    ensures i + aux < |terms| ==> OpOf(terms[i + aux]).Some?
  {
    aux := 0;
    run := [];
    while i + aux < |terms| && terms[i + aux] != "AND" && terms[i + aux] != "OR" && terms[i + aux] != "NOT"
      invariant i + aux <= |terms|
      invariant run == terms[i..i + aux]
      invariant forall k :: i <= k < i + aux ==> OpOf(terms[k]).None?
      decreases |terms| - i - aux
    {
      run := run + [terms[i + aux]];
      aux := aux + 1;
    }
  }

  /** The first pass consumes `terms[i..j]` as the lexeme `lx`. */
  lemma Advance(st: Indexer, terms: seq<string>, i: nat, j: nat, lx: Lexeme)
    requires i < j <= |terms|
    requires Group(terms[i..]) == [lx] + Group(terms[j..])
    ensures Items(st, Group(terms[i..])) == [Resolve(st, lx)] + Items(st, Group(terms[j..]))
  {
  }

  /** The operator word at `terms[i]` is consumed alone. */
  lemma OpAdvance(st: Indexer, terms: seq<string>, i: nat)
    requires i < |terms| && OpOf(terms[i]).Some?
    ensures Group(terms[i..]) == [Connective(OpOf(terms[i]).value)] + Group(terms[i + 1..])
  {
    assert terms[i..][1..] == terms[i + 1..];
  }

  /** The run of `aux` non-operator words at `terms[i]`, ended by an
      operator word or the end, is consumed as one operand. */
  lemma RunAdvance(st: Indexer, terms: seq<string>, i: nat, aux: nat)
    requires i + aux <= |terms| && 0 < aux
    requires forall k :: i <= k < i + aux ==> OpOf(terms[k]).None?
    requires i + aux < |terms| ==> OpOf(terms[i + aux]).Some?
    ensures Items(st, Group(terms[i..]))
            == [Resolve(st, Phrase(terms[i], terms[i + 1..i + aux]))] + Items(st, Group(terms[i + aux..]))
  {
    RunGroups(terms, i, aux);
    Advance(st, terms, i, i + aux, Phrase(terms[i], terms[i + 1..i + aux]));
  }

  lemma RunGroups(terms: seq<string>, i: nat, aux: nat)
    requires i + aux <= |terms| && 0 < aux
    requires forall k :: i <= k < i + aux ==> OpOf(terms[k]).None?
    requires i + aux < |terms| ==> OpOf(terms[i + aux]).Some?
    ensures Group(terms[i..]) == [Phrase(terms[i], terms[i + 1..i + aux])] + Group(terms[i + aux..])
  {
    var rest := terms[i..];
    RunLengthIs(rest, aux);
    DropSlices(terms, i, aux);
  }

  // ---------------------------------------------------------------------
  // Second pass: folding

  /** `reverse_posting` of an element of `res`. An operator name in its
      place is scanned with `i not in "AND"`, which fails as soon as there
      is an article to test. */
  function Reverse(it: Item, n: nat): Result<seq<nat>> {
    match it
    case Operand(p) => Ok(Complement(p, n))
    case Marker(_) => if n == 0 then Ok([]) else Err(Incomparable)
  }

  /** The characters of an operator name, by code point. */
  function Codes(w: string): (r: seq<nat>)
    ensures |r| == |w|
  {
    seq(|w|, k requires 0 <= k < |w| => w[k] as nat)
  }

  /** `and_posting(a, b)` (`op == And`) or `or_posting(a, b)` on two Python
      lists. Lists of one kind are merged by the two-pointer loop. Between
      an id and a character `==` is false and `<=` raises, which happens as
      soon as both lists are non-empty; with one list empty nothing is
      compared, and AND gives `[]` while OR gives the other list. */
  function Merge(op: Op, a: Value, b: Value): Result<Value>
    requires op != Not
  {
    if a.Ids? == b.Ids? then
      var s := if op == And then Intersect(a.list, b.list) else Union(a.list, b.list);
      Ok(if a.Ids? then Ids(s) else Chars(s))
    else if a.list != [] && b.list != [] then Err(Incomparable)
    else if op == And then Ok(Ids([]))
    else Ok(if a.list == [] then b else a)
  }

  /** A merge fails exactly when it has to compare an id with a character;
      otherwise its list is the two-pointer merge of the two lists' contents,
      and two id lists give an id list. */
  lemma MergeContents(op: Op, a: Value, b: Value)
    requires op != Not
    ensures Merge(op, a, b).Err? <==> a.Ids? != b.Ids? && a.list != [] && b.list != []
    ensures Merge(op, a, b).Ok? ==>
              Merge(op, a, b).value.list
              == if op == And then Intersect(a.list, b.list) else Union(a.list, b.list)
    ensures a.Ids? && b.Ids? ==> Merge(op, a, b).Ok? && Merge(op, a, b).value.Ids?
  {
  }

  /** An element of `res` used as a list: a posting, or the characters of
      an operator name. */
  function SigOf(it: Item): Value {
    match it
    case Operand(p) => Ids(p)
    case Marker(op) => Chars(Codes(Name(op)))
  }

  /** The right operand of the `AND` or `OR` at `res[i]`: the next element,
      or the reversal of the one after a `NOT`, with the index to resume at. */
  function Next(items: seq<Item>, n: nat, i: nat): (r: Result<(Value, nat)>)
    requires i < |items|
    ensures r.Ok? ==> i + 2 <= r.value.1 <= |items|
    ensures r.Ok? ==> r.value.1 == if items[i + 1] == Marker(Not) then i + 3 else i + 2
    ensures r.Ok? && items[i + 1] != Marker(Not) ==> r.value.0 == SigOf(items[i + 1])
    ensures r.Ok? && items[i + 1] == Marker(Not) ==>
              r.value.0.Ids? && Reverse(items[i + 2], n) == Ok(r.value.0.list)
  {
    if i + 1 >= |items| then Err(MissingOperand)
    else if items[i + 1] == Marker(Not) then
      if i + 2 >= |items| then Err(MissingOperand)
      else (match Reverse(items[i + 2], n)
        case Err(f) => Err(f)
        case Ok(p) => Ok((Ids(p), i + 3)))
    else Ok((SigOf(items[i + 1]), i + 2))
  }

  /** What `solve_query` returns when the loop ends with `solve`. */
  function Finish(solve: Value): Result<seq<nat>> {
    if solve.Chars? && solve.list != [] then Err(CharacterList(solve.list)) else Ok(solve.list)
  }

  /** The second loop of `solve_query` from `res[i]` on, with accumulator
      `solve` and `n` articles: an operand or a `NOT` operand replaces the
      accumulator; `AND` and `OR` merge it with their right operand. Reading
      past the end of `res` only happens when `res` ends with an operator. */
  function Reduce(items: seq<Item>, n: nat, i: nat, solve: Value): (r: Result<seq<nat>>)
    requires i <= |items|
    ensures r == Err(MissingOperand) ==> i < |items| && items[|items| - 1].Marker?
    decreases |items| - i
  {
    if i == |items| then Finish(solve)
    else match items[i]
      case Operand(p) => Reduce(items, n, i + 1, Ids(p))
      case Marker(Not) =>
        if i + 1 >= |items| then Err(MissingOperand)
        else (match Reverse(items[i + 1], n)
          case Err(f) => Err(f)
          case Ok(p) => Reduce(items, n, i + 2, Ids(p)))
      case Marker(op) =>
        match Next(items, n, i)
        case Err(f) => Err(f)
        case Ok((sig, k)) =>
          (match Merge(op, solve, sig)
           case Err(f) => Err(f)
           case Ok(s) => Reduce(items, n, k, s))
  }

  /** `solve_query`: the empty query has the empty answer; otherwise both
      passes run, the fold starting from the empty list. */
  function SolveQuery(st: Indexer, query: string): (r: Result<seq<nat>>)
    ensures |query| == 0 ==> r == Ok([])
    ensures Words(query) == [] ==> r == Ok([])
  {
    if |query| == 0 then Ok([])
    else Reduce(Items(st, Group(Words(query))), |st.articles|, 0, Ids([]))
  }

  // ---------------------------------------------------------------------
  // Meaning

  /** The operator at each place of a query, `None` for an operand. */
  function ItemShape(items: seq<Item>): (r: seq<Option<Op>>)
    ensures |r| == |items|
  {
    seq(|items|, k requires 0 <= k < |items| => if items[k].Marker? then Some(items[k].op) else None)
  }

  function LexShape(lx: seq<Lexeme>): (r: seq<Option<Op>>)
    ensures |r| == |lx|
  {
    seq(|lx|, k requires 0 <= k < |lx| => if lx[k].Connective? then Some(lx[k].op) else None)
  }

  /** The shapes the second pass folds without failing: a sequence of
      clauses, each an operand, a `NOT` operand, or an `AND` or `OR`
      followed by an operand or a `NOT` operand. */
  predicate Grammatical(sh: seq<Option<Op>>)
    decreases |sh|
  {
    || sh == []
    || (sh[0] == None && Grammatical(sh[1..]))
    || (sh[0] == Some(Not) && |sh| >= 2 && sh[1] == None && Grammatical(sh[2..]))
    || (&& (sh[0] == Some(And) || sh[0] == Some(Or)) && |sh| >= 2
        && sh[1] == None && Grammatical(sh[2..]))
    || (&& (sh[0] == Some(And) || sh[0] == Some(Or)) && |sh| >= 3
        && sh[1] == Some(Not) && sh[2] == None && Grammatical(sh[3..]))
  }

  /** Whether one article satisfies a grammatical query, given whether it
      satisfies each operand (`atoms[k]` for the operand at place `k`),
      read left to right from the value `acc`: an operand or a `NOT`
      operand replaces the value, `AND` and `OR` combine with it. */
  function Eval(sh: seq<Option<Op>>, atoms: seq<bool>, acc: bool): bool
    requires Grammatical(sh) && |atoms| == |sh|
    decreases |sh|
  {
    if sh == [] then acc
    else if sh[0] == None then Eval(sh[1..], atoms[1..], atoms[0])
    else if sh[0] == Some(Not) then Eval(sh[2..], atoms[2..], !atoms[1])
    else
      var k := if sh[1] == Some(Not) then 3 else 2;
      var b := if sh[1] == Some(Not) then !atoms[2] else atoms[1];
      Eval(sh[k..], atoms[k..], if sh[0] == Some(And) then acc && b else acc || b)
  }

  /** Whether article `x` is in each operand's posting. */
  function ItemTruths(items: seq<Item>, x: nat): (r: seq<bool>)
    ensures |r| == |items|
  {
    seq(|items|, k requires 0 <= k < |items| => items[k].Operand? && x in items[k].posting)
  }

  /** Whether a token stream contains each operand as a run. */
  ghost function Truths(tokens: seq<string>, lx: seq<Lexeme>): (r: seq<bool>)
    ensures |r| == |lx|
  {
    seq(|lx|, k requires 0 <= k < |lx| => lx[k].Phrase? && PhraseIn(tokens, Terms(lx[k])))
  }

  /** Every operand from place `i` on is an ascending posting below `n`. */
  ghost predicate ValidOperands(items: seq<Item>, n: nat, i: nat) {
    forall k :: i <= k < |items| && items[k].Operand? ==>
      Increasing(items[k].posting) && Below(items[k].posting, n)
  }

  /** Folding a grammatical list of valid postings succeeds with a valid
      posting, and an article below `n` is in it iff it satisfies the query
      read left to right. */
  lemma {:induction false} ReduceMeaning(items: seq<Item>, n: nat, i: nat, solve: seq<nat>, x: nat)
    requires i <= |items| && Grammatical(ItemShape(items)[i..])
    requires ValidOperands(items, n, i) && Increasing(solve) && Below(solve, n)
    ensures Reduce(items, n, i, Ids(solve)).Ok?
    ensures Increasing(Reduce(items, n, i, Ids(solve)).value) && Below(Reduce(items, n, i, Ids(solve)).value, n)
    ensures x < n ==>
              (x in Reduce(items, n, i, Ids(solve)).value
               <==> Eval(ItemShape(items)[i..], ItemTruths(items, x)[i..], x in solve))
    decreases |items| - i
  {
    if i < |items| {
      var sh, at := ItemShape(items)[i..], ItemTruths(items, x)[i..];
      match items[i]
      case Operand(p) =>
        assert sh[1..] == ItemShape(items)[i + 1..] && at[1..] == ItemTruths(items, x)[i + 1..];
        ReduceMeaning(items, n, i + 1, p, x);
      case Marker(Not) =>
        assert sh[2..] == ItemShape(items)[i + 2..] && at[2..] == ItemTruths(items, x)[i + 2..];
        var p := items[i + 1].posting;
        ReduceMeaning(items, n, i + 2, Complement(p, n), x);
      case Marker(op) =>
        var k, r := ClauseStep(items, n, i, solve, x);
        ReduceMeaning(items, n, k, r, x);
    }
  }

  /** One `AND` or `OR` clause: it is read without failing, the merged
      accumulator `r` is a valid posting, and the fold resumes at `k` with
      the query's value for article `x` carried in `x in r`. */
  lemma ClauseStep(items: seq<Item>, n: nat, i: nat, solve: seq<nat>, x: nat) returns (k: nat, r: seq<nat>)
    requires i < |items| && Grammatical(ItemShape(items)[i..])
    requires items[i] == Marker(And) || items[i] == Marker(Or)
    requires ValidOperands(items, n, i) && Increasing(solve) && Below(solve, n)
    ensures i < k <= |items| && Grammatical(ItemShape(items)[k..]) && ValidOperands(items, n, k)
    ensures Increasing(r) && Below(r, n)
    ensures Reduce(items, n, i, Ids(solve)) == Reduce(items, n, k, Ids(r))
    ensures x < n ==>
              Eval(ItemShape(items)[i..], ItemTruths(items, x)[i..], x in solve)
              == Eval(ItemShape(items)[k..], ItemTruths(items, x)[k..], x in r)
  {
    k := ClauseExtent(items, n, i);
    var neg := items[i + 1] == Marker(Not);
    var p := items[k - 1].posting;
    var q := if neg then Complement(p, n) else p;
    var and := items[i].op == And;
    r := if and then Intersect(solve, q) else Union(solve, q);
    ClauseValid(solve, q, r, n, and);
    if x < n {
      ClauseEval(items, i, k, x, solve, r);
    }
    ClauseReduce(items, n, i, solve, k, q, r);
  }

  /** The places an `AND` or `OR` clause spans: two, or three with a `NOT`,
      ending at an operand; the rest of the query stays grammatical. */
  lemma ClauseExtent(items: seq<Item>, n: nat, i: nat) returns (k: nat)
    requires i < |items| && Grammatical(ItemShape(items)[i..])
    requires items[i] == Marker(And) || items[i] == Marker(Or)
    requires ValidOperands(items, n, i)
    ensures i + 1 < |items| && k == (if items[i + 1] == Marker(Not) then i + 3 else i + 2)
    ensures k <= |items| && items[k - 1].Operand? && (k == i + 3 ==> items[i + 1] == Marker(Not))
    ensures Increasing(items[k - 1].posting) && Below(items[k - 1].posting, n)
    ensures Grammatical(ItemShape(items)[k..]) && ValidOperands(items, n, k)
  {
    var sh := ItemShape(items)[i..];
    assert sh[0] == Some(items[i].op);
    k := if sh[1] == Some(Not) then i + 3 else i + 2;
    assert sh[k - i..] == ItemShape(items)[k..];
    assert sh[k - i - 1] == None;
  }

  /** The second loop takes the clause as one step. */
  lemma ClauseReduce(items: seq<Item>, n: nat, i: nat, solve: seq<nat>, k: nat, q: seq<nat>, r: seq<nat>)
    requires i + 1 < |items| && k == (if items[i + 1] == Marker(Not) then i + 3 else i + 2)
    requires k <= |items| && items[k - 1].Operand?
    requires items[i] == Marker(And) || items[i] == Marker(Or)
    requires q == if items[i + 1] == Marker(Not) then Complement(items[k - 1].posting, n) else items[k - 1].posting
    requires r == if items[i].op == And then Intersect(solve, q) else Union(solve, q)
    ensures Reduce(items, n, i, Ids(solve)) == Reduce(items, n, k, Ids(r))
  {
    NextOperand(items, n, i, k, q);
    assert Merge(items[i].op, Ids(solve), Ids(q)) == Ok(Ids(r));
    ReduceConnective(items, n, i, solve, Ids(q), k, r);
  }

  lemma NextOperand(items: seq<Item>, n: nat, i: nat, k: nat, q: seq<nat>)
    requires i + 1 < |items| && k == (if items[i + 1] == Marker(Not) then i + 3 else i + 2)
    requires k <= |items| && items[k - 1].Operand?
    requires q == if items[i + 1] == Marker(Not) then Complement(items[k - 1].posting, n) else items[k - 1].posting
    ensures Next(items, n, i) == Ok((Ids(q), k))
  {
  }

  /** The second loop at an `AND` or `OR` whose right operand is read and
      merged without failing. */
  lemma ReduceConnective(items: seq<Item>, n: nat, i: nat, solve: seq<nat>, sig: Value, k: nat, r: seq<nat>)
    requires i < |items| && (items[i] == Marker(And) || items[i] == Marker(Or))
    requires Next(items, n, i) == Ok((sig, k)) && Merge(items[i].op, Ids(solve), sig) == Ok(Ids(r))
    ensures Reduce(items, n, i, Ids(solve)) == Reduce(items, n, k, Ids(r))
  {
  }

  /** The merged accumulator is a valid posting holding the ids of the
      conjunction or disjunction. */
  lemma ClauseValid(solve: seq<nat>, q: seq<nat>, r: seq<nat>, n: nat, and: bool)
    requires Increasing(solve) && Below(solve, n) && Increasing(q) && Below(q, n)
    requires r == if and then Intersect(solve, q) else Union(solve, q)
    ensures Increasing(r) && Below(r, n)
    ensures forall x :: x in r <==> if and then x in solve && x in q else x in solve || x in q
  {
    BelowMembers(solve, n);
    BelowMembers(q, n);
    BelowMembers(r, n);
    if and {
      IntersectExact(solve, q);
    } else {
      UnionIncreasing(solve, q);
    }
  }

  /** Reading the clause for article `x` combines the accumulator with the
      clause's operand as the merge does. */
  lemma ClauseEval(items: seq<Item>, i: nat, k: nat, x: nat, solve: seq<nat>, r: seq<nat>)
    requires i < |items| && Grammatical(ItemShape(items)[i..])
    requires i + 1 < |items| && k == (if items[i + 1] == Marker(Not) then i + 3 else i + 2)
    requires k <= |items| && items[k - 1].Operand?
    requires items[i] == Marker(And) || items[i] == Marker(Or)
    requires Grammatical(ItemShape(items)[k..])
    requires var b := x in items[k - 1].posting;
             var c := if items[i + 1] == Marker(Not) then !b else b;
             x in r <==> if items[i].op == And then x in solve && c else x in solve || c
    ensures Eval(ItemShape(items)[i..], ItemTruths(items, x)[i..], x in solve)
            == Eval(ItemShape(items)[k..], ItemTruths(items, x)[k..], x in r)
  {
    var sh, at := ItemShape(items)[i..], ItemTruths(items, x)[i..];
    assert sh[k - i..] == ItemShape(items)[k..] && at[k - i..] == ItemTruths(items, x)[k..];
    assert at[k - i - 1] == (x in items[k - 1].posting);
    assert sh[1] == Some(Not) <==> items[i + 1] == Marker(Not);
  }

  /** A one-word phrase is a single occurrence of the word. */
  lemma PhraseOfOne(tokens: seq<string>, t: string)
    ensures PhraseIn(tokens, [t]) <==> t in tokens
  {
    if t in tokens {
      var q :| 0 <= q < |tokens| && tokens[q] == t;
      assert tokens[q..q + 1] == [t];
      assert RunAt(tokens, [t], q);
    }
    if PhraseIn(tokens, [t]) {
      var q: nat :| RunAt(tokens, [t], q);
      assert tokens[q] == tokens[q..q + 1][0];
    }
  }

  /** The lookups of the first pass turn a lexeme sequence into operands
      that are valid postings with the operands' meaning over `texts`. */
  lemma ItemsMeaning(st: Indexer, texts: seq<seq<string>>, lx: seq<Lexeme>)
    requires Reflects(st, texts)
    ensures ItemShape(Items(st, lx)) == LexShape(lx)
    ensures ValidOperands(Items(st, lx), |texts|, 0)
    ensures forall x: nat :: x < |texts| ==> ItemTruths(Items(st, lx), x) == Truths(texts[x], lx)
  {
    ItemsAt(st, lx);
    var items, n := Items(st, lx), |texts|;
    ReflectsValid(st, texts);
    forall k | 0 <= k < |lx| && lx[k].Phrase?
      ensures Increasing(items[k].posting) && Below(items[k].posting, n)
      ensures forall x: nat :: x < n ==> (x in items[k].posting <==> PhraseIn(texts[x], Terms(lx[k])))
    {
      var t := Terms(lx[k]);
      var p := items[k].posting;
      if lx[k].more == [] {
        assert t == [lx[k].first] && p == GetPosting(st, lx[k].first);
        GetPostingExact(st, texts, lx[k].first);
        forall x: nat | x < n
          ensures x in p <==> PhraseIn(texts[x], t)
        {
          PhraseOfOne(texts[x], lx[k].first);
        }
      } else {
        PositionalsPhrase(st, texts, t);
        BelowMembers(GetPosting(st, t[0]), n);
        BelowMembers(p, n);
      }
    }
    forall x: nat | x < n
      ensures ItemTruths(items, x) == Truths(texts[x], lx)
    {
      forall k | 0 <= k < |lx|
        ensures ItemTruths(items, x)[k] == Truths(texts[x], lx)[k]
      {
      }
    }
  }

  /** Over an index that describes `texts`, a query whose operators and
      operands follow the grammar is answered without failure by an
      ascending list of article ids, and article `x` is in it iff it
      satisfies the query read left to right, an operand being satisfied
      when the article's stream contains its words as a run. */
  lemma SolveQueryMeaning(st: Indexer, texts: seq<seq<string>>, query: string)
    requires Reflects(st, texts)
    requires Grammatical(LexShape(Group(Words(query))))
    ensures SolveQuery(st, query).Ok?
    ensures Increasing(SolveQuery(st, query).value) && Below(SolveQuery(st, query).value, |texts|)
    ensures forall x: nat :: x < |texts| ==>
              (x in SolveQuery(st, query).value
               <==> Eval(LexShape(Group(Words(query))), Truths(texts[x], Group(Words(query))), false))
  {
    var lx := Group(Words(query));
    var items := Items(st, lx);
    ItemsMeaning(st, texts, lx);
    if |query| == 0 {
      assert Unquote(query) == [];
    } else {
      assert ItemShape(items)[0..] == LexShape(lx);
      ReduceMeaning(items, |texts|, 0, [], 0);
      forall x: nat | x < |texts|
        ensures x in SolveQuery(st, query).value <==> Eval(LexShape(lx), Truths(texts[x], lx), false)
      {
        ReduceMeaning(items, |texts|, 0, [], x);
        assert ItemTruths(items, x)[0..] == Truths(texts[x], lx);
      }
    }
  }

  // ---------------------------------------------------------------------
  // Particular queries

  /** A query word that is not an operator. */
  predicate Term(w: string) {
    Plain(w) && OpOf(w).None?
  }

  /** An operator word is a lexeme of its own. */
  lemma GroupOp(ws: seq<string>)
    requires ws != [] && OpOf(ws[0]).Some?
    ensures Group(ws) == [Connective(OpOf(ws[0]).value)] + Group(ws[1..])
  {
  }

  /** A term followed by an operator word, or by nothing, is a one-word
      operand. */
  lemma GroupTerm(ws: seq<string>)
    requires ws != [] && OpOf(ws[0]).None? && (|ws| == 1 || OpOf(ws[1]).Some?)
    ensures Group(ws) == [Phrase(ws[0], [])] + Group(ws[1..])
  {
    RunLengthIs(ws, 1);
  }

  /** A query written as plain words is folded from the grouping of those
      words. */
  lemma SolveJoined(st: Indexer, ws: seq<string>)
    requires ws != [] && forall k :: 0 <= k < |ws| ==> Plain(ws[k])
    ensures SolveQuery(st, Join(ws)) == Reduce(Items(st, Group(ws)), |st.articles|, 0, Ids([]))
  {
    WordsJoin(ws);
    assert |Join(ws)| >= |ws[0]| > 0;
  }

  /** `a AND NOT b`: the articles of `a` without those of `b`. */
  lemma AndNotQuery(st: Indexer, a: string, b: string)
    requires Term(a) && Term(b)
    ensures SolveQuery(st, Join([a, "AND", "NOT", b]))
            == Ok(Intersect(GetPosting(st, a), Complement(GetPosting(st, b), |st.articles|)))
  {
    SolveJoined(st, [a, "AND", "NOT", b]);
    GroupAndNot(a, b);
    var pa, pb := GetPosting(st, a), GetPosting(st, b);
    ItemsAt(st, [Phrase(a, []), Connective(And), Connective(Not), Phrase(b, [])]);
    assert Items(st, [Phrase(a, []), Connective(And), Connective(Not), Phrase(b, [])])
        == [Operand(pa), Marker(And), Marker(Not), Operand(pb)];
    ReduceAndNot(pa, pb, |st.articles|);
  }

  lemma ReduceAndNot(pa: seq<nat>, pb: seq<nat>, n: nat)
    ensures Reduce([Operand(pa), Marker(And), Marker(Not), Operand(pb)], n, 0, Ids([]))
            == Ok(Intersect(pa, Complement(pb, n)))
  {
    var items := [Operand(pa), Marker(And), Marker(Not), Operand(pb)];
    assert Next(items, n, 1) == Ok((Ids(Complement(pb, n)), 4));
    assert Reduce(items, n, 4, Ids(Intersect(pa, Complement(pb, n)))) == Ok(Intersect(pa, Complement(pb, n)));
  }

  lemma GroupAndNot(a: string, b: string)
    requires Term(a) && Term(b)
    ensures Group([a, "AND", "NOT", b]) == [Phrase(a, []), Connective(And), Connective(Not), Phrase(b, [])]
  {
    var ws := [a, "AND", "NOT", b];
    assert OpOf("AND") == Some(And) && OpOf("NOT") == Some(Not);
    GroupTerm([b]);
    assert [b][1..] == [];
    GroupOp(["NOT", b]);
    assert ["NOT", b][1..] == [b];
    GroupOp(["AND", "NOT", b]);
    assert ["AND", "NOT", b][1..] == ["NOT", b];
    GroupTerm(ws);
    assert ws[1..] == ["AND", "NOT", b];
  }

  /** `a OR b AND c` is `(a OR b) AND c`: there is no precedence. */
  lemma LeftToRightQuery(st: Indexer, a: string, b: string, c: string)
    requires Term(a) && Term(b) && Term(c)
    ensures SolveQuery(st, Join([a, "OR", b, "AND", c]))
            == Ok(Intersect(Union(GetPosting(st, a), GetPosting(st, b)), GetPosting(st, c)))
  {
    SolveJoined(st, [a, "OR", b, "AND", c]);
    GroupOrAnd(a, b, c);
    var pa, pb, pc := GetPosting(st, a), GetPosting(st, b), GetPosting(st, c);
    ItemsAt(st, [Phrase(a, []), Connective(Or), Phrase(b, []), Connective(And), Phrase(c, [])]);
    assert Items(st, [Phrase(a, []), Connective(Or), Phrase(b, []), Connective(And), Phrase(c, [])])
        == [Operand(pa), Marker(Or), Operand(pb), Marker(And), Operand(pc)];
    ReduceOrAnd(pa, pb, pc, |st.articles|);
  }

  lemma ReduceOrAnd(pa: seq<nat>, pb: seq<nat>, pc: seq<nat>, n: nat)
    ensures Reduce([Operand(pa), Marker(Or), Operand(pb), Marker(And), Operand(pc)], n, 0, Ids([]))
            == Ok(Intersect(Union(pa, pb), pc))
  {
    var items := [Operand(pa), Marker(Or), Operand(pb), Marker(And), Operand(pc)];
    assert Next(items, n, 1) == Ok((Ids(pb), 3));
    assert Next(items, n, 3) == Ok((Ids(pc), 5));
    var u := Union(pa, pb);
    assert Reduce(items, n, 5, Ids(Intersect(u, pc))) == Ok(Intersect(u, pc));
    assert Reduce(items, n, 3, Ids(u)) == Reduce(items, n, 5, Ids(Intersect(u, pc)));
  }

  lemma GroupOrAnd(a: string, b: string, c: string)
    requires Term(a) && Term(b) && Term(c)
    ensures Group([a, "OR", b, "AND", c])
            == [Phrase(a, []), Connective(Or), Phrase(b, []), Connective(And), Phrase(c, [])]
  {
    var t := [b, "AND", c];
    GroupAnd(b, c);
    GroupOpCons("OR", t);
    GroupTermCons(a, ["OR"] + t);
    assert [a, "OR", b, "AND", c] == [a] + (["OR"] + t);
  }

  /** An operator word in front adds its connective. */
  lemma GroupOpCons(w: string, rest: seq<string>)
    requires OpOf(w).Some?
    ensures Group([w] + rest) == [Connective(OpOf(w).value)] + Group(rest)
  {
    assert ([w] + rest)[1..] == rest;
  }

  /** A term in front of an operator word, or of nothing, adds a one-word
      operand. */
  lemma GroupTermCons(w: string, rest: seq<string>)
    requires Term(w) && (rest == [] || OpOf(rest[0]).Some?)
    ensures Group([w] + rest) == [Phrase(w, [])] + Group(rest)
  {
    GroupTerm([w] + rest);
    assert ([w] + rest)[1..] == rest;
  }

  lemma GroupAnd(b: string, c: string)
    requires Term(b) && Term(c)
    ensures Group([b, "AND", c]) == [Phrase(b, []), Connective(And), Phrase(c, [])]
  {
    assert OpOf("AND") == Some(And);
    GroupTerm([c]);
    assert [c][1..] == [];
    GroupOp(["AND", c]);
    assert ["AND", c][1..] == [c];
    GroupTerm([b, "AND", c]);
    assert [b, "AND", c][1..] == ["AND", c];
  }

  /** `a NOT b`: a `NOT` with no `AND` or `OR` before it discards what
      came before. */
  lemma NotReplacesQuery(st: Indexer, a: string, b: string)
    requires Term(a) && Term(b)
    ensures SolveQuery(st, Join([a, "NOT", b])) == Ok(Complement(GetPosting(st, b), |st.articles|))
  {
    SolveJoined(st, [a, "NOT", b]);
    GroupNot(a, b);
    var pa, pb := GetPosting(st, a), GetPosting(st, b);
    ItemsAt(st, [Phrase(a, []), Connective(Not), Phrase(b, [])]);
    assert Items(st, [Phrase(a, []), Connective(Not), Phrase(b, [])]) == [Operand(pa), Marker(Not), Operand(pb)];
    ReduceNot(pa, pb, |st.articles|);
  }

  lemma ReduceNot(pa: seq<nat>, pb: seq<nat>, n: nat)
    ensures Reduce([Operand(pa), Marker(Not), Operand(pb)], n, 0, Ids([])) == Ok(Complement(pb, n))
  {
    var items := [Operand(pa), Marker(Not), Operand(pb)];
    assert Reduce(items, n, 3, Ids(Complement(pb, n))) == Ok(Complement(pb, n));
  }

  lemma GroupNot(a: string, b: string)
    requires Term(a) && Term(b)
    ensures Group([a, "NOT", b]) == [Phrase(a, []), Connective(Not), Phrase(b, [])]
  {
    var ws := [a, "NOT", b];
    assert OpOf("NOT") == Some(Not);
    GroupTerm([b]);
    assert [b][1..] == [];
    GroupOp(["NOT", b]);
    assert ["NOT", b][1..] == [b];
    GroupTerm(ws);
    assert ws[1..] == ["NOT", b];
  }

  /** Words next to each other form one phrase, and quotes only separate
      words: `"a b"` and `a b` are both the phrase. */
  lemma PhraseQuery(st: Indexer, a: string, b: string)
    requires Term(a) && Term(b)
    ensures SolveQuery(st, "\"" + Join([a, b]) + "\"") == Ok(GetPositionals(st, [a, b]))
    ensures SolveQuery(st, Join([a, b])) == Ok(GetPositionals(st, [a, b]))
  {
    var ws := [a, b];
    var q := "\"" + Join(ws) + "\"";
    QuotedWords(ws);
    RunLengthIs(ws, 2);
    assert ws[1..2] == [b] && ws[2..] == [];
    assert Group(ws) == [Phrase(a, [b])];
    assert [a] + [b] == ws;
    ItemsAt(st, [Phrase(a, [b])]);
    assert Items(st, [Phrase(a, [b])]) == [Operand(GetPositionals(st, [a, b]))];
    SolveJoined(st, ws);
    assert |q| > 0;
  }

  /** Enclosing plain words in quotes does not change the words. */
  lemma QuotedWords(ws: seq<string>)
    requires forall k :: 0 <= k < |ws| ==> Plain(ws[k])
    ensures Words("\"" + Join(ws) + "\"") == ws
  {
    var j := Join(ws);
    NoQuoteInJoin(ws);
    UnquoteEnclosed(j);
    SplitEnclosed(j);
    SplitJoin(ws);
    assert Words("\"" + j + "\"") == Split(" " + j + " ");
  }

  lemma UnquoteEnclosed(j: string)
    requires '"' !in j
    ensures Unquote("\"" + j + "\"") == " " + j + " "
  {
  }

  lemma SplitEnclosed(j: string)
    ensures Split(" " + j + " ") == Split(j)
  {
    assert " " + j + " " == [] + [' '] + (j + [' '] + []);
    SplitAtSpace([], ' ', j + [' '] + []);
    SplitAtSpace(j, ' ', []);
    assert j + [] == j;
  }

  /** A trailing operator, or a trailing `AND NOT`, has no operand to read. */
  lemma TrailingAndQuery(st: Indexer, a: string)
    requires Term(a)
    ensures SolveQuery(st, Join([a, "AND"])) == Err(MissingOperand)
  {
    SolveJoined(st, [a, "AND"]);
    GroupTrailingAnd(a);
    ItemsAt(st, [Phrase(a, []), Connective(And)]);
    assert Items(st, [Phrase(a, []), Connective(And)]) == [Operand(GetPosting(st, a)), Marker(And)];
    ReduceTrailingAnd(GetPosting(st, a), |st.articles|);
  }

  lemma GroupTrailingAnd(a: string)
    requires Term(a)
    ensures Group([a, "AND"]) == [Phrase(a, []), Connective(And)]
  {
    assert OpOf("AND") == Some(And);
    GroupOp(["AND"]);
    assert ["AND"][1..] == [];
    GroupTerm([a, "AND"]);
    assert [a, "AND"][1..] == ["AND"];
  }

  lemma ReduceTrailingAnd(pa: seq<nat>, n: nat)
    ensures Reduce([Operand(pa), Marker(And)], n, 0, Ids([])) == Err(MissingOperand)
  {
  }

  lemma TrailingAndNotQuery(st: Indexer, a: string)
    requires Term(a)
    ensures SolveQuery(st, Join([a, "AND", "NOT"])) == Err(MissingOperand)
  {
    SolveJoined(st, [a, "AND", "NOT"]);
    GroupTrailingAndNot(a);
    var items := [Operand(GetPosting(st, a)), Marker(And), Marker(Not)];
    ItemsAt(st, [Phrase(a, []), Connective(And), Connective(Not)]);
    assert Items(st, [Phrase(a, []), Connective(And), Connective(Not)]) == items;
    ReduceTrailingAndNot(GetPosting(st, a), |st.articles|);
  }

  lemma GroupTrailingAndNot(a: string)
    requires Term(a)
    ensures Group([a, "AND", "NOT"]) == [Phrase(a, []), Connective(And), Connective(Not)]
  {
    assert OpOf("AND") == Some(And) && OpOf("NOT") == Some(Not);
    GroupOp(["NOT"]);
    assert ["NOT"][1..] == [];
    GroupOp(["AND", "NOT"]);
    assert ["AND", "NOT"][1..] == ["NOT"];
    GroupTerm([a, "AND", "NOT"]);
    assert [a, "AND", "NOT"][1..] == ["AND", "NOT"];
  }

  lemma ReduceTrailingAndNot(pa: seq<nat>, n: nat)
    ensures Reduce([Operand(pa), Marker(And), Marker(Not)], n, 0, Ids([])) == Err(MissingOperand)
  {
  }

  lemma LoneNotQuery(st: Indexer)
    ensures SolveQuery(st, Join(["NOT"])) == Err(MissingOperand)
  {
    assert OpOf("NOT") == Some(Not);
    SolveJoined(st, ["NOT"]);
    GroupOp(["NOT"]);
    assert ["NOT"][1..] == [];
  }

  /** An operator where an operand belongs is taken as a posting list: it
      fails as soon as there is an article id to compare it with. */
  lemma DoubleOperatorQuery(st: Indexer, a: string)
    requires Term(a) && GetPosting(st, a) != []
    ensures SolveQuery(st, Join([a, "AND", "OR", a])) == Err(Incomparable)
  {
    SolveJoined(st, [a, "AND", "OR", a]);
    GroupAndOr(a);
    var pa := GetPosting(st, a);
    ItemsAt(st, [Phrase(a, []), Connective(And), Connective(Or), Phrase(a, [])]);
    assert Items(st, [Phrase(a, []), Connective(And), Connective(Or), Phrase(a, [])])
        == [Operand(pa), Marker(And), Marker(Or), Operand(pa)];
    ReduceDoubleOperator(pa, |st.articles|);
  }

  lemma ReduceDoubleOperator(pa: seq<nat>, n: nat)
    requires pa != []
    ensures Reduce([Operand(pa), Marker(And), Marker(Or), Operand(pa)], n, 0, Ids([])) == Err(Incomparable)
  {
    var items := [Operand(pa), Marker(And), Marker(Or), Operand(pa)];
    assert Next(items, n, 1) == Ok((Chars(Codes("OR")), 3));
  }

  lemma GroupAndOr(a: string)
    requires Term(a)
    ensures Group([a, "AND", "OR", a]) == [Phrase(a, []), Connective(And), Connective(Or), Phrase(a, [])]
  {
    assert OpOf("AND") == Some(And) && OpOf("OR") == Some(Or);
    GroupTerm([a]);
    assert [a][1..] == [];
    GroupOp(["OR", a]);
    assert ["OR", a][1..] == [a];
    GroupOp(["AND", "OR", a]);
    assert ["AND", "OR", a][1..] == ["OR", a];
    GroupTerm([a, "AND", "OR", a]);
    assert [a, "AND", "OR", a][1..] == ["AND", "OR", a];
  }

  /** `OR` on the empty accumulator with an operator name in the operand's
      place leaves the name's characters in `solve`; the next operand then
      replaces them. */
  lemma LeadingOrOperatorQuery(st: Indexer, a: string)
    requires Term(a)
    ensures SolveQuery(st, Join(["OR", "AND", a])) == Ok(GetPosting(st, a))
  {
    SolveJoined(st, ["OR", "AND", a]);
    GroupLeadingOr(a);
    var items := [Marker(Or), Marker(And), Operand(GetPosting(st, a))];
    ItemsAt(st, [Connective(Or), Connective(And), Phrase(a, [])]);
    assert Items(st, [Connective(Or), Connective(And), Phrase(a, [])]) == items;
    ReduceLeadingOr(GetPosting(st, a), |st.articles|);
  }

  lemma GroupLeadingOr(a: string)
    requires Term(a)
    ensures Group(["OR", "AND", a]) == [Connective(Or), Connective(And), Phrase(a, [])]
  {
    assert OpOf("AND") == Some(And) && OpOf("OR") == Some(Or);
    GroupTerm([a]);
    assert [a][1..] == [];
    GroupOp(["AND", a]);
    assert ["AND", a][1..] == [a];
    GroupOp(["OR", "AND", a]);
    assert ["OR", "AND", a][1..] == ["AND", a];
  }

  lemma ReduceLeadingOr(pa: seq<nat>, n: nat)
    ensures Reduce([Marker(Or), Marker(And), Operand(pa)], n, 0, Ids([])) == Ok(pa)
  {
    var items := [Marker(Or), Marker(And), Operand(pa)];
    var c := Codes("AND");
    assert Next(items, n, 0) == Ok((Chars(c), 2));
    assert Merge(Or, Ids([]), Chars(c)) == Ok(Chars(c));
    assert Reduce(items, n, 2, Chars(c)) == Reduce(items, n, 3, Ids(pa));
  }

  /** With no operand after them, the characters are the answer:
      `OR AND` returns the list `['A', 'N', 'D']`. */
  lemma OperatorsOnlyQuery(st: Indexer)
    ensures SolveQuery(st, Join(["OR", "AND"])) == Err(CharacterList(Codes("AND")))
  {
    SolveJoined(st, ["OR", "AND"]);
    GroupOperators();
    ItemsAt(st, [Connective(Or), Connective(And)]);
    assert Items(st, [Connective(Or), Connective(And)]) == [Marker(Or), Marker(And)];
    ReduceOperators(|st.articles|);
  }

  lemma GroupOperators()
    ensures Group(["OR", "AND"]) == [Connective(Or), Connective(And)]
  {
    assert OpOf("AND") == Some(And) && OpOf("OR") == Some(Or);
    GroupOp(["AND"]);
    assert ["AND"][1..] == [];
    GroupOp(["OR", "AND"]);
    assert ["OR", "AND"][1..] == ["AND"];
  }

  lemma ReduceOperators(n: nat)
    ensures Reduce([Marker(Or), Marker(And)], n, 0, Ids([])) == Err(CharacterList(Codes("AND")))
  {
    var items := [Marker(Or), Marker(And)];
    var c := Codes("AND");
    assert Next(items, n, 0) == Ok((Chars(c), 2));
    assert Merge(Or, Ids([]), Chars(c)) == Ok(Chars(c));
  }

  /** Two character lists are merged by code point like two postings:
      `OR AND OR OR` merges `['A', 'N', 'D']` with `['O', 'R']`. */
  lemma ReduceCharacterMerge(n: nat)
    ensures Reduce([Marker(Or), Marker(And), Marker(Or), Marker(Or)], n, 0, Ids([]))
            == Err(CharacterList(Codes("ANDOR")))
  {
    var items := [Marker(Or), Marker(And), Marker(Or), Marker(Or)];
    var c, d := Codes("AND"), Codes("OR");
    assert Next(items, n, 0) == Ok((Chars(c), 2));
    assert Merge(Or, Ids([]), Chars(c)) == Ok(Chars(c));
    assert Next(items, n, 2) == Ok((Chars(d), 4));
    assert c == [65, 78, 68] && d == [79, 82];
    assert Union(c, d) == [65, 78, 68, 79, 82] == Codes("ANDOR");
  }

  /** The empty query has the empty answer. */
  lemma EmptyQuery(st: Indexer)
    ensures SolveQuery(st, "") == Ok([])
  {
  }

  /** A single term asks for its posting list. */
  lemma TermQuery(st: Indexer, a: string)
    requires Term(a)
    ensures SolveQuery(st, a) == Ok(GetPosting(st, a))
  {
    assert Join([a]) == a;
    SolveJoined(st, [a]);
    GroupTerm([a]);
    assert [a][1..] == [];
    ItemsAt(st, [Phrase(a, [])]);
    assert Items(st, [Phrase(a, [])]) == [Operand(GetPosting(st, a))];
  }

  // ---------------------------------------------------------------------
  // Small corpora, from file to answer

  /** Two articles mentioning `gato`, one of them capitalised: the query
      `gato` finds both, and re-reading any file that carries only these
      two URLs leaves the answer as it was. */
  lemma GatoCorpus()
    ensures var r := IndexFile(Empty, Ascii, "f", [Article("u0", "Gato"), Article("u1", "gato")]);
            && SolveQuery(r, "gato") == Ok([0, 1])
            && forall more: seq<Article> ::
                 (forall i :: 0 <= i < |more| ==> more[i].url == "u0" || more[i].url == "u1") ==>
                 SolveQuery(IndexFile(r, Ascii, "g", more), "gato") == Ok([0, 1])
  {
    var l0, l1 := Article("u0", "Gato"), Article("u1", "gato");
    TwoLineFile(Ascii, "f", l0, l1);
    GatoTexts();
    GatoIndex(IndexFile(Empty, Ascii, "f", [l0, l1]));
  }

  lemma GatoIndex(r: Indexer)
    requires Reflects(r, [["gato"], ["gato"]]) && r.urls == {"u0", "u1"}
    ensures SolveQuery(r, "gato") == Ok([0, 1])
    ensures forall more: seq<Article> ::
              (forall i :: 0 <= i < |more| ==> more[i].url == "u0" || more[i].url == "u1") ==>
              SolveQuery(IndexFile(r, Ascii, "g", more), "gato") == Ok([0, 1])
  {
    EverywhereQuery(r, [["gato"], ["gato"]], "gato");
    forall more: seq<Article> | forall i :: 0 <= i < |more| ==> more[i].url == "u0" || more[i].url == "u1"
      ensures SolveQuery(IndexFile(r, Ascii, "g", more), "gato") == Ok([0, 1])
    {
      RereadTermQuery(r, Ascii, "g", more, "gato");
    }
  }

  lemma GatoTexts()
    ensures Tokenize(Ascii, "Gato") == ["gato"] && Tokenize(Ascii, "gato") == ["gato"]
  {
    assert Lower(Ascii, "Gato") == "gato";
    AsciiToken("Gato", "gato");
    AsciiToken("gato", "gato");
  }

  /** Re-reading a file whose URLs are all known leaves the answer to a
      one-word query as it was. */
  lemma RereadTermQuery(st: Indexer, a: Alphabet, filename: string, lines: seq<Article>, t: string)
    requires forall i :: 0 <= i < |lines| ==> lines[i].url in st.urls
    requires Term(t)
    ensures SolveQuery(IndexFile(st, a, filename, lines), t) == SolveQuery(st, t)
  {
    var r := IndexFile(st, a, filename, lines);
    ReindexSeen(st, a, filename, lines);
    TermQuery(st, t);
    TermQuery(r, t);
    assert GetPosting(r, t) == GetPosting(st, t);
  }

  /** A term occurring in both of two articles is answered with both. */
  lemma EverywhereQuery(r: Indexer, texts: seq<seq<string>>, w: string)
    requires Term(w) && Reflects(r, texts) && |texts| == 2
    requires w in texts[0] && w in texts[1]
    ensures SolveQuery(r, w) == Ok([0, 1])
  {
    EverywherePosting(r, texts, w);
    TermQuery(r, w);
  }

  lemma EverywherePosting(r: Indexer, texts: seq<seq<string>>, w: string)
    requires Reflects(r, texts) && |texts| == 2
    requires w in texts[0] && w in texts[1]
    ensures GetPosting(r, w) == [0, 1]
  {
    var p := GetPosting(r, w);
    GetPostingExact(r, texts, w);
    forall x: nat ensures x in p <==> x < 2 {
      if x < 2 {
        assert x == 0 || x == 1;
      }
    }
    ReflectsValid(r, texts);
    BothArticles(p);
  }

  lemma BothArticles(p: seq<nat>)
    requires Increasing(p) && forall x: nat :: x in p <==> x < 2
    ensures p == [0, 1]
  {
    IncreasingUnique(p, [0, 1]);
  }

  /** `"casa verde"` as a phrase matches the article where the two words
      are adjacent in that order, and not the one where they are swapped. */
  lemma CasaVerdeCorpus()
    ensures var lines := [Article("u0", "casa verde"), Article("u1", "verde casa")];
            SolveQuery(IndexFile(Empty, Ascii, "f", lines), "\"casa verde\"") == Ok([0])
  {
    var l0, l1 := Article("u0", "casa verde"), Article("u1", "verde casa");
    TwoLineFile(Ascii, "f", l0, l1);
    CasaVerdeTexts();
    CasaVerdeAnswer(IndexFile(Empty, Ascii, "f", [l0, l1]));
  }

  lemma CasaVerdeAnswer(r: Indexer)
    requires Reflects(r, [["casa", "verde"], ["verde", "casa"]])
    ensures SolveQuery(r, "\"casa verde\"") == Ok([0])
  {
    PhraseQuery(r, "casa", "verde");
    CasaVerdeQuoted();
    CasaVerdeMatches(r);
  }

  lemma CasaVerdeQuoted()
    ensures "\"" + Join(["casa", "verde"]) + "\"" == "\"casa verde\""
  {
    assert Join(["casa", "verde"]) == "casa" + " " + "verde";
  }

  lemma CasaVerdeTexts()
    ensures Tokenize(Ascii, "casa verde") == ["casa", "verde"]
    ensures Tokenize(Ascii, "verde casa") == ["verde", "casa"]
  {
    assert "casa" + " " + "verde" == "casa verde";
    assert "verde" + " " + "casa" == "verde casa";
    TokenizeTwoWords("casa", "verde");
    TokenizeTwoWords("verde", "casa");
  }

  lemma CasaVerdeMatches(r: Indexer)
    requires Reflects(r, [["casa", "verde"], ["verde", "casa"]])
    ensures GetPositionals(r, ["casa", "verde"]) == [0]
  {
    var terms := ["casa", "verde"];
    var texts := [terms, ["verde", "casa"]];
    PositionalsPhrase(r, texts, terms);
    CasaVerdePhrases();
    assert forall x: nat :: x in GetPositionals(r, terms) <==> x == 0;
    ReflectsValid(r, texts);
    IncreasingUnique(GetPositionals(r, terms), [0]);
  }

  lemma CasaVerdePhrases()
    ensures PhraseIn(["casa", "verde"], ["casa", "verde"])
    ensures !PhraseIn(["verde", "casa"], ["casa", "verde"])
  {
    var terms := ["casa", "verde"];
    assert RunAt(terms, terms, 0);
    forall q: nat ensures !RunAt(["verde", "casa"], terms, q) {
      if q == 0 {
        assert ["verde", "casa"][0..2][0] == "verde";
      }
    }
  }

  /** `a AND NOT b` over three articles, where `a` is posted for all three
      and `b` for article 1 only, is answered with articles 0 and 2. */
  lemma AndNotExample(st: Indexer)
    requires |st.articles| == 3 && GetPosting(st, "a") == [0, 1, 2] && GetPosting(st, "b") == [1]
    ensures SolveQuery(st, "a AND NOT b") == Ok([0, 2])
  {
    AndNotQuery(st, "a", "b");
    AndNotText();
    AndNotAnswer();
  }

  lemma AndNotText()
    ensures Join(["a", "AND", "NOT", "b"]) == "a AND NOT b"
  {
    assert Join(["NOT", "b"]) == "NOT b";
    assert Join(["AND", "NOT", "b"]) == "AND NOT b";
  }

  lemma AndNotAnswer()
    ensures Intersect([0, 1, 2], Complement([1], 3)) == [0, 2]
  {
    assert Complement([1], 3) == [0, 2] by {
      assert Complement([1], 0) == [];
      assert Complement([1], 1) == [0];
      assert Complement([1], 2) == [0];
    }
  }
}
