/** The tokenizer of the indexer: lower-case the text, replace every maximal
    run of non-word characters (the regular-expression class `\W+`) by one
    space, and split the result on whitespace (Python's `str.split()` with no
    separator).

    What counts as a word character and how a character is lower-cased are
    Unicode tables this model does not reproduce; they are parameters, bundled
    in an `Alphabet`. Whitespace, which `str.split()` splits on, is the fixed
    set of characters Python's `str.isspace` accepts. */
module Tokenizer {
  import opened Seqs

  /** The character classification the tokenizer relies on: `isWord` plays
      the part of `\w` (so `\W` is its negation) and `lower` the part of
      `str.lower()`, one character at a time. */
  datatype Alphabet = Alphabet(isWord: char -> bool, lower: char -> char)

  /** The characters Python's `str.isspace` accepts, which `str.split()`
      treats as separators. */
  predicate IsSpace(c: char) {
    || ('\U{9}' <= c <= '\U{D}')    // tab, line feed, vertical tab, form feed, carriage return
    || ('\U{1C}' <= c <= '\U{1F}')  // file, group, record and unit separators
    || c == ' ' || c == '\U{85}' || c == '\U{A0}' || c == '\U{1680}'
    || ('\U{2000}' <= c <= '\U{200A}')
    || c == '\U{2028}' || c == '\U{2029}' || c == '\U{202F}' || c == '\U{205F}' || c == '\U{3000}'
  }

  /** As with Python's tables: no whitespace character is a word character. */
  ghost predicate WellFormed(a: Alphabet) {
    forall c :: IsSpace(c) ==> !a.isWord(c)
  }

  /** No character of `w` is whitespace. */
  predicate NoSpace(w: string) {
    forall k :: 0 <= k < |w| ==> !IsSpace(w[k])
  }

  /** Every character of `w` is a word character. */
  predicate AllWord(a: Alphabet, w: string) {
    forall k :: 0 <= k < |w| ==> a.isWord(w[k])
  }

  /** `text.lower()`, character by character. */
  function Lower(a: Alphabet, s: string): (r: string)
    ensures |r| == |s|
    ensures forall k :: 0 <= k < |s| ==> r[k] == a.lower(s[k])
  {
    if s == [] then [] else [a.lower(s[0])] + Lower(a, s[1..])
  }

  /** Length of the maximal run of non-word characters at the front of `s`:
      the extent of a greedy `\W+` match there. */
  function NonWordRun(a: Alphabet, s: string): (n: nat)
    ensures n <= |s|
    ensures forall k :: 0 <= k < n ==> !a.isWord(s[k])
    ensures n < |s| ==> a.isWord(s[n])
  {
    if s == [] || a.isWord(s[0]) then 0 else 1 + NonWordRun(a, s[1..])
  }

  /** `re.sub(r"\W+", " ", s)`: scanning left to right, every maximal run of
      non-word characters becomes a single space. */
  function SubNonWord(a: Alphabet, s: string): (r: string)
    ensures forall k :: 0 <= k < |r| ==> r[k] == ' ' || (a.isWord(r[k]) && r[k] in s)
    decreases |s|
  {
    if s == [] then []
    else if a.isWord(s[0]) then [s[0]] + SubNonWord(a, s[1..])
    else
      var n := NonWordRun(a, s);
      [' '] + SubNonWord(a, s[n..])
  }

  /** Length of the maximal run of non-whitespace characters at the front. */
  function WordLength(s: string): (n: nat)
    ensures n <= |s|
    ensures forall k :: 0 <= k < n ==> !IsSpace(s[k])
    ensures n < |s| ==> IsSpace(s[n])
  {
    if s == [] || IsSpace(s[0]) then 0 else 1 + WordLength(s[1..])
  }

  /** `s.split()`: the maximal runs of non-whitespace characters, left to
      right; whitespace runs of any length, leading or trailing, produce no
      empty pieces. */
  function Split(s: string): seq<string>
    decreases |s|
  {
    if s == [] then []
    else if IsSpace(s[0]) then Split(s[1..])
    else
      var n := WordLength(s);
      [s[..n]] + Split(s[n..])
  }

  /** Every piece of `s.split()` is a nonempty run of characters of `s`
      without whitespace. */
  lemma {:induction false} SplitPieces(s: string)
    ensures forall i :: 0 <= i < |Split(s)| ==> |Split(s)[i]| > 0 && NoSpace(Split(s)[i])
    ensures forall i, k :: 0 <= i < |Split(s)| && 0 <= k < |Split(s)[i]| ==> Split(s)[i][k] in s
    decreases |s|
  {
    if s == [] {
    } else if IsSpace(s[0]) {
      SplitPieces(s[1..]);
      assert forall c :: c in s[1..] ==> c in s;
    } else {
      var n := WordLength(s);
      SplitPieces(s[n..]);
      assert forall c :: c in s[n..] ==> c in s;
      assert forall c :: c in s[..n] ==> c in s;
      assert Split(s) == [s[..n]] + Split(s[n..]);
    }
  }

  /** `tokenize`: lower-case, blank out the non-word runs, split. */
  function Tokenize(a: Alphabet, text: string): (r: seq<string>)
    ensures forall i :: 0 <= i < |r| ==> |r[i]| > 0 && AllWord(a, r[i])
    ensures forall i, k :: 0 <= i < |r| && 0 <= k < |r[i]| ==> r[i][k] in Lower(a, text)
  {
    var sub := SubNonWord(a, Lower(a, text));
    var r := Split(sub);
    SplitPieces(sub);
    assert forall i, k :: 0 <= i < |r| && 0 <= k < |r[i]| ==> r[i][k] in sub && !IsSpace(r[i][k]);
    r
  }

  // ---------------------------------------------------------------------
  // Split is determined by three facts: nothing from the empty string, one
  // piece from a run without whitespace, and a whitespace character cuts.

  lemma SplitWord(w: string)
    requires |w| > 0 && NoSpace(w)
    ensures Split(w) == [w]
  {
    var n := WordLength(w);
    assert !IsSpace(w[0]);
    assert w[n..] == [] && w[..n] == w;
    assert Split(w[n..]) == [];
  }

  lemma SplitAtSpace(x: string, sp: char, y: string)
    requires IsSpace(sp)
    ensures Split(x + [sp] + y) == Split(x) + Split(y)
  {
    assert x + [sp] + y == x + ([sp] + y);
    assert ([sp] + y)[1..] == y;
    SplitCut(x, [sp] + y);
  }

  /** A whitespace character ends whatever piece precedes it. */
  lemma {:induction false} SplitCut(x: string, z: string)
    requires z != [] && IsSpace(z[0])
    ensures Split(x + z) == Split(x) + Split(z[1..])
    decreases |x|
  {
    if x == [] {
      assert x + z == z;
    } else if IsSpace(x[0]) {
      SplitCut(x[1..], z);
      SplitSkipsSpace(x, z);
    } else {
      SplitCut(x[WordLength(x)..], z);
      SplitWordCut(x, z);
    }
  }

  /** The step of the lemma above at a leading word of `x`, given the claim
      for what follows that word. */
  lemma SplitWordCut(x: string, z: string)
    requires x != [] && !IsSpace(x[0]) && z != [] && IsSpace(z[0])
    requires Split(x[WordLength(x)..] + z) == Split(x[WordLength(x)..]) + Split(z[1..])
    ensures Split(x + z) == Split(x) + Split(z[1..])
  {
    var n := WordLength(x);
    WordLengthPrefix(x, z);
    SplitWordThen(x, z, n);
    SplitFront(x, n);
    ConsAssoc(x[..n], Split(x[n..]), Split(z[1..]));
  }

  /** A leading space of `x` is skipped in `x + z` as in `x`. */
  lemma SplitSkipsSpace(x: string, z: string)
    requires x != [] && IsSpace(x[0]) && z != []
    requires Split(x[1..] + z) == Split(x[1..]) + Split(z[1..])
    ensures Split(x + z) == Split(x) + Split(z[1..])
  {
    TailConcat(x, z);
  }

  /** The leading word of `x` stays the leading word when `x` is extended by
      a string that starts with a space. */
  lemma SplitWordThen(x: string, z: string, n: nat)
    requires x != [] && !IsSpace(x[0])
    requires n == WordLength(x) && WordLength(x + z) == n
    ensures Split(x + z) == [x[..n]] + Split(x[n..] + z)
  {
    SliceConcat(x, z, n);
    SplitFront(x + z, n);
  }

  /** A string that starts with a word splits into that word and the rest. */
  lemma SplitFront(s: string, n: nat)
    requires s != [] && !IsSpace(s[0]) && n == WordLength(s)
    ensures Split(s) == [s[..n]] + Split(s[n..])
  {
  }

  /** A whitespace-stopped run in `x` is not extended by what follows `x`. */
  lemma {:induction false} WordLengthPrefix(x: string, z: string)
    requires z != [] && IsSpace(z[0])
    ensures WordLength(x + z) == WordLength(x)
    decreases |x|
  {
    if x == [] {
      assert x + z == z;
    } else if !IsSpace(x[0]) {
      assert (x + z)[1..] == x[1..] + z;
      WordLengthPrefix(x[1..], z);
    }
  }

  // ---------------------------------------------------------------------
  // Collapsing a non-word run into one space does not change what split
  // produces, so the tokenizer can be read as "blank every non-word
  // character, then split".

  /** Every non-word character replaced by a space. */
  function Blank(a: Alphabet, s: string): (r: string)
    ensures |r| == |s|
    ensures forall k :: 0 <= k < |s| ==> r[k] == if a.isWord(s[k]) then s[k] else ' '
  {
    if s == [] then [] else [if a.isWord(s[0]) then s[0] else ' '] + Blank(a, s[1..])
  }

  lemma {:induction false} SubNonWordWordPrefix(a: Alphabet, x: string, z: string)
    requires AllWord(a, x)
    ensures SubNonWord(a, x + z) == x + SubNonWord(a, z)
    decreases |x|
  {
    if x != [] {
      assert (x + z)[0] == x[0];
      assert (x + z)[1..] == x[1..] + z;
      SubNonWordWordPrefix(a, x[1..], z);
    } else {
      assert x + z == z;
    }
  }

  lemma {:induction false} SplitLeadingSpaces(n: nat, z: string)
    ensures Split(seq(n, _ => ' ') + z) == Split(z)
  {
    if n > 0 {
      var sp := seq(n, _ => ' ');
      assert sp + z == [] + [' '] + (seq(n - 1, _ => ' ') + z);
      SplitAtSpace([], ' ', seq(n - 1, _ => ' ') + z);
      SplitLeadingSpaces(n - 1, z);
    } else {
      assert seq(n, _ => ' ') + z == z;
    }
  }

  lemma {:induction false} BlankConcat(a: Alphabet, x: string, y: string)
    ensures Blank(a, x + y) == Blank(a, x) + Blank(a, y)
  {
    assert forall k :: 0 <= k < |x + y| ==> (x + y)[k] == if k < |x| then x[k] else y[k - |x|];
  }

  /** Blanking the characters after a leading non-word run. */
  lemma BlankAfterRun(a: Alphabet, s: string)
    requires s != [] && !a.isWord(s[0])
    ensures Blank(a, s[1..]) == seq(NonWordRun(a, s) - 1, _ => ' ') + Blank(a, s[NonWordRun(a, s)..])
  {
    var n := NonWordRun(a, s);
    SliceSplit(s, 1, n);
    BlankConcat(a, s[1..n], s[n..]);
    BlankNonWord(a, s[1..n]);
  }

  /** A run of non-word characters blanks to as many spaces. */
  lemma BlankNonWord(a: Alphabet, r: string)
    requires forall k :: 0 <= k < |r| ==> !a.isWord(r[k])
    ensures Blank(a, r) == seq(|r|, _ => ' ')
  {
  }

  lemma {:induction false} SubNonWordSplitsLikeBlankAfter(a: Alphabet, p: string, s: string)
    ensures Split(p + SubNonWord(a, s)) == Split(p + Blank(a, s))
    decreases |s|
  {
    if s == [] {
    } else if a.isWord(s[0]) {
      SubNonWordSplitsLikeBlankAfter(a, p + [s[0]], s[1..]);
      WordStep(a, p, s);
    } else {
      var n := NonWordRun(a, s);
      SubNonWordSplitsLikeBlankAfter(a, [], s[n..]);
      NonWordStep(a, p, s);
    }
  }

  /** The step of the lemma above at a word character, given the claim for
      what follows it. */
  lemma WordStep(a: Alphabet, p: string, s: string)
    requires s != [] && a.isWord(s[0])
    requires Split((p + [s[0]]) + SubNonWord(a, s[1..])) == Split((p + [s[0]]) + Blank(a, s[1..]))
    ensures Split(p + SubNonWord(a, s)) == Split(p + Blank(a, s))
  {
    assert SubNonWord(a, s) == [s[0]] + SubNonWord(a, s[1..]);
    assert Blank(a, s) == [s[0]] + Blank(a, s[1..]);
    Shift(p, s[0], SubNonWord(a, s[1..]));
    Shift(p, s[0], Blank(a, s[1..]));
  }

  /** The step of the lemma above at a non-word run, given the claim for
      what follows the run. */
  lemma NonWordStep(a: Alphabet, p: string, s: string)
    requires s != [] && !a.isWord(s[0])
    requires Split([] + SubNonWord(a, s[NonWordRun(a, s)..])) == Split([] + Blank(a, s[NonWordRun(a, s)..]))
    ensures Split(p + SubNonWord(a, s)) == Split(p + Blank(a, s))
  {
    var z := s[NonWordRun(a, s)..];
    assert [] + SubNonWord(a, z) == SubNonWord(a, z) && [] + Blank(a, z) == Blank(a, z);
    SubCutsAtRun(a, p, s);
    BlankCutsAtRun(a, p, s);
  }

  lemma SubCutsAtRun(a: Alphabet, p: string, s: string)
    requires s != [] && !a.isWord(s[0])
    ensures Split(p + SubNonWord(a, s)) == Split(p) + Split(SubNonWord(a, s[NonWordRun(a, s)..]))
  {
    var subZ := SubNonWord(a, s[NonWordRun(a, s)..]);
    assert p + SubNonWord(a, s) == p + [' '] + subZ;
    SplitAtSpace(p, ' ', subZ);
  }

  lemma BlankCutsAtRun(a: Alphabet, p: string, s: string)
    requires s != [] && !a.isWord(s[0])
    ensures Split(p + Blank(a, s)) == Split(p) + Split(Blank(a, s[NonWordRun(a, s)..]))
  {
    var n := NonWordRun(a, s);
    var blankZ, blankTail := Blank(a, s[n..]), Blank(a, s[1..]);
    BlankAfterRun(a, s);
    SplitLeadingSpaces(n - 1, blankZ);
    assert p + Blank(a, s) == p + [' '] + blankTail;
    SplitAtSpace(p, ' ', blankTail);
  }

  lemma SubNonWordSplitsLikeBlank(a: Alphabet, s: string)
    ensures Split(SubNonWord(a, s)) == Split(Blank(a, s))
  {
    SubNonWordSplitsLikeBlankAfter(a, [], s);
    assert [] + SubNonWord(a, s) == SubNonWord(a, s);
    assert [] + Blank(a, s) == Blank(a, s);
  }

  lemma {:induction false} LowerConcat(a: Alphabet, x: string, y: string)
    ensures Lower(a, x + y) == Lower(a, x) + Lower(a, y)
    decreases |x|
  {
    if x == [] {
      assert x + y == y;
    } else {
      TailConcat(x, y);
      LowerConcat(a, x[1..], y);
      ConsAssoc(a.lower(x[0]), Lower(a, x[1..]), Lower(a, y));
    }
  }

  // ---------------------------------------------------------------------
  // The tokenizer is determined by the same three facts.

  /** Empty text yields no tokens. */
  lemma TokenizeEmpty(a: Alphabet)
    ensures Tokenize(a, []) == []
  {
  }

  /** Text made only of characters whose lower case is a word character is
      one token: the lower-cased text. */
  lemma TokenizeWord(a: Alphabet, w: string)
    requires WellFormed(a)
    requires |w| > 0 && AllWord(a, Lower(a, w))
    ensures Tokenize(a, w) == [Lower(a, w)]
  {
    var lw := Lower(a, w);
    SubNonWordWordPrefix(a, lw, []);
    assert lw + [] == lw;
    assert NoSpace(lw) by {
      forall k | 0 <= k < |lw|
        ensures !IsSpace(lw[k])
      {
        assert a.isWord(lw[k]);
      }
    }
    SplitWord(lw);
  }

  /** A character whose lower case is not a word character separates: the
      tokens on either side are produced independently, left before right. */
  lemma TokenizeAtSeparator(a: Alphabet, x: string, c: char, y: string)
    requires !a.isWord(a.lower(c))
    ensures Tokenize(a, x + [c] + y) == Tokenize(a, x) + Tokenize(a, y)
  {
    var lx, ly := Lower(a, x), Lower(a, y);
    LowerConcat(a, x + [c], y);
    LowerConcat(a, x, [c]);
    assert Lower(a, [c]) == [a.lower(c)];
    SubNonWordSplitsLikeBlank(a, lx + [a.lower(c)] + ly);
    SubNonWordSplitsLikeBlank(a, lx);
    SubNonWordSplitsLikeBlank(a, ly);
    BlankConcat(a, lx + [a.lower(c)], ly);
    BlankConcat(a, lx, [a.lower(c)]);
    assert Blank(a, [a.lower(c)]) == [' '];
    SplitAtSpace(Blank(a, lx), ' ', Blank(a, ly));
  }

  // ---------------------------------------------------------------------
  // The ASCII part of the tables

  /** Python's `\w` on ASCII: letters, digits and the underscore. */
  predicate AsciiWord(c: char) {
    ('a' <= c <= 'z') || ('A' <= c <= 'Z') || ('0' <= c <= '9') || c == '_'
  }

  /** Python's `str.lower()` on ASCII: `A`-`Z` become `a`-`z`. */
  function AsciiLower(c: char): char {
    if 'A' <= c <= 'Z' then (c as int + 32) as char else c
  }

  /** The alphabet of a corpus written in ASCII. */
  const Ascii: Alphabet := Alphabet(AsciiWord, AsciiLower)

  lemma AsciiWellFormed()
    ensures WellFormed(Ascii)
  {
  }

  /** `"Hola, Mundo!! 2024"` yields `hola`, `mundo`, `2024`, in that order. */
  lemma TokenizeHola()
    ensures Tokenize(Ascii, "Hola, Mundo!! 2024") == ["hola", "mundo", "2024"]
  {
    assert "Hola, Mundo!! 2024" == "Hola" + ", " + "Mundo" + "!! " + "2024";
    AsciiSeparators("Hola", "Mundo", "2024");
    TokenHola();
    TokenMundo();
    Token2024();
  }

  /** Each word of the example on its own is one token, lower-cased. */
  lemma TokenHola()
    ensures Tokenize(Ascii, "Hola") == ["hola"]
  {
    assert Lower(Ascii, "Hola") == "hola";
    AsciiToken("Hola", "hola");
  }

  lemma TokenMundo()
    ensures Tokenize(Ascii, "Mundo") == ["mundo"]
  {
    assert Lower(Ascii, "Mundo") == "mundo";
    AsciiToken("Mundo", "mundo");
  }

  lemma Token2024()
    ensures Tokenize(Ascii, "2024") == ["2024"]
  {
    assert Lower(Ascii, "2024") == "2024";
    AsciiToken("2024", "2024");
  }

  /** The separators of the example: `", "`, `"!! "`. */
  lemma AsciiSeparators(x: string, y: string, z: string)
    ensures Tokenize(Ascii, x + ", " + y + "!! " + z)
            == Tokenize(Ascii, x) + Tokenize(Ascii, y) + Tokenize(Ascii, z)
  {
    assert x + ", " + y + "!! " + z == x + ", " + (y + "!! " + z);
    AsciiComma(x, y + "!! " + z);
    AsciiBangs(y, z);
  }

  lemma AsciiComma(x: string, w: string)
    ensures Tokenize(Ascii, x + ", " + w) == Tokenize(Ascii, x) + Tokenize(Ascii, w)
  {
    var e: string := [];
    var v := e + [' '] + w;
    PairAsTwo(x, ',', ' ', w);
    AsciiCut(x, ',', v);
    AsciiSpace(v, w);
  }

  lemma AsciiSpace(s: string, w: string)
    requires s == [] + [' '] + w
    ensures Tokenize(Ascii, s) == Tokenize(Ascii, w)
  {
    TokenizeEmpty(Ascii);
    AsciiCut([], ' ', w);
  }

  lemma AsciiBangs(y: string, z: string)
    ensures Tokenize(Ascii, y + "!! " + z) == Tokenize(Ascii, y) + Tokenize(Ascii, z)
  {
    var e: string := [];
    var w := e + ['!', ' '] + z;
    TripleAsTwo(y, '!', '!', ' ', z);
    AsciiCut(y, '!', w);
    AsciiBang(w, z);
  }

  lemma AsciiBang(s: string, z: string)
    requires s == [] + ['!', ' '] + z
    ensures Tokenize(Ascii, s) == Tokenize(Ascii, z)
  {
    TokenizeEmpty(Ascii);
    var e: string := [];
    PairAsTwo(e, '!', ' ', z);
    AsciiCut(e, '!', e + [' '] + z);
    AsciiCut(e, ' ', z);
  }

  /** A character that is not an ASCII word character, in either case,
      separates. */
  lemma AsciiCut(x: string, c: char, y: string)
    requires !AsciiWord(AsciiLower(c))
    ensures Tokenize(Ascii, x + [c] + y) == Tokenize(Ascii, x) + Tokenize(Ascii, y)
  {
    TokenizeAtSeparator(Ascii, x, c, y);
  }

  /** Two lower-case ASCII words separated by a space are two tokens. */
  lemma TokenizeTwoWords(x: string, y: string)
    requires |x| > 0 && Lower(Ascii, x) == x && AllWord(Ascii, x)
    requires |y| > 0 && Lower(Ascii, y) == y && AllWord(Ascii, y)
    ensures Tokenize(Ascii, x + " " + y) == [x, y]
  {
    assert x + " " + y == x + [' '] + y;
    AsciiCut(x, ' ', y);
    AsciiToken(x, x);
    AsciiToken(y, y);
  }

  /** A word of ASCII letters and digits is one token, lower-cased. */
  lemma AsciiToken(w: string, lw: string)
    requires |w| > 0 && Lower(Ascii, w) == lw && AllWord(Ascii, lw)
    ensures Tokenize(Ascii, w) == [lw]
  {
    AsciiWellFormed();
    TokenizeWord(Ascii, w);
  }
}
