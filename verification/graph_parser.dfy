/**
 * Reading a graph from the text of a weight file: split into whitespace
 * separated tokens, find the number after `DIMENSION:` and the position after
 * `EDGE_WEIGHT_SECTION`, and read the weights row by row from there.
 */
module GraphParser {
  import opened Options
  import opened Graph

  // ---------------------------------------------------------------- tokens

  /** `char::is_whitespace`: the characters with the Unicode White_Space property. */
  predicate IsWhitespace(c: char) {
    var u := c as int;
    || 9 <= u <= 13 || u == 0x20 || u == 0x85 || u == 0xA0 || u == 0x1680
    || 0x2000 <= u <= 0x200A || u == 0x2028 || u == 0x2029 || u == 0x202F
    || u == 0x205F || u == 0x3000
  }

  /** A non-empty run of characters none of which is whitespace. */
  predicate IsToken(t: string) {
    |t| >= 1 && forall i :: 0 <= i < |t| ==> !IsWhitespace(t[i])
  }

  /** The length of the run of non-whitespace characters `s` starts with. */
  function WordLength(s: string): (k: nat)
    ensures k <= |s|
    ensures forall i :: 0 <= i < k ==> !IsWhitespace(s[i])
    ensures k < |s| ==> IsWhitespace(s[k])
  {
    if s == [] || IsWhitespace(s[0]) then 0
    else
      var k := 1 + WordLength(s[1..]);
      assert forall i :: 1 <= i < |s| ==> s[i] == s[1..][i - 1];
      k
  }

  /**
   * The program's `split(char::is_whitespace)` with the empty pieces
   * filtered out: the maximal whitespace-free runs, in order.
   */
  function Tokenize(s: string): (tokens: seq<string>)
    ensures forall k :: 0 <= k < |tokens| ==> IsToken(tokens[k])
    decreases |s|
  {
    if s == [] then []
    else if IsWhitespace(s[0]) then Tokenize(s[1..])
    else
      var w := WordLength(s);
      [s[..w]] + Tokenize(s[w..])
  }

  /** `s` with every whitespace character dropped. */
  function Squeeze(s: string): string {
    if s == [] then [] else (if IsWhitespace(s[0]) then [] else [s[0]]) + Squeeze(s[1..])
  }

  /** Concatenates the tokens. */
  function Concat(tokens: seq<string>): string {
    if tokens == [] then [] else tokens[0] + Concat(tokens[1..])
  }

  /** Writes each token followed by one space. */
  function Join(tokens: seq<string>): string {
    if tokens == [] then [] else tokens[0] + " " + Join(tokens[1..])
  }

  lemma {:induction false} SqueezeAppend(a: string, b: string)
    ensures Squeeze(a + b) == Squeeze(a) + Squeeze(b)
  {
    if a != [] {
      assert (a + b)[1..] == a[1..] + b;
      SqueezeAppend(a[1..], b);
    } else {
      assert a + b == b;
    }
  }

  lemma {:induction false} SqueezeOfWord(w: string)
    requires forall i :: 0 <= i < |w| ==> !IsWhitespace(w[i])
    ensures Squeeze(w) == w
  {
    if w != [] {
      SqueezeOfWord(w[1..]);
      assert w == [w[0]] + w[1..];
    }
  }

  /** Tokenizing loses no character but whitespace: the tokens spell out the squeezed text. */
  lemma {:induction false} TokensSpellText(s: string)
    ensures Concat(Tokenize(s)) == Squeeze(s)
    decreases |s|
  {
    if s != [] {
      if IsWhitespace(s[0]) {
        TokensSpellText(s[1..]);
      } else {
        var w := WordLength(s);
        TokensSpellText(s[w..]);
        assert s == s[..w] + s[w..];
        SqueezeAppend(s[..w], s[w..]);
        SqueezeOfWord(s[..w]);
        assert Tokenize(s)[1..] == Tokenize(s[w..]);
      }
    }
  }

  /** A token followed by a space is read back as that token. */
  lemma WordLengthOfToken(t: string, rest: string)
    requires IsToken(t)
    ensures WordLength(t + " " + rest) == |t|
  {
    var s := t + " " + rest;
    assert s[|t|] == ' ';
    assert forall i :: 0 <= i < |t| ==> s[i] == t[i];
  }

  /** Tokenizing undoes joining with spaces, so the token sequence is exactly what was written. */
  lemma {:induction false} TokenizeJoin(tokens: seq<string>)
    requires forall k :: 0 <= k < |tokens| ==> IsToken(tokens[k])
    ensures Tokenize(Join(tokens)) == tokens
  {
    if tokens != [] {
      var t := tokens[0];
      var rest := Join(tokens[1..]);
      var s := t + " " + rest;
      assert Join(tokens) == s;
      WordLengthOfToken(t, rest);
      assert s[..|t|] == t;
      assert s[|t|..] == " " + rest;
      assert (" " + rest)[1..] == rest;
      TokenizeJoin(tokens[1..]);
      assert tokens == [t] + tokens[1..];
    }
  }

  /** Only the run's own characters decide its length: any `k` with the boundary facts of `WordLength` is it. */
  lemma WordLengthUnique(s: string, k: nat)
    requires k <= |s|
    requires forall i :: 0 <= i < k ==> !IsWhitespace(s[i])
    requires k < |s| ==> IsWhitespace(s[k])
    ensures WordLength(s) == k
  {
  }

  /** A text that is a single token reads as exactly that token. */
  lemma TokenizeToken(t: string)
    requires IsToken(t)
    ensures Tokenize(t) == [t]
  {
    WordLengthUnique(t, |t|);
    assert t[..|t|] == t;
    assert t[|t|..] == [];
  }

  /**
   * Every whitespace character ends a token: the text on either side of it
   * is tokenized on its own. With `TokenizeToken` this pins `Tokenize` down
   * as splitting at each whitespace character and dropping the empty pieces.
   */
  lemma {:induction false} TokenizeSplitsAtWhitespace(a: string, c: char, b: string)
    requires IsWhitespace(c)
    ensures Tokenize(a + [c] + b) == Tokenize(a) + Tokenize(b)
    decreases |a|
  {
    var s := a + [c] + b;
    if a == [] {
      assert s[1..] == b;
    } else if IsWhitespace(a[0]) {
      assert s[1..] == a[1..] + [c] + b;
      TokenizeSplitsAtWhitespace(a[1..], c, b);
    } else {
      var w := WordLength(a);
      WordBeforeWhitespace(a, c, b);
      TokenizeSplitsAtWhitespace(a[w..], c, b);
    }
  }

  /** The first word of `a` ends no later than the whitespace character after `a`. */
  lemma WordBeforeWhitespace(a: string, c: char, b: string)
    requires IsWhitespace(c)
    ensures var w := WordLength(a);
      && WordLength(a + [c] + b) == w
      && (a + [c] + b)[..w] == a[..w]
      && (a + [c] + b)[w..] == a[w..] + [c] + b
  {
    var s := a + [c] + b;
    var w := WordLength(a);
    assert forall i :: 0 <= i < w ==> s[i] == a[i];
    assert s[w] == if w < |a| then a[w] else c;
    WordLengthUnique(s, w);
    assert s[..w] == a[..w];
    assert s[w..] == a[w..] + [c] + b;
  }

  // --------------------------------------------------------------- numbers

  predicate IsDigit(c: char) {
    '0' <= c <= '9'
  }

  predicate AllDigits(s: string) {
    forall i :: 0 <= i < |s| ==> IsDigit(s[i])
  }

  function DigitValue(c: char): nat
    requires IsDigit(c)
  {
    (c as int) - ('0' as int)
  }

  /** The decimal value of a digit string, most significant digit first. */
  function DigitsValue(s: string): (v: nat)
    requires AllDigits(s)
  {
    if s == [] then 0 else 10 * DigitsValue(s[..|s| - 1]) + DigitValue(s[|s| - 1])
  }

  /** `2^64`: the values of `usize` on a 64-bit target lie below it. */
  const UsizeLimit: int := 0x1_0000_0000_0000_0000

  /** `2^63`: the values of `isize` lie in `[-2^63, 2^63)`. */
  const IsizeLimit: int := 0x8000_0000_0000_0000

  /** The part of `t` after an optional leading `+`. */
  function Unsigned(t: string): string {
    if |t| >= 1 && t[0] == '+' then t[1..] else t
  }

  /**
   * `str::parse::<usize>`: an optional `+`, then at least one decimal digit,
   * worth less than `2^64`; anything else (a `-`, a stray character, an
   * empty string, an overflow) is an error, here `None`.
   */
  function ParseUsize(t: string): (r: Option<nat>)
    ensures r.Some? ==> r.value < UsizeLimit
    ensures r.Some? ==> |t| >= 1 && t[0] != '-'
  {
    var digits := Unsigned(t);
    if digits != [] && AllDigits(digits) && DigitsValue(digits) < UsizeLimit then Some(DigitsValue(digits)) else None
  }

  /**
   * `str::parse::<isize>`: an optional sign, then at least one decimal
   * digit, the value in `[-2^63, 2^63)`; anything else is `None`.
   */
  function ParseIsize(t: string): (r: Option<int>)
    ensures r.Some? ==> -IsizeLimit <= r.value < IsizeLimit
    ensures r.Some? && r.value < 0 ==> |t| >= 1 && t[0] == '-'
  {
    if |t| >= 1 && t[0] == '-' then
      var digits := t[1..];
      if digits != [] && AllDigits(digits) && DigitsValue(digits) <= IsizeLimit then Some(0 - DigitsValue(digits) as int) else None
    else
      var digits := Unsigned(t);
      if digits != [] && AllDigits(digits) && DigitsValue(digits) < IsizeLimit then Some(DigitsValue(digits)) else None
  }

  function DigitChar(d: nat): (c: char)
    requires d < 10
    ensures IsDigit(c) && DigitValue(c) == d
  {
    (('0' as int) + d) as char
  }

  /** The shortest decimal spelling of `v`. */
  function NatToString(v: nat): (s: string)
    ensures |s| >= 1 && AllDigits(s)
    ensures DigitsValue(s) == v
  {
    if v < 10 then
      [DigitChar(v)]
    else
      var s := NatToString(v / 10) + [DigitChar(v % 10)];
      assert s[..|s| - 1] == NatToString(v / 10);
      s
  }

  /** `v` in decimal, with a `-` in front when it is negative. */
  function IntToString(v: int): string {
    if v < 0 then "-" + NatToString(-v) else NatToString(v)
  }

  /** Every `usize` written in decimal parses back to itself. */
  lemma ParseUsizePrinted(v: nat)
    requires v < UsizeLimit
    ensures ParseUsize(NatToString(v)) == Some(v)
  {
    var s := NatToString(v);
    assert s[0] != '+' by {
      assert IsDigit(s[0]);
    }
  }

  /** Every `isize` written in decimal parses back to itself. */
  lemma ParseIsizePrinted(v: int)
    requires -IsizeLimit <= v < IsizeLimit
    ensures ParseIsize(IntToString(v)) == Some(v)
  {
    if v < 0 {
      var s := IntToString(v);
      assert s[1..] == NatToString(-v);
    } else {
      var s := NatToString(v);
      assert s[0] != '+' && s[0] != '-' by {
        assert IsDigit(s[0]);
      }
    }
  }

  /** A written decimal number is a single token. */
  lemma PrintedIsToken(v: int)
    ensures IsToken(IntToString(v))
  {
    var s := IntToString(v);
    if v < 0 {
      var digits := NatToString(-v);
      assert forall i :: 1 <= i < |s| ==> s[i] == digits[i - 1];
    }
    forall i | 0 <= i < |s|
      ensures !IsWhitespace(s[i])
    {
      if v >= 0 {
        assert IsDigit(s[i]);
      } else if i > 0 {
        assert IsDigit(NatToString(-v)[i - 1]);
      }
    }
  }

  // ------------------------------------------------------------ the layout

  const DimensionKey: string := "DIMENSION:"
  const SectionKey: string := "EDGE_WEIGHT_SECTION"

  /** The position of the first token equal to `key`, if there is one. */
  function FirstIndexOf(tokens: seq<string>, key: string): (r: Option<nat>)
    ensures r.None? <==> key !in tokens
    ensures r.Some? ==> r.value < |tokens| && tokens[r.value] == key && key !in tokens[..r.value]
  {
    if tokens == [] then None
    else if tokens[0] == key then Some(0)
    else
      match FirstIndexOf(tokens[1..], key)
      case None => None
      case Some(i) =>
        assert tokens[..i + 1] == [tokens[0]] + tokens[1..][..i];
        Some(i + 1)
  }

  /**
   * The dimension: the value of the token after the first `DIMENSION:`, or 0
   * when no token is `DIMENSION:`. `None` is a panic: the key is the last
   * token, or the token after it is not a `usize`.
   */
  function Dimension(tokens: seq<string>): (r: Option<nat>)
    ensures DimensionKey !in tokens ==> r == Some(0)
    ensures forall i :: 0 <= i < |tokens| && tokens[i] == DimensionKey && DimensionKey !in tokens[..i] ==>
      r == if i + 1 < |tokens| then ParseUsize(tokens[i + 1]) else None
  {
    match FirstIndexOf(tokens, DimensionKey)
    case None => Some(0)
    case Some(i) =>
      FirstIsUnique(tokens, DimensionKey, i);
      if i + 1 < |tokens| then ParseUsize(tokens[i + 1]) else None
  }

  /** The position right after the first `EDGE_WEIGHT_SECTION`, or 0 when there is none. */
  function MatrixStart(tokens: seq<string>): (start: nat)
    ensures SectionKey !in tokens ==> start == 0
    ensures forall i :: 0 <= i < |tokens| && tokens[i] == SectionKey && SectionKey !in tokens[..i] ==> start == i + 1
  {
    match FirstIndexOf(tokens, SectionKey)
    case None => 0
    case Some(i) =>
      FirstIsUnique(tokens, SectionKey, i);
      i + 1
  }

  /** There is only one first occurrence. */
  lemma FirstIsUnique(tokens: seq<string>, key: string, i: nat)
    requires i < |tokens| && tokens[i] == key && key !in tokens[..i]
    ensures forall j :: 0 <= j < |tokens| && tokens[j] == key && key !in tokens[..j] ==> j == i
  {
  }

  // ------------------------------------------------------------ the matrix

  /** Where entry `(i, j)` of a `dim`-wide matrix starting at `start` sits among the tokens. */
  function Cell(start: nat, dim: nat, i: nat, j: nat): (position: nat) {
    start + i * dim + j
  }

  /** Entry `(i, j)` can be read: it is on the diagonal, or its token exists and is an `isize`. */
  predicate EntryParses(tokens: seq<string>, start: nat, dim: nat, i: nat, j: nat) {
    i == j || (Cell(start, dim, i, j) < |tokens| && ParseIsize(tokens[Cell(start, dim, i, j)]).Some?)
  }

  /** Entry `(i, j)`: 0 on the diagonal, whatever its token says, else the token's value. */
  function Entry(tokens: seq<string>, start: nat, dim: nat, i: nat, j: nat): (w: int)
    requires EntryParses(tokens, start, dim, i, j)
  {
    if i == j then 0 else ParseIsize(tokens[Cell(start, dim, i, j)]).value
  }

  /** Every entry of the `dim` by `dim` matrix can be read. */
  predicate MatrixParses(tokens: seq<string>, start: nat, dim: nat) {
    forall i: nat, j: nat :: i < dim && j < dim ==> EntryParses(tokens, start, dim, i, j)
  }

  /** The matrix read from the tokens. */
  function MatrixOf(tokens: seq<string>, start: nat, dim: nat): (m: seq<seq<int>>)
    requires MatrixParses(tokens, start, dim)
    ensures IsSquare(m, dim)
    ensures forall i: nat, j: nat :: i < dim && j < dim ==> m[i][j] == Entry(tokens, start, dim, i, j)
  {
    seq(dim, i requires 0 <= i < dim =>
      seq(dim, j requires 0 <= j < dim => Entry(tokens, start, dim, i, j)))
  }

  /**
   * The program's nested loop over rows and columns. `None` is a panic:
   * an off-diagonal token past the end of the file, or one that is not an
   * `isize`.
   */
  method BuildAdjMatrix(tokens: seq<string>, start: nat, dim: nat) returns (m: Option<seq<seq<int>>>)
    ensures m.Some? <==> MatrixParses(tokens, start, dim)
    ensures m.Some? ==> m.value == MatrixOf(tokens, start, dim)
  {
    var rows: seq<seq<int>> := [];
    for i := 0 to dim
      invariant |rows| == i
      invariant forall a :: 0 <= a < i ==> |rows[a]| == dim
      invariant forall a: nat, b: nat :: a < i && b < dim ==>
        EntryParses(tokens, start, dim, a, b) && rows[a][b] == Entry(tokens, start, dim, a, b)
    {
      var row: seq<int> := [];
      for j := 0 to dim
        invariant |row| == j
        invariant forall b: nat :: b < j ==>
          EntryParses(tokens, start, dim, i, b) && row[b] == Entry(tokens, start, dim, i, b)
      {
        if i == j {
          row := row + [0];
        } else {
          var cell := start + i * dim + j;
          if cell >= |tokens| {
            assert !EntryParses(tokens, start, dim, i, j);
            return None;
          }
          var weight := ParseIsize(tokens[cell]);
          if weight.None? {
            assert !EntryParses(tokens, start, dim, i, j);
            return None;
          }
          row := row + [weight.value];
        }
      }
      rows := rows + [row];
    }
    assert forall a :: 0 <= a < dim ==> rows[a] == MatrixOf(tokens, start, dim)[a];
    m := Some(rows);
  }

  // ------------------------------------------------------------ the parser

  datatype ErrorKind = InvalidData

  /** What `parse_graph` ends in once the file is read. */
  datatype ParseOutcome =
    | Parsed(graph: MatrixGraph)
    | Failed(kind: ErrorKind, message: string)
    | Panic

  /**
   * `parse_graph` after `read_to_string`: tokenize, find the dimension and
   * the start of the weights, read the matrix, reject a dimension of 0, and
   * install the matrix in a fresh graph of that size.
   */
  function ParseGraph(text: string): (r: ParseOutcome)
    ensures r.Failed? <==> Dimension(Tokenize(text)) == Some(0)
    ensures r.Failed? ==> r == Failed(InvalidData, "Cannot parse graph dimension")
    ensures r.Panic? <==>
      || Dimension(Tokenize(text)).None?
      || !MatrixParses(Tokenize(text), MatrixStart(Tokenize(text)), Dimension(Tokenize(text)).value)
    ensures r.Parsed? ==>
      && Some(r.graph.size) == Dimension(Tokenize(text))
      && r.graph.size >= 1
      && IsSquare(r.graph.adjMatrix, r.graph.size)
      && forall i: nat :: i < r.graph.size ==> r.graph.adjMatrix[i][i] == 0
  {
    var tokens := Tokenize(text);
    match Dimension(tokens)
    case None => Panic
    case Some(dim) =>
      var start := MatrixStart(tokens);
      if !MatrixParses(tokens, start, dim) then Panic
      else if dim == 0 then Failed(InvalidData, "Cannot parse graph dimension")
      else Parsed(SetAdjMatrix(New(dim), MatrixOf(tokens, start, dim)))
  }

  /** On success every off-diagonal weight is the value of its token. */
  lemma ParsedWeights(text: string, i: nat, j: nat)
    requires ParseGraph(text).Parsed?
    requires i < ParseGraph(text).graph.size && j < ParseGraph(text).graph.size && i != j
    ensures var tokens := Tokenize(text);
      var start := MatrixStart(tokens);
      var dim := ParseGraph(text).graph.size;
      && Cell(start, dim, i, j) < |tokens|
      && ParseIsize(tokens[Cell(start, dim, i, j)]) == Some(ParseGraph(text).graph.adjMatrix[i][j])
  {
    var tokens := Tokenize(text);
    var dim := Dimension(tokens).value;
    assert EntryParses(tokens, MatrixStart(tokens), dim, i, j);
  }

  /** On a parsed graph a one-city tour has length 0: its only leg is a diagonal entry. */
  lemma ParsedSingleNodeTour(text: string, v: nat)
    requires ParseGraph(text).Parsed? && v < ParseGraph(text).graph.size
    ensures TourEdgesInRange(ParseGraph(text).graph, [v])
    ensures TourLength(ParseGraph(text).graph, [v]) == 0
  {
    SingleNodeTourLength(ParseGraph(text).graph, v);
  }

  // ------------------------------------------------------------ round trip

  /** Row-major positions of a `dim` by `dim` matrix stay below `dim * dim`. */
  lemma CellBelowSquare(dim: nat, i: nat, j: nat)
    requires i < dim && j < dim
    ensures i * dim + j < dim * dim
  {
    assert (i + 1) * dim == i * dim + dim;
    assert (i + 1) * dim <= dim * dim by {
      MultiplyMonotone(i + 1, dim, dim);
    }
  }

  lemma MultiplyMonotone(a: nat, b: nat, c: nat)
    requires a <= b
    ensures a * c <= b * c
  {
  }

  /** Weight `(i, j)` of a row-major weight list, with the diagonal zeroed as the reader does. */
  function Weight(weights: seq<int>, dim: nat, i: nat, j: nat): (w: int)
    requires |weights| == dim * dim && i < dim && j < dim
  {
    CellBelowSquare(dim, i, j);
    if i == j then 0 else weights[i * dim + j]
  }

  /** The matrix a row-major weight list describes. */
  function RowMajor(weights: seq<int>, dim: nat): (m: seq<seq<int>>)
    requires |weights| == dim * dim
    ensures IsSquare(m, dim)
    ensures forall i: nat, j: nat :: i < dim && j < dim ==> m[i][j] == Weight(weights, dim, i, j)
  {
    seq(dim, i requires 0 <= i < dim => seq(dim, j requires 0 <= j < dim => Weight(weights, dim, i, j)))
  }

  /** The tokens of a weight file: the dimension, the section key, then every weight row by row. */
  function FormatTokens(dim: nat, weights: seq<int>): (tokens: seq<string>)
    ensures |tokens| == 3 + |weights|
  {
    [DimensionKey, NatToString(dim), SectionKey] + seq(|weights|, k requires 0 <= k < |weights| => IntToString(weights[k]))
  }

  lemma KeysAreTokens()
    ensures IsToken(DimensionKey) && IsToken(SectionKey)
  {
    assert DimensionKey == ['D', 'I', 'M', 'E', 'N', 'S', 'I', 'O', 'N', ':'];
    assert SectionKey == ['E', 'D', 'G', 'E', '_', 'W', 'E', 'I', 'G', 'H', 'T', '_', 'S', 'E', 'C', 'T', 'I', 'O', 'N'];
  }

  lemma FormatTokensAreTokens(dim: nat, weights: seq<int>)
    ensures forall k :: 0 <= k < |FormatTokens(dim, weights)| ==> IsToken(FormatTokens(dim, weights)[k])
  {
    var tokens := FormatTokens(dim, weights);
    KeysAreTokens();
    forall k | 0 <= k < |tokens|
      ensures IsToken(tokens[k])
    {
      if k == 1 {
        assert tokens[1] == IntToString(dim);
        PrintedIsToken(dim);
      } else if k >= 3 {
        PrintedIsToken(weights[k - 3]);
      }
    }
  }

  /** In a written weight file the matrix starts right after the third token. */
  lemma FormattedLayout(dim: nat, weights: seq<int>)
    requires dim < UsizeLimit
    ensures Dimension(FormatTokens(dim, weights)) == Some(dim)
    ensures MatrixStart(FormatTokens(dim, weights)) == 3
  {
    var tokens := FormatTokens(dim, weights);
    assert tokens[0] == DimensionKey && tokens[..0] == [];
    ParseUsizePrinted(dim);
    assert tokens[2] == SectionKey;
    assert tokens[..2] == [DimensionKey, NatToString(dim)];
    assert NatToString(dim) != SectionKey by {
      assert IsDigit(NatToString(dim)[0]);
    }
    assert |DimensionKey| != |SectionKey|;
  }

  /**
   * Reading a written weight file gives back the graph it describes:
   * `dim` cities and the written weights, with the diagonal zeroed.
   */
  lemma ParseFormattedGraph(dim: nat, weights: seq<int>)
    requires 1 <= dim < UsizeLimit
    requires |weights| == dim * dim
    requires forall k :: 0 <= k < |weights| ==> -IsizeLimit <= weights[k] < IsizeLimit
    ensures ParseGraph(Join(FormatTokens(dim, weights))) == Parsed(MatrixGraph(dim, RowMajor(weights, dim)))
  {
    var tokens := FormatTokens(dim, weights);
    FormatTokensAreTokens(dim, weights);
    TokenizeJoin(tokens);
    FormattedLayout(dim, weights);
    FormattedMatrix(dim, weights);
  }

  /** The written weights are read back as the row-major matrix. */
  lemma FormattedMatrix(dim: nat, weights: seq<int>)
    requires |weights| == dim * dim
    requires forall k :: 0 <= k < |weights| ==> -IsizeLimit <= weights[k] < IsizeLimit
    ensures MatrixParses(FormatTokens(dim, weights), 3, dim)
    ensures MatrixOf(FormatTokens(dim, weights), 3, dim) == RowMajor(weights, dim)
  {
    var tokens := FormatTokens(dim, weights);
    forall i: nat, j: nat | i < dim && j < dim
      ensures EntryParses(tokens, 3, dim, i, j) && Entry(tokens, 3, dim, i, j) == Weight(weights, dim, i, j)
    {
      FormattedEntry(dim, weights, i, j);
    }
    var m := MatrixOf(tokens, 3, dim);
    assert m == RowMajor(weights, dim) by {
      forall i | 0 <= i < dim
        ensures m[i] == RowMajor(weights, dim)[i]
      {
      }
    }
  }

  lemma FormattedEntry(dim: nat, weights: seq<int>, i: nat, j: nat)
    requires |weights| == dim * dim && i < dim && j < dim
    requires forall k :: 0 <= k < |weights| ==> -IsizeLimit <= weights[k] < IsizeLimit
    ensures EntryParses(FormatTokens(dim, weights), 3, dim, i, j)
    ensures Entry(FormatTokens(dim, weights), 3, dim, i, j) == Weight(weights, dim, i, j)
  {
    if i != j {
      var tokens := FormatTokens(dim, weights);
      CellBelowSquare(dim, i, j);
      var k := i * dim + j;
      assert Cell(3, dim, i, j) == 3 + k;
      assert tokens[3 + k] == IntToString(weights[k]);
      ParseIsizePrinted(weights[k]);
    }
  }
}
