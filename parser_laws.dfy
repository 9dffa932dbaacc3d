/**
  What the reader of parser.c promises about the text it is given:
  text that is all whitespace reads as NULL, and the text of any tree
  written out with single spaces between items reads back as that tree.
*/
module ParserLaws {
  import opened Wrappers
  import opened Errors
  import opened CString
  import opened Utf8
  import Parser

  const Space: byte := 0x20

  /** Text whose first byte starts a codepoint (or that is empty). */
  predicate StartsCodepoint(b: seq<byte>) {
    |b| == 0 || !IsContinuation(b[0])
  }

  /** The whitespace test of utf8proc, as far as the reader relies on it. */
  predicate Separates(ws: CodepointTest) {
    ws([Space]) && !ws([OpenParen]) && !ws([CloseParen])
  }

  /** Text that is all whitespace reads as NULL, and nothing else does. */
  lemma {:induction false} ParseBlank(s: seq<byte>, ws: CodepointTest)
    ensures Parser.Parse(s, ws) == Ok(Parser.Missing) <==> Take(s, ws) == |s|
  {
    var t := Parser.Trim(s, ws).value;
    if t.start.Some? {
      assert t.size > 0;
    }
  }

  /** Text that is not blank and does not start with `(` reads as a symbol holding the trimmed text. */
  lemma {:induction false} ParseSymbol(s: seq<byte>, ws: CodepointTest)
    requires Take(s, ws) < |s| && s[Take(s, ws)] != OpenParen
    ensures Take(s, ws) < Parser.TakeReverseFrom(s, ws, |s|)
    ensures Parser.Parse(s, ws) == Ok(Parser.SymbolObject(s[Take(s, ws)..Parser.TakeReverseFrom(s, ws, |s|)]))
  {
    var a := Take(s, ws);
    var b := Parser.TakeReverseFrom(s, ws, |s|);
    TrimSome(s, ws, a, b);
    ParseWindow(s, ws, a, b, s[a..b]);
    ExpSymbol(s[a..b], ws);
  }

  /** Text that is not all blank trims to the window between the two scans. */
  lemma {:induction false} TrimSome(s: seq<byte>, ws: CodepointTest, a: nat, b: nat)
    requires a == Take(s, ws) < |s| && b == Parser.TakeReverseFrom(s, ws, |s|)
    ensures a < b && Parser.Trim(s, ws) == Ok(Trimmed(Some(a), b - a))
  {
    Parser.TrimBounds(s, ws);
  }

  /** Text whose trimmed part is `s[a..b]` reads as that part read by valid_exp_into_object. */
  lemma {:induction false} ParseWindow(s: seq<byte>, ws: CodepointTest, a: nat, b: nat, w: seq<byte>)
    requires a < b <= |s| && Parser.Trim(s, ws) == Ok(Trimmed(Some(a), b - a)) && w == s[a..b]
    ensures Parser.Parse(s, ws) == Parser.ParseExp(w, ws)
  {
  }

  /** A non-empty text that does not start with `(` is a symbol. */
  lemma {:induction false} ExpSymbol(w: seq<byte>, ws: CodepointTest)
    requires |w| > 0 && w[0] != OpenParen
    ensures Parser.ParseExp(w, ws) == Ok(Parser.SymbolObject(w))
  {
  }

  // ---------------------------------------------------------------------
  // Codepoints and depths inside a longer text

  lemma {:induction false} ContinuationEndConcat(a: seq<byte>, b: seq<byte>, j: nat)
    requires j <= |a| && StartsCodepoint(b)
    ensures ContinuationEnd(a + b, j) == ContinuationEnd(a, j)
    decreases |a| - j
  {
    if j < |a| && IsContinuation(a[j]) {
      ContinuationEndConcat(a, b, j + 1);
    }
  }

  /** A codepoint of `u` reads the same inside `x + u + y` when `y` starts a codepoint. */
  lemma {:induction false} CodepointInContext(x: seq<byte>, u: seq<byte>, y: seq<byte>, i: nat)
    requires i < |u| && StartsCodepoint(y)
    ensures CodepointEnd(x + u + y, |x| + i) == |x| + CodepointEnd(u, i)
    ensures (x + u + y)[|x| + i..|x| + CodepointEnd(u, i)] == u[i..CodepointEnd(u, i)]
  {
    var s := x + u + y;
    assert s[|x|..] == u + y;
    CodepointEndShift(s, |x|, i);
    ContinuationEndConcat(u, y, i + 1);
  }

  lemma {:induction false} AllPassInContext(x: seq<byte>, u: seq<byte>, y: seq<byte>, p: CodepointTest, i: nat)
    requires i <= |u| && StartsCodepoint(y) && AllPass(u, p, i, |u|)
    ensures AllPass(x + u + y, p, |x| + i, |x| + |u|)
    decreases |u| - i
  {
    if i < |u| {
      CodepointInContext(x, u, y, i);
      AllPassInContext(x, u, y, p, CodepointEnd(u, i));
    }
  }

  /** A run of passing codepoints is skipped by utf8_take. */
  lemma {:induction false} TakeFromSkips(s: seq<byte>, p: CodepointTest, i: nat, m: nat)
    requires i <= m <= |s| && AllPass(s, p, i, m)
    ensures TakeFrom(s, p, i) == TakeFrom(s, p, m)
    decreases m - i
  {
    if i < m {
      TakeFromSkips(s, p, CodepointEnd(s, i), m);
    }
  }

  /** A walk over passing codepoints passes every codepoint boundary on its way. */
  lemma {:induction false} AllPassVisits(s: seq<byte>, p: CodepointTest, i: nat, j: nat, b: nat)
    requires i <= b < j <= |s| && AllPass(s, p, i, j) && Boundary(s, b)
    ensures CodepointEnd(s, b) <= j && p(s[b..CodepointEnd(s, b)])
    decreases j - i
  {
    if b > i {
      CodepointEndSpans(s, i);
      AllPassVisits(s, p, CodepointEnd(s, i), j, b);
    }
  }

  lemma {:induction false} DepthConcatLeft(a: seq<byte>, b: seq<byte>, k: nat)
    requires k <= |a|
    ensures Depth(a + b, k) == Depth(a, k)
  {
    if k > 0 {
      DepthConcatLeft(a, b, k - 1);
    }
  }

  lemma {:induction false} DepthConcatRight(a: seq<byte>, b: seq<byte>, k: nat)
    requires k <= |b|
    ensures Depth(a + b, |a| + k) == Depth(a, |a|) + Depth(b, k)
  {
    if k == 0 {
      DepthConcatLeft(a, b, |a|);
    } else {
      DepthConcatRight(a, b, k - 1);
    }
  }

  /** Matching parentheses followed by matching parentheses still match. */
  lemma {:induction false} BalancedConcat(a: seq<byte>, b: seq<byte>)
    requires Balanced(a) && Balanced(b)
    ensures Balanced(a + b)
  {
    forall k | 0 <= k <= |a + b|
      ensures Depth(a + b, k) >= 0
    {
      if k <= |a| {
        DepthConcatLeft(a, b, k);
      } else {
        DepthConcatRight(a, b, k - |a|);
      }
    }
    DepthConcatRight(a, b, |b|);
  }

  /** Text without parentheses has depth zero throughout. */
  lemma {:induction false} FlatDepth(t: seq<byte>, k: nat)
    requires k <= |t| && forall i :: 0 <= i < |t| ==> t[i] != OpenParen && t[i] != CloseParen
    ensures Depth(t, k) == 0
  {
    if k > 0 {
      FlatDepth(t, k - 1);
    }
  }

  /** One parenthesised group: the depth stays positive until its last byte closes it. */
  ghost predicate Nested(u: seq<byte>) {
    && |u| >= 2 && u[0] == OpenParen && u[|u| - 1] == CloseParen
    && Depth(u, |u|) == 0
    && forall k :: 1 <= k < |u| ==> Depth(u, k) > 0
  }

  /** scan2_for_closing_paren finds the end of a group, whatever follows it. */
  lemma {:induction false} ScanNested(u: seq<byte>, rest: seq<byte>)
    requires Nested(u)
    ensures Scan2(u + rest) == Ok(|u|)
  {
    var s := u + rest;
    forall k | 0 <= k <= |u|
      ensures Depth(s, k) == Depth(u, k)
    {
      DepthConcatLeft(u, rest, k);
    }
    Scan2FindsMatch(s);
  }

  // ---------------------------------------------------------------------
  // Trees that can be written out

  /** The text of a symbol the reader gives back unchanged. */
  ghost predicate SymbolText(t: seq<byte>, ws: CodepointTest) {
    && |t| > 0 && !IsContinuation(t[0])
    && (forall i :: 0 <= i < |t| ==> t[i] != OpenParen && t[i] != CloseParen)
    && AllPass(t, Not(ws), 0, |t|)
  }

  /** A tree whose written-out text reads back as itself. */
  ghost predicate Printable(p: Parser.Parsed, ws: CodepointTest) {
    match p
    case Missing => false
    case NullObject => true
    case SymbolObject(text) => SymbolText(text, ws)
    case ConsList(items) => |items| > 0 && forall i :: 0 <= i < |items| ==> Printable(items[i], ws)
  }

  /** The text of a tree: a symbol as its bytes, a list in parentheses with single spaces between items. */
  function Unparse(p: Parser.Parsed): seq<byte>
    decreases p, 1, 0
  {
    match p
    case Missing => []
    case NullObject => [OpenParen, CloseParen]
    case SymbolObject(text) => text
    case ConsList(items) => if |items| == 0 then [OpenParen, CloseParen] else [OpenParen] + JoinFrom(p, 0) + [CloseParen]
  }

  /** The items of a list from the `k`-th on, separated by single spaces. */
  function JoinFrom(p: Parser.Parsed, k: nat): seq<byte>
    requires p.ConsList? && k < |p.items|
    decreases p, 0, |p.items| - k
  {
    Unparse(p.items[k]) + (if k + 1 < |p.items| then [Space] + JoinFrom(p, k + 1) else [])
  }

  /** What the text of a printable tree looks like. */
  lemma {:induction false} UnparseShape(p: Parser.Parsed, ws: CodepointTest)
    requires Printable(p, ws)
    ensures var u := Unparse(p);
      && |u| > 0 && !IsContinuation(u[0])
      && (p.SymbolObject? <==> u[0] != OpenParen)
      && (p.SymbolObject? ==> SymbolText(u, ws))
      && (!p.SymbolObject? ==> Nested(u))
      && Balanced(u)
    decreases p, 1, 0
  {
    var u := Unparse(p);
    match p
    case NullObject =>
      assert Depth(u, 1) == 1;
    case SymbolObject(text) =>
      forall k | 0 <= k <= |u|
        ensures Depth(u, k) == 0
      {
        FlatDepth(u, k);
      }
    case ConsList(items) =>
      JoinShape(p, 0, ws);
      var j := JoinFrom(p, 0);
      assert u == [OpenParen] + (j + [CloseParen]);
      assert Depth([OpenParen], 1) == 1;
      assert Depth([CloseParen], 1) == -1;
      forall k | 1 <= k < |u|
        ensures Depth(u, k) > 0
      {
        DepthConcatRight([OpenParen], j + [CloseParen], k - 1);
        DepthConcatLeft(j, [CloseParen], k - 1);
      }
      DepthConcatRight([OpenParen], j + [CloseParen], |j| + 1);
      DepthConcatRight(j, [CloseParen], 1);
  }

  /** The joined items start a codepoint and their parentheses match. */
  lemma {:induction false} JoinShape(p: Parser.Parsed, k: nat, ws: CodepointTest)
    requires Printable(p, ws) && p.ConsList? && k < |p.items|
    ensures var j := JoinFrom(p, k);
      |j| > 0 && !IsContinuation(j[0]) && Balanced(j)
    decreases p, 0, |p.items| - k
  {
    var u := Unparse(p.items[k]);
    UnparseShape(p.items[k], ws);
    if k + 1 < |p.items| {
      JoinShape(p, k + 1, ws);
      var rest := [Space] + JoinFrom(p, k + 1);
      assert Depth([Space], 1) == 0;
      BalancedConcat([Space], JoinFrom(p, k + 1));
      BalancedConcat(u, rest);
    } else {
      assert JoinFrom(p, k) == u;
    }
  }

  // ---------------------------------------------------------------------
  // Reading the text back

  /** The first codepoint of a printable tree's text is not whitespace, wherever the text stands. */
  lemma {:induction false} FirstCodepointInContext(x: seq<byte>, p: Parser.Parsed, y: seq<byte>, ws: CodepointTest)
    requires Printable(p, ws) && Separates(ws) && StartsCodepoint(y)
    requires |Unparse(p)| < 2 || !IsContinuation(Unparse(p)[1]) || p.SymbolObject?
    ensures var s := x + Unparse(p) + y;
      !ws(s[|x|..CodepointEnd(s, |x|)])
  {
    var u := Unparse(p);
    UnparseShape(p, ws);
    CodepointInContext(x, u, y, 0);
    if !p.SymbolObject? {
      assert CodepointEnd(u, 0) == 1;
      assert u[0..1] == [OpenParen];
    }
  }

  /** The second byte of a list's text starts a codepoint. */
  lemma {:induction false} SecondByte(p: Parser.Parsed, ws: CodepointTest)
    requires Printable(p, ws) && !p.SymbolObject?
    ensures |Unparse(p)| >= 2 && !IsContinuation(Unparse(p)[1])
  {
    UnparseShape(p, ws);
    if p.ConsList? {
      JoinShape(p, 0, ws);
      assert Unparse(p)[1] == JoinFrom(p, 0)[0];
    }
  }

  /** utf8_take stops at once at a codepoint that fails. */
  lemma {:induction false} TakeStopsAt(s: seq<byte>, p: CodepointTest, i: nat)
    requires i < |s| && !p(s[i..CodepointEnd(s, i)])
    ensures TakeFrom(s, p, i) == i
  {
  }

  /** The whitespace before an item: none before the first, one space before the others. */
  predicate Lead(lead: seq<byte>) {
    lead == [] || lead == [Space]
  }

  /** What follows the `k`-th item inside the list's text. */
  function After(p: Parser.Parsed, k: nat): seq<byte>
    requires p.ConsList? && k < |p.items|
  {
    if k + 1 < |p.items| then [Space] + JoinFrom(p, k + 1) else []
  }

  lemma {:induction false} AfterStartsCodepoint(p: Parser.Parsed, k: nat, ws: CodepointTest)
    requires Printable(p, ws) && p.ConsList? && k < |p.items|
    ensures StartsCodepoint(After(p, k))
    ensures After(p, k) != [] ==> |After(p, k)| >= 2 && After(p, k)[0] == Space && !IsContinuation(After(p, k)[1])
  {
    if k + 1 < |p.items| {
      JoinShape(p, k + 1, ws);
    }
  }

  /** utf8_tok_lisp, once the leading whitespace and the token's size are known. */
  lemma {:induction false} TokLispFinds(s: seq<byte>, ws: CodepointTest, n: nat, size: nat)
    requires n < |s| && Take(s, ws) == n
    requires s[n] == OpenParen ==> Scan2(s[n..]) == Ok(size)
    requires s[n] != OpenParen ==> Take(s[n..], Not(ws)) == size
    ensures TokLisp(s, ws) == Ok(Token(n, Some(n), size))
  {
  }

  /** utf8_take skips the lead and stops at a text whose first codepoint is not whitespace. */
  lemma {:induction false} LeadStops(lead: seq<byte>, u: seq<byte>, rest: seq<byte>, ws: CodepointTest)
    requires Lead(lead) && ws([Space]) && |u| > 0 && !IsContinuation(u[0])
    requires !ws((lead + u + rest)[|lead|..CodepointEnd(lead + u + rest, |lead|)])
    ensures Take(lead + u + rest, ws) == |lead|
  {
    var s := lead + u + rest;
    TakeStopsAt(s, ws, |lead|);
    if lead == [Space] {
      assert s[1] == u[0];
      assert CodepointEnd(s, 0) == 1;
      assert s[0..1] == [Space];
    }
  }

  /** A symbol's text is read up to the space or the end that follows it. */
  lemma {:induction false} SymbolStops(u: seq<byte>, rest: seq<byte>, ws: CodepointTest)
    requires SymbolText(u, ws) && ws([Space])
    requires rest == [] || (|rest| >= 2 && rest[0] == Space && !IsContinuation(rest[1]))
    ensures Take(u + rest, Not(ws)) == |u|
  {
    var t := u + rest;
    AllPassInContext([], u, rest, Not(ws), 0);
    assert [] + u + rest == t;
    TakeFromSkips(t, Not(ws), 0, |u|);
    if rest != [] {
      assert t[|u| + 1] == rest[1];
      assert CodepointEnd(t, |u|) == |u| + 1;
      assert t[|u|..|u| + 1] == [Space];
      TakeStopsAt(t, Not(ws), |u|);
    }
  }

  /** utf8_tok_lisp finds the `k`-th item of a list's text as one token. */
  lemma {:induction false} TokenOfItem(p: Parser.Parsed, k: nat, lead: seq<byte>, ws: CodepointTest)
    requires Printable(p, ws) && p.ConsList? && k < |p.items| && Lead(lead) && Separates(ws)
    ensures var u := Unparse(p.items[k]);
      TokLisp(lead + u + After(p, k), ws) == Ok(Token(|lead|, Some(|lead|), |u|))
  {
    ItemTakeStops(p, k, lead, ws);
    ItemExtent(p, k, lead, ws);
    TokLispFinds(lead + Unparse(p.items[k]) + After(p, k), ws, |lead|, |Unparse(p.items[k])|);
  }

  /** utf8_take stops at the first byte of the `k`-th item. */
  lemma {:induction false} ItemTakeStops(p: Parser.Parsed, k: nat, lead: seq<byte>, ws: CodepointTest)
    requires Printable(p, ws) && p.ConsList? && k < |p.items| && Lead(lead) && Separates(ws)
    ensures var u := Unparse(p.items[k]);
      |u| > 0 && Take(lead + u + After(p, k), ws) == |lead|
  {
    var item := p.items[k];
    var u := Unparse(item);
    var rest := After(p, k);
    UnparseShape(item, ws);
    AfterStartsCodepoint(p, k, ws);
    if !item.SymbolObject? {
      SecondByte(item, ws);
    }
    FirstCodepointInContext(lead, item, rest, ws);
    LeadStops(lead, u, rest, ws);
  }

  /** The `k`-th item, read from its first byte, ends where its text ends. */
  lemma {:induction false} ItemExtent(p: Parser.Parsed, k: nat, lead: seq<byte>, ws: CodepointTest)
    requires Printable(p, ws) && p.ConsList? && k < |p.items| && Lead(lead) && Separates(ws)
    ensures var u := Unparse(p.items[k]);
      var s := lead + u + After(p, k);
      && |lead| < |s|
      && (s[|lead|] == OpenParen ==> Scan2(s[|lead|..]) == Ok(|u|))
      && (s[|lead|] != OpenParen ==> Take(s[|lead|..], Not(ws)) == |u|)
  {
    var item := p.items[k];
    var u := Unparse(item);
    var rest := After(p, k);
    var s := lead + u + rest;
    UnparseShape(item, ws);
    assert s[|lead|..] == u + rest;
    assert s[|lead|] == u[0];
    if item.SymbolObject? {
      AfterStartsCodepoint(p, k, ws);
      SymbolStops(u, rest, ws);
    } else {
      ScanNested(u, rest);
    }
  }

  /** One step of Items that reads an item and then the items after it. */
  lemma {:induction false} ItemsStepOk(s: seq<byte>, ws: CodepointTest, token: Token, item: Parser.Parsed, after: seq<Parser.Parsed>)
    requires TokLisp(s, ws) == Ok(token) && token.start.Some? && token.leading + token.size <= |s|
    requires Parser.Parse(s[token.leading..token.leading + token.size], ws) == Ok(item)
    requires Parser.Items(s[token.leading + token.size..], ws) == Ok(after)
    ensures Parser.Items(s, ws) == Ok([item] + after)
  {
    Parser.ItemsStep(s, ws, token);
    JoinedOk(Parser.Parse(s[token.leading..token.leading + token.size], ws), Parser.Items(s[token.leading + token.size..], ws), item, after);
  }

  lemma {:induction false} JoinedOk(x: Result<Parser.Parsed, Error>, xs: Result<seq<Parser.Parsed>, Error>, item: Parser.Parsed, after: seq<Parser.Parsed>)
    requires x == Ok(item) && xs == Ok(after)
    ensures Parser.Joined(x, xs) == Ok([item] + after)
  {
  }

  /** Where the `k`-th item and what follows it lie in the list's text. */
  lemma {:induction false} ItemInJoin(p: Parser.Parsed, k: nat, lead: seq<byte>, ws: CodepointTest)
    requires Printable(p, ws) && p.ConsList? && k < |p.items| && Lead(lead) && Separates(ws)
    ensures var s := lead + JoinFrom(p, k);
      var u := Unparse(p.items[k]);
      && |lead| + |u| <= |s|
      && TokLisp(s, ws) == Ok(Token(|lead|, Some(|lead|), |u|))
      && s[|lead|..|lead| + |u|] == u
      && s[|lead| + |u|..] == After(p, k)
  {
    var u := Unparse(p.items[k]);
    var s := lead + JoinFrom(p, k);
    assert s == lead + u + After(p, k);
    TokenOfItem(p, k, lead, ws);
  }

  /** A window whose first token is the text `u` of an item, followed by text that reads as `after`. */
  lemma {:induction false} ItemsThenRest(s: seq<byte>, ws: CodepointTest, n: nat, u: seq<byte>, rest: seq<byte>, item: Parser.Parsed, after: seq<Parser.Parsed>)
    requires n + |u| <= |s| && TokLisp(s, ws) == Ok(Token(n, Some(n), |u|))
    requires s[n..n + |u|] == u && s[n + |u|..] == rest
    requires Parser.Parse(u, ws) == Ok(item) && Parser.Items(rest, ws) == Ok(after)
    ensures Parser.Items(s, ws) == Ok([item] + after)
  {
    ItemsStepOk(s, ws, Token(n, Some(n), |u|), item, after);
  }

  /** The items of a list's text, from the `k`-th on, read back as those items. */
  lemma {:induction false} ItemsOfJoin(p: Parser.Parsed, k: nat, lead: seq<byte>, ws: CodepointTest)
    requires Printable(p, ws) && p.ConsList? && k < |p.items| && Lead(lead) && Separates(ws)
    ensures Parser.Items(lead + JoinFrom(p, k), ws) == Ok(p.items[k..])
    decreases p, 0, |p.items| - k, 1
  {
    ParseUnparse(p.items[k], ws);
    ItemsAfter(p, k, ws);
    JoinStep(p, k, lead, ws, p.items[k], p.items[k + 1..]);
    ConsSlice(p.items, k);
  }

  /** The `k`-th item's text is the first token of the list's text from there on. */
  lemma {:induction false} JoinStep(p: Parser.Parsed, k: nat, lead: seq<byte>, ws: CodepointTest, item: Parser.Parsed, after: seq<Parser.Parsed>)
    requires Printable(p, ws) && p.ConsList? && k < |p.items| && Lead(lead) && Separates(ws)
    requires Parser.Parse(Unparse(p.items[k]), ws) == Ok(item) && Parser.Items(After(p, k), ws) == Ok(after)
    ensures Parser.Items(lead + JoinFrom(p, k), ws) == Ok([item] + after)
  {
    ItemInJoin(p, k, lead, ws);
    ItemsThenRest(lead + JoinFrom(p, k), ws, |lead|, Unparse(p.items[k]), After(p, k), item, after);
  }

  /** What follows the `k`-th item reads back as the items after it. */
  lemma {:induction false} ItemsAfter(p: Parser.Parsed, k: nat, ws: CodepointTest)
    requires Printable(p, ws) && p.ConsList? && k < |p.items| && Separates(ws)
    ensures Parser.Items(After(p, k), ws) == Ok(p.items[k + 1..])
    decreases p, 0, |p.items| - k, 0
  {
    if k + 1 < |p.items| {
      ItemsOfJoin(p, k + 1, [Space], ws);
    } else {
      assert After(p, k) == [];
      NoItems(ws);
      assert p.items[k + 1..] == [];
    }
  }

  lemma {:induction false} NoItems(ws: CodepointTest)
    ensures Parser.Items([], ws) == Ok([])
  {
    assert TokLisp([], ws) == Ok(Token(0, None, 0));
  }

  lemma {:induction false} ConsSlice<T>(xs: seq<T>, k: nat)
    requires k < |xs|
    ensures [xs[k]] + xs[k + 1..] == xs[k..]
  {
  }

  /** The text of a printable tree is its own trimmed text. */
  lemma {:induction false} TrimUnparse(p: Parser.Parsed, ws: CodepointTest)
    requires Printable(p, ws) && Separates(ws)
    ensures var u := Unparse(p);
      Parser.Trim(u, ws) == Ok(Trimmed(Some(0), |u|))
  {
    FirstNotBlank(p, ws);
    LastNotBlank(p, ws);
    TrimText(Unparse(p), ws);
  }

  /** A text that starts and ends with a codepoint other than whitespace trims to itself. */
  lemma {:induction false} TrimText(u: seq<byte>, ws: CodepointTest)
    requires |u| > 0 && !ws(u[0..CodepointEnd(u, 0)]) && !ws(u[CodepointStart(u, |u|)..|u|])
    ensures Parser.Trim(u, ws) == Ok(Trimmed(Some(0), |u|))
  {
    TakeStopsAt(u, ws, 0);
  }

  /** The first codepoint of a printable tree's text is not whitespace. */
  lemma {:induction false} FirstNotBlank(p: Parser.Parsed, ws: CodepointTest)
    requires Printable(p, ws) && Separates(ws)
    ensures var u := Unparse(p);
      |u| > 0 && !ws(u[0..CodepointEnd(u, 0)])
  {
    var u := Unparse(p);
    UnparseShape(p, ws);
    if !p.SymbolObject? {
      SecondByte(p, ws);
    }
    FirstCodepointInContext([], p, [], ws);
    assert [] + u + [] == u;
  }

  /** The last codepoint of a printable tree's text is not whitespace. */
  lemma {:induction false} LastNotBlank(p: Parser.Parsed, ws: CodepointTest)
    requires Printable(p, ws) && Separates(ws)
    ensures var u := Unparse(p);
      |u| > 0 && !ws(u[CodepointStart(u, |u|)..|u|])
  {
    var u := Unparse(p);
    UnparseShape(p, ws);
    var b := CodepointStart(u, |u|);
    if p.SymbolObject? {
      CodepointStartSpans(u, |u|);
      AllPassVisits(u, Not(ws), 0, |u|, b);
    } else {
      assert u[b..|u|] == [CloseParen];
    }
  }

  /**
    Reading the text of a printable tree gives the tree back: the reader
    of parser.c inverts writing a tree out with single spaces, given a
    whitespace test under which the space is whitespace and the
    parentheses are not.
  */
  lemma {:induction false} ParseUnparse(p: Parser.Parsed, ws: CodepointTest)
    requires Printable(p, ws) && Separates(ws)
    ensures Parser.Parse(Unparse(p), ws) == Ok(p)
    decreases p, 1, 0, 0
  {
    var u := Unparse(p);
    TrimUnparse(p, ws);
    UnparseShape(p, ws);
    assert u[0..|u|] == u;
    ParseTrimmed(u, ws, u);
    match p
    case SymbolObject(text) =>
    case NullObject =>
      GroupScan(u);
      SexpEmpty(u, ws);
    case ConsList(items) =>
      GroupScan(u);
      ListText(p, ws);
      SexpItems(u, ws, items);
  }

  /** The text between the parentheses of a list reads back as the list's items. */
  lemma {:induction false} ListText(p: Parser.Parsed, ws: CodepointTest)
    requires Printable(p, ws) && p.ConsList? && Separates(ws)
    ensures var u := Unparse(p);
      && |u| >= 2
      && TokLisp(u[1..|u| - 1], ws).Ok? && TokLisp(u[1..|u| - 1], ws).value.start.Some?
      && Parser.Items(u[1..|u| - 1], ws) == Ok(p.items)
    decreases p, 0, |p.items| + 1, 0
  {
    var u := Unparse(p);
    var j := JoinFrom(p, 0);
    assert u[1..|u| - 1] == j;
    TokenOfItem(p, 0, [], ws);
    assert [] + Unparse(p.items[0]) + After(p, 0) == j;
    ItemsOfJoin(p, 0, [], ws);
    assert [] + j == j;
    assert p.items[0..] == p.items;
  }

  /** A group with nothing between its parentheses is the empty list. */
  lemma {:induction false} SexpEmpty(u: seq<byte>, ws: CodepointTest)
    requires |u| == 2 && u[0] == OpenParen && Scan2(u) == Ok(2)
    ensures Parser.SexpIntoCons(u, ws) == Ok(None)
  {
    assert u[1..1] == [];
    assert TokLisp([], ws) == Ok(Token(0, None, 0));
  }

  /** A group whose inside holds a token reads as the items of that inside. */
  lemma {:induction false} SexpItems(u: seq<byte>, ws: CodepointTest, items: seq<Parser.Parsed>)
    requires |u| >= 2 && u[0] == OpenParen && Scan2(u) == Ok(|u|)
    requires TokLisp(u[1..|u| - 1], ws).Ok? && TokLisp(u[1..|u| - 1], ws).value.start.Some?
    requires Parser.Items(u[1..|u| - 1], ws) == Ok(items)
    ensures Parser.SexpIntoCons(u, ws) == Ok(Some(items))
  {
  }

  /** scan2_for_closing_paren finds the end of a group that stands alone. */
  lemma {:induction false} GroupScan(u: seq<byte>)
    requires Nested(u)
    ensures Scan2(u) == Ok(|u|)
  {
    ScanNested(u, []);
    assert u + [] == u;
  }

  /** Text that is its own trimmed text reads as that text read by valid_exp_into_object. */
  lemma {:induction false} ParseTrimmed(u: seq<byte>, ws: CodepointTest, w: seq<byte>)
    requires |u| > 0 && Parser.Trim(u, ws) == Ok(Trimmed(Some(0), |u|)) && w == u[0..|u|]
    ensures Parser.Parse(u, ws) == Parser.ParseExp(w, ws)
  {
  }
}
