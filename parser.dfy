/**
  The reader of parser.c: its own copies of strnrchr, the closing
  parenthesis scan, the backward whitespace scan and the trim (which
  differ from those of utf8.c), and valid_exp_into_object with
  valid_sexp_into_cons, which turn text into a tree of objects.

  The rest of parser.c (utf8_take, verify_matching_parens,
  scan2_for_closing_paren and both tokenizers) repeats utf8.c line for
  line and is the Utf8 module here. The tree is a value: the objects and
  cons cells parser.c allocates with malloc belong to no arena, and
  nothing updates them after they are built.
*/
module Parser {
  import opened Wrappers
  import opened Errors
  import opened CString
  import Utf8

  /**
    An object built by valid_exp_into_object: Missing stands for the NULL
    pointer, NullObject for an object of kind SCHEME_NULL, and a ConsList
    for a chain of cons cells, one per item, closed by a SCHEME_NULL cdr.
  */
  datatype Parsed =
    | Missing
    | NullObject
    | SymbolObject(text: seq<byte>)
    | ConsList(items: seq<Parsed>)

  // ---------------------------------------------------------------------
  // strnrchr and scan_for_closing_paren, as parser.c writes them

  /**
    strnrchr of parser.c: the last `c` in the window, except that index 0
    is never examined. With `size == 0` its index wraps around to the
    largest `size_t` and the read is out of bounds, so a window of at least
    one byte is required.
  */
  method Strnrchr(s: seq<byte>, c: byte) returns (r: Option<nat>)
    requires |s| > 0
    ensures r.Some? ==> 0 < r.value < |s| && s[r.value] == c && forall j :: r.value < j < |s| ==> s[j] != c
    ensures r.None? ==> forall j :: 0 < j < |s| ==> s[j] != c
  {
    var i: nat := |s| - 1;
    while i > 0
      invariant i < |s|
      invariant forall j :: i < j < |s| ==> s[j] != c
    {
      if s[i] == c {
        return Some(i);
      }
      i := i - 1;
    }
    return None;
  }

  /**
    scan_for_closing_paren of parser.c: one past the last `)` of the
    window, which must start with `(`. An empty window reads its
    terminating NUL as the first byte and fails that assertion, so
    strnrchr is only ever reached with a nonempty window.
  */
  method ScanForClosingParen(s: seq<byte>) returns (r: Result<nat, Error>)
    ensures r.Ok? <==> CharAt(s, 0) == Utf8.OpenParen && exists j :: 0 < j < |s| && s[j] == Utf8.CloseParen
    ensures CharAt(s, 0) != Utf8.OpenParen ==> r == Err(AssertionFailed("utf8[0] == '('"))
    ensures r.Ok? ==> 1 < r.value <= |s| && s[r.value - 1] == Utf8.CloseParen
    ensures r.Ok? ==> forall j :: r.value <= j < |s| ==> s[j] != Utf8.CloseParen
  {
    if CharAt(s, 0) != Utf8.OpenParen {
      return Err(AssertionFailed("utf8[0] == '('"));
    }
    var pos := Strnrchr(s, Utf8.CloseParen);
    if pos.None? {
      return Err(AssertionFailed("pos != NULL"));
    }
    return Ok(pos.value + 1);
  }

  // ---------------------------------------------------------------------
  // utf8_take_reverse and trim_whitespace, as parser.c writes them

  /**
    The backward scan of parser.c from offset `offset`: it tests the
    codepoint that ends at the offset before stepping over it, so it stops
    at the END of the last codepoint that fails `p`, or at 0.
  */
  function TakeReverseFrom(s: seq<byte>, p: Utf8.CodepointTest, offset: nat): (r: nat)
    requires offset <= |s|
    ensures r <= offset
    decreases offset
  {
    if offset == 0 then 0
    else
      var start := Utf8.CodepointStart(s, offset);
      if !p(s[start..offset]) then offset else TakeReverseFrom(s, p, start)
  }

  /**
    utf8_take_reverse of parser.c: the offset written through `outdst` and
    the length of the passing suffix it returns.
  */
  method Utf8TakeReverse(s: seq<byte>, p: Utf8.CodepointTest) returns (size: nat, outdst: nat)
    ensures outdst == TakeReverseFrom(s, p, |s|)
    ensures size == |s| - outdst
  {
    var offset: nat := |s|;
    while offset > 0
      invariant offset <= |s| && TakeReverseFrom(s, p, offset) == TakeReverseFrom(s, p, |s|)
      decreases offset
    {
      var start := Utf8.CodepointStart(s, offset);
      if !p(s[start..offset]) {
        break;
      }
      offset := start;
    }
    return |s| - offset, offset;
  }

  /** The codepoints from `j` up to `offset`, read backwards, all pass `p`. */
  ghost predicate AllPassBack(s: seq<byte>, p: Utf8.CodepointTest, j: nat, offset: nat)
    requires j <= offset <= |s|
    decreases offset
  {
    offset == j
    || (var start := Utf8.CodepointStart(s, offset);
        start >= j && p(s[start..offset]) && AllPassBack(s, p, j, start))
  }

  /**
    The backward scan stops at the end of a codepoint that fails `p`, or
    at 0, and every codepoint it stepped over passes.
  */
  lemma {:induction false} TakeReverseIsLongest(s: seq<byte>, p: Utf8.CodepointTest, offset: nat)
    requires offset <= |s|
    ensures var e := TakeReverseFrom(s, p, offset);
      && AllPassBack(s, p, e, offset)
      && (e == 0 || !p(s[Utf8.CodepointStart(s, e)..e]))
    decreases offset
  {
    if offset > 0 {
      var start := Utf8.CodepointStart(s, offset);
      if p(s[start..offset]) {
        TakeReverseIsLongest(s, p, start);
      }
    }
  }

  /**
    From a codepoint boundary `offset`, the backward scan stops at or
    after the end of any codepoint below it that fails `p`.
  */
  lemma {:induction false} TakeReverseStopsAfter(s: seq<byte>, p: Utf8.CodepointTest, offset: nat, b: nat)
    requires b < offset <= |s| && Utf8.Boundary(s, b) && (offset == |s| || Utf8.Boundary(s, offset))
    requires Utf8.CodepointEnd(s, b) <= offset && !p(s[b..Utf8.CodepointEnd(s, b)])
    ensures Utf8.CodepointEnd(s, b) <= TakeReverseFrom(s, p, offset)
    decreases offset
  {
    Utf8.CodepointStartSpans(s, offset);
    Utf8.CodepointEndSpans(s, b);
    var start := Utf8.CodepointStart(s, offset);
    if start > b && p(s[start..offset]) {
      TakeReverseStopsAfter(s, p, start, b);
    }
  }

  /**
    trim_whitespace of parser.c: the text between the leading and the
    trailing whitespace. Its `assert(start <= end)` never fails, and the
    text it finds is never empty.
  */
  function Trim(s: seq<byte>, ws: Utf8.CodepointTest): (r: Result<Utf8.Trimmed, Error>)
    ensures r.Ok?
    ensures r.value.start.None? <==> Utf8.Take(s, ws) == |s|
    ensures r.value.start.None? ==> r.value.size == 0
    ensures r.value.start.Some? ==>
      && r.value.start.value == Utf8.Take(s, ws)
      && r.value.start.value < r.value.start.value + r.value.size == TakeReverseFrom(s, ws, |s|) <= |s|
  {
    var leftlen := Utf8.Take(s, ws);
    if leftlen == |s| then Ok(Utf8.Trimmed(None, 0))
    else
      var end := TakeReverseFrom(s, ws, |s|);
      TrimBounds(s, ws);
      if leftlen > end then Err(AssertionFailed("start <= end"))
      else Ok(Utf8.Trimmed(Some(leftlen), end - leftlen))
  }

  lemma {:induction false} TrimBounds(s: seq<byte>, ws: Utf8.CodepointTest)
    requires Utf8.Take(s, ws) < |s|
    ensures Utf8.Take(s, ws) < TakeReverseFrom(s, ws, |s|)
  {
    var leftlen := Utf8.Take(s, ws);
    Utf8.TakeFromIsLongest(s, ws, 0, 0);
    Utf8.TakeFromBoundary(s, ws, 0);
    TakeReverseStopsAfter(s, ws, |s|, leftlen);
  }

  method TrimWhitespace(s: seq<byte>, ws: Utf8.CodepointTest) returns (len: nat, dst: Option<nat>)
    ensures Trim(s, ws) == Ok(Utf8.Trimmed(dst, len))
  {
    var leftlen := Utf8.Utf8Take(s, ws);
    if leftlen == |s| {
      return 0, None;
    }
    var _, end := Utf8TakeReverse(s, ws);
    TrimBounds(s, ws);
    return end - leftlen, Some(leftlen);
  }

  /**
    The trim of parser.c is exact: everything before the text is
    whitespace, everything after it is whitespace, and the text starts and
    ends with a codepoint that is not.
  */
  lemma {:induction false} TrimIsExact(s: seq<byte>, ws: Utf8.CodepointTest, a: nat, size: nat)
    requires Trim(s, ws) == Ok(Utf8.Trimmed(Some(a), size))
    ensures a < a + size <= |s|
    ensures Utf8.AllPass(s, ws, 0, a) && !ws(s[a..Utf8.CodepointEnd(s, a)])
    ensures !ws(s[Utf8.CodepointStart(s, a + size)..a + size]) && AllPassBack(s, ws, a + size, |s|)
  {
    TrimWindow(s, ws, a, size);
    TrimEnds(s, ws, a, a + size);
  }

  /** The window of a trim that finds text runs between the two scans. */
  lemma {:induction false} TrimWindow(s: seq<byte>, ws: Utf8.CodepointTest, a: nat, size: nat)
    requires Trim(s, ws) == Ok(Utf8.Trimmed(Some(a), size))
    ensures a == Utf8.Take(s, ws) && a + size == TakeReverseFrom(s, ws, |s|) && a < a + size <= |s|
  {
  }

  lemma {:induction false} TrimEnds(s: seq<byte>, ws: Utf8.CodepointTest, a: nat, e: nat)
    requires a == Utf8.Take(s, ws) && e == TakeReverseFrom(s, ws, |s|) && a < e <= |s|
    ensures Utf8.AllPass(s, ws, 0, a) && !ws(s[a..Utf8.CodepointEnd(s, a)])
    ensures !ws(s[Utf8.CodepointStart(s, e)..e]) && AllPassBack(s, ws, e, |s|)
  {
    Utf8.TakeFromIsLongest(s, ws, 0, 0);
    TakeReverseIsLongest(s, ws, |s|);
  }

  /** The two backward scans stop at the two ends of the same codepoint. */
  lemma {:induction false} ReverseScansAgree(s: seq<byte>, p: Utf8.CodepointTest, offset: nat)
    requires offset <= |s|
    ensures var e := TakeReverseFrom(s, p, offset);
      Utf8.TakeReverseFrom(s, p, offset) == if e == 0 then 0 else Utf8.CodepointStart(s, e)
    decreases offset
  {
    if offset > 0 {
      var start := Utf8.CodepointStart(s, offset);
      if p(s[start..offset]) {
        ReverseScansAgree(s, p, start);
      }
    }
  }

  /**
    The trim of utf8.c measures up to the start of the last
    non-whitespace codepoint plus one byte: it agrees with the exact trim
    of parser.c exactly when that codepoint is a single byte.
  */
  lemma {:induction false} TrimsAgreeOnSingleByteEnd(s: seq<byte>, ws: Utf8.CodepointTest)
    requires Trim(s, ws).value.start.Some?
    ensures var t := Trim(s, ws).value;
      var e := t.start.value + t.size;
      && Utf8.Trim(s, ws).Ok?
      && Utf8.Trim(s, ws).value.start == t.start
      && (Utf8.Trim(s, ws).value.size == t.size <==> Utf8.CodepointStart(s, e) == e - 1)
  {
    Utf8.TrimNeverFails(s, ws);
    ReverseScansAgree(s, ws, |s|);
  }

  /**
    On the two-byte codepoint U+00E9 with nothing around it, the trim of
    utf8.c reports one byte where the exact trim reports two.
  */
  lemma {:induction false} TrimOfTwoByteCodepoint(ws: Utf8.CodepointTest)
    requires !ws([0xC3, 0xA9])
    ensures Trim([0xC3, 0xA9], ws) == Ok(Utf8.Trimmed(Some(0), 2))
    ensures Utf8.Trim([0xC3, 0xA9], ws) == Ok(Utf8.Trimmed(Some(0), 1))
  {
    var s: seq<byte> := [0xC3, 0xA9];
    assert Utf8.CodepointEnd(s, 0) == 2;
    assert s[0..2] == s;
    assert Utf8.CodepointStart(s, 2) == 0;
    assert s[0..2] == s;
  }

  // ---------------------------------------------------------------------
  // valid_exp_into_object and valid_sexp_into_cons

  /**
    valid_exp_into_object: trim the text; nothing left gives NULL; text
    that starts with `(` gives the list read by valid_sexp_into_cons, or
    an object of kind SCHEME_NULL when that list is empty; any other text
    is a symbol holding the trimmed bytes.
  */
  function Parse(s: seq<byte>, ws: Utf8.CodepointTest): Result<Parsed, Error>
    decreases |s|, 2, 0
  {
    var t := Trim(s, ws).value;
    if t.start.None? || t.size == 0 then Ok(Missing)
    else ParseExp(s[t.start.value..t.start.value + t.size], ws)
  }

  /** valid_exp_into_object once the text is trimmed and not empty. */
  function ParseExp(exp: seq<byte>, ws: Utf8.CodepointTest): Result<Parsed, Error>
    requires |exp| > 0
    decreases |exp|, 1, 1
  {
    if exp[0] != Utf8.OpenParen then Ok(SymbolObject(exp))
    else
      var items := SexpIntoCons(exp, ws);
      if items.Err? then Err(items.error)
      else if items.value.None? then Ok(NullObject)
      else Ok(ConsList(items.value.value))
  }

  /**
    valid_sexp_into_cons: the items between the `(` the text starts with
    and the `)` that matches it, each read by valid_exp_into_object; None
    for NULL, when there is no item. Text after the matching `)` is not
    looked at.
  */
  function SexpIntoCons(exp: seq<byte>, ws: Utf8.CodepointTest): Result<Option<seq<Parsed>>, Error>
    decreases |exp|, 1, 0
  {
    if |exp| == 0 then Ok(None)
    else if exp[0] != Utf8.OpenParen then Err(AssertionFailed("sexp[0] == '('"))
    else
      var close := Utf8.Scan2(exp);
      if close.Err? then Err(close.error)
      else
        Utf8.Scan2Bounds(exp);
        var inner := exp[1..close.value - 1];
        var first := Utf8.TokLisp(inner, ws);
        if first.Err? then Err(first.error)
        else if first.value.start.None? then Ok(None)
        else
          var items := Items(inner, ws);
          if items.Err? then Err(items.error) else Ok(Some(items.value))
  }

  /**
    The items of the window `rest`, one per token of utf8_tok_lisp: the
    first token's item, then the items of the window after that token.
  */
  function Items(rest: seq<byte>, ws: Utf8.CodepointTest): Result<seq<Parsed>, Error>
    decreases |rest| + 1, 0, 1
  {
    var token := Utf8.TokLisp(rest, ws);
    if token.Err? then Err(token.error)
    else if token.value.start.None? then Ok([])
    else ItemsAt(rest, ws, token.value)
  }

  /** The item of `token`, found at the head of `rest`, then the items after it. */
  function ItemsAt(rest: seq<byte>, ws: Utf8.CodepointTest, token: Utf8.Token): Result<seq<Parsed>, Error>
    requires token.leading + token.size <= |rest| && token.size > 0
    decreases |rest| + 1, 0, 0
  {
    var a := token.leading;
    var e := a + token.size;
    Joined(Parse(rest[a..e], ws), Items(rest[e..], ws))
  }

  /** An item before the items after it; the item's error comes first, as the C loop meets it first. */
  function Joined(item: Result<Parsed, Error>, rest: Result<seq<Parsed>, Error>): Result<seq<Parsed>, Error> {
    if item.Err? then Err(item.error) else Followed([item.value], rest)
  }

  /** The items read so far followed by those still to come. */
  function Followed(items: seq<Parsed>, rest: Result<seq<Parsed>, Error>): Result<seq<Parsed>, Error> {
    if rest.Ok? then Ok(items + rest.value) else rest
  }

  /** valid_exp_into_object as the C code computes it. */
  method ValidExpIntoObject(s: seq<byte>, ws: Utf8.CodepointTest) returns (r: Result<Parsed, Error>)
    ensures r == Parse(s, ws)
    decreases |s|, 2, 0
  {
    var len, dst := TrimWhitespace(s, ws);
    if dst.None? || len == 0 {
      return Ok(Missing);
    }
    var exp := s[dst.value..dst.value + len];
    if exp[0] == Utf8.OpenParen {
      var subcons := ValidSexpIntoCons(exp, ws);
      if subcons.Err? {
        return Err(subcons.error);
      }
      return Ok(if subcons.value.None? then NullObject else ConsList(subcons.value.value));
    }
    return Ok(SymbolObject(exp));
  }

  /**
    valid_sexp_into_cons as the C code computes it: a loop that reads one
    token at a time from the window between the parentheses, shrinking the
    window by the token and the whitespace before it.
  */
  method ValidSexpIntoCons(exp: seq<byte>, ws: Utf8.CodepointTest) returns (r: Result<Option<seq<Parsed>>, Error>)
    ensures r == SexpIntoCons(exp, ws)
    decreases |exp|, 1, 0
  {
    if |exp| == 0 {
      return Ok(None);
    }
    if exp[0] != Utf8.OpenParen {
      return Err(AssertionFailed("sexp[0] == '('"));
    }
    var close := Utf8.Scan2ForClosingParen(exp);
    if close.Err? {
      return Err(close.error);
    }
    Utf8.Scan2Bounds(exp);
    var inner := exp[1..close.value - 1];
    var first := Utf8.Utf8TokLisp(inner, ws);
    if first.Err? {
      return Err(first.error);
    }
    if first.value.start.None? {
      return Ok(None);
    }
    var items := ReadItems(inner, ws, first.value);
    if items.Err? {
      return Err(items.error);
    }
    return Ok(Some(items.value));
  }

  /** The loop of valid_sexp_into_cons, from the first token of `inner` on. */
  method ReadItems(inner: seq<byte>, ws: Utf8.CodepointTest, first: Utf8.Token) returns (r: Result<seq<Parsed>, Error>)
    requires Utf8.TokLisp(inner, ws) == Ok(first) && first.start.Some?
    ensures r == Items(inner, ws)
    decreases |inner| + 1, 0, 0
  {
    var token := first;
    var rest := inner;
    var items: seq<Parsed> := [];
    ghost var whole := Items(inner, ws);
    ReadStart(whole);
    while true
      invariant |rest| <= |inner|
      invariant Utf8.TokLisp(rest, ws) == Ok(token) && token.start.Some?
      invariant whole == Followed(items, Items(rest, ws))
      decreases |rest|
    {
      var a := token.leading;
      var e := a + token.size;
      ItemsStep(rest, ws, token);
      var value := ValidExpIntoObject(rest[a..e], ws);
      if value.Err? {
        ReadFails(whole, items, Items(rest, ws), value.error);
        return Err(value.error);
      }
      ReadAdvances(whole, items, value.value, Items(rest, ws), Items(rest[e..], ws));
      items := items + [value.value];
      rest := rest[e..];
      var next := Utf8.Utf8TokLisp(rest, ws);
      if next.Err? {
        TokenFails(rest, ws, next.error);
        ReadFails(whole, items, Items(rest, ws), next.error);
        return Err(next.error);
      }
      if next.value.start.None? {
        NoMoreTokens(rest, ws, next.value);
        ReadEnds(whole, items, Items(rest, ws));
        break;
      }
      token := next.value;
    }
    return Ok(items);
  }

  lemma {:induction false} ReadStart(whole: Result<seq<Parsed>, Error>)
    ensures whole == Followed([], whole)
  {
    if whole.Ok? {
      assert [] + whole.value == whole.value;
    }
  }

  /** One step of Items: the first token's item joined to the items after it. */
  lemma {:induction false} ItemsStep(rest: seq<byte>, ws: Utf8.CodepointTest, token: Utf8.Token)
    requires Utf8.TokLisp(rest, ws) == Ok(token) && token.start.Some?
    ensures 0 < token.leading + token.size <= |rest| && token.size > 0
    ensures Items(rest, ws) == Joined(Parse(rest[token.leading..token.leading + token.size], ws), Items(rest[token.leading + token.size..], ws))
  {
    ItemsToken(rest, ws, token);
    ItemsAtUnfolds(rest, ws, token);
  }

  lemma {:induction false} ItemsToken(rest: seq<byte>, ws: Utf8.CodepointTest, token: Utf8.Token)
    requires Utf8.TokLisp(rest, ws) == Ok(token) && token.start.Some?
    ensures token.leading + token.size <= |rest| && token.size > 0
    ensures Items(rest, ws) == ItemsAt(rest, ws, token)
  {
  }

  lemma {:induction false} ItemsAtUnfolds(rest: seq<byte>, ws: Utf8.CodepointTest, token: Utf8.Token)
    requires token.leading + token.size <= |rest| && token.size > 0
    ensures ItemsAt(rest, ws, token) == Joined(Parse(rest[token.leading..token.leading + token.size], ws), Items(rest[token.leading + token.size..], ws))
  {
  }

  lemma {:induction false} TokenFails(rest: seq<byte>, ws: Utf8.CodepointTest, error: Error)
    requires Utf8.TokLisp(rest, ws) == Err(error)
    ensures Items(rest, ws) == Err(error)
  {
  }

  lemma {:induction false} NoMoreTokens(rest: seq<byte>, ws: Utf8.CodepointTest, token: Utf8.Token)
    requires Utf8.TokLisp(rest, ws) == Ok(token) && token.start.None?
    ensures Items(rest, ws) == Ok([])
  {
  }

  lemma {:induction false} ReadFails(whole: Result<seq<Parsed>, Error>, items: seq<Parsed>, rest: Result<seq<Parsed>, Error>, error: Error)
    requires whole == Followed(items, rest) && rest == Err(error)
    ensures whole == Err(error)
  {
  }

  lemma {:induction false} ReadAdvances(whole: Result<seq<Parsed>, Error>, items: seq<Parsed>, item: Parsed, rest: Result<seq<Parsed>, Error>, after: Result<seq<Parsed>, Error>)
    requires whole == Followed(items, rest) && rest == Followed([item], after)
    ensures whole == Followed(items + [item], after)
  {
    if after.Ok? {
      assert items + ([item] + after.value) == (items + [item]) + after.value;
    }
  }

  lemma {:induction false} ReadEnds(whole: Result<seq<Parsed>, Error>, items: seq<Parsed>, rest: Result<seq<Parsed>, Error>)
    requires whole == Followed(items, rest) && rest == Ok([])
    ensures whole == Ok(items)
  {
    assert items + [] == items;
  }
}
