/**
  The byte scanners of utf8.c: codepoint-wise prefix and suffix scans,
  the parenthesis checks and scanners, the two tokenizers and the
  whitespace trim.

  A C call `f(ptr, len)` is modelled by `f(s)` where `s` is the window of
  `len` bytes at `ptr`; an offset into `s` stands for a pointer into the
  window. A codepoint starts at every byte that is not a UTF-8
  continuation byte (10xxxxxx) and runs over the continuation bytes
  after it; the whitespace test of utf8proc is the parameter `ws`, a
  predicate on the bytes of one codepoint.
*/
module Utf8 {
  import opened Wrappers
  import opened Errors
  import opened CString

  const OpenParen: byte := 0x28
  const CloseParen: byte := 0x29

  /** A test on the bytes of one codepoint. */
  type CodepointTest = seq<byte> -> bool

  /** The inverted predicate not_is_whitespace. */
  function Not(p: CodepointTest): CodepointTest {
    cp => !p(cp)
  }

  /** A byte of the form 10xxxxxx, which continues a multi-byte codepoint. */
  predicate IsContinuation(b: byte) {
    0x80 <= b < 0xC0
  }

  /** The first position at or after `j` that does not hold a continuation byte. */
  function ContinuationEnd(s: seq<byte>, j: nat): (e: nat)
    requires j <= |s|
    ensures j <= e <= |s|
    ensures e == |s| || !IsContinuation(s[e])
    decreases |s| - j
  {
    if j < |s| && IsContinuation(s[j]) then ContinuationEnd(s, j + 1) else j
  }

  /** utf8proc_iterate: the end of the codepoint whose first byte is at `i`. */
  function CodepointEnd(s: seq<byte>, i: nat): (e: nat)
    requires i < |s|
    ensures i < e <= |s|
    ensures e == |s| || !IsContinuation(s[e])
  {
    ContinuationEnd(s, i + 1)
  }

  /** utf8proc_iterate_reverse: the start of the codepoint that ends at `j`. */
  function CodepointStart(s: seq<byte>, j: nat): (r: nat)
    requires 0 < j <= |s|
    ensures r < j
    ensures r == 0 || !IsContinuation(s[r])
    decreases j
  {
    if j - 1 == 0 || !IsContinuation(s[j - 1]) then j - 1 else CodepointStart(s, j - 1)
  }

  /** The bytes a codepoint scan runs over are all continuation bytes. */
  lemma {:induction false} ContinuationSpan(s: seq<byte>, j: nat, k: nat)
    requires j <= |s| && j <= k < ContinuationEnd(s, j)
    ensures IsContinuation(s[k])
    decreases |s| - j
  {
    if k > j {
      ContinuationSpan(s, j + 1, k);
    }
  }

  lemma {:induction false} CodepointEndSpan(s: seq<byte>, i: nat, k: nat)
    requires i < |s| && i < k < CodepointEnd(s, i)
    ensures IsContinuation(s[k])
  {
    ContinuationSpan(s, i + 1, k);
  }

  lemma {:induction false} CodepointStartSpan(s: seq<byte>, j: nat, k: nat)
    requires 0 < j <= |s| && CodepointStart(s, j) < k < j
    ensures IsContinuation(s[k])
    decreases j
  {
    if k < j - 1 {
      CodepointStartSpan(s, j - 1, k);
    }
  }

  lemma {:induction false} CodepointEndSpans(s: seq<byte>, i: nat)
    requires i < |s|
    ensures forall k :: i < k < CodepointEnd(s, i) ==> IsContinuation(s[k])
  {
    forall k | i < k < CodepointEnd(s, i)
      ensures IsContinuation(s[k])
    {
      CodepointEndSpan(s, i, k);
    }
  }

  lemma {:induction false} CodepointStartSpans(s: seq<byte>, j: nat)
    requires 0 < j <= |s|
    ensures forall k :: CodepointStart(s, j) < k < j ==> IsContinuation(s[k])
  {
    forall k | CodepointStart(s, j) < k < j
      ensures IsContinuation(s[k])
    {
      CodepointStartSpan(s, j, k);
    }
  }

  lemma {:induction false} ContinuationEndShift(s: seq<byte>, a: nat, j: nat)
    requires a + j <= |s|
    ensures ContinuationEnd(s[a..], j) == ContinuationEnd(s, a + j) - a
    decreases |s| - a - j
  {
    if a + j < |s| && IsContinuation(s[a + j]) {
      ContinuationEndShift(s, a, j + 1);
    }
  }

  /** A codepoint reads the same in a window that starts at or before it. */
  lemma {:induction false} CodepointEndShift(s: seq<byte>, a: nat, i: nat)
    requires a + i < |s|
    ensures CodepointEnd(s[a..], i) == CodepointEnd(s, a + i) - a
    ensures s[a..][i..CodepointEnd(s[a..], i)] == s[a + i..CodepointEnd(s, a + i)]
  {
    ContinuationEndShift(s, a, i + 1);
  }

  /** A position where a codepoint starts. */
  predicate Boundary(s: seq<byte>, i: nat) {
    i == 0 || (i < |s| && !IsContinuation(s[i]))
  }

  /** Stepping back from the end of a codepoint finds its start. */
  lemma {:induction false} StartOfEnd(s: seq<byte>, i: nat)
    requires i < |s| && Boundary(s, i)
    ensures CodepointStart(s, CodepointEnd(s, i)) == i
  {
    CodepointEndSpans(s, i);
    StartOver(s, i, CodepointEnd(s, i));
  }

  /** Stepping back over continuation bytes stops at the boundary before them. */
  lemma {:induction false} StartOver(s: seq<byte>, i: nat, j: nat)
    requires i < j <= |s| && Boundary(s, i)
    requires forall k :: i < k < j ==> IsContinuation(s[k])
    ensures CodepointStart(s, j) == i
    decreases j
  {
    if j - 1 > i {
      StartOver(s, i, j - 1);
    }
  }

  // ---------------------------------------------------------------------
  // utf8_take

  /** The codepoints from `i` up to `j` all pass `p`. */
  ghost predicate AllPass(s: seq<byte>, p: CodepointTest, i: nat, j: nat)
    requires i <= j <= |s|
    decreases j - i
  {
    i == j
    || (CodepointEnd(s, i) <= j && p(s[i..CodepointEnd(s, i)]) && AllPass(s, p, CodepointEnd(s, i), j))
  }

  /** utf8_take from offset `i`: the end of the run of codepoints that pass `p`. */
  function TakeFrom(s: seq<byte>, p: CodepointTest, i: nat): (r: nat)
    requires i <= |s|
    ensures i <= r <= |s|
    decreases |s| - i
  {
    if i == |s| then i
    else
      var e := CodepointEnd(s, i);
      if !p(s[i..e]) then i else TakeFrom(s, p, e)
  }

  /** utf8_take: the byte length of the longest prefix of codepoints that pass `p`. */
  function Take(s: seq<byte>, p: CodepointTest): nat
    ensures Take(s, p) <= |s|
  {
    TakeFrom(s, p, 0)
  }

  /**
    The run found from `i` consists of passing codepoints and stops at the
    end of the window or at a codepoint that fails; every run of passing
    codepoints from `i` ends within it.
  */
  lemma {:induction false} TakeFromIsLongest(s: seq<byte>, p: CodepointTest, i: nat, j: nat)
    requires i <= j <= |s|
    ensures var r := TakeFrom(s, p, i);
      && AllPass(s, p, i, r)
      && (r == |s| || !p(s[r..CodepointEnd(s, r)]))
      && (AllPass(s, p, i, j) ==> j <= r)
    decreases |s| - i
  {
    if i < |s| {
      var e := CodepointEnd(s, i);
      if p(s[i..e]) {
        if e <= j {
          TakeFromIsLongest(s, p, e, j);
        } else {
          TakeFromIsLongest(s, p, e, e);
        }
      }
    }
  }

  /** A scan whose first codepoint passes takes at least that codepoint. */
  lemma {:induction false} TakeFirstPasses(s: seq<byte>, p: CodepointTest)
    requires |s| > 0 && p(s[..CodepointEnd(s, 0)])
    ensures Take(s, p) >= CodepointEnd(s, 0)
  {
  }

  /** After the leading run, the rest of the window starts with a codepoint that fails `p`. */
  lemma {:induction false} TakeThenRest(s: seq<byte>, p: CodepointTest)
    requires Take(s, p) < |s|
    ensures var n := Take(s, p);
      Take(s[n..], Not(p)) >= CodepointEnd(s[n..], 0) > 0
  {
    var n := Take(s, p);
    TakeFromIsLongest(s, p, 0, 0);
    CodepointEndShift(s, n, 0);
    TakeFirstPasses(s[n..], Not(p));
  }

  /** utf8_take as the C loop computes it. */
  method Utf8Take(s: seq<byte>, p: CodepointTest) returns (n: nat)
    ensures n == Take(s, p)
  {
    if |s| == 0 {
      return 0;
    }
    var ptr := 0;
    while ptr < |s|
      invariant ptr <= |s| && TakeFrom(s, p, ptr) == Take(s, p)
      decreases |s| - ptr
    {
      var e := CodepointEnd(s, ptr);
      if !p(s[ptr..e]) {
        break;
      }
      ptr := e;
    }
    return ptr;
  }

  // ---------------------------------------------------------------------
  // utf8_take_reverse, as utf8.c writes it: step back, then test

  /**
    The backward scan of utf8.c from offset `offset`: it steps back over a
    codepoint and then tests it, so it stops at the START of the last
    codepoint that fails `p`, or at 0.
  */
  function TakeReverseFrom(s: seq<byte>, p: CodepointTest, offset: nat): (r: nat)
    requires offset <= |s|
    ensures r <= offset
    decreases offset
  {
    if offset == 0 then 0
    else
      var start := CodepointStart(s, offset);
      if !p(s[start..offset]) then start else TakeReverseFrom(s, p, start)
  }

  method Utf8TakeReverse(s: seq<byte>, p: CodepointTest) returns (offset: nat)
    ensures offset == TakeReverseFrom(s, p, |s|)
  {
    offset := |s|;
    while offset > 0
      invariant offset <= |s| && TakeReverseFrom(s, p, offset) == TakeReverseFrom(s, p, |s|)
      decreases offset
    {
      var start := CodepointStart(s, offset);
      var codepoint := s[start..offset];
      offset := start;
      if !p(codepoint) {
        break;
      }
    }
  }

  // ---------------------------------------------------------------------
  // verify_matching_parens

  /** The count of `(` minus the count of `)` among the first `k` bytes. */
  function Depth(s: seq<byte>, k: nat): int
    requires k <= |s|
  {
    if k == 0 then 0
    else Depth(s, k - 1) + (if s[k - 1] == OpenParen then 1 else if s[k - 1] == CloseParen then -1 else 0)
  }

  /** Parentheses that match: the running depth never drops below zero and ends at zero. */
  ghost predicate Balanced(s: seq<byte>) {
    && (forall k :: 0 <= k <= |s| ==> Depth(s, k) >= 0)
    && Depth(s, |s|) == 0
  }

  /**
    The integer `max` of minmax.h, which MAX expands to for `int`
    arguments: as written it answers the smaller argument.
  */
  function Max(x: int, y: int): (r: int)
    ensures r == x || r == y
  {
    if y < x then y else x
  }

  lemma {:induction false} MaxIsMinimum(x: int, y: int)
    ensures Max(x, y) <= x && Max(x, y) <= y
  {
  }

  /**
    verify_matching_parens: whether the parentheses match, and the depth
    written through `maxdepth`, which is written on success only (None
    stands for an untouched out-parameter). Because MAX answers the smaller
    argument, the depth written is always 0.
  */
  method VerifyMatchingParens(s: seq<byte>) returns (ok: bool, maxdepth: Option<int>)
    ensures ok <==> Balanced(s)
    ensures ok ==> maxdepth == Some(0)
    ensures !ok ==> maxdepth == None
  {
    var count := 0;
    var imaxdepth := 0;
    var i := 0;
    while i < |s|
      invariant 0 <= i <= |s|
      invariant count == Depth(s, i)
      invariant forall k :: 0 <= k <= i ==> Depth(s, k) >= 0
      invariant imaxdepth == 0
    {
      if s[i] == OpenParen {
        count := count + 1;
        imaxdepth := Max(imaxdepth, count);
      } else if s[i] == CloseParen {
        count := count - 1;
      }
      if count < 0 {
        assert Depth(s, i + 1) < 0;
        return false, None;
      }
      i := i + 1;
    }
    if count != 0 {
      return false, None;
    }
    return true, Some(imaxdepth);
  }

  // ---------------------------------------------------------------------
  // strnrchr and scan_for_closing_paren

  /**
    strnrchr as utf8.c writes it: the loop counts `size` down but always
    tests `string[size - 1]` with the index fixed at its first value, so
    only the last byte of the window is ever looked at.
  */
  method Strnrchr(s: seq<byte>, c: byte) returns (r: Option<nat>)
    ensures r == (if |s| > 0 && s[|s| - 1] == c then Some(|s| - 1) else None)
  {
    if |s| == 0 {
      return None;
    }
    var i := |s| - 1;
    var size := |s|;
    while size > 0
      invariant size <= |s|
      invariant size < |s| ==> s[i] != c
    {
      if s[i] == c {
        return Some(i);
      }
      size := size - 1;
    }
    return None;
  }

  /**
    scan_for_closing_paren: the window must start with `(`, which is read
    even when the window is empty (the NUL after it in the model), and
    strnrchr must find a `)`; the answer is one past the byte found.
  */
  function ScanForClosingParen(s: seq<byte>): (r: Result<nat, Error>)
    ensures r.Ok? <==> CharAt(s, 0) == OpenParen && |s| > 0 && s[|s| - 1] == CloseParen
    ensures r.Ok? ==> r.value == |s|
  {
    if CharAt(s, 0) != OpenParen then Err(AssertionFailed("utf8[0] == '('"))
    else if |s| > 0 && s[|s| - 1] == CloseParen then Ok(|s|)
    else Err(AssertionFailed("pos != NULL"))
  }

  method ScanForClosingParenMethod(s: seq<byte>) returns (r: Result<nat, Error>)
    ensures r == ScanForClosingParen(s)
  {
    if CharAt(s, 0) != OpenParen {
      return Err(AssertionFailed("utf8[0] == '('"));
    }
    var pos := Strnrchr(s, CloseParen);
    if pos.None? {
      return Err(AssertionFailed("pos != NULL"));
    }
    return Ok(pos.value + 1);
  }

  /**
    The closing parenthesis scan_for_closing_paren reports is the last
    byte of the window, not the one that matches the opening parenthesis:
    in `(a) b)` it reports the end of the window.
  */
  lemma {:induction false} ClosingParenIsLastByte()
    ensures ScanForClosingParen([OpenParen, 0x61, CloseParen, 0x20, 0x62, CloseParen]) == Ok(6)
    ensures ScanForClosingParen([OpenParen, 0x61, CloseParen, 0x20]).Err?
  {
  }

  // ---------------------------------------------------------------------
  // scan2_for_closing_paren

  /** The loop of scan2_for_closing_paren from index `i` with depth `count`. */
  function Scan2From(s: seq<byte>, i: nat, count: int): (r: Result<nat, Error>)
    requires 1 <= i <= |s|
    decreases |s| - i
  {
    if i == |s| then Err(AssertionFailed("count == 0"))
    else
      var next := count + (if s[i] == OpenParen then 1 else if s[i] == CloseParen then -1 else 0);
      if next == 0 then Ok(i + 1) else Scan2From(s, i + 1, next)
  }

  /**
    scan2_for_closing_paren: one past the parenthesis that brings the depth
    back to zero, counting from the `(` the window starts with.
  */
  function Scan2(s: seq<byte>): Result<nat, Error> {
    if CharAt(s, 0) != OpenParen then Err(AssertionFailed("utf8[0] == '('"))
    else if |s| <= 1 then Err(AssertionFailed("count == 0"))
    else Scan2From(s, 1, 1)
  }

  method Scan2ForClosingParen(s: seq<byte>) returns (r: Result<nat, Error>)
    ensures r == Scan2(s)
  {
    if CharAt(s, 0) != OpenParen {
      return Err(AssertionFailed("utf8[0] == '('"));
    }
    var count := 1;
    var i := 1;
    while i < |s|
      invariant 1 <= i && (|s| > 1 ==> i <= |s|)
      invariant |s| > 1 ==> Scan2From(s, i, count) == Scan2(s)
      decreases |s| - i
    {
      if s[i] == OpenParen {
        count := count + 1;
      } else if s[i] == CloseParen {
        count := count - 1;
      }
      if count == 0 {
        return Ok(i + 1);
      }
      i := i + 1;
    }
    return Err(AssertionFailed("count == 0"));
  }

  lemma {:induction false} Scan2FromFinds(s: seq<byte>, i: nat, count: int)
    requires 1 <= i <= |s| && s[0] == OpenParen
    requires count == Depth(s, i) && forall j :: 1 <= j <= i ==> Depth(s, j) > 0
    ensures var r := Scan2From(s, i, count);
      r.Ok? ==>
        && i < r.value <= |s| && s[r.value - 1] == CloseParen && Depth(s, r.value) == 0
        && forall j :: 1 <= j < r.value ==> Depth(s, j) > 0
    ensures (exists k :: i < k <= |s| && Depth(s, k) == 0) ==> Scan2From(s, i, count).Ok?
    decreases |s| - i
  {
    if i < |s| {
      var next := count + (if s[i] == OpenParen then 1 else if s[i] == CloseParen then -1 else 0);
      assert next == Depth(s, i + 1);
      if next != 0 {
        Scan2FromFinds(s, i + 1, next);
        if exists k :: i < k <= |s| && Depth(s, k) == 0 {
          var k :| i < k <= |s| && Depth(s, k) == 0;
          assert k != i + 1;
        }
      }
    }
  }

  /**
    Starting at `(`, scan2_for_closing_paren answers the first position
    after which the depth is back to zero: that byte is the matching `)`,
    and the depth stays positive before it. It answers whenever the depth
    does return to zero, in particular on balanced input.
  */
  lemma {:induction false} Scan2FindsMatch(s: seq<byte>)
    ensures var r := Scan2(s);
      r.Ok? ==>
        && CharAt(s, 0) == OpenParen && 2 <= r.value <= |s| && s[r.value - 1] == CloseParen
        && Depth(s, r.value) == 0
        && forall j :: 1 <= j < r.value ==> Depth(s, j) > 0
    ensures CharAt(s, 0) == OpenParen && (exists k :: 0 < k <= |s| && Depth(s, k) == 0) ==> Scan2(s).Ok?
  {
    if CharAt(s, 0) == OpenParen {
      assert Depth(s, 1) == 1;
      if |s| > 1 {
        Scan2FromFinds(s, 1, 1);
      }
    }
  }

  /** Where scan2_for_closing_paren answers, the answer lies inside the window. */
  lemma {:induction false} Scan2Bounds(s: seq<byte>)
    ensures Scan2(s).Ok? ==> 2 <= Scan2(s).value <= |s|
  {
    Scan2FindsMatch(s);
  }

  /** A balanced window that starts with `(` has its match. */
  lemma {:induction false} BalancedHasMatch(s: seq<byte>)
    requires Balanced(s) && |s| > 0 && s[0] == OpenParen
    ensures Scan2(s).Ok?
  {
    Scan2FindsMatch(s);
  }

  // ---------------------------------------------------------------------
  // The tokenizers and the trim

  /**
    What a tokenizer reports: the leading whitespace it skipped, the offset
    of the token (`outdst`, None for NULL) and the token's length.
  */
  datatype Token = Token(leading: nat, start: Option<nat>, size: nat)

  /** utf8_tok_whitespace: leading whitespace, then the run of non-whitespace after it. */
  function TokWhitespace(s: seq<byte>, ws: CodepointTest): (t: Token)
    ensures t.leading == Take(s, ws)
    ensures t.start.None? <==> t.leading == |s|
    ensures t.start.Some? ==> t.start.value == t.leading && t.size == Take(s[t.leading..], Not(ws))
    ensures t.start.None? ==> t.size == 0
    ensures t.leading + t.size <= |s|
    ensures t.start.Some? ==> t.size > 0
  {
    var leading := Take(s, ws);
    if leading == |s| then Token(leading, None, 0)
    else
      TakeThenRest(s, ws);
      Token(leading, Some(leading), Take(s[leading..], Not(ws)))
  }

  /**
    utf8_tok_lisp: as utf8_tok_whitespace, except that a token starting
    with `(` runs to its matching `)`.
  */
  function TokLisp(s: seq<byte>, ws: CodepointTest): (r: Result<Token, Error>)
    ensures r.Ok? ==> r.value.leading == Take(s, ws)
    ensures r.Ok? ==> (r.value.start.None? <==> r.value.leading == |s|)
    ensures r.Ok? ==> r.value.leading + r.value.size <= |s|
    ensures r.Ok? && r.value.start.Some? ==> r.value.start.value == r.value.leading && r.value.size > 0
    ensures r.Ok? && r.value.start.Some? && s[r.value.leading] != OpenParen ==>
      r.value.size == Take(s[r.value.leading..], Not(ws))
    ensures r.Ok? && r.value.start.Some? && s[r.value.leading] == OpenParen ==>
      Scan2(s[r.value.leading..]) == Ok(r.value.size)
  {
    var leading := Take(s, ws);
    if leading == |s| then Ok(Token(leading, None, 0))
    else if s[leading] == OpenParen then
      var size := Scan2(s[leading..]);
      Scan2FindsMatch(s[leading..]);
      if size.Err? then Err(size.error) else Ok(Token(leading, Some(leading), size.value))
    else
      TakeThenRest(s, ws);
      Ok(Token(leading, Some(leading), Take(s[leading..], Not(ws))))
  }

  method Utf8TokWhitespace(s: seq<byte>, ws: CodepointTest) returns (size: nat, outdst: Option<nat>, outleading: nat)
    ensures Token(outleading, outdst, size) == TokWhitespace(s, ws)
  {
    var leading := Utf8Take(s, ws);
    if leading == |s| {
      return 0, None, leading;
    }
    size := Utf8Take(s[leading..], Not(ws));
    return size, Some(leading), leading;
  }

  method Utf8TokLisp(s: seq<byte>, ws: CodepointTest) returns (r: Result<Token, Error>)
    ensures r == TokLisp(s, ws)
  {
    var leading := Utf8Take(s, ws);
    if leading == |s| {
      return Ok(Token(leading, None, 0));
    }
    if s[leading] == OpenParen {
      var size := Scan2ForClosingParen(s[leading..]);
      if size.Err? {
        return Err(size.error);
      }
      return Ok(Token(leading, Some(leading), size.value));
    }
    var size := Utf8Take(s[leading..], Not(ws));
    return Ok(Token(leading, Some(leading), size));
  }

  /** What trim_whitespace reports: the offset of the trimmed text (`dst`, None for NULL) and its length. */
  datatype Trimmed = Trimmed(start: Option<nat>, size: nat)

  /**
    trim_whitespace as utf8.c writes it: the text starts after the leading
    whitespace, and its length is measured up to the START of the last
    non-whitespace codepoint, plus one.
  */
  function Trim(s: seq<byte>, ws: CodepointTest): Result<Trimmed, Error> {
    var leftlen := Take(s, ws);
    if leftlen == |s| then Ok(Trimmed(None, 0))
    else
      var end := TakeReverseFrom(s, ws, |s|);
      if leftlen > end then Err(AssertionFailed("start <= end"))
      else Ok(Trimmed(Some(leftlen), end - leftlen + 1))
  }

  method TrimWhitespace(s: seq<byte>, ws: CodepointTest) returns (len: nat, dst: Option<nat>)
    ensures Trim(s, ws) == Ok(Trimmed(dst, len))
  {
    var leftlen := Utf8Take(s, ws);
    if leftlen == |s| {
      return 0, None;
    }
    var end := Utf8TakeReverse(s, ws);
    TrimNeverFails(s, ws);
    return end - leftlen + 1, Some(leftlen);
  }

  /**
    The backward scan passes every codepoint boundary down to where it
    stops: from a boundary `offset`, it stops at or above any boundary `b`
    below it whose codepoint fails `p`.
  */
  lemma {:induction false} TakeReverseStopsAbove(s: seq<byte>, p: CodepointTest, offset: nat, b: nat)
    requires b < offset <= |s| && Boundary(s, b) && (offset == |s| || Boundary(s, offset))
    requires CodepointEnd(s, b) <= offset && !p(s[b..CodepointEnd(s, b)])
    ensures b <= TakeReverseFrom(s, p, offset)
    decreases offset
  {
    CodepointStartSpans(s, offset);
    CodepointEndSpans(s, b);
    var start := CodepointStart(s, offset);
    if start > b && p(s[start..offset]) {
      TakeReverseStopsAbove(s, p, start, b);
    }
  }

  /** The assertion `start <= end` of trim_whitespace holds on every input. */
  lemma {:induction false} TrimNeverFails(s: seq<byte>, ws: CodepointTest)
    ensures Trim(s, ws).Ok?
  {
    var leftlen := Take(s, ws);
    if leftlen < |s| {
      TakeFromIsLongest(s, ws, 0, 0);
      TakeFromBoundary(s, ws, 0);
      TakeReverseStopsAbove(s, ws, |s|, leftlen);
    }
  }

  /** utf8_take stops on a codepoint boundary. */
  lemma {:induction false} TakeFromBoundary(s: seq<byte>, p: CodepointTest, i: nat)
    requires i <= |s| && Boundary(s, i)
    ensures Boundary(s, TakeFrom(s, p, i)) || TakeFrom(s, p, i) == |s|
    decreases |s| - i
  {
    if i < |s| {
      var e := CodepointEnd(s, i);
      if p(s[i..e]) && e < |s| {
        TakeFromBoundary(s, p, e);
      }
    }
  }
}
