/**
  The string escape of prettyprint.c: `new_str_with_word_replaced` copies a
  C string, replacing every occurrence of one word by another, scanning
  left to right without overlaps; `print_object` uses it to put a
  backslash before every double quote of a string it prints.
*/
module PrettyPrint {
  import opened CString

  const Quote: byte := 0x22
  const Backslash: byte := 0x5C

  /** `strstr(s, w) == s`: the word occurs at the very start of `s`. */
  predicate StartsWith(s: seq<byte>, w: seq<byte>) {
    |w| <= |s| && s[..|w|] == w
  }

  /** The text with every occurrence of `word`, taken leftmost first and without overlaps, replaced by `replacement`. */
  function Replace(s: seq<byte>, word: seq<byte>, replacement: seq<byte>): seq<byte>
    requires |word| > 0
    decreases |s|
  {
    if |s| == 0 then []
    else if StartsWith(s, word) then replacement + Replace(s[|word|..], word, replacement)
    else [s[0]] + Replace(s[1..], word, replacement)
  }

  /** How many occurrences Replace replaces. */
  function Count(s: seq<byte>, word: seq<byte>): nat
    requires |word| > 0
    decreases |s|
  {
    if |s| == 0 then 0
    else if StartsWith(s, word) then 1 + Count(s[|word|..], word)
    else Count(s[1..], word)
  }

  /** The size the counting pass computes is the length of the replaced text. */
  lemma {:induction false} ReplaceLength(s: seq<byte>, word: seq<byte>, replacement: seq<byte>)
    requires |word| > 0
    ensures |Replace(s, word, replacement)| == |s| + Count(s, word) * (|replacement| - |word|)
    decreases |s|
  {
    if |s| == 0 {
    } else if StartsWith(s, word) {
      var c := Count(s[|word|..], word);
      var d := |replacement| - |word|;
      ReplaceLength(s[|word|..], word, replacement);
      MulSucc(c, d);
    } else {
      ReplaceLength(s[1..], word, replacement);
    }
  }

  lemma {:induction false} MulSucc(c: int, d: int)
    ensures (1 + c) * d == d + c * d
  {
  }

  /** Text in which the word never occurs is copied unchanged. */
  lemma {:induction false} ReplaceAbsent(s: seq<byte>, word: seq<byte>, replacement: seq<byte>)
    requires |word| > 0
    requires forall i :: 0 <= i < |s| ==> !StartsWith(s[i..], word)
    ensures Replace(s, word, replacement) == s
    ensures Count(s, word) == 0
    decreases |s|
  {
    if |s| > 0 {
      assert !StartsWith(s[0..], word);
      assert s[0..] == s;
      forall i | 0 <= i < |s[1..]|
        ensures !StartsWith(s[1..][i..], word)
      {
        assert s[1..][i..] == s[i + 1..];
      }
      ReplaceAbsent(s[1..], word, replacement);
    }
  }

  /** Replacing a word by itself changes nothing. */
  lemma {:induction false} ReplaceSame(s: seq<byte>, word: seq<byte>)
    requires |word| > 0
    ensures Replace(s, word, word) == s
    decreases |s|
  {
    if |s| == 0 {
    } else if StartsWith(s, word) {
      ReplaceSame(s[|word|..], word);
      assert s == s[..|word|] + s[|word|..];
    } else {
      ReplaceSame(s[1..], word);
      assert s == [s[0]] + s[1..];
    }
  }

  /** The counting pass of `new_str_with_word_replaced`: the length of the text and the number of occurrences. */
  method CountOccurrences(s: seq<byte>, word: seq<byte>) returns (len: nat, cnt: nat)
    requires |word| > 0
    ensures len == |s| && cnt == Count(s, word)
  {
    var i: nat := 0;
    cnt := 0;
    while i < |s|
      invariant i <= |s|
      invariant cnt + Count(s[i..], word) == Count(s, word)
      decreases |s| - i
    {
      if StartsWith(s[i..], word) {
        cnt := cnt + 1;
        i := i + |word| - 1;
        assert s[i + 1..] == s[i + 1 - |word|..][|word|..];
      } else {
        assert s[i + 1..] == s[i..][1..];
      }
      i := i + 1;
    }
    assert s[i..] == [];
    len := i;
  }

  /** One step of Replace from position `i` of `s`. */
  lemma {:induction false} ReplaceAt(s: seq<byte>, i: nat, word: seq<byte>, replacement: seq<byte>)
    requires |word| > 0 && i < |s|
    ensures StartsWith(s[i..], word) ==>
      i + |word| <= |s| && Replace(s[i..], word, replacement) == replacement + Replace(s[i + |word|..], word, replacement)
    ensures !StartsWith(s[i..], word) ==>
      Replace(s[i..], word, replacement) == [s[i]] + Replace(s[i + 1..], word, replacement)
  {
    assert s[i..][1..] == s[i + 1..];
    if StartsWith(s[i..], word) {
      assert s[i..][|word|..] == s[i + |word|..];
    }
  }

  lemma {:induction false} Regroup(a: seq<byte>, b: seq<byte>, c: seq<byte>)
    ensures (a + b) + c == a + (b + c)
  {
  }

  /** `strcpy(&buf[at], w)`: the word and a NUL after it, nothing else changed. */
  method StrCpy(buf: array<byte>, at: nat, w: seq<byte>)
    requires at + |w| < buf.Length
    modifies buf
    ensures buf[..at] == old(buf[..at])
    ensures buf[at..at + |w|] == w
    ensures buf[at + |w|] == Nul
  {
    forall k | 0 <= k < |w| {
      buf[at + k] := w[k];
    }
    buf[at + |w|] := Nul;
  }

  /**
    One iteration of the copying loop of `new_str_with_word_replaced`:
    at an occurrence of the word the replacement is copied, otherwise the
    byte itself; the text written so far followed by what remains to be
    written is still the whole replaced text, and the buffer still fits.
  */
  method CopyStep(result: array<byte>, s: seq<byte>, word: seq<byte>, replacement: seq<byte>, rest: nat, out: nat)
      returns (rest': nat, out': nat)
    requires |word| > 0 && rest < |s|
    requires out + |Replace(s[rest..], word, replacement)| + 1 == result.Length
    modifies result
    ensures rest < rest' <= |s|
    ensures out' + |Replace(s[rest'..], word, replacement)| + 1 == result.Length
    ensures result[..out'] + Replace(s[rest'..], word, replacement)
      == old(result[..out]) + Replace(s[rest..], word, replacement)
  {
    ghost var prefix := result[..out];
    ReplaceAt(s, rest, word, replacement);
    if StartsWith(s[rest..], word) {
      ghost var after := Replace(s[rest + |word|..], word, replacement);
      StrCpy(result, out, replacement);
      assert result[..out + |replacement|] == prefix + replacement;
      Regroup(prefix, replacement, after);
      out' := out + |replacement|;
      rest' := rest + |word|;
    } else {
      ghost var after := Replace(s[rest + 1..], word, replacement);
      result[out] := s[rest];
      assert result[..out + 1] == prefix + [s[rest]];
      Regroup(prefix, [s[rest]], after);
      out' := out + 1;
      rest' := rest + 1;
    }
  }

  /**
    `new_str_with_word_replaced`: a first pass counts the occurrences to
    size the buffer, a second pass copies the text into it, writing the
    replacement (with strcpy) in place of each occurrence; the result is
    NUL-terminated. The buffer it allocates is exactly large enough. The
    three arguments are C strings: the bytes before their terminating NUL.
  */
  method NewStrWithWordReplaced(s: seq<byte>, word: seq<byte>, replacement: seq<byte>) returns (result: array<byte>)
    requires |word| > 0
    requires NoNul(s) && NoNul(word) && NoNul(replacement)
    ensures fresh(result)
    ensures result[..] == Replace(s, word, replacement) + [Nul]
  {
    var i, cnt := CountOccurrences(s, word);
    ReplaceLength(s, word, replacement);
    result := new byte[i + cnt * (|replacement| - |word|) + 1];

    var out: nat := 0;
    var rest: nat := 0;
    assert s[0..] == s;
    while rest < |s|
      invariant rest <= |s|
      invariant out + |Replace(s[rest..], word, replacement)| + 1 == result.Length
      invariant result[..out] + Replace(s[rest..], word, replacement) == Replace(s, word, replacement)
      decreases |s| - rest
    {
      rest, out := CopyStep(result, s, word, replacement, rest, out);
    }
    assert s[rest..] == [];
    result[out] := Nul;
    assert result[..] == result[..out] + [Nul];
  }

  /** The bytes printed for a string: each double quote preceded by a backslash. */
  function Escape(s: seq<byte>): seq<byte> {
    if |s| == 0 then []
    else (if s[0] == Quote then [Backslash, Quote] else [s[0]]) + Escape(s[1..])
  }

  /** The string case of `print_object`: the escaped text between double quotes. */
  function StringLiteral(s: seq<byte>): seq<byte> {
    [Quote] + Replace(s, [Quote], [Backslash, Quote]) + [Quote]
  }

  /** Replacing `"` by `\"` escapes every quote and nothing else. */
  lemma {:induction false} EscapeIsReplace(s: seq<byte>)
    ensures Replace(s, [Quote], [Backslash, Quote]) == Escape(s)
  {
    if |s| > 0 {
      EscapeIsReplace(s[1..]);
    }
  }

  /** Every quote of an escaped text follows a backslash. */
  lemma {:induction false} EscapedQuotes(s: seq<byte>)
    ensures var e := Escape(s);
      forall k :: 0 <= k < |e| && e[k] == Quote ==> k > 0 && e[k - 1] == Backslash
  {
    if |s| > 0 {
      EscapedQuotes(s[1..]);
      var head := if s[0] == Quote then [Backslash, Quote] else [s[0]];
      var e := Escape(s);
      assert e == head + Escape(s[1..]);
      forall k | 0 <= k < |e| && e[k] == Quote
        ensures k > 0 && e[k - 1] == Backslash
      {
        if k >= |head| {
          assert e[k] == Escape(s[1..])[k - |head|];
          if k - |head| > 0 {
            assert e[k - 1] == Escape(s[1..])[k - |head| - 1];
          }
        }
      }
    }
  }

  /** An escaped text never starts with a quote. */
  lemma {:induction false} EscapeStart(s: seq<byte>)
    requires |s| > 0
    ensures Escape(s)[0] != Quote
  {
  }

  /** Reading `\"` back as `"` undoes the escape: the printed string determines the original. */
  lemma {:induction false} UnescapeEscape(s: seq<byte>)
    ensures Replace(Escape(s), [Backslash, Quote], [Quote]) == s
  {
    if |s| > 0 {
      var e := Escape(s);
      var rest := Escape(s[1..]);
      UnescapeEscape(s[1..]);
      if s[0] == Quote {
        assert e == [Backslash, Quote] + rest;
        assert e[2..] == rest;
      } else {
        assert e == [s[0]] + rest;
        assert e[1..] == rest;
        if |rest| > 0 {
          EscapeStart(s[1..]);
        }
        assert !StartsWith(e, [Backslash, Quote]);
      }
    }
  }

  /** Inside a printed string literal, only its last byte is an unescaped quote. */
  lemma {:induction false} LiteralCloses(s: seq<byte>)
    ensures var lit := StringLiteral(s);
      && lit[0] == Quote && lit[|lit| - 1] == Quote
      && forall k :: 0 < k < |lit| - 1 && lit[k] == Quote ==> lit[k - 1] == Backslash
  {
    var lit := StringLiteral(s);
    var e := Escape(s);
    EscapeIsReplace(s);
    EscapedQuotes(s);
    assert lit == [Quote] + e + [Quote];
    forall k | 0 < k < |lit| - 1 && lit[k] == Quote
      ensures lit[k - 1] == Backslash
    {
      assert lit[k] == e[k - 1];
      if k > 1 {
        assert lit[k - 1] == e[k - 2];
      }
    }
  }
}
