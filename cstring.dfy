/**
  Bytes and NUL-terminated strings as the C code sees them.

  A C string is modelled by its content bytes; reading one position past
  the content yields the terminating NUL byte.
*/
module CString {

  newtype byte = b: int | 0 <= b < 256

  const Nul: byte := 0

  /** The byte at position `i` of a NUL-terminated string with content `s`. */
  function CharAt(s: seq<byte>, i: nat): byte {
    if i < |s| then s[i] else Nul
  }

  /** Content without embedded NUL bytes, i.e. a proper C string. */
  predicate NoNul(s: seq<byte>) {
    forall i :: 0 <= i < |s| ==> s[i] != Nul
  }

  /** `strncmp(a, b, n) == 0`, comparing from position `i` on. */
  function StrnEqFrom(a: seq<byte>, b: seq<byte>, n: nat, i: nat): bool
    decreases n - i
  {
    i >= n
    || (CharAt(a, i) == CharAt(b, i) && (CharAt(a, i) == Nul || StrnEqFrom(a, b, n, i + 1)))
  }

  /** `strncmp(a, b, n) == 0`: the strings agree on their first `n` bytes, or up to a common NUL. */
  predicate StrnEq(a: seq<byte>, b: seq<byte>, n: nat) {
    StrnEqFrom(a, b, n, 0)
  }

  /** Length of the prefix of the first `n` bytes of `s` that precedes a NUL. */
  function BoundedLen(s: seq<byte>, n: nat): (r: nat)
    requires n <= |s|
    ensures r <= n
    ensures NoNul(s[..r])
    ensures r < n ==> s[r] == Nul
  {
    if n == 0 then 0
    else
      var k := BoundedLen(s, n - 1);
      if k == n - 1 && s[n - 1] != Nul then n else k
  }

  /** `strndup(s, n)`: a fresh copy of at most `n` bytes, stopping at a NUL. */
  function Strndup(s: seq<byte>, n: nat): (r: seq<byte>)
    requires n <= |s|
    ensures NoNul(r) && |r| <= n
    ensures r == s[..|r|]
    ensures |r| < n ==> s[|r|] == Nul
  {
    s[..BoundedLen(s, n)]
  }

  lemma {:induction false} StrnEqFromDup(s: seq<byte>, n: nat, i: nat)
    requires n <= |s| && i <= |Strndup(s, n)|
    ensures StrnEqFrom(s, Strndup(s, n), n, i)
    decreases n - i
  {
    var d := Strndup(s, n);
    if i < |d| {
      assert CharAt(s, i) == CharAt(d, i) != Nul;
      StrnEqFromDup(s, n, i + 1);
    }
  }

  lemma {:induction false} StrnEqFromSelf(a: seq<byte>, n: nat, i: nat)
    ensures StrnEqFrom(a, a, n, i)
    decreases n - i
  {
    if i < n && CharAt(a, i) != Nul {
      StrnEqFromSelf(a, n, i + 1);
    }
  }

  /** A string compares equal with itself, whatever the bound. */
  lemma {:induction false} StrnEqSelf(a: seq<byte>, n: nat)
    ensures StrnEq(a, a, n)
  {
    StrnEqFromSelf(a, n, 0);
  }

  /** A string compares equal with its own strndup copy. */
  lemma {:induction false} StrnEqDup(s: seq<byte>)
    ensures StrnEq(s, Strndup(s, |s|), |s|)
  {
    StrnEqFromDup(s, |s|, 0);
  }

  lemma {:induction false} StrnEqFromPrefix(a: seq<byte>, b: seq<byte>, i: nat)
    requires NoNul(a) && i <= |a| && i <= |b|
    ensures StrnEqFrom(a, b, |a|, i) <==> (|a| <= |b| && a[i..] == b[i..|a|])
    decreases |a| - i
  {
    if i < |a| {
      if i < |b| {
        StrnEqFromPrefix(a, b, i + 1);
        assert a[i..] == [a[i]] + a[i + 1..];
        if |a| <= |b| {
          assert b[i..|a|] == [b[i]] + b[i + 1..|a|];
        }
      } else {
        assert CharAt(b, i) == Nul != a[i];
      }
    }
  }

  /** A mismatch at position `k` makes every comparison started before it fail. */
  lemma {:induction false} StrnEqFromBlocked(a: seq<byte>, b: seq<byte>, k: nat, i: nat)
    requires NoNul(a) && i <= k < |a| && !StrnEqFrom(a, b, |a|, k)
    ensures !StrnEqFrom(a, b, |a|, i)
    decreases k - i
  {
    if i < k {
      StrnEqFromBlocked(a, b, k, i + 1);
    }
  }

  /**
    `strncmp(a, b, strlen(a)) == 0` holds exactly when `a` is a prefix of
    `b`: a longer string that extends `a` also matches.
  */
  lemma {:induction false} StrnEqIsPrefix(a: seq<byte>, b: seq<byte>)
    requires NoNul(a)
    ensures StrnEq(a, b, |a|) <==> a <= b
  {
    if |a| <= |b| {
      StrnEqFromPrefix(a, b, 0);
      assert a[0..] == a;
    } else {
      assert !StrnEqFrom(a, b, |a|, |b|) by {
        assert CharAt(b, |b|) == Nul != a[|b|];
      }
      StrnEqFromBlocked(a, b, |b|, 0);
    }
  }

  /** Between strings of the same length, `strncmp(a, b, strlen(a)) == 0` is equality. */
  lemma {:induction false} StrnEqSameLength(a: seq<byte>, b: seq<byte>)
    ensures NoNul(a) && |a| == |b| ==> (StrnEq(a, b, |a|) <==> a == b)
  {
    if NoNul(a) && |a| == |b| {
      StrnEqIsPrefix(a, b);
      assert b[..|b|] == b;
    }
  }
}
