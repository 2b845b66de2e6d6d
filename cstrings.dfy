// The C string library as the two programs use it: strings are NUL-terminated
// char arrays, `strncmp` compares at most n characters and stops at a NUL,
// `strstr` returns a pointer to the leftmost occurrence or NULL.

module CStrings {

  datatype Option<T> = None | Some(value: T)

  /** No character of `s` is the terminator. */
  predicate NoNul(s: seq<char>) {
    forall k :: 0 <= k < |s| ==> s[k] != '\0'
  }

  /** `needle` occurs in `line` starting at index `i`. */
  predicate OccursAt(line: seq<char>, needle: seq<char>, i: int) {
    0 <= i && i + |needle| <= |line| && line[i..i + |needle|] == needle
  }

  /** The character at index `k` of the C string held in `s`: past the end
      of `s` one reads the terminator. */
  function CharAt(s: seq<char>, k: nat): char {
    if k < |s| then s[k] else '\0'
  }

  /** The comparison `strncmp(a, b, n)` has examined positions below `k` and
      found them equal; true when the remaining positions `k..n` compare equal
      as well, or a shared terminator ends the comparison early. */
  predicate AgreeFrom(a: seq<char>, b: seq<char>, n: nat, k: nat)
    decreases n - k
  {
    k >= n || (CharAt(a, k) == CharAt(b, k) && (CharAt(a, k) == '\0' || AgreeFrom(a, b, n, k + 1)))
  }

  /** `strncmp(a, b, n) == 0`. */
  predicate StrNCmpZero(a: seq<char>, b: seq<char>, n: nat) {
    AgreeFrom(a, b, n, 0)
  }

  /** Position `j` of `a` exists and equals position `j` of `b`. */
  predicate SameAt(a: seq<char>, b: seq<char>, j: nat) {
    j < |a| && j < |b| && a[j] == b[j]
  }

  lemma {:induction false} AgreeFromOnNulFree(a: seq<char>, b: seq<char>, n: nat, k: nat)
    requires k <= n <= |b| && NoNul(b[..n])
    ensures AgreeFrom(a, b, n, k) <==> forall j :: k <= j < n ==> SameAt(a, b, j)
    decreases n - k
  {
    if k < n {
      assert b[k] == b[..n][k];
      AgreeFromOnNulFree(a, b, n, k + 1);
      if SameAt(a, b, k) {
        assert CharAt(a, k) == b[k] != '\0';
        assert AgreeFrom(a, b, n, k) == AgreeFrom(a, b, n, k + 1);
        if AgreeFrom(a, b, n, k + 1) {
          assert forall j :: k <= j < n ==> SameAt(a, b, j);
        }
      }
    }
  }

  /** When the first `n` characters of `b` hold no terminator, `strncmp(a, b, n)`
      is zero exactly when `a` starts with those `n` characters. */
  lemma StrNCmpOnNulFree(a: seq<char>, b: seq<char>, n: nat)
    requires n <= |b| && NoNul(b[..n])
    ensures StrNCmpZero(a, b, n) <==> n <= |a| && a[..n] == b[..n]
  {
    AgreeFromOnNulFree(a, b, n, 0);
    if StrNCmpZero(a, b, n) {
      if n > 0 {
        assert SameAt(a, b, n - 1);
      }
      assert a[..n] == b[..n] by {
        forall j | 0 <= j < n ensures a[..n][j] == b[..n][j] {
          assert SameAt(a, b, j);
        }
      }
    }
    if n <= |a| && a[..n] == b[..n] {
      forall j | 0 <= j < n ensures SameAt(a, b, j) {
        assert a[j] == a[..n][j];
      }
    }
  }

  /** `strncmp(line + i, b, n) == 0` tests whether the first `n` characters
      of `b` occur in `line` at `i`, when they hold no NUL. */
  lemma StrNCmpAt(line: seq<char>, b: seq<char>, n: nat, i: nat)
    requires i <= |line| && n <= |b| && NoNul(b[..n])
    ensures StrNCmpZero(line[i..], b, n) <==> OccursAt(line, b[..n], i)
  {
    StrNCmpOnNulFree(line[i..], b, n);
    if i + n <= |line| {
      assert line[i..][..n] == line[i..i + n];
    }
  }

  /** The C string stored in the buffer `b`: its characters up to the first
      terminator. */
  function CStr(b: seq<char>): (r: seq<char>)
    ensures |r| <= |b| && r == b[..|r|] && NoNul(r)
    ensures |r| < |b| ==> b[|r|] == '\0'
  {
    if |b| == 0 || b[0] == '\0' then []
    else
      var t := CStr(b[1..]);
      assert b[..|t| + 1] == [b[0]] + b[1..][..|t|];
      [b[0]] + t
  }

  /** `strstr(line + i, needle)` expressed as an offset into `line`: the
      leftmost occurrence at or after `i`, or None for a NULL result. */
  function FindFrom(line: seq<char>, needle: seq<char>, i: nat): (r: Option<nat>)
    ensures r.Some? ==> i <= r.value && OccursAt(line, needle, r.value)
    ensures r.Some? ==> forall q :: i <= q < r.value ==> !OccursAt(line, needle, q)
    ensures r.None? ==> forall q :: i <= q ==> !OccursAt(line, needle, q)
    decreases |line| - i
  {
    if i + |needle| > |line| then None
    else if line[i..i + |needle|] == needle then Some(i)
    else FindFrom(line, needle, i + 1)
  }

  /** `strstr(line, needle) - line`, or None when `strstr` returns NULL. */
  function FindFirst(line: seq<char>, needle: seq<char>): (r: Option<nat>)
    ensures r.Some? <==> exists q :: OccursAt(line, needle, q)
    ensures r.Some? ==> OccursAt(line, needle, r.value)
    ensures r.Some? ==> forall q :: 0 <= q < r.value ==> !OccursAt(line, needle, q)
    ensures needle == [] ==> r == Some(0)
  {
    assert needle == [] ==> line[0..0] == needle;
    FindFrom(line, needle, 0)
  }
}
