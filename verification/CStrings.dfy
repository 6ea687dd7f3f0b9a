/** Strings as C keeps them, and the library functions that work on them. */
module CStrings {
  const NUL: char := '\0'

  /** What a char* that is not null points at, up to its NUL. */
  type CString = s: string | NUL !in s

  /** The C string `s` is at `at`. */
  predicate Holds(mem: seq<char>, at: nat, s: string) {
    at + |s| < |mem| && mem[at..at + |s|] == s && mem[at + |s|] == NUL
  }

  /** strlen, of the string at the place `at`. */
  method StrLen(s: array<char>, at: nat) returns (n: nat)
    requires at <= s.Length && NUL in s[at..]
    ensures at + n < s.Length && s[at + n] == NUL && forall k :: at <= k < at + n ==> s[k] != NUL
  {
    n := 0;
    while s[at + n] != NUL
      invariant at + n < s.Length && (forall k :: at <= k < at + n ==> s[k] != NUL)
      invariant exists k :: at + n <= k < s.Length && s[k] == NUL
      decreases s.Length - n
    {
      n := n + 1;
    }
  }

  /** strncpy, of `k` characters that are all there. */
  method StrNCpy(dst: array<char>, at: nat, src: array<char>, from: nat, k: nat)
    requires dst != src && at + k <= dst.Length && from + k <= src.Length
    modifies dst
    ensures forall x :: at <= x < at + k ==> dst[x] == src[x - at + from]
    ensures forall x :: 0 <= x < dst.Length && !(at <= x < at + k) ==> dst[x] == old(dst[x])
  {
    for i := 0 to k
      invariant forall x :: at <= x < at + i ==> dst[x] == src[x - at + from]
      invariant forall x :: 0 <= x < dst.Length && !(at <= x < at + i) ==> dst[x] == old(dst[x])
    {
      dst[at + i] := src[from + i];
    }
  }

  /** strcpy, to the place `at`. */
  method StrCpy(dst: array<char>, at: nat, s: CString)
    requires at + |s| < dst.Length
    modifies dst
    ensures Holds(dst[..], at, s)
    ensures forall x :: 0 <= x < dst.Length && !(at <= x <= at + |s|) ==> dst[x] == old(dst[x])
  {
    for i := 0 to |s|
      invariant forall x :: at <= x < at + i ==> dst[x] == s[x - at]
      invariant forall x :: 0 <= x < dst.Length && !(at <= x < at + i) ==> dst[x] == old(dst[x])
    {
      dst[at + i] := s[i];
    }
    dst[at + |s|] := NUL;
  }

  /** A string in memory has one length. */
  lemma OneLength(mem: seq<char>, at: nat, t: CString, n: nat)
    requires Holds(mem, at, t)
    requires at + n < |mem| && mem[at + n] == NUL && forall k :: at <= k < at + n ==> mem[k] != NUL
    ensures n == |t|
  {
    assert forall k :: at <= k < at + |t| ==> mem[k] == mem[at..at + |t|][k - at] == t[k - at];
  }

  /** strcat, to a string `t`. */
  method StrCat(dst: array<char>, ghost t: CString, s: CString)
    requires Holds(dst[..], 0, t) && |t| + |s| < dst.Length
    modifies dst
    ensures Holds(dst[..], 0, t + s)
  {
    assert dst[|t|] == NUL;
    var n := StrLen(dst, 0);
    OneLength(dst[..], 0, t, n);
    StrCpy(dst, n, s);
    assert dst[..|t| + |s|] == t + s;
  }

  /** Reading a string out of memory. */
  method Text(mem: array<char>, at: nat, ghost t: CString) returns (s: CString)
    requires Holds(mem[..], at, t)
    ensures s == t
  {
    assert mem[at..][|t|] == mem[at + |t|] == NUL;
    var n := StrLen(mem, at);
    OneLength(mem[..], at, t, n);
    s := mem[at..at + n];
  }
}
