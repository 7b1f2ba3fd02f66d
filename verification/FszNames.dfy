/** Names in FS/Z directories: their case-insensitive order, and the comparisons by which the image
    builder and the kernel look them up. */
module FszNames {

  const NUL: char := '\0'

  function Lower(c: char): char {
    if 'A' <= c <= 'Z' then (c as int + 32) as char else c
  }

  /** `strcasecmp`: the end of a string sorts before every character. */
  function CaseCmp(a: string, b: string): int {
    if a == [] && b == [] then 0
    else if a == [] then -1
    else if b == [] then 1
    else if Lower(a[0]) == Lower(b[0]) then CaseCmp(a[1..], b[1..])
    else Lower(a[0]) as int - Lower(b[0]) as int
  }

  lemma {:induction false} CaseFlip(a: string, b: string)
    ensures CaseCmp(a, b) < 0 <==> CaseCmp(b, a) > 0
  {
    if a != [] && b != [] && Lower(a[0]) == Lower(b[0]) {
      CaseFlip(a[1..], b[1..]);
    }
  }

  lemma {:induction false} CaseTrans(a: string, b: string, c: string)
    requires CaseCmp(a, b) <= 0 && CaseCmp(b, c) <= 0
    ensures CaseCmp(a, c) <= 0
  {
    if a != [] && b != [] && c != [] && Lower(a[0]) == Lower(b[0]) == Lower(c[0]) {
      CaseTrans(a[1..], b[1..], c[1..]);
    }
  }

  /** The same character, or the two cases of one letter. */
  predicate SameLetter(c: char, d: char) {
    || c == d
    || ('A' <= c <= 'Z' && 'a' <= d <= 'z' && c as int - 'A' as int == d as int - 'a' as int)
    || ('a' <= c <= 'z' && 'A' <= d <= 'Z' && c as int - 'a' as int == d as int - 'A' as int)
  }

  /** Exactly the names that differ in nothing but the case of letters compare equal. */
  lemma {:induction false} CaseSame(a: string, b: string)
    ensures CaseCmp(a, b) == 0 <==> |a| == |b| && forall i :: 0 <= i < |a| ==> SameLetter(a[i], b[i])
  {
    if a != [] && b != [] {
      CaseSame(a[1..], b[1..]);
      if SameLetter(a[0], b[0]) && |a| == |b| && forall i :: 0 <= i < |a| - 1 ==> SameLetter(a[1..][i], b[1..][i]) {
        forall i | 0 <= i < |a| ensures SameLetter(a[i], b[i]) {
          if i > 0 { assert a[1..][i - 1] == a[i] && b[1..][i - 1] == b[i]; }
        }
      }
    }
  }

  /** A name sorts before every longer one that begins with it. */
  lemma {:induction false} PrefixFirst(a: string, b: string)
    requires a < b
    ensures CaseCmp(a, b) < 0
  {
    if a != [] {
      PrefixFirst(a[1..], b[1..]);
    }
  }

  /** After a common beginning, the next characters decide. */
  lemma {:induction false} NextDecides(p: string, a: string, b: string)
    requires p <= a && p <= b
    ensures CaseCmp(a, b) == CaseCmp(a[|p|..], b[|p|..])
  {
    if p != [] {
      NextDecides(p[1..], a[1..], b[1..]);
    }
  }

  /** A character of a zero-terminated string. */
  function At(s: string, i: nat): char {
    if i < |s| then s[i] else NUL
  }

  /** `strncmp` finds no difference in the first `n` characters. */
  predicate StrnEq(a: string, b: string, n: nat)
    decreases n
  {
    n == 0 || (At(a, 0) == At(b, 0) && (At(a, 0) == NUL || StrnEq(a[1..], b[1..], n - 1)))
  }

  /** No zero inside. */
  predicate Plain(s: string) {
    forall i :: 0 <= i < |s| ==> s[i] != NUL
  }

  /** Comparing within both strings compares prefixes; comparing one past the end of the second compares wholly. */
  lemma {:induction false} StrnEqIs(a: string, b: string, n: nat)
    requires Plain(a) && Plain(b) && n <= |b| + 1
    ensures StrnEq(a, b, n) <==> if n <= |b| then b[..n] <= a else a == b
    decreases n
  {
    if n > 0 {
      if a == [] {
        assert n <= |b| ==> b[..n] != [];
      } else if b == [] {
      } else {
        StrnEqIs(a[1..], b[1..], n - 1);
        if n <= |b| {
          assert b[..n] == [b[0]] + b[1..][..n - 1];
          assert a == [a[0]] + a[1..];
        }
      }
    }
  }

  /** A component of a path: not empty, without slash or zero. */
  predicate Component(s: string) {
    s != "" && forall i :: 0 <= i < |s| ==> s[i] != '/' && s[i] != NUL
  }

  /** Where the first line ends. */
  function LineEnd(p: string): (n: nat)
    ensures n <= |p| && (n < |p| ==> p[n] == '\n') && forall i :: 0 <= i < n ==> p[i] != '\n'
  {
    if p == "" || p[0] == '\n' then 0 else 1 + LineEnd(p[1..])
  }

  predicate NoLine(p: string) {
    forall i :: 0 <= i < |p| ==> p[i] != '\n'
  }

  function Slash(p: string): (n: nat)
    ensures n <= |p| && (n < |p| ==> p[n] == '/') && forall i :: 0 <= i < n ==> p[i] != '/'
  {
    if p == "" || p[0] == '/' then 0 else 1 + Slash(p[1..])
  }

  /** What a directory entry may be called: directories with a slash at the end. */
  predicate EntryName(s: string, dir: bool) {
    if dir then s != "" && s[|s| - 1] == '/' && Component(s[..|s| - 1]) else Component(s)
  }

  /** The name without that slash. */
  function Stem(s: string): string {
    if s != "" && s[|s| - 1] == '/' then s[..|s| - 1] else s
  }
}
