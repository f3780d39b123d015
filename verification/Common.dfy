/** Small value types shared by every component of the model. */
module Common {
  datatype Option<+T> = None | Some(value: T)

  datatype Result<+T, +E> = Ok(value: T) | Err(error: E)

  const U64_MAX: nat := 0xFFFF_FFFF_FFFF_FFFF

  /** An 8-bit octet. */
  type byte = b: int | 0 <= b < 256

  /** ASCII lowercasing of one character; every other character is kept. */
  function LowerChar(c: char): char {
    if 'A' <= c <= 'Z' then c - 'A' + 'a' else c
  }

  /** ASCII lowercasing of a string. */
  function Lower(s: string): (r: string)
    ensures |r| == |s|
    ensures forall i :: 0 <= i < |s| ==> r[i] == LowerChar(s[i])
  {
    seq(|s|, i requires 0 <= i < |s| => LowerChar(s[i]))
  }

  function StripSuffix(s: string, suffix: string): string {
    if |suffix| <= |s| && s[|s| - |suffix|..] == suffix then s[..|s| - |suffix|] else s
  }

  function StripPrefix(s: string, prefix: string): string {
    if prefix <= s then s[|prefix|..] else s
  }

  predicate Distinct<T(==)>(s: seq<T>) {
    forall i, j :: 0 <= i < j < |s| ==> s[i] != s[j]
  }

  /** `r` is `s` with some elements left out, the others in their order. */
  ghost predicate Subsequence<T>(r: seq<T>, s: seq<T>)
    decreases |s|
  {
    if |r| == 0 then true
    else if |s| == 0 then false
    else (r[0] == s[0] && Subsequence(r[1..], s[1..])) || Subsequence(r, s[1..])
  }

  lemma {:induction false} SubsequenceTransitive<T>(q: seq<T>, r: seq<T>, s: seq<T>)
    requires Subsequence(q, r) && Subsequence(r, s)
    ensures Subsequence(q, s)
    decreases |r| + |s|
  {
    if |q| > 0 {
      if Subsequence(r, s[1..]) {
        SubsequenceTransitive(q, r, s[1..]);
      } else if Subsequence(q, r[1..]) {
        SubsequenceTransitive(q, r[1..], s[1..]);
      } else {
        SubsequenceTransitive(q[1..], r[1..], s[1..]);
      }
    }
  }

  function SeqToSet<T>(s: seq<T>): set<T> { set x | x in s }
}
