/** Facts about taking sequences apart and putting them together. */
module Sequences {

  lemma Spliced<T>(kept: seq<T>, rest: seq<T>, t: T)
    requires rest != []
    ensures var items := (kept + rest)[|kept| := t];
            && items == kept + [t] + rest[1..]
            && items[..|kept|] + items[|kept| + 1..] == kept + rest[1..]
    ensures (kept + rest)[..|kept|] + (kept + rest)[|kept| + 1..] == kept + rest[1..]
    ensures kept + [rest[0]] + rest[1..] == kept + rest
  {
  }

  lemma Shift<T>(past: seq<T>, rest: seq<T>)
    requires rest != []
    ensures past + [rest[0]] + rest[1..] == past + rest
  {
  }

  lemma Prefix<T>(s: seq<T>, k: nat)
    requires k < |s|
    ensures s[..k + 1] == s[..k] + [s[k]]
  {
  }

  /** Moving the first of `rest` to the end of `past`, then `m` more. */
  lemma ShiftMany<T>(past: seq<T>, rest: seq<T>, m: nat)
    requires m < |rest|
    ensures past + [rest[0]] + rest[1..][..m] == past + rest[..m + 1]
    ensures rest[1..][m..] == rest[m + 1..]
  {
  }

  lemma Associates<T>(a: seq<T>, b: seq<T>, c: seq<T>)
    ensures a + b + c == a + (b + c)
  {
  }

  lemma CountAppend<T>(a: seq<T>, x: T, y: T)
    ensures multiset(a + [x])[y] == multiset(a)[y] + if x == y then 1 else 0
  {
    assert multiset(a + [x]) == multiset(a) + multiset{x};
  }
}
