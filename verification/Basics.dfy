/** Go strings are byte strings: every character is below 256. */
module GoStrings {
  type Byte = c: char | c as int < 256 witness 'a'
  type Text = seq<Byte>

  datatype Option<+T> = None | Some(value: T)
}

/** Facts about sequences and numbers that several modules share. */
module Basics {
  /** One more element of a list seen through its prefixes. */
  lemma PrefixSnoc<T>(s: seq<T>, i: nat)
    requires i < |s|
    ensures s[..i + 1] == s[..i] + [s[i]]
  {
  }

  lemma SplitAround<T>(s: seq<T>, a: nat)
    requires a < |s|
    ensures s == s[..a] + [s[a]] + s[a + 1..]
  {
  }

  lemma ProductsGrow(a: nat, b: nat, k: nat)
    requires a <= b
    ensures a * k <= b * k
  {
  }

  ghost function Min(a: int, b: int): int {
    if a < b then a else b
  }

  ghost function Max(a: int, b: int): int {
    if a < b then b else a
  }
}
