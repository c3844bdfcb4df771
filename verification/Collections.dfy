/** Small generic definitions shared by the models. */
module Collections {

  datatype Option<T> = None | Some(value: T)

  ghost predicate Distinct<T>(s: seq<T>) { forall i, j :: 0 <= i < j < |s| ==> s[i] != s[j] }

  function Without<T>(s: seq<T>, i: nat): seq<T>
    requires i < |s|
  {
    s[..i] + s[i + 1..]
  }

  /** Putting something in the place of what was taken out. */
  lemma PutBack<T>(s: seq<T>, i: nat, x: T)
    requires i < |s|
    ensures |Without(s, i)| == |s| - 1 && Without(s, i)[..i] + [x] + Without(s, i)[i..] == s[i := x]
  {}

  lemma Regroup<T>(a: seq<T>, b: seq<T>, c: seq<T>)
    ensures a + (b + c) == a + b + c
  {}
}
