// Options, and concatenating a list of lists.

module Lists {

  datatype Option<T> = None | Some(value: T)

  function Concat<T>(parts: seq<seq<T>>): seq<T> {
    if parts == [] then [] else parts[0] + Concat(parts[1..])
  }

  lemma {:induction false} ConcatAppend<T>(a: seq<seq<T>>, b: seq<seq<T>>)
    ensures Concat(a + b) == Concat(a) + Concat(b)
  {
    if a == [] {
      assert a + b == b;
    } else {
      assert (a + b)[1..] == a[1..] + b;
      ConcatAppend(a[1..], b);
    }
  }

  /** The first i + 1 parts are the first i parts and part i. */
  lemma ConcatNext<T>(parts: seq<seq<T>>, i: nat)
    requires i < |parts|
    ensures Concat(parts[..i + 1]) == Concat(parts[..i]) + parts[i]
  {
    assert parts[..i + 1] == parts[..i] + [parts[i]];
    ConcatAppend(parts[..i], [parts[i]]);
    assert Concat([parts[i]]) == parts[i] + Concat([]);
  }

  /** The first parts make up a prefix of the whole. */
  lemma ConcatPrefix<T>(parts: seq<seq<T>>, i: nat)
    requires i <= |parts|
    ensures |Concat(parts[..i])| <= |Concat(parts)|
    ensures Concat(parts)[..|Concat(parts[..i])|] == Concat(parts[..i])
  {
    assert parts == parts[..i] + parts[i..];
    ConcatAppend(parts[..i], parts[i..]);
  }

  predicate NoEmptyPart<T>(parts: seq<seq<T>>) {
    forall i :: 0 <= i < |parts| ==> |parts[i]| > 0
  }

  lemma {:induction false} ConcatIsLonger<T>(parts: seq<seq<T>>)
    requires NoEmptyPart(parts)
    ensures |Concat(parts)| >= |parts|
  {
    if parts == [] {
    } else {
      ConcatIsLonger(parts[1..]);
    }
  }
}
