/** Byte strings, their concatenation, and the sums of their lengths. */
module Bytes {

  type Byte = b: int | 0 <= b < 256

  const NEWLINE: Byte := 10

  datatype Option<+T> = None | Some(value: T)

  predicate EndsInNewline(s: seq<Byte>) {
    s != [] && s[|s| - 1] == NEWLINE
  }

  function Flatten(parts: seq<seq<Byte>>): seq<Byte> {
    if parts == [] then [] else Flatten(parts[..|parts| - 1]) + parts[|parts| - 1]
  }

  function Sum(sizes: seq<nat>): nat {
    if sizes == [] then 0 else Sum(sizes[..|sizes| - 1]) + sizes[|sizes| - 1]
  }

  function Sizes(parts: seq<seq<Byte>>): (sizes: seq<nat>)
    ensures |sizes| == |parts|
    ensures forall i | 0 <= i < |parts| :: sizes[i] == |parts[i]|
  {
    seq(|parts|, i requires 0 <= i < |parts| => |parts[i]|)
  }

  lemma SumSnoc(sizes: seq<nat>, k: nat)
    requires k < |sizes|
    ensures Sum(sizes[..k + 1]) == Sum(sizes[..k]) + sizes[k]
  {
    assert sizes[..k + 1][..k] == sizes[..k];
  }

  lemma {:induction false} SumConcat(a: seq<nat>, b: seq<nat>)
    ensures Sum(a + b) == Sum(a) + Sum(b)
  {
    if b == [] {
      assert a + b == a;
    } else {
      SumConcat(a, b[..|b| - 1]);
      assert (a + b)[..|a + b| - 1] == a + b[..|b| - 1];
    }
  }

  lemma {:induction false} SumMonotone(sizes: seq<nat>, i: nat, j: nat)
    requires i <= j <= |sizes|
    ensures Sum(sizes[..i]) <= Sum(sizes[..j])
  {
    assert sizes[..j] == sizes[..i] + sizes[i..j];
    SumConcat(sizes[..i], sizes[i..j]);
  }

  lemma {:induction false} FlattenConcat(a: seq<seq<Byte>>, b: seq<seq<Byte>>)
    ensures Flatten(a + b) == Flatten(a) + Flatten(b)
  {
    if b == [] {
      assert a + b == a;
    } else {
      FlattenConcat(a, b[..|b| - 1]);
      assert (a + b)[..|a + b| - 1] == a + b[..|b| - 1];
    }
  }

  lemma FlattenSnoc(a: seq<seq<Byte>>, x: seq<Byte>)
    ensures Flatten(a + [x]) == Flatten(a) + x
  {
    assert (a + [x])[..|a|] == a;
  }

  lemma {:induction false} FlattenLength(parts: seq<seq<Byte>>)
    ensures |Flatten(parts)| == Sum(Sizes(parts))
  {
    if parts != [] {
      var front := parts[..|parts| - 1];
      FlattenLength(front);
      assert Sizes(parts)[..|parts| - 1] == Sizes(front);
    }
  }

  /** Where part k lies inside the concatenation. */
  lemma FlattenPart(parts: seq<seq<Byte>>, k: nat)
    requires k < |parts|
    ensures var start := Sum(Sizes(parts)[..k]);
            && start + |parts[k]| <= |Flatten(parts)|
            && Flatten(parts)[start..start + |parts[k]|] == parts[k]
  {
    var before, after := parts[..k], parts[k + 1..];
    assert parts == before + [parts[k]] + after;
    FlattenConcat(before + [parts[k]], after);
    FlattenSnoc(before, parts[k]);
    FlattenLength(before);
    assert Sizes(before) == Sizes(parts)[..k];
  }
}
