/** Moving and removing one element of a sequence. */
module Sequences {

  /** The sequence with the element at `pos` moved to the front. */
  function MovedToTop<T>(s: seq<T>, pos: nat): (r: seq<T>)
    requires pos < |s|
    ensures |r| == |s| && r[0] == s[pos]
    ensures forall i :: 0 < i <= pos ==> r[i] == s[i - 1]
    ensures forall i :: pos < i < |s| ==> r[i] == s[i]
  {
    seq(|s|, i requires 0 <= i < |s| => if i == 0 then s[pos] else if i <= pos then s[i - 1] else s[i])
  }

  /** The sequence without the element at `pos`. */
  function Without<T>(s: seq<T>, pos: nat): (r: seq<T>)
    requires pos < |s|
    ensures |r| == |s| - 1
    ensures forall i :: 0 <= i < pos ==> r[i] == s[i]
    ensures forall i :: pos <= i < |s| - 1 ==> r[i] == s[i + 1]
  {
    seq(|s| - 1, i requires 0 <= i < |s| - 1 => if i < pos then s[i] else s[i + 1])
  }

  lemma WithoutParts<T>(s: seq<T>, pos: nat)
    requires pos < |s|
    ensures Without(s, pos) == s[..pos] + s[pos + 1..]
  {}

  /** Popping the head, moving the wanted element to the front and pushing the old head
      turns [c] + A + [w] + B into [w] + A + B + [c]. */
  lemma SwitchOrder<T>(c: T, a: seq<T>, w: T, b: seq<T>)
    ensures MovedToTop(([c] + a + [w] + b)[1..], |a|) + [c] == [w] + a + b + [c]
  {
    assert ([c] + a + [w] + b)[1..] == a + [w] + b;
    assert MovedToTop(a + [w] + b, |a|) == [w] + a + b;
  }

  ghost predicate Distinct<T>(s: seq<T>) {
    forall i, j :: 0 <= i < j < |s| ==> s[i] != s[j]
  }

  lemma DistinctFrom<T>(s: seq<T>, pos: nat)
    requires 0 < pos < |s| && Distinct(s)
    ensures forall j :: 0 <= j < |s| && j != pos ==> s[j] != s[pos]
    ensures forall j :: 0 <= j < |s| && j != pos - 1 ==> s[j] != s[pos - 1]
  {}

  lemma MovedDistinct<T>(s: seq<T>, pos: nat)
    requires pos < |s| && Distinct(s)
    ensures Distinct(MovedToTop(s, pos)) && Distinct(Without(s, pos))
    ensures forall x :: x in MovedToTop(s, pos) <==> x in s
    ensures forall x :: x in Without(s, pos) ==> x in s
  {
    forall x | x in s ensures x in MovedToTop(s, pos) {
      var i :| 0 <= i < |s| && s[i] == x;
      assert MovedToTop(s, pos)[if i < pos then i + 1 else if i == pos then 0 else i] == x;
    }
    hide MovedToTop, Without;
  }

  lemma WithoutEnds<T>(s: seq<T>, pos: nat)
    requires pos < |s|
    ensures pos == 0 ==> Without(s, pos) == s[1..]
    ensures pos == |s| - 1 ==> Without(s, pos) == s[..|s| - 1]
    ensures forall x :: x in Without(s, pos) ==> x in s
  {}

  lemma MovedMembers<T>(s: seq<T>, pos: nat)
    requires pos < |s|
    ensures forall x :: x in MovedToTop(s, pos) ==> x in s
  {}
}
