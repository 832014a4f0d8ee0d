/** The list's contents as a value: a sequence of nullable strings in
    head-to-tail order, with the search and removal it supports stated
    as functions. The linked implementation in module DLists is proved
    against these. */
module ListSpec {
  import opened Values

  /** Position of the first element, in head-to-tail order, that matches
      `v` under the null-aware rule; `None` when nothing matches. */
  function FirstMatch(c: seq<Value>, v: Value): (r: Option<nat>)
    ensures r.None? <==> v !in c
    ensures r.Some? ==> r.value < |c| && c[r.value] == v && v !in c[..r.value]
  {
    if c == [] then None
    else if Matches(c[0], v) then Some(0)
    else match FirstMatch(c[1..], v)
      case None => None
      case Some(i) =>
        assert c[..i + 1] == [c[0]] + c[1..][..i];
        Some(i + 1)
  }

  /** `s` with the element at position `i` taken out; every other element
      keeps its relative order. */
  function RemoveAt<T>(s: seq<T>, i: nat): (r: seq<T>)
    requires i < |s|
    ensures |r| == |s| - 1
    ensures forall j :: 0 <= j < i ==> r[j] == s[j]
    ensures forall j :: i <= j < |r| ==> r[j] == s[j + 1]
  {
    s[..i] + s[i + 1..]
  }

  /** `s` in reverse order. */
  function Reverse<T>(s: seq<T>): (r: seq<T>)
    ensures |r| == |s|
    ensures forall i :: 0 <= i < |s| ==> r[i] == s[|s| - 1 - i]
  {
    if s == [] then [] else [s[|s| - 1]] + Reverse(s[..|s| - 1])
  }

  /** The contents after removing the first element that matches `v`,
      or unchanged contents when nothing matches. */
  function DeleteFirst(c: seq<Value>, v: Value): seq<Value>
  {
    match FirstMatch(c, v)
    case None => c
    case Some(i) => RemoveAt(c, i)
  }

  /** Removing the first match takes out exactly one copy of `v` when
      there is one, and nothing otherwise. */
  lemma DeleteFirstRemovesOneCopy(c: seq<Value>, v: Value)
    ensures multiset(DeleteFirst(c, v)) == multiset(c) - multiset{v}
    ensures |DeleteFirst(c, v)| == if v in c then |c| - 1 else |c|
    ensures v !in c ==> DeleteFirst(c, v) == c
  {
    match FirstMatch(c, v)
    case None =>
      assert multiset(c)[v] == 0;
    case Some(i) =>
      assert c == c[..i] + [c[i]] + c[i + 1..];
      assert multiset(c) == multiset(c[..i]) + multiset{v} + multiset(c[i + 1..]);
  }

  /** Only the first copy goes: when `v` occurred more than once, a later
      search for `v` still succeeds, at or after the removed position. */
  lemma DeleteFirstKeepsLaterCopies(c: seq<Value>, v: Value)
    requires multiset(c)[v] >= 2
    ensures v in DeleteFirst(c, v)
    ensures FirstMatch(DeleteFirst(c, v), v).Some?
    ensures FirstMatch(DeleteFirst(c, v), v).value >= FirstMatch(c, v).value
  {
    DeleteFirstRemovesOneCopy(c, v);
    assert multiset(DeleteFirst(c, v))[v] >= 1;
  }

  /** The first match is unique: a position holding `v` with no earlier
      copy of `v` is the one `FirstMatch` reports, and the one removed. */
  lemma FirstMatchAt(c: seq<Value>, v: Value, i: nat)
    requires i < |c| && c[i] == v && v !in c[..i]
    ensures FirstMatch(c, v) == Some(i)
    ensures DeleteFirst(c, v) == c[..i] + c[i + 1..]
  {
  }

  /** Every element other than the removed one survives, in order:
      the result is the prefix before the first match followed by the
      suffix after it, and the prefix contains no match. */
  lemma DeleteFirstSplits(c: seq<Value>, v: Value)
    requires v in c
    ensures exists i :: 0 <= i < |c| && c[i] == v && v !in c[..i] &&
                        DeleteFirst(c, v) == c[..i] + c[i + 1..]
  {
    var i := FirstMatch(c, v).value;
    assert c[i] == v && v !in c[..i] && DeleteFirst(c, v) == c[..i] + c[i + 1..];
  }
}
