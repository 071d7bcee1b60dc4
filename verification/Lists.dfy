/** The kernel's linked lists as sequences: no element is on a list twice, and unlinking takes it off. */
module Lists {

  ghost predicate NoDup<T(!new)>(s: seq<T>) { forall i, j :: 0 <= i < j < |s| ==> s[i] != s[j] }

  /** list_remove: unlinks x. */
  function Without<T(==, !new)>(s: seq<T>, x: T): (r: seq<T>)
    ensures NoDup(s) && x in s ==> NoDup(r) && |r| == |s| - 1
    ensures NoDup(s) ==> forall y :: y in r <==> y in s && y != x
  {
    if s == [] then []
    else if s[0] == x then s[1..]
    else
      var rest := Without(s[1..], x);
      assert forall i :: 0 <= i < |rest| ==> rest[i] in rest;
      [s[0]] + rest
  }
}
