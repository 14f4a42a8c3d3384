/** A list grown at its head holds what was inserted backwards. */
module ListOrder {

  function Backwards<T>(s: seq<T>): (r: seq<T>)
    ensures |r| == |s| && forall i :: 0 <= i < |s| ==> r[i] == s[|s| - 1 - i]
  {
    seq(|s|, i requires 0 <= i < |s| => s[|s| - 1 - i])
  }

  /** What is inserted last comes first. */
  lemma InsertedLast<T>(s: seq<T>, x: T)
    ensures Backwards(s + [x]) == [x] + Backwards(s)
  {
    var a, b := Backwards(s + [x]), [x] + Backwards(s);
    forall i | 0 <= i < |a|
      ensures a[i] == b[i]
    {
    }
  }

  lemma {:induction false} SameElements<T>(s: seq<T>)
    ensures multiset(Backwards(s)) == multiset(s)
  {
    if s != [] {
      var init, last := s[..|s| - 1], s[|s| - 1];
      assert s == init + [last];
      InsertedLast(init, last);
      SameElements(init);
    }
  }
}
