/** Small datatypes shared by the models. */
module Common {
  datatype Option<+T> = None | Some(value: T)

  lemma SubsetSize<T>(a: set<T>, b: set<T>)
    requires a <= b
    ensures |a| <= |b|
  {
    assert b == a + (b - a);
  }

  /** A one-to-one function onto a set keeps the size. */
  lemma {:induction false} ImageSize<A, B>(s: set<A>, t: set<B>, f: A -> B)
    requires forall a :: a in s ==> f(a) in t
    requires forall a, b :: a in s && b in s && a != b ==> f(a) != f(b)
    requires forall y :: y in t ==> exists a :: a in s && f(a) == y
    ensures |s| == |t|
  {
    if s == {} {
      assert t == {};
    } else {
      var a :| a in s;
      ImageSize(s - {a}, t - {f(a)}, f);
    }
  }
}
