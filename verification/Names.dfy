/** Names in Python's string order, and the least of a list (sorted(names)[0]). */
module Names {
  /** Lexicographic order of strings. */
  predicate Leq(a: string, b: string) {
    a == "" || (b != "" && (a[0] < b[0] || (a[0] == b[0] && Leq(a[1..], b[1..]))))
  }

  lemma {:induction false} LeqTotal(a: string, b: string)
    ensures Leq(a, b) || Leq(b, a)
    ensures Leq(a, b) && Leq(b, a) ==> a == b
  {
    if a != "" && b != "" {
      LeqTotal(a[1..], b[1..]);
      assert a == [a[0]] + a[1..] && b == [b[0]] + b[1..];
    }
  }

  lemma {:induction false} LeqTransitive(a: string, b: string, c: string)
    requires Leq(a, b) && Leq(b, c)
    ensures Leq(a, c)
  {
    if a != "" && a[0] == b[0] == c[0] { LeqTransitive(a[1..], b[1..], c[1..]); }
  }

  method LeastName(names: seq<string>) returns (least: string)
    requires names != []
    ensures least in names && forall n | n in names :: Leq(least, n)
  {
    least := names[0];
    LeqTotal(least, least);
    for i := 1 to |names|
      invariant least in names && forall j | 0 <= j < i :: Leq(least, names[j])
    {
      LeqTotal(least, names[i]);
      if !Leq(least, names[i]) {
        forall j | 0 <= j < i ensures Leq(names[i], names[j]) { LeqTransitive(names[i], least, names[j]); }
        LeqTotal(names[i], names[i]);
        least := names[i];
      }
    }
  }
}
