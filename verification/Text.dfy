/** Comparing stored text, as SQLite's default collation does. */
module Text {
  /** Strictly before, character by character; a proper prefix comes first. */
  predicate Before(a: string, b: string) {
    if b == "" then false
    else if a == "" then true
    else if a[0] == b[0] then Before(a[1..], b[1..])
    else a[0] < b[0]
  }

  /** Text is in exactly one order. */
  lemma {:induction false} Trichotomy(a: string, b: string)
    ensures a == b <==> !Before(a, b) && !Before(b, a)
    ensures !(Before(a, b) && Before(b, a))
  {
    if a != "" && b != "" && a[0] == b[0] {
      Trichotomy(a[1..], b[1..]);
      assert a == [a[0]] + a[1..] && b == [b[0]] + b[1..];
    }
  }

  /** A common beginning does not matter. */
  lemma {:induction false} CommonStart(start: string, a: string, b: string)
    ensures Before(start + a, start + b) <==> Before(a, b)
  {
    if start == "" {
      assert start + a == a && start + b == b;
    } else {
      assert (start + a)[1..] == start[1..] + a && (start + b)[1..] == start[1..] + b;
      CommonStart(start[1..], a, b);
    }
  }

  /** Beginnings of equal length decide, unless they are the same. */
  lemma {:induction false} StartDecides(a: string, b: string, more: string, rest: string)
    requires |a| == |b|
    ensures Before(a + more, b + rest) <==> Before(a, b) || (a == b && Before(more, rest))
  {
    if a == "" {
      assert a + more == more && b + rest == rest;
    } else {
      assert (a + more)[1..] == a[1..] + more && (b + rest)[1..] == b[1..] + rest;
      StartDecides(a[1..], b[1..], more, rest);
      assert a == [a[0]] + a[1..] && b == [b[0]] + b[1..];
    }
  }
}
