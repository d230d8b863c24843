/** Joining and cutting strings at a separator, for the composite keys of the node daemon. */
module Text {
  import opened Addresses

  function Join(a: string, sep: char, b: string): string {
    a + [sep] + b
  }

  /** The parts before and after the first separator. */
  function Cut(s: string, sep: char): (r: Option<(string, string)>)
    ensures r.None? <==> sep !in s
    ensures r.Some? ==> s == Join(r.value.0, sep, r.value.1) && sep !in r.value.0
  {
    if s == [] then None
    else if s[0] == sep then
      assert s == Join([], sep, s[1..]);
      Some(("", s[1..]))
    else
      match Cut(s[1..], sep)
      case None => None
      case Some(p) =>
        assert s == [s[0]] + s[1..];
        assert s == Join([s[0]] + p.0, sep, p.1);
        Some(([s[0]] + p.0, p.1))
  }

  /** Cutting undoes joining exactly when the first part has no separator. */
  lemma {:induction false} CutJoin(a: string, sep: char, b: string)
    ensures Cut(Join(a, sep, b), sep) == Some((a, b)) <==> sep !in a
  {
    var s := Join(a, sep, b);
    if a == "" {
      assert s[0] == sep && s[1..] == b;
    } else {
      assert s[0] == a[0] && s[1..] == Join(a[1..], sep, b);
      CutJoin(a[1..], sep, b);
      assert a == [a[0]] + a[1..];
    }
  }
}
