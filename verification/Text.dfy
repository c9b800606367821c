/** Searching in strings, the way std::string does. */
module Text {
  import opened Wrappers

  /** Position of the first c, or the length. */
  function IndexOf(s: string, c: char): (n: nat)
    ensures n <= |s|
    ensures c !in s[..n] && (n < |s| ==> s[n] == c)
    ensures n == |s| <==> c !in s
  {
    if s == [] || s[0] == c then 0 else 1 + IndexOf(s[1..], c)
  }

  lemma {:induction false} IndexOfSplit(a: string, c: char, b: string)
    requires c !in a
    ensures IndexOf(a + [c] + b, c) == |a|
    decreases |a|
  {
    if a == [] {
      assert ([c] + b)[0] == c && [] + [c] + b == [c] + b;
    } else {
      assert (a + [c] + b)[1..] == a[1..] + [c] + b;
      assert (a + [c] + b)[0] == a[0] && a[0] in a;
      IndexOfSplit(a[1..], c, b);
    }
  }

  /** The parts around a character. */
  lemma Cut(a: string, c: char, b: string)
    ensures var s := a + [c] + b;
            |s| == |a| + 1 + |b| && s[..|a|] == a && s[|a|] == c && s[|a| + 1..] == b
  {
  }

  predicate OccursAt(text: string, pattern: string, k: nat) {
    k + |pattern| <= |text| && text[k..k + |pattern|] == pattern
  }

  /** std::string::find. */
  function Find(text: string, pattern: string): (r: Option<nat>)
    ensures r.Some? ==> OccursAt(text, pattern, r.value)
    decreases |text|
  {
    if pattern <= text then Some(0)
    else if text == [] then None
    else
      match Find(text[1..], pattern)
      case None => None
      case Some(n) =>
        assert text[n + 1..n + 1 + |pattern|] == text[1..][n..n + |pattern|];
        Some(n + 1)
  }

  lemma {:induction false} FindIsFirst(text: string, pattern: string, n: nat)
    requires OccursAt(text, pattern, n)
    requires forall k: nat | k < n :: !OccursAt(text, pattern, k)
    ensures Find(text, pattern) == Some(n)
    decreases n
  {
    assert pattern <= text <==> OccursAt(text, pattern, 0);
    if n > 0 {
      var rest := text[1..];
      forall k: nat | k + 1 + |pattern| <= |text| ensures OccursAt(rest, pattern, k) <==> OccursAt(text, pattern, k + 1) {
        assert rest[k..k + |pattern|] == text[k + 1..k + 1 + |pattern|];
      }
      assert OccursAt(rest, pattern, n - 1) <==> OccursAt(text, pattern, n - 1 + 1);
      forall k: nat | k < n - 1 ensures !OccursAt(rest, pattern, k) {
        assert OccursAt(rest, pattern, k) <==> OccursAt(text, pattern, k + 1);
      }
      FindIsFirst(rest, pattern, n - 1);
    }
  }
}
